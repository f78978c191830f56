/** The directory scanners: objects that fill the packed buffer and iterate over it. */
module DirScanner {
  import opened Basics
  import opened FileNameOrder
  import opened DirScan

  const DOT: Name := [0x2e]
  const DOT_DOT: Name := [0x2e, 0x2e]

  predicate Keeps(name: Name, dots: bool, matches: Name -> bool) {
    (dots || (name != DOT && name != DOT_DOT)) && matches(name)
  }

  /** The directory entries that are listed, in the order the system returns them. */
  function Kept(entries: seq<Name>, dots: bool, matches: Name -> bool): seq<Name> {
    if entries == [] then []
    else
      var init, last := Kept(entries[..|entries| - 1], dots, matches), entries[|entries| - 1];
      if Keeps(last, dots, matches) then init + [last] else init
  }

  /** What is listed of a name by itself: "." and ".." only on request, and only names that match. */
  lemma KeptOne(name: Name, dots: bool, matches: Name -> bool)
    ensures Kept([name], dots, matches) ==
              if (dots || (name != [0x2e] && name != [0x2e, 0x2e])) && matches(name) then [name] else []
  {
    assert [name][..0] == [];
  }

  /** An entry is listed or not whatever the others are, and the order stays. */
  lemma {:induction false} KeptAppend(a: seq<Name>, b: seq<Name>, dots: bool, matches: Name -> bool)
    ensures Kept(a + b, dots, matches) == Kept(a, dots, matches) + Kept(b, dots, matches)
    decreases |b|
  {
    if b == [] {
      assert a + b == a;
    } else {
      var init := b[..|b| - 1];
      assert (a + b)[..|a + b| - 1] == a + init;
      KeptAppend(a, init, dots, matches);
    }
  }

  const NOSORT: bv32 := 1
  const WITH_DOTS: bv32 := 2
  const USE_WILDCARD: bv32 := 0x10
  const SORT_DIRS: bv32 := 0x200

  /** The filter that the flags ask for. */
  function Filter(flags: bv32, wildcard: Name -> bool): Name -> bool {
    (name: Name) => flags & USE_WILDCARD == 0 || wildcard(name)
  }

  /** The entries that are listed under given flags. */
  function Listed(entries: seq<Name>, flags: bv32, wildcard: Name -> bool): seq<Name> {
    Kept(entries, flags & WITH_DOTS != 0, Filter(flags, wildcard))
  }

  /** How often a name is listed: as often as the system returns it, or never. */
  lemma {:induction false} ListedIff(entries: seq<Name>, flags: bv32, wildcard: Name -> bool, name: Name)
    ensures multiset(Listed(entries, flags, wildcard))[name] ==
              if (flags & 2 != 0 || (name != [0x2e] && name != [0x2e, 0x2e])) && (flags & 0x10 == 0 || wildcard(name))
              then multiset(entries)[name] else 0
    decreases |entries|
  {
    if entries != [] {
      var init, last := entries[..|entries| - 1], entries[|entries| - 1];
      ListedIff(init, flags, wildcard, name);
      assert entries == init + [last];
    }
  }

  lemma NoSortAdded(flags: bv32)
    ensures (flags | NOSORT) & NOSORT != 0
    ensures (flags | NOSORT) & WITH_DOTS == flags & WITH_DOTS && (flags | NOSORT) & USE_WILDCARD == flags & USE_WILDCARD
  {
  }

  /** Not sorting lists the same entries. */
  lemma ListedUnsorted(entries: seq<Name>, flags: bv32, wildcard: Name -> bool)
    ensures Listed(entries, flags | NOSORT, wildcard) == Listed(entries, flags, wildcard)
  {
    NoSortAdded(flags);
    SameKept(entries, flags & WITH_DOTS != 0, Filter(flags | NOSORT, wildcard), Filter(flags, wildcard));
  }

  lemma {:induction false} SameKept(entries: seq<Name>, dots: bool, f: Name -> bool, g: Name -> bool)
    requires forall name :: f(name) == g(name)
    ensures Kept(entries, dots, f) == Kept(entries, dots, g)
    decreases |entries|
  {
    if entries != [] {
      SameKept(entries[..|entries| - 1], dots, f, g);
    }
  }

  function Marked(kept: seq<Name>, isDir: Name -> bool): seq<Entry> {
    seq(|kept|, i requires 0 <= i < |kept| => Entry(kept[i], isDir(kept[i])))
  }

  lemma {:induction false} KeptIsSmaller(entries: seq<Name>, dots: bool, matches: Name -> bool)
    requires forall i :: 0 <= i < |entries| ==> 0 !in entries[i]
    ensures |Pack(Kept(entries, dots, matches))| <= |Pack(entries)|
    ensures var kept := Kept(entries, dots, matches); forall i :: 0 <= i < |kept| ==> 0 !in kept[i]
    decreases |entries|
  {
    if entries != [] {
      var n := |entries| - 1;
      KeptIsSmaller(entries[..n], dots, matches);
      var init := Kept(entries[..n], dots, matches);
      assert (init + [entries[n]])[..|init|] == init;
    }
  }

  lemma {:induction false} PackGrows(entries: seq<Name>, n: nat)
    requires n <= |entries|
    ensures |Pack(entries[..n])| <= |Pack(entries)|
    decreases |entries|
  {
    if n < |entries| {
      PackGrows(entries[..|entries| - 1], n);
      assert entries[..|entries| - 1][..n] == entries[..n];
    } else {
      assert entries[..n] == entries;
    }
  }

  lemma PackNext(kept: seq<Name>, name: Name)
    ensures Pack(kept + [name]) == Pack(kept) + name + [0]
    ensures Starts(kept + [name]) == Starts(kept) + [|Pack(kept)|]
  {
  }

  /** The names and the offsets of the entries that are kept. */
  predicate Collected(entries: seq<Name>, dots: bool, matches: Name -> bool, buf: seq<Byte>, offs: seq<nat>) {
    buf == Pack(Kept(entries, dots, matches)) && offs == Starts(Kept(entries, dots, matches))
  }

  /** The buffer stays small, and what one more entry adds to it. */
  lemma CollectNext(entries: seq<Name>, i: nat, dots: bool, matches: Name -> bool, buf: seq<Byte>, offs: seq<nat>)
    requires i < |entries| && |Pack(entries)| < WORD && forall j :: 0 <= j < |entries| ==> 0 !in entries[j]
    requires Collected(entries[..i], dots, matches, buf, offs)
    ensures |buf| < WORD
    ensures if Keeps(entries[i], dots, matches)
            then Collected(entries[..i + 1], dots, matches, buf + entries[i] + [0], offs + [|buf|])
            else Collected(entries[..i + 1], dots, matches, buf, offs)
  {
    assert entries[..i + 1][..i] == entries[..i];
    PackNext(Kept(entries[..i], dots, matches), entries[i]);
    PackGrows(entries, i);
    KeptIsSmaller(entries[..i], dots, matches);
  }

  method CollectOne(buf: seq<Byte>, offs: seq<nat>, name: Name, dots: bool, matches: Name -> bool)
    returns (buf': seq<Byte>, offs': seq<nat>)
    requires |buf| < WORD
    ensures buf' == if Keeps(name, dots, matches) then buf + name + [0] else buf
    ensures offs' == if Keeps(name, dots, matches) then offs + [|buf|] else offs
  {
    if !dots && (name == DOT || name == DOT_DOT) {
      return buf, offs;
    }
    if !matches(name) {
      return buf, offs;
    }
    return buf + name + [0], offs + [|buf| % WORD];
  }

  /** The collection loop of `ffdirscan_open`. */
  method Collect(entries: seq<Name>, dots: bool, matches: Name -> bool) returns (buf: seq<Byte>, offs: seq<nat>)
    requires |Pack(entries)| < WORD && forall i :: 0 <= i < |entries| ==> 0 !in entries[i]
    ensures buf == Pack(Kept(entries, dots, matches)) && offs == Starts(Kept(entries, dots, matches))
  {
    buf, offs := [], [];
    for i := 0 to |entries|
      invariant Collected(entries[..i], dots, matches, buf, offs)
    {
      CollectNext(entries, i, dots, matches, buf, offs);
      buf, offs := CollectOne(buf, offs, entries[i], dots, matches);
    }
    assert entries[..|entries|] == entries;
  }

  /** The offsets stored from `index` on. */
  method ReadIndex(buf: seq<Byte>, index: nat, ghost offs: seq<nat>) returns (r: seq<nat>)
    requires index <= |buf| && buf[index..] == Words(offs) && forall i :: 0 <= i < |offs| ==> offs[i] < WORD
    ensures r == offs
  {
    r := [];
    var pos := index;
    while pos != |buf|
      invariant index <= pos <= |buf| && pos == index + 4 * |r| && |r| <= |offs| && r == offs[..|r|]
      decreases |buf| - pos
    {
      IndexWord(buf, index, offs, |r|);
      r := r + [WordAt(buf, pos)];
      pos := pos + 4;
    }
  }

  lemma IndexWord(buf: seq<Byte>, index: nat, offs: seq<nat>, i: nat)
    requires index <= |buf| && buf[index..] == Words(offs) && i < |offs| && offs[i] < WORD
    ensures index + 4 * i + 4 <= |buf| && WordAt(buf, index + 4 * i) == offs[i]
  {
    WordsAt(offs, i);
    WordInSlice(buf, index, 4 * i);
  }

  lemma StoredName(buf: seq<Byte>, index: nat, off: nat)
    requires index <= |buf| && Terminated(buf[..index], off)
    ensures NameAt(buf, off) == NameAt(buf[..index], off)
  {
    assert buf == buf[..index] + buf[index..];
    NameAtExtends(buf[..index], buf[index..], off);
  }

  /** What reading the `i`-th word and following it yields, with bit 31 taken as the mark. */
  lemma StoredEntry(buf: seq<Byte>, index: nat, offs: seq<nat>, i: nat)
    requires index <= |buf| && buf[index..] == Words(offs) && i < |offs| && Points(buf[..index], offs)
    ensures index + 4 * i + 4 <= |buf| && WordAt(buf, index + 4 * i) == offs[i]
    ensures View(buf[..index], offs)[i] == Entry(NameAt(buf, Unmark(offs[i])), offs[i] >= HALF)
  {
    IndexWord(buf, index, offs, i);
    StoredName(buf, index, Unmark(offs[i]));
  }

  lemma StoredWord(buf: seq<Byte>, index: nat, offs: seq<nat>, i: nat, n: nat)
    requires index <= |buf| && buf[index..] == Words(offs) && i < |offs|
    ensures var at := index + 4 * i;
            && at + 4 <= |buf|
            && var buf' := buf[..at] + Word(n) + buf[at + 4..];
               |buf'| == |buf| && buf'[..index] == buf[..index] && buf'[index..] == Words(offs[i := n])
  {
    var w := Words(offs);
    WordsUpdate(offs, i, n);
    Splice(buf[..index], w[..4 * i], w[4 * i..4 * i + 4], w[4 * i + 4..], Word(n));
    assert w == w[..4 * i] + w[4 * i..4 * i + 4] + w[4 * i + 4..];
    assert buf == buf[..index] + w;
  }

  lemma Splice(p: seq<Byte>, u: seq<Byte>, v: seq<Byte>, z: seq<Byte>, v': seq<Byte>)
    ensures var buf, at := p + (u + v + z), |p| + |u|;
            && buf[..at] == p + u && buf[at + |v|..] == z
            && (p + u + v' + z)[..|p|] == p && (p + u + v' + z)[|p|..] == u + v' + z
  {
  }

  /** Marking an offset marks the entry it denotes, and changes nothing else. */
  lemma MarkedView(pack: seq<Byte>, offs: seq<nat>, i: nat)
    requires Points(pack, offs) && i < |offs| && offs[i] < HALF
    ensures Points(pack, offs[i := offs[i] + HALF])
    ensures View(pack, offs[i := offs[i] + HALF]) == View(pack, offs)[i := View(pack, offs)[i].(isDir := true)]
  {
  }

  /** The listing while it is being marked: the first `n` entries are done. */
  function MarkedTo(kept: seq<Name>, isDir: Name -> bool, n: nat): seq<Entry> {
    seq(|kept|, i requires 0 <= i < |kept| => Entry(kept[i], i < n && isDir(kept[i])))
  }

  lemma MarkedNext(kept: seq<Name>, isDir: Name -> bool, n: nat)
    requires n < |kept|
    ensures var list := MarkedTo(kept, isDir, n);
            MarkedTo(kept, isDir, n + 1) == if isDir(kept[n]) then list[n := list[n].(isDir := true)] else list
  {
  }

  /** The buffer holds the names, and from `index` on the offsets. */
  ghost predicate Stored(buf: seq<Byte>, index: nat, offs: seq<nat>) {
    index <= |buf| && buf[index..] == Words(offs) && Points(buf[..index], offs)
  }

  ghost function ListingOf(buf: seq<Byte>, index: nat, offs: seq<nat>): seq<Entry>
    requires index <= |buf|
  {
    View(buf[..index], offs)
  }

  /** Sets bit 31, which is clear, of the word at `at`: the `i`-th entry is marked and no name changes. */
  method MarkWord(buf: seq<Byte>, at: nat, ghost index: nat, ghost offs: seq<nat>, ghost i: nat)
    returns (buf': seq<Byte>)
    requires Stored(buf, index, offs) && i < |offs| && offs[i] < HALF && at == index + 4 * i
    ensures |buf'| == |buf| && Stored(buf', index, offs[i := offs[i] + HALF])
    ensures ListingOf(buf', index, offs[i := offs[i] + HALF])
         == ListingOf(buf, index, offs)[i := ListingOf(buf, index, offs)[i].(isDir := true)]
  {
    StoredEntry(buf, index, offs, i);
    var off := WordAt(buf, at) + HALF;
    buf' := buf[..at] + Word(off) + buf[at + 4..];
    WordIsMarked(buf, buf', index, offs, i);
  }

  lemma WordIsMarked(buf: seq<Byte>, buf': seq<Byte>, index: nat, offs: seq<nat>, i: nat)
    requires Stored(buf, index, offs) && i < |offs| && offs[i] < HALF
    requires index + 4 * i + 4 <= |buf|
    requires buf' == buf[..index + 4 * i] + Word(offs[i] + HALF) + buf[index + 4 * i + 4..]
    ensures |buf'| == |buf| && Stored(buf', index, offs[i := offs[i] + HALF])
    ensures ListingOf(buf', index, offs[i := offs[i] + HALF])
         == ListingOf(buf, index, offs)[i := ListingOf(buf, index, offs)[i].(isDir := true)]
  {
    StoredWord(buf, index, offs, i, offs[i] + HALF);
    MarkedView(buf[..index], offs, i);
  }

  lemma StoredPlainName(buf: seq<Byte>, index: nat, offs: seq<nat>, i: nat)
    requires index <= |buf| && buf[index..] == Words(offs) && Points(buf[..index], offs)
    requires i < |offs| && offs[i] < HALF
    ensures index + 4 * i + 4 <= |buf| && WordAt(buf, index + 4 * i) == offs[i]
    ensures NameAt(buf, offs[i]) == View(buf[..index], offs)[i].name
  {
    StoredEntry(buf, index, offs, i);
  }

  method SortedOffsets(buf: seq<Byte>, found: seq<nat>, order: Order, ffsort: Sorter) returns (sorted: seq<nat>)
    requires Sorts(ffsort) && Points(buf, found)
    ensures |sorted| == |found| && Points(buf, sorted) && InOrder(order, View(buf, sorted))
    ensures multiset(View(buf, sorted)) == multiset(View(buf, found))
    ensures (forall i :: 0 <= i < |found| ==> found[i] < HALF) ==> forall i :: 0 <= i < |sorted| ==> sorted[i] < HALF
  {
    SortedView(ffsort, buf, found, order);
    sorted := ffsort(found, OffsetOrder(buf, order));
    if forall i :: 0 <= i < |found| ==> found[i] < HALF {
      UnmarkedPermutes(found, sorted, buf);
    }
  }

  /** The names and offsets of the kept entries, sorted unless that is not wanted. */
  method Gather(entries: seq<Name>, dots: bool, matches: Name -> bool, noSort: bool, icase: bool, ffsort: Sorter)
    returns (buf: seq<Byte>, found: seq<nat>)
    requires Sorts(ffsort) && |Pack(entries)| < HALF && forall i :: 0 <= i < |entries| ==> 0 !in entries[i]
    ensures buf == Pack(Kept(entries, dots, matches))
    ensures Points(buf, found) && |found| == |Kept(entries, dots, matches)|
    ensures forall i :: 0 <= i < |found| ==> found[i] < HALF
    ensures multiset(View(buf, found)) == multiset(Plain(Kept(entries, dots, matches)))
    ensures if noSort then View(buf, found) == Plain(Kept(entries, dots, matches))
            else InOrder(if icase then ByFoldedName else ByName, View(buf, found))
  {
    buf, found := Collect(entries, dots, matches);
    ghost var kept := Kept(entries, dots, matches);
    KeptIsSmaller(entries, dots, matches);
    PackedView(kept);
    UnmarkedStarts(buf, found, kept);
    if !noSort {
      found := SortedOffsets(buf, found, if icase then ByFoldedName else ByName, ffsort);
    }
  }

  /** What fails: nothing, something before the index is stored, storing it, or something after it. */
  datatype Failure = Nothing | Early | AtIndex | Later

  class Scanner {
    var names: seq<Byte>
    var len: nat
    var index: nat
    var cur: nat
    ghost var offs: seq<nat>
    ghost var pos: nat

    ghost predicate Valid()
      reads this
    {
      && Stored(names, index, offs) && len == |names|
      && pos <= |offs| && cur == index + 4 * pos
    }

    /** What iterating from the start yields. */
    ghost function Listing(): seq<Entry>
      requires Valid()
      reads this
    {
      ListingOf(names, index, offs)
    }

    /** No entry from the current one on is marked as a directory. */
    ghost predicate UnmarkedAhead()
      reads this
    {
      forall i :: pos <= i < |offs| ==> offs[i] < HALF
    }

    constructor ()
      ensures Valid() && Listing() == []
    {
      names, len, index, cur := [], 0, 0, 0;
      offs, pos := [], 0;
    }

    /**
      `ffdirscan_open`: every listed name once, as returned by the system or in the order of the
      comparator. If opening, reading or an allocation fails, there is nothing new to iterate over.
     */
    method Open(entries: seq<Name>, flags: bv32, wildcard: Name -> bool, icase: bool,
                ffsort: Sorter, failure: Failure) returns (ok: bool)
      requires Sorts(ffsort) && |Pack(entries)| < HALF
      requires forall i :: 0 <= i < |entries| ==> 0 !in entries[i]
      modifies this
      ensures ok <==> failure != Early && !(failure == AtIndex && Listed(entries, flags, wildcard) != [])
      ensures !ok ==> names == old(names) && len == old(len) && cur == old(cur)
      ensures !ok ==> index == if failure == Early then old(index) else |Pack(Listed(entries, flags, wildcard))|
      ensures ok ==> Valid() && pos == 0 && UnmarkedAhead()
      ensures ok && flags & 1 != 0 ==> Listing() == Plain(Listed(entries, flags, wildcard))
      ensures ok ==> multiset(Listing()) == multiset(Plain(Listed(entries, flags, wildcard)))
      ensures ok && flags & 1 == 0 ==> InOrder(if icase then ByFoldedName else ByName, Listing())
    {
      ok := Fill(entries, flags & WITH_DOTS != 0, Filter(flags, wildcard), flags & NOSORT != 0, icase, ffsort, failure);
    }

    /** The opening, with the flags decoded. */
    method Fill(entries: seq<Name>, dots: bool, matches: Name -> bool, noSort: bool, icase: bool,
                ffsort: Sorter, failure: Failure) returns (ok: bool)
      requires Sorts(ffsort) && |Pack(entries)| < HALF
      requires forall i :: 0 <= i < |entries| ==> 0 !in entries[i]
      modifies this
      ensures ok <==> failure != Early && !(failure == AtIndex && Kept(entries, dots, matches) != [])
      ensures !ok ==> names == old(names) && len == old(len) && cur == old(cur)
      ensures !ok ==> index == if failure == Early then old(index) else |Pack(Kept(entries, dots, matches))|
      ensures ok ==> Valid() && pos == 0 && UnmarkedAhead()
      ensures ok && noSort ==> Listing() == Plain(Kept(entries, dots, matches))
      ensures ok ==> multiset(Listing()) == multiset(Plain(Kept(entries, dots, matches)))
      ensures ok && !noSort ==> InOrder(if icase then ByFoldedName else ByName, Listing())
    {
      if failure == Early {
        return false;
      }
      var buf, found := Gather(entries, dots, matches, noSort, icase, ffsort);
      index := |buf|;
      if |found| != 0 && failure == AtIndex {
        return false;
      }
      Store(buf, found);
      return true;
    }

    method Store(buf: seq<Byte>, found: seq<nat>)
      requires Points(buf, found) && index == |buf|
      modifies this
      ensures Valid() && pos == 0 && offs == found && Listing() == View(buf, found)
    {
      names := buf + Words(found);
      len := |names|;
      cur := index;
      offs, pos := found, 0;
      assert names[..index] == buf && names[index..] == Words(found);
    }

    method Next() returns (r: Option<Name>)
      requires Valid() && UnmarkedAhead()
      modifies this`cur, this`pos
      ensures Valid() && UnmarkedAhead() && Listing() == old(Listing())
      ensures old(pos) == |Listing()| ==> r == None && pos == old(pos)
      ensures old(pos) < |Listing()| ==>
                r == Some(Listing()[old(pos)].name) && pos == old(pos) + 1 && offs[old(pos)] < HALF
    {
      if cur == len {
        return None;
      }
      var name := NameIn(cur, pos);
      cur := cur + 4;
      pos := pos + 1;
      return Some(name);
    }

    method NameIn(at: nat, ghost i: nat) returns (name: Name)
      requires Valid() && i < |offs| && at == index + 4 * i && offs[i] < HALF
      ensures name == Listing()[i].name
    {
      StoredPlainName(names, index, offs, i);
      var off := WordAt(names, at);
      return NameAt(names, off);
    }

    method Reset()
      requires Valid()
      modifies this`cur, this`pos
      ensures Valid() && Listing() == old(Listing()) && pos == 0
    {
      cur, pos := index, 0;
    }

    /** Marks the entry that `Next` has just returned. */
    method MarkLast()
      requires Valid() && UnmarkedAhead() && pos > 0 && offs[pos - 1] < HALF
      modifies this`names, this`offs
      ensures Valid() && UnmarkedAhead()
      ensures Listing() == old(Listing())[pos - 1 := old(Listing())[pos - 1].(isDir := true)]
    {
      ghost var i := pos - 1;
      names := MarkWord(names, cur - 4, index, offs, i);
      offs := offs[i := offs[i] + HALF];
    }

    /**
      `ffdirscanx_open`: every listed name once, marked if it is a directory, in the order of the
      comparator, with directories first if that is asked for. On failure the names are freed.
     */
    method OpenExtended(entries: seq<Name>, flags: bv32, wildcard: Name -> bool, icase: bool, isDir: Name -> bool,
                        ffsort: Sorter, failure: Failure) returns (ok: bool)
      requires Sorts(ffsort) && |Pack(entries)| < HALF
      requires forall i :: 0 <= i < |entries| ==> 0 !in entries[i]
      modifies this
      ensures ok <==> failure == Nothing || (failure == AtIndex && Listed(entries, flags, wildcard) == [])
      ensures !ok ==> names == []
      ensures ok ==> Valid() && pos == 0 && InOrder(if flags & 0x200 != 0 then DirsFirst else ByName, Listing())
      ensures ok ==> multiset(Listing()) == multiset(Marked(Listed(entries, flags, wildcard), isDir))
      ensures ok ==> forall i :: 0 <= i < |Listing()| ==> (Listing()[i].isDir <==> isDir(Listing()[i].name))
    {
      NoSortAdded(flags);
      ListedUnsorted(entries, flags, wildcard);
      ok := Open(entries, flags | NOSORT, wildcard, icase, ffsort, failure);
      if !ok || failure == Later {
        names := [];
        return false;
      }
      MarkAll(Listed(entries, flags, wildcard), isDir);
      Sort(if flags & SORT_DIRS != 0 then DirsFirst else ByName, ffsort);
      MarksAreRight(Listing(), Listed(entries, flags, wildcard), isDir);
    }

    /** The loop that marks the directories. */
    method MarkAll(ghost kept: seq<Name>, isDir: Name -> bool)
      requires Valid() && UnmarkedAhead() && pos == 0 && Listing() == Plain(kept)
      modifies this
      ensures Valid() && Listing() == Marked(kept, isDir)
    {
      assert MarkedTo(kept, isDir, 0) == Plain(kept);
      while true
        invariant Valid() && UnmarkedAhead()
        invariant Listing() == MarkedTo(kept, isDir, pos)
        decreases |offs| - pos
      {
        ghost var at := pos;
        var name := Next();
        if name == None {
          break;
        }
        MarkedNext(kept, isDir, at);
        if isDir(name.value) {
          MarkLast();
        }
      }
      assert Listing() == Marked(kept, isDir);
    }

    method Sort(order: Order, ffsort: Sorter)
      requires Valid() && Sorts(ffsort)
      modifies this
      ensures Valid() && pos == 0
      ensures multiset(Listing()) == multiset(old(Listing())) && InOrder(order, Listing())
    {
      var pack := names[..index];
      cur, pos := index, 0;
      var stored := ReadIndex(names, index, offs);
      stored := SortedOffsets(pack, stored, order, ffsort);
      names := pack + Words(stored);
      offs := stored;
      assert names[..index] == pack && names[index..] == Words(stored);
    }

    method NextExtended() returns (r: Option<Entry>)
      requires Valid()
      modifies this`cur, this`pos
      ensures Valid() && Listing() == old(Listing())
      ensures old(pos) == |Listing()| ==> r == None && pos == old(pos)
      ensures old(pos) < |Listing()| ==> r == Some(Listing()[old(pos)]) && pos == old(pos) + 1
    {
      if cur == len {
        return None;
      }
      var e := EntryIn(cur, pos);
      cur := cur + 4;
      pos := pos + 1;
      return Some(e);
    }

    /** The entry denoted by the word at `at`: bit 31 marks it, and never changes its name. */
    method EntryIn(at: nat, ghost i: nat) returns (e: Entry)
      requires Valid() && i < |offs| && at == index + 4 * i
      ensures e == Listing()[i]
    {
      StoredEntry(names, index, offs, i);
      var off := WordAt(names, at);
      return Entry(NameAt(names, Unmark(off)), off >= HALF);
    }

    /**
      `ffdirscanx_at`: agrees with the `i`-th call of `NextExtended` wherever its position fits into 32 bits;
      otherwise the position is cut and whatever is there is taken for an offset.
     */
    method At(i: nat) returns (r: Option<Entry>)
      requires Valid() && i <= |Listing()| && Position(i) + (if Position(i) == len then 0 else 4) <= len
      ensures index + 4 * i < WORD ==> r == if i < |Listing()| then Some(Listing()[i]) else None
      ensures index + 4 * i >= WORD && Position(i) < len ==> r == Some(EntryAt(names, WordAt(names, Position(i))))
    {
      var at := Position(i);
      if at == len {
        return None;
      }
      if at == index + 4 * i {
        ListedAt(i);
      }
      return Some(EntryAt(names, WordAt(names, at)));
    }

    lemma ListedAt(i: nat)
      requires Valid() && i < |offs|
      ensures index + 4 * i + 4 <= |names| && EntryAt(names, WordAt(names, index + 4 * i)) == Listing()[i]
    {
      StoredEntry(names, index, offs, i);
    }

    /** Where the offset of the `i`-th name is read, by 32-bit arithmetic. */
    function Position(i: nat): nat
      reads this
    {
      (index + 4 * i) % WORD
    }
  }

  lemma MarksAreRight(list: seq<Entry>, kept: seq<Name>, isDir: Name -> bool)
    requires multiset(list) == multiset(Marked(kept, isDir))
    ensures forall i :: 0 <= i < |list| ==> (list[i].isDir <==> isDir(list[i].name))
  {
    forall i | 0 <= i < |list|
      ensures list[i].isDir <==> isDir(list[i].name)
    {
      assert list[i] in multiset(list);
      assert list[i] in multiset(Marked(kept, isDir));
      var k :| 0 <= k < |kept| && Marked(kept, isDir)[k] == list[i];
    }
  }

  lemma UnmarkedStarts(pack: seq<Byte>, offs: seq<nat>, kept: seq<Name>)
    requires |offs| == |kept| && View(pack, offs) == Plain(kept)
    ensures forall i :: 0 <= i < |offs| ==> offs[i] < HALF
  {
    forall i | 0 <= i < |offs|
      ensures offs[i] < HALF
    {
      assert View(pack, offs)[i] == Plain(kept)[i];
    }
  }

  lemma UnmarkedPermutes(a: seq<nat>, b: seq<nat>, pack: seq<Byte>)
    requires multiset(View(pack, a)) == multiset(View(pack, b))
    requires forall i :: 0 <= i < |a| ==> a[i] < HALF
    ensures forall i :: 0 <= i < |b| ==> b[i] < HALF
  {
    forall i | 0 <= i < |b|
      ensures b[i] < HALF
    {
      assert View(pack, b)[i] in multiset(View(pack, b));
      assert View(pack, b)[i] in multiset(View(pack, a));
      var k :| 0 <= k < |a| && View(pack, a)[k] == View(pack, b)[i];
    }
  }
}
