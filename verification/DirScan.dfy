/**
  The packed directory listing: one buffer that holds the names, each with its NUL, followed by their
  offsets as 32-bit words. The extended scanner marks directories in bit 31 of the offsets.
 */
module DirScan {
  import opened FileNameOrder

  const WORD := 0x1_0000_0000
  const HALF := 0x8000_0000

  // ---- Words in a byte buffer ----

  /** A 32-bit word in memory; higher bits are cut off. */
  function Word(n: nat): (w: seq<Byte>)
    ensures |w| == 4
  {
    [n % 256, n / 256 % 256, n / 65536 % 256, n / 16777216 % 256]
  }

  function WordAt(buf: seq<Byte>, pos: nat): nat
    requires pos + 4 <= |buf|
  {
    var b0: int, b1: int, b2: int, b3: int := buf[pos], buf[pos + 1], buf[pos + 2], buf[pos + 3];
    b0 + 256 * b1 + 65536 * b2 + 16777216 * b3
  }

  lemma Digits(n: nat)
    requires n < WORD
    ensures n % 256 + 256 * (n / 256 % 256) + 65536 * (n / 65536 % 256) + 16777216 * (n / 16777216 % 256) == n
  {
    var a := n / 256;
    var b := a / 256;
    assert n / 65536 == b && n / 16777216 == b / 256;
  }

  lemma WordRoundTrip(n: nat, rest: seq<Byte>)
    requires n < WORD
    ensures WordAt(Word(n) + rest, 0) == n
  {
    Digits(n);
  }

  /** A word may be read through any slice that contains it. */
  lemma WordInSlice(buf: seq<Byte>, from: nat, pos: nat)
    requires from <= |buf| && from + pos + 4 <= |buf|
    ensures WordAt(buf[from..], pos) == WordAt(buf, from + pos)
  {
  }

  function Words(offs: seq<nat>): (w: seq<Byte>)
    ensures |w| == 4 * |offs|
  {
    if offs == [] then [] else Word(offs[0]) + Words(offs[1..])
  }

  lemma {:induction false} WordsAt(offs: seq<nat>, i: nat)
    requires i < |offs| && offs[i] < WORD
    ensures WordAt(Words(offs), 4 * i) == offs[i]
  {
    if i == 0 {
      WordRoundTrip(offs[0], Words(offs[1..]));
    } else {
      WordsAt(offs[1..], i - 1);
      assert Words(offs)[4..] == Words(offs[1..]);
      WordInSlice(Words(offs), 4, 4 * (i - 1));
    }
  }

  lemma WordsCons(n: nat, rest: seq<nat>)
    ensures Words([n] + rest) == Word(n) + Words(rest)
  {
    assert ([n] + rest)[1..] == rest;
  }

  lemma {:induction false} WordsConcat(a: seq<nat>, b: seq<nat>)
    ensures Words(a + b) == Words(a) + Words(b)
  {
    if a == [] {
      assert a + b == b;
    } else {
      assert a + b == [a[0]] + (a[1..] + b);
      WordsCons(a[0], a[1..] + b);
      WordsConcat(a[1..], b);
    }
  }

  /** Overwriting the `i`-th word in the buffer is overwriting the `i`-th offset. */
  lemma WordsUpdate(offs: seq<nat>, i: nat, n: nat)
    requires i < |offs|
    ensures Words(offs[i := n]) == Words(offs)[..4 * i] + Word(n) + Words(offs)[4 * i + 4..]
  {
    var a, x, b := offs[..i], offs[i], offs[i + 1..];
    SplitAt(offs, i, n);
    WordsAround(a, n, b);
    WordsAround(a, x, b);
    Around(Words(a), Word(x), Words(b));
  }

  lemma SplitAt(offs: seq<nat>, i: nat, n: nat)
    requires i < |offs|
    ensures offs == offs[..i] + ([offs[i]] + offs[i + 1..])
    ensures offs[i := n] == offs[..i] + ([n] + offs[i + 1..])
  {
  }

  lemma WordsAround(a: seq<nat>, n: nat, b: seq<nat>)
    ensures Words(a + ([n] + b)) == Words(a) + Word(n) + Words(b)
  {
    WordsConcat(a, [n] + b);
    WordsCons(n, b);
  }

  lemma Around(u: seq<Byte>, w: seq<Byte>, v: seq<Byte>)
    ensures (u + w + v)[..|u|] == u && (u + w + v)[|u| + |w|..] == v
  {
  }

  // ---- Names in a byte buffer ----

  function Pack(kept: seq<Name>): seq<Byte> {
    if kept == [] then [] else Pack(kept[..|kept| - 1]) + kept[|kept| - 1] + [0]
  }

  function Starts(kept: seq<Name>): seq<nat>
  {
    if kept == [] then [] else Starts(kept[..|kept| - 1]) + [|Pack(kept[..|kept| - 1])|]
  }

  /** A 32-bit offset with bit 31 cleared. */
  function Unmark(o: nat): nat {
    if o >= HALF then o - HALF else o
  }

  /** An entry of the listing: a name and the mark for a directory. */
  datatype Entry = Entry(name: Name, isDir: bool)

  function EntryAt(pack: seq<Byte>, o: nat): Entry {
    Entry(NameAt(pack, Unmark(o)), o >= HALF)
  }

  /** The entries that the offsets denote. */
  function View(pack: seq<Byte>, offs: seq<nat>): seq<Entry> {
    seq(|offs|, i requires 0 <= i < |offs| => EntryAt(pack, offs[i]))
  }

  ghost predicate Points(pack: seq<Byte>, offs: seq<nat>) {
    forall i :: 0 <= i < |offs| ==> offs[i] < WORD && Terminated(pack, Unmark(offs[i]))
  }

  lemma {:induction false} NameAtExtends(pack: seq<Byte>, more: seq<Byte>, off: nat)
    requires Terminated(pack, off)
    ensures NameAt(pack + more, off) == NameAt(pack, off) && Terminated(pack + more, off)
    decreases |pack| - off
  {
    var end :| off <= end < |pack| && pack[end] == 0;
    assert (pack + more)[end] == 0;
    if pack[off] != 0 {
      NameAtExtends(pack, more, off + 1);
    }
  }

  function Plain(kept: seq<Name>): seq<Entry> {
    seq(|kept|, i requires 0 <= i < |kept| => Entry(kept[i], false))
  }

  lemma {:induction false} EntryPacked(kept: seq<Name>, i: nat)
    requires i < |kept| && forall j :: 0 <= j < |kept| ==> 0 !in kept[j]
    ensures |Starts(kept)| == |kept|
    ensures var pack, off := Pack(kept), Starts(kept)[i];
            off < |pack| && Terminated(pack, off) && NameAt(pack, off) == kept[i]
    decreases |kept|
  {
    var n := |kept| - 1;
    var init, last, pack := kept[..n], kept[n], Pack(kept);
    assert pack == Pack(init) + (last + [0]);
    if n > 0 {
      EntryPacked(init, if i < n then i else 0);
    }
    if i < n {
      NameAtExtends(Pack(init), last + [0], Starts(init)[i]);
    } else {
      var off := |Pack(init)|;
      assert pack[off..off + |last|] == last && pack[off + |last|] == 0;
      NameAtIs(pack, off, last);
    }
  }

  lemma ViewOfNames(pack: seq<Byte>, offs: seq<nat>, kept: seq<Name>)
    requires |offs| == |kept|
    requires forall i :: 0 <= i < |kept| ==>
               offs[i] < HALF && Terminated(pack, offs[i]) && NameAt(pack, offs[i]) == kept[i]
    ensures Points(pack, offs) && View(pack, offs) == Plain(kept)
  {
  }

  /** The offsets recorded while packing denote the packed names. */
  lemma PackedView(kept: seq<Name>)
    requires forall i :: 0 <= i < |kept| ==> 0 !in kept[i]
    requires |Pack(kept)| < HALF
    ensures |Starts(kept)| == |kept| && Points(Pack(kept), Starts(kept))
    ensures View(Pack(kept), Starts(kept)) == Plain(kept)
  {
    var pack, offs := Pack(kept), Starts(kept);
    if kept != [] {
      EntryPacked(kept, 0);
    }
    forall i | 0 <= i < |kept|
      ensures offs[i] < HALF && Terminated(pack, offs[i]) && NameAt(pack, offs[i]) == kept[i]
    {
      EntryPacked(kept, i);
    }
    ViewOfNames(pack, offs, kept);
  }

  // ---- Order and permutation of the index ----

  /** By name, by name without regard to case as on Windows, or by name with directories first. */
  datatype Order = ByName | ByFoldedName | DirsFirst

  /** What `_ffdirscan_cmpname` and `_ffdsx_open_cmp` compute for two entries. */
  function EntryOrder(order: Order, a: Entry, b: Entry): int {
    match order
    case ByName => NameOrder(a.name, b.name)
    case ByFoldedName => FoldedOrder(a.name, b.name)
    case DirsFirst =>
      if a.isDir == b.isDir then NameOrder(a.name, b.name) else if a.isDir then -1 else 1
  }

  ghost predicate InOrder(order: Order, list: seq<Entry>) {
    forall i, j :: 0 <= i < j < |list| ==> EntryOrder(order, list[i], list[j]) <= 0
  }

  /** What the order means for a list: with directories first, none comes after a file; within a kind, by name. */
  lemma DirectoriesComeFirst(list: seq<Entry>, i: nat, j: nat)
    requires i < j < |list|
    ensures InOrder(DirsFirst, list) && list[j].isDir ==> list[i].isDir
    ensures InOrder(DirsFirst, list) && list[i].isDir == list[j].isDir ==>
              list[i].name == list[j].name || NameOrder(list[i].name, list[j].name) < 0
    ensures InOrder(ByName, list) ==> list[i].name == list[j].name || NameOrder(list[i].name, list[j].name) < 0
  {
    Antisymmetric(list[i].name, list[j].name);
  }

  /** Without regard to case: names that differ in more than case come by the first letter in which they differ. */
  lemma ListedWithoutCase(list: seq<Entry>, i: nat, j: nat)
    requires i < j < |list| && InOrder(ByFoldedName, list)
    ensures SameFolded(list[i].name, list[j].name) || exists n: nat :: FirstAt(list[i].name, list[j].name, n)
  {
    FoldedZero(list[i].name, list[j].name);
    FoldedLess(list[i].name, list[j].name);
  }

  type Comparator = (nat, nat) -> int

  ghost predicate TotalPreorder(cmp: Comparator, s: seq<nat>) {
    && (forall x, y :: x in s && y in s ==> cmp(x, y) <= 0 || cmp(y, x) <= 0)
    && (forall x, y, z :: x in s && y in s && z in s && cmp(x, y) <= 0 && cmp(y, z) <= 0 ==> cmp(x, z) <= 0)
  }

  ghost predicate SortedBy(cmp: Comparator, s: seq<nat>) {
    forall i, j :: 0 <= i < j < |s| ==> cmp(s[i], s[j]) <= 0
  }

  type Sorter = (seq<nat>, Comparator) -> seq<nat>

  /** `ffsort`: it permutes, and it sorts by any comparator that is a total preorder on its input. */
  ghost predicate Sorts(ffsort: Sorter) {
    forall s: seq<nat>, cmp: Comparator :: TotalPreorder(cmp, s) ==>
      multiset(ffsort(s, cmp)) == multiset(s) && SortedBy(cmp, ffsort(s, cmp))
  }

  function OffsetOrder(pack: seq<Byte>, order: Order): Comparator {
    (x: nat, y: nat) => EntryOrder(order, EntryAt(pack, x), EntryAt(pack, y))
  }

  lemma EntryOrderTotal(order: Order, a: Entry, b: Entry)
    ensures EntryOrder(order, a, b) <= 0 || EntryOrder(order, b, a) <= 0
  {
    Antisymmetric(a.name, b.name);
    FoldedAntisymmetric(a.name, b.name);
  }

  lemma EntryOrderTransitive(order: Order, a: Entry, b: Entry, c: Entry)
    requires EntryOrder(order, a, b) <= 0 && EntryOrder(order, b, c) <= 0
    ensures EntryOrder(order, a, c) <= 0
  {
    Antisymmetric(a.name, b.name);
    Antisymmetric(b.name, c.name);
    if order == ByFoldedName {
      FoldedTransitive(a.name, b.name, c.name);
    } else if NameOrder(a.name, b.name) < 0 && NameOrder(b.name, c.name) < 0 {
      Transitive(a.name, b.name, c.name);
    }
  }

  /** The comparator handed to the sort is a total preorder, whichever order is asked for. */
  lemma OffsetOrderIsTotal(pack: seq<Byte>, order: Order, s: seq<nat>)
    ensures TotalPreorder(OffsetOrder(pack, order), s)
  {
    var cmp := OffsetOrder(pack, order);
    forall x, y | x in s && y in s
      ensures cmp(x, y) <= 0 || cmp(y, x) <= 0
    {
      EntryOrderTotal(order, EntryAt(pack, x), EntryAt(pack, y));
    }
    forall x, y, z | x in s && y in s && z in s && cmp(x, y) <= 0 && cmp(y, z) <= 0
      ensures cmp(x, z) <= 0
    {
      EntryOrderTransitive(order, EntryAt(pack, x), EntryAt(pack, y), EntryAt(pack, z));
    }
  }

  lemma ViewAppend(pack: seq<Byte>, a: seq<nat>, b: seq<nat>)
    ensures View(pack, a + b) == View(pack, a) + View(pack, b)
  {
  }

  function Omit(s: seq<nat>, k: nat): seq<nat>
    requires k < |s|
  {
    s[..k] + s[k + 1..]
  }

  lemma OmitOne(pack: seq<Byte>, s: seq<nat>, k: nat)
    requires k < |s|
    ensures multiset(s) == multiset(Omit(s, k)) + multiset{s[k]}
    ensures multiset(View(pack, s)) == multiset(View(pack, Omit(s, k))) + multiset{EntryAt(pack, s[k])}
  {
    assert s == s[..k] + [s[k]] + s[k + 1..];
    ViewAppend(pack, s[..k] + [s[k]], s[k + 1..]);
    ViewAppend(pack, s[..k], [s[k]]);
    ViewAppend(pack, s[..k], s[k + 1..]);
    assert View(pack, [s[k]]) == [EntryAt(pack, s[k])];
  }

  lemma {:induction false} ViewPermutes(pack: seq<Byte>, a: seq<nat>, b: seq<nat>)
    requires multiset(a) == multiset(b)
    ensures multiset(View(pack, a)) == multiset(View(pack, b))
    decreases |a|
  {
    if a == [] {
      assert |multiset(b)| == 0;
    } else {
      var x := a[0];
      assert x in multiset(b);
      var k :| 0 <= k < |b| && b[k] == x;
      OmitOne(pack, a, 0);
      OmitOne(pack, b, k);
      assert multiset(Omit(a, 0)) == multiset(a) - multiset{x};
      assert multiset(Omit(b, k)) == multiset(b) - multiset{x};
      ViewPermutes(pack, Omit(a, 0), Omit(b, k));
    }
  }

  lemma PointsPermutes(pack: seq<Byte>, a: seq<nat>, b: seq<nat>)
    requires Points(pack, a) && multiset(a) == multiset(b)
    ensures Points(pack, b) && |a| == |b|
  {
    assert |a| == |multiset(a)| == |multiset(b)| == |b|;
    forall i | 0 <= i < |b|
      ensures b[i] < WORD && Terminated(pack, Unmark(b[i]))
    {
      assert b[i] in multiset(b);
      assert b[i] in multiset(a);
      assert b[i] in a;
    }
  }

  /** Sorting the offsets sorts the entries and loses none. */
  lemma SortedView(ffsort: Sorter, pack: seq<Byte>, offs: seq<nat>, order: Order)
    requires Sorts(ffsort) && Points(pack, offs)
    ensures var sorted := ffsort(offs, OffsetOrder(pack, order));
            && |sorted| == |offs| && Points(pack, sorted)
            && InOrder(order, View(pack, sorted))
            && multiset(View(pack, sorted)) == multiset(View(pack, offs))
  {
    var cmp := OffsetOrder(pack, order);
    var sorted := ffsort(offs, cmp);
    OffsetOrderIsTotal(pack, order, offs);
    PointsPermutes(pack, offs, sorted);
    ViewPermutes(pack, sorted, offs);
    forall i, j | 0 <= i < j < |sorted|
      ensures EntryOrder(order, View(pack, sorted)[i], View(pack, sorted)[j]) <= 0
    {
      assert cmp(sorted[i], sorted[j]) <= 0;
    }
  }

  // ---- The comparators ----

  /** `_ffdirscan_cmpname`; the comparison without case on Windows is that of ffbase. */
  method CompareOffsets(buf: seq<Byte>, off1: nat, off2: nat, icase: bool) returns (r: int)
    requires Terminated(buf, off1) && Terminated(buf, off2) && off1 < HALF && off2 < HALF
    ensures r == EntryOrder(if icase then ByFoldedName else ByName, EntryAt(buf, off1), EntryAt(buf, off2))
  {
    if icase {
      return FoldedOrder(NameAt(buf, off1), NameAt(buf, off2));
    }
    r := CompareNames(buf, off1, off2);
  }

  /** `_ffdsx_open_cmp`. */
  method CompareMarked(buf: seq<Byte>, l: nat, r: nat, sortDirs: bool) returns (c: int)
    requires Terminated(buf, Unmark(l)) && Terminated(buf, Unmark(r))
    ensures c == EntryOrder(if sortDirs then DirsFirst else ByName, EntryAt(buf, l), EntryAt(buf, r))
  {
    if !sortDirs || (l >= HALF) == (r >= HALF) {
      c := CompareNames(buf, Unmark(l), Unmark(r));
    } else {
      c := if l >= HALF then -1 else 1;
    }
  }
}
