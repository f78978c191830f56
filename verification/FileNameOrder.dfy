/**
  The file-name comparator of the directory scanner: letters are compared without case first, and
  the last position where only the case differs decides between names that are otherwise equal.
 */
module FileNameOrder {

  type Byte = x: int | 0 <= x < 256

  /** A file name: the bytes before its NUL. */
  type Name = seq<Byte>

  function Fold(c: Byte): Byte {
    if 0x41 <= c <= 0x5a then c + 0x20 else c
  }

  /** Lexicographic order of the folded names; a proper prefix comes first. */
  function FoldedOrder(a: Name, b: Name): int
    decreases |a|
  {
    if a == [] then if b == [] then 0 else -1
    else if b == [] then 1
    else if Fold(a[0]) < Fold(b[0]) then -1
    else if Fold(a[0]) > Fold(b[0]) then 1
    else FoldedOrder(a[1..], b[1..])
  }

  /** The last difference decides; the lower-case letter, which is the larger byte, comes first. */
  function CaseOrder(a: Name, b: Name): int
    requires |a| == |b|
    decreases |a|
  {
    if a == [] then 0
    else
      var x, y := a[|a| - 1], b[|b| - 1];
      if x < y then 1 else if x > y then -1 else CaseOrder(a[..|a| - 1], b[..|b| - 1])
  }

  ghost predicate SameFolded(a: Name, b: Name) {
    |a| == |b| && forall i :: 0 <= i < |a| ==> Fold(a[i]) == Fold(b[i])
  }

  /** The order the comparator is to realize. */
  function NameOrder(a: Name, b: Name): int {
    var folded := FoldedOrder(a, b);
    if folded == 0 && |a| == |b| then CaseOrder(a, b) else folded
  }

  // ---- What the order says ----

  lemma {:induction false} FoldedZero(a: Name, b: Name)
    ensures FoldedOrder(a, b) == 0 <==> SameFolded(a, b)
    decreases |a|
  {
    if a != [] && b != [] {
      FoldedZero(a[1..], b[1..]);
      if SameFolded(a, b) {
        assert forall i :: 0 <= i < |a| - 1 ==> a[1..][i] == a[i + 1] && b[1..][i] == b[i + 1];
      }
    }
  }

  /** Letters are folded, and nothing else: which single bytes are the same, and the order of the others. */
  lemma FoldsLetters(c: Byte, d: Byte)
    ensures SameFolded([c], [d]) <==>
            c == d || (0x41 <= c <= 0x5a && d == c + 0x20) || (0x41 <= d <= 0x5a && c == d + 0x20)
    ensures FoldedOrder([c], [d]) == 0 <==> SameFolded([c], [d])
    ensures !(0x41 <= c <= 0x5a) && !(0x41 <= d <= 0x5a) ==> (FoldedOrder([c], [d]) < 0 <==> c < d)
    ensures 0x41 <= c <= 0x5a && !(0x41 <= d <= 0x5a) ==> (FoldedOrder([c], [d]) < 0 <==> c + 0x20 < d)
  {
    FoldedZero([c], [d]);
    assert [c][1..] == [] && [d][1..] == [];
  }

  /** `a` comes first by its letters: they agree up to `n`, where `a` ends or has the smaller letter. */
  ghost predicate FirstAt(a: Name, b: Name, n: nat) {
    && n <= |a| && n < |b|
    && (forall i :: 0 <= i < n ==> Fold(a[i]) == Fold(b[i]))
    && (n == |a| || Fold(a[n]) < Fold(b[n]))
  }

  lemma {:induction false} FoldedLess(a: Name, b: Name)
    ensures FoldedOrder(a, b) < 0 <==> exists n: nat :: FirstAt(a, b, n)
    decreases |a|
  {
    if a == [] {
      if b != [] {
        assert FirstAt(a, b, 0);
      }
    } else if b == [] {
    } else if Fold(a[0]) != Fold(b[0]) {
      if Fold(a[0]) < Fold(b[0]) {
        assert FirstAt(a, b, 0);
      }
    } else {
      FoldedLess(a[1..], b[1..]);
      if n: nat :| FirstAt(a[1..], b[1..], n) {
        assert forall i :: 1 <= i < n + 1 ==> a[i] == a[1..][i - 1] && b[i] == b[1..][i - 1];
        assert FirstAt(a, b, n + 1);
      }
      if n: nat :| FirstAt(a, b, n) {
        assert n > 0;
        assert forall i :: 0 <= i < n - 1 ==> a[1..][i] == a[i + 1] && b[1..][i] == b[i + 1];
        assert FirstAt(a[1..], b[1..], n - 1);
      }
    }
  }

  /** `a` comes first by case: after `n` the names are equal, and at `n` it is `a` that has the larger byte. */
  ghost predicate LowerAt(a: Name, b: Name, n: nat) {
    |a| == |b| && n < |a| && a[n] > b[n] && forall i :: n < i < |a| ==> a[i] == b[i]
  }

  lemma {:induction false} CaseLess(a: Name, b: Name)
    requires |a| == |b|
    ensures CaseOrder(a, b) < 0 <==> exists n: nat :: LowerAt(a, b, n)
    decreases |a|
  {
    if a != [] {
      var m := |a| - 1;
      var x, y := a[..m], b[..m];
      if a[m] == b[m] {
        CaseLess(x, y);
        if n: nat :| LowerAt(x, y, n) {
          assert forall i :: n < i < m ==> a[i] == x[i] && b[i] == y[i];
          assert LowerAt(a, b, n);
        }
        if n: nat :| LowerAt(a, b, n) {
          assert n < m;
          assert LowerAt(x, y, n);
        }
      } else if a[m] > b[m] {
        assert LowerAt(a, b, m);
      } else {
        forall n: nat | LowerAt(a, b, n)
          ensures false
        {
        }
      }
    }
  }

  /** The order in words: by letters, and for the same letters by the last difference in case. */
  lemma NameLess(a: Name, b: Name)
    ensures NameOrder(a, b) < 0 <==>
            (exists n: nat :: FirstAt(a, b, n)) || (SameFolded(a, b) && exists n: nat :: LowerAt(a, b, n))
  {
    FoldedLess(a, b);
    FoldedZero(a, b);
    if |a| == |b| {
      CaseLess(a, b);
    }
    forall n: nat | SameFolded(a, b) && FirstAt(a, b, n) ensures false {}
  }

  // ---- A strict total order ----

  lemma {:induction false} FoldedAntisymmetric(a: Name, b: Name)
    ensures FoldedOrder(a, b) == -FoldedOrder(b, a)
    decreases |a|
  {
    if a != [] && b != [] {
      FoldedAntisymmetric(a[1..], b[1..]);
    }
  }

  lemma {:induction false} CaseAntisymmetric(a: Name, b: Name)
    requires |a| == |b|
    ensures CaseOrder(a, b) == -CaseOrder(b, a)
    ensures CaseOrder(a, b) == 0 <==> a == b
    decreases |a|
  {
    if a != [] {
      var m := |a| - 1;
      CaseAntisymmetric(a[..m], b[..m]);
      assert a == a[..m] + [a[m]] && b == b[..m] + [b[m]];
    }
  }

  /** Exchanging the names negates the result, and only identical names compare equal. */
  lemma Antisymmetric(a: Name, b: Name)
    ensures NameOrder(a, b) == -NameOrder(b, a)
    ensures NameOrder(a, b) == 0 <==> a == b
    ensures -1 <= NameOrder(a, b) <= 1
  {
    FoldedAntisymmetric(a, b);
    FoldedZero(a, b);
    FoldedRange(a, b);
    if |a| == |b| {
      CaseAntisymmetric(a, b);
      CaseRange(a, b);
    }
  }

  lemma {:induction false} FoldedRange(a: Name, b: Name)
    ensures -1 <= FoldedOrder(a, b) <= 1
    decreases |a|
  {
    if a != [] && b != [] {
      FoldedRange(a[1..], b[1..]);
    }
  }

  lemma {:induction false} CaseRange(a: Name, b: Name)
    requires |a| == |b|
    ensures -1 <= CaseOrder(a, b) <= 1
    decreases |a|
  {
    if a != [] {
      CaseRange(a[..|a| - 1], b[..|a| - 1]);
    }
  }

  lemma {:induction false} FoldedTransitive(a: Name, b: Name, c: Name)
    requires FoldedOrder(a, b) <= 0 && FoldedOrder(b, c) <= 0
    ensures FoldedOrder(a, c) <= 0
    ensures FoldedOrder(a, c) == 0 <==> FoldedOrder(a, b) == 0 && FoldedOrder(b, c) == 0
    decreases |a|
  {
    if a != [] && b != [] && c != [] && Fold(a[0]) == Fold(b[0]) == Fold(c[0]) {
      FoldedTransitive(a[1..], b[1..], c[1..]);
    }
  }

  lemma {:induction false} CaseTransitive(a: Name, b: Name, c: Name)
    requires |a| == |b| == |c|
    requires CaseOrder(a, b) < 0 && CaseOrder(b, c) < 0
    ensures CaseOrder(a, c) < 0
    decreases |a|
  {
    if a != [] {
      var m := |a| - 1;
      if a[m] == b[m] == c[m] {
        CaseTransitive(a[..m], b[..m], c[..m]);
      }
    }
  }

  lemma Transitive(a: Name, b: Name, c: Name)
    requires NameOrder(a, b) < 0 && NameOrder(b, c) < 0
    ensures NameOrder(a, c) < 0
  {
    FoldedTransitive(a, b, c);
    FoldedZero(a, b);
    FoldedZero(b, c);
    FoldedZero(a, c);
    if FoldedOrder(a, c) == 0 {
      CaseTransitive(a, b, c);
    }
  }

  // ---- The comparator ----

  /** A NUL-terminated string at `off` in a buffer. */
  ghost predicate Terminated(buf: seq<Byte>, off: nat) {
    exists end :: off <= end < |buf| && buf[end] == 0
  }

  /** The bytes from `off` up to the next NUL. */
  function NameAt(buf: seq<Byte>, off: nat): Name
    decreases |buf| - off
  {
    if off >= |buf| || buf[off] == 0 then [] else [buf[off]] + NameAt(buf, off + 1)
  }

  lemma {:induction false} NameAtIs(buf: seq<Byte>, off: nat, name: Name)
    requires off + |name| < |buf| && buf[off..off + |name|] == name && buf[off + |name|] == 0 && 0 !in name
    ensures NameAt(buf, off) == name
    decreases |name|
  {
    if name != [] {
      assert buf[off] == name[0];
      assert buf[off + 1..off + |name|] == name[1..];
      NameAtIs(buf, off + 1, name[1..]);
    } else {
    }
  }

  lemma CaseOrderSnoc(a: Name, b: Name, x: Byte, y: Byte)
    requires |a| == |b|
    ensures CaseOrder(a + [x], b + [y]) == if x < y then 1 else if x > y then -1 else CaseOrder(a, b)
  {
  }

  lemma {:induction false} FoldedOrderDecides(a: Name, b: Name, n: nat)
    requires n <= |a| && n <= |b| && SameFolded(a[..n], b[..n])
    ensures FoldedOrder(a, b) == FoldedOrder(a[n..], b[n..])
    decreases n
  {
    if n > 0 {
      assert a[..n][0] == a[0] && b[..n][0] == b[0];
      assert SameFolded(a[1..][..n - 1], b[1..][..n - 1]) by {
        forall i | 0 <= i < n - 1
          ensures Fold(a[1..][i]) == Fold(b[1..][i])
        {
          assert a[..n][i + 1] == a[1..][i] && b[..n][i + 1] == b[1..][i];
        }
      }
      FoldedOrderDecides(a[1..], b[1..], n - 1);
      assert a[1..][n - 1..] == a[n..] && b[1..][n - 1..] == b[n..];
    } else {
      assert a[0..] == a && b[0..] == b;
    }
  }

  /** The byte at `i` of a NUL-terminated string. */
  function CharAt(a: Name, i: nat): Byte {
    if i < |a| then a[i] else 0
  }

  /** The names have the same letters up to `i`, and `diff` is what the differences in case decide so far. */
  ghost predicate Agree(a: Name, b: Name, i: nat, diff: int) {
    i <= |a| && i <= |b| && SameFolded(a[..i], b[..i]) && diff == CaseOrder(a[..i], b[..i])
  }

  /** What the characters at `i` decide. */
  lemma Decided(a: Name, b: Name, i: nat, diff: int)
    requires 0 !in a && 0 !in b && Agree(a, b, i, diff)
    ensures var x, y := CharAt(a, i), CharAt(b, i);
            && (Fold(x) < Fold(y) ==> NameOrder(a, b) == -1)
            && (Fold(x) > Fold(y) ==> NameOrder(a, b) == 1)
            && (x == y == 0 ==> NameOrder(a, b) == diff)
            && (Fold(x) == Fold(y) && !(x == y == 0) ==> i < |a| && i < |b|)
  {
    FoldedOrderDecides(a, b, i);
    assert i < |a| ==> a[i] in a;
    assert i < |b| ==> b[i] in b;
    if CharAt(a, i) == CharAt(b, i) == 0 {
      assert a[..i] == a && b[..i] == b;
    }
  }

  lemma Advance(a: Name, b: Name, i: nat, diff: int)
    requires i < |a| && i < |b| && Agree(a, b, i, diff) && Fold(a[i]) == Fold(b[i])
    ensures Agree(a, b, i + 1, if a[i] < b[i] then 1 else if a[i] > b[i] then -1 else diff)
  {
    assert a[..i + 1] == a[..i] + [a[i]] && b[..i + 1] == b[..i] + [b[i]];
    CaseOrderSnoc(a[..i], b[..i], a[i], b[i]);
  }

  lemma {:induction false} BytesOfName(buf: seq<Byte>, off: nat)
    requires Terminated(buf, off)
    ensures var name := NameAt(buf, off);
            && off + |name| < |buf| && buf[off + |name|] == 0
            && forall i :: 0 <= i < |name| ==> name[i] != 0 && name[i] == buf[off + i]
    decreases |buf| - off
  {
    if buf[off] != 0 {
      var end :| off <= end < |buf| && buf[end] == 0;
      BytesOfName(buf, off + 1);
      var name, rest := NameAt(buf, off), NameAt(buf, off + 1);
      assert forall i :: 0 < i < |name| ==> name[i] == rest[i - 1];
    }
  }

  /** `_ffdirscan_filename_cmpz` on two strings in one buffer. */
  method CompareNames(buf: seq<Byte>, x: nat, y: nat) returns (r: int)
    requires Terminated(buf, x) && Terminated(buf, y)
    ensures r == NameOrder(NameAt(buf, x), NameAt(buf, y))
  {
    ghost var a, b := NameAt(buf, x), NameAt(buf, y);
    BytesOfName(buf, x);
    BytesOfName(buf, y);
    var firstDiff, i := 0, 0;
    while true
      invariant Agree(a, b, i, firstDiff)
      decreases |a| - i
    {
      Decided(a, b, i, firstDiff);
      var cl, cr := buf[x + i], buf[y + i];
      assert cl == CharAt(a, i) && cr == CharAt(b, i);
      ghost var diff := firstDiff;
      if cl != cr {
        cl, cr := Fold(cl), Fold(cr);
        if cl < cr {
          return -1;
        } else if cl > cr {
          return 1;
        }
        firstDiff := if buf[x + i] < buf[y + i] then 1 else -1;
      } else if cl == 0 {
        return firstDiff;
      }
      Advance(a, b, i, diff);
      i := i + 1;
    }
  }
}
