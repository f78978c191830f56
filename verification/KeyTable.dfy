/** The table of key sequences in numbers, and its converse: what is decoded as a key is in the table. */
module KeyTable {
  import opened Basics
  import opened KeyDecoder

  // ---- Characters, by their leading bits ----

  /** A character is one to four bytes with the leading bits of section 3 of RFC 3629. */
  lemma CharIff(c: seq<Byte>)
    ensures IsChar(c) <==>
            && 1 <= |c| <= 4
            && (|c| == 1 ==> c[0] / 128 == 0) && (|c| == 2 ==> c[0] / 32 == 6)
            && (|c| == 3 ==> c[0] / 16 == 14) && (|c| == 4 ==> c[0] / 8 == 30)
            && forall i :: 1 <= i < |c| ==> c[i] / 64 == 2
  {
    if IsChar(c) {
      assert forall i :: 1 <= i < |c| ==> c[i] / 64 == 2;
    }
  }

  // ---- Keys without modifiers ----

  /** UP, DOWN, RIGHT, LEFT, HOME, END. */
  lemma Arrows()
    ensures Decode([0x1b, 0x5b, 0x41]) == Result(0x0800_0003, 3) && Decode([0x1b, 0x5b, 0x42]) == Result(0x0800_0004, 3)
    ensures Decode([0x1b, 0x5b, 0x43]) == Result(0x0800_0005, 3) && Decode([0x1b, 0x5b, 0x44]) == Result(0x0800_0006, 3)
    ensures Decode([0x1b, 0x5b, 0x48]) == Result(0x0800_0007, 3) && Decode([0x1b, 0x5b, 0x46]) == Result(0x0800_0008, 3)
  {
  }

  /** DEL, INS, PGUP, PGDN; then F1 to F4. */
  lemma Editing()
    ensures Decode([0x1b, 0x5b, 0x33, 0x7e]) == Result(0x0800_0001, 4)
    ensures Decode([0x1b, 0x5b, 0x32, 0x7e]) == Result(0x0800_0002, 4)
    ensures Decode([0x1b, 0x5b, 0x35, 0x7e]) == Result(0x0800_0009, 4)
    ensures Decode([0x1b, 0x5b, 0x36, 0x7e]) == Result(0x0800_000a, 4)
    ensures Decode([0x1b, 0x4f, 0x50]) == Result(0x0800_000b, 3) && Decode([0x1b, 0x4f, 0x51]) == Result(0x0800_000c, 3)
    ensures Decode([0x1b, 0x4f, 0x52]) == Result(0x0800_000d, 3) && Decode([0x1b, 0x4f, 0x53]) == Result(0x0800_000e, 3)
  {
  }

  /** F5 to F12, and the paste marks. */
  lemma Functions()
    ensures Decode([0x1b, 0x5b, 0x31, 0x35, 0x7e]) == Result(0x0800_000f, 5)
    ensures Decode([0x1b, 0x5b, 0x31, 0x37, 0x7e]) == Result(0x0800_0010, 5)
    ensures Decode([0x1b, 0x5b, 0x31, 0x38, 0x7e]) == Result(0x0800_0011, 5)
    ensures Decode([0x1b, 0x5b, 0x31, 0x39, 0x7e]) == Result(0x0800_0012, 5)
    ensures Decode([0x1b, 0x5b, 0x32, 0x30, 0x7e]) == Result(0x0800_0013, 5)
    ensures Decode([0x1b, 0x5b, 0x32, 0x31, 0x7e]) == Result(0x0800_0014, 5)
    ensures Decode([0x1b, 0x5b, 0x32, 0x33, 0x7e]) == Result(0x0800_0015, 5)
    ensures Decode([0x1b, 0x5b, 0x32, 0x34, 0x7e]) == Result(0x0800_0016, 5)
    ensures Decode([0x1b, 0x5b, 0x32, 0x30, 0x30, 0x7e]) == Result(0x0800_0017, 6)
    ensures Decode([0x1b, 0x5b, 0x32, 0x30, 0x31, 0x7e]) == Result(0x0800_0017, 6)
  {
  }

  /** Enter, characters of one, two and four bytes, the same with Alt, and bytes that are no key. */
  lemma Characters()
    ensures Decode([0x0d]) == Result(0x0d, 1) && Decode([0x41]) == Result(0x41, 1)
    ensures Decode([0xd0, 0xaf]) == Result(0xafd0, 2)
    ensures Decode([0xf0, 0x9f, 0x98, 0x80]) == Result(0x8098_9ff0, 4)
    ensures Decode([0x1b, 0x41]) == Result(0x0400_0041, 2) && Decode([0x1b, 0xd0, 0xaf]) == Result(0x0400_afd0, 3)
    ensures Decode([0x1b]).code == 0 && Decode([0x1b, 0x5b, 0x58]).code == 0xffff_ffff
  {
    PackedIs([0x0d]);
    PackedIs([0x41]);
    PackedIs([0xd0, 0xaf]);
    PackedIs([0xf0, 0x9f, 0x98, 0x80]);
    CharDecodes([0x0d]);
    CharDecodes([0x41]);
    CharDecodes([0xd0, 0xaf]);
    CharDecodes([0xf0, 0x9f, 0x98, 0x80]);
    assert [0x1b] + [0x41] == [0x1b, 0x41] && [0x1b] + [0xd0, 0xaf] == [0x1b, 0xd0, 0xaf];
    assert [0x1b][1..] == [];
  }

  lemma PackedIs(c: seq<Byte>)
    requires 1 <= |c| <= 4
    ensures Packed(c) == c[0] as int + (if |c| > 1 then 0x100 * (c[1] as int) else 0)
                         + (if |c| > 2 then 0x1_0000 * (c[2] as int) else 0)
                         + (if |c| > 3 then 0x100_0000 * (c[3] as int) else 0)
  {
    PackedFrom(c, 0);
    PackedFrom(c, 1);
    PackedFrom(c, 2);
    PackedFrom(c, 3);
    assert c[0..] == c;
  }

  // ---- Modifiers ----

  /** The modifiers of the digit `b`: one more than Shift, twice Alt and four times Ctrl, as bits 25, 26 and 24. */
  function ModBits(b: Byte): int {
    0x0200_0000 * ((b - 0x31) % 2) + 0x0400_0000 * ((b - 0x31) / 2 % 2) + 0x0100_0000 * ((b - 0x31) / 4 % 2)
  }

  /** A modifier adds its bits to the code of the key, in each of the three forms. */
  lemma ModifierAdds(b: Byte, key: seq<Byte>)
    requires 0x32 <= b <= 0x38 && |key| <= 2
    ensures |key| == 1 && IsKey(Decode([0x1b, 0x4f] + key)) && Decode([0x1b, 0x4f] + key).read == 3 ==>
              Decode([0x1b, 0x4f, b] + key) == Result(Decode([0x1b, 0x4f] + key).code + ModBits(b), 4)
    ensures |key| == 1 && IsKey(Decode([0x1b, 0x5b] + key)) && Decode([0x1b, 0x5b] + key).read == 3 ==>
              Decode([0x1b, 0x5b, 0x31, 0x3b, b] + key) == Result(Decode([0x1b, 0x5b] + key).code + ModBits(b), 6)
    ensures var plain := Decode([0x1b, 0x5b] + key + [0x7e]);
            IsKey(plain) && plain.read == |key| + 3 ==>
              Decode([0x1b, 0x5b] + key + [0x3b, b, 0x7e]) == Result(plain.code + ModBits(b), |key| + 5)
  {
    ModBitsAre(b);
    OneByteModified(b, key);
    TildeModified(b, key);
  }

  lemma ModBitsAre(b: Byte)
    requires 0x32 <= b <= 0x38
    ensures ModOf(b) * 0x1000000 == ModBits(b)
  {
  }

  lemma OneByteModified(b: Byte, key: seq<Byte>)
    requires 0x32 <= b <= 0x38
    ensures |key| == 1 && IsKey(Decode([0x1b, 0x4f] + key)) && Decode([0x1b, 0x4f] + key).read == 3 ==>
              Decode([0x1b, 0x4f, b] + key) == Result(Decode([0x1b, 0x4f] + key).code + ModOf(b) * 0x1000000, 4)
    ensures |key| == 1 && IsKey(Decode([0x1b, 0x5b] + key)) && Decode([0x1b, 0x5b] + key).read == 3 ==>
              Decode([0x1b, 0x5b, 0x31, 0x3b, b] + key)
              == Result(Decode([0x1b, 0x5b] + key).code + ModOf(b) * 0x1000000, 6)
  {
  }

  lemma TildeModified(b: Byte, key: seq<Byte>)
    requires 0x32 <= b <= 0x38 && |key| <= 2
    ensures var plain := Decode([0x1b, 0x5b] + key + [0x7e]);
            IsKey(plain) && plain.read == |key| + 3 ==>
              Decode([0x1b, 0x5b] + key + [0x3b, b, 0x7e]) == Result(plain.code + ModOf(b) * 0x1000000, |key| + 5)
  {
  }

  // ---- What is decoded as a key is in the table ----

  /** Bytes that the table leaves out, in a sequence with the modifier `b`, from the third byte on. */
  predicate LeftOut(s: seq<Byte>, b: Byte) {
    || [0x31, 0x3b, b, 0x45] <= s || [0x31, 0x3b, b, 0x47] <= s || [0x34, 0x3b, b, 0x7e] <= s
    || [0x31, 0x36, 0x3b, b, 0x7e] <= s || [0x32, 0x32, 0x3b, b, 0x7e] <= s
  }

  ghost predicate Stray(data: seq<Byte>) {
    [0x1b, 0x5b] <= data && exists b: Byte :: 0x32 <= b <= 0x38 && LeftOut(data[2..], b)
  }

  /** The event is in the table, the data start with its sequence, and the result is its code. */
  ghost predicate Matches(data: seq<Byte>, e: Event) {
    Encodable(e) && Encode(e) <= data && Decode(data) == Result(CodeOf(e), |Encode(e)|)
  }

  /** What was written with a modifier, read back. */
  lemma ModBack(b: Byte)
    requires IsMod(b)
    ensures ModByte(ModOf(b)) == b && ModOf(b) != 0
  {
  }

  lemma EventOfO(data: seq<Byte>) returns (e: Event)
    requires D(data, 0) == 0x1b && D(data, 1) == 0x4f && IsKey(Decode(data))
    ensures Matches(data, e)
  {
    var i := if IsMod(D(data, 2)) then 3 else 2;
    if i == 3 {
      ModBack(D(data, 2));
      e := Virtual(11 + D(data, i) - 0x50, ModOf(D(data, 2)));
      assert Encode(e) == [0x1b, 0x4f, D(data, 2), D(data, 3)];
    } else {
      e := Virtual(11 + D(data, i) - 0x50, 0);
      assert Encode(e) == [0x1b, 0x4f, D(data, 2)];
    }
  }

  /** The end of a sequence with a tilde. */
  lemma TildeEnd(data: seq<Byte>, low: int, i: nat) returns (mods: Mods)
    requires IsKey(Tail7e(data, low, i))
    ensures Tail7e(data, low, i) == Result(VirtCode(low, mods), i + |Suffix7e(mods)|)
    ensures i <= |data| && Suffix7e(mods) <= data[i..] && (low == 0 ==> mods != 0)
  {
    mods := 0;
    if D(data, i) == 0x3b {
      mods := ModOf(D(data, i + 1));
      ModBack(D(data, i + 1));
      assert data[i..][0] == 0x3b && data[i..][1] == D(data, i + 1) && data[i..][2] == 0x7e;
    } else {
      assert data[i..][0] == 0x7e;
    }
  }

  lemma TildeMatches(data: seq<Byte>, key: Key, mods: Mods)
    requires key <= 2 || key == 9 || key == 10 || 15 <= key
    requires [0x1b, 0x5b] + KeyBytes(key) <= data && Suffix7e(mods) <= data[2 + |KeyBytes(key)|..]
    ensures EncodeKey(key, mods) <= data
  {
    PrefixesJoin([0x1b, 0x5b] + KeyBytes(key), Suffix7e(mods), data);
  }

  lemma PrefixesJoin(a: seq<Byte>, b: seq<Byte>, s: seq<Byte>)
    requires a <= s && b <= s[|a|..]
    ensures a + b <= s
  {
    assert s[..|a|] == a;
    assert s == a + s[|a|..];
  }

  lemma StrayTilde(data: seq<Byte>, pre: seq<Byte>, mods: Mods)
    requires [0x1b, 0x5b] <= data && pre <= data[2..] && Suffix7e(mods) <= data[2..][|pre|..] && mods != 0
    requires pre == [0x34] || pre == [0x31, 0x36] || pre == [0x32, 0x32]
    ensures Stray(data)
  {
    PrefixesJoin(pre, Suffix7e(mods), data[2..]);
    assert LeftOut(data[2..], ModByte(mods));
  }

  lemma EventOfTilde(data: seq<Byte>, low: int, i: nat) returns (e: Event)
    requires D(data, 0) == 0x1b && D(data, 1) == 0x5b && !Stray(data) && IsKey(Decode(data))
    requires Decode(data) == Tail7e(data, low, i) && (i == 3 || i == 4)
    requires i == 3 ==> low == Key3x(D(data, 2)) && 0x32 <= D(data, 2) <= 0x36
    requires i == 4 && D(data, 2) == 0x31 ==> low == KeyF5F8(D(data, 3)) && 0x35 <= D(data, 3) <= 0x39
    requires i == 4 && D(data, 2) != 0x31 ==>
               D(data, 2) == 0x32 && low == KeyF9F12(D(data, 3)) && 0x30 <= D(data, 3) <= 0x34
    ensures Matches(data, e)
  {
    var mods := TildeEnd(data, low, i);
    var pre := data[2..i];
    assert [0x1b, 0x5b] <= data && pre <= data[2..] && data[2..][|pre|..] == data[i..];
    assert if i == 3 then pre == [D(data, 2)] else pre == [D(data, 2), D(data, 3)];
    if low == 0 {
      StrayTilde(data, pre, mods);
    }
    e := Virtual(low, mods);
    assert KeyBytes(low) == pre;
    assert [0x1b, 0x5b] + pre == data[..i];
    TildeMatches(data, low, mods);
  }

  lemma EventOfArrow(data: seq<Byte>, mods: Mods, i: nat) returns (e: Event)
    requires D(data, 0) == 0x1b && D(data, 1) == 0x5b && !Stray(data) && IsKey(Decode(data))
    requires Decode(data) == Tail4x(data, mods, i)
    requires if mods == 0 then i == 2
             else i == 5 && D(data, 2) == 0x31 && D(data, 3) == 0x3b && IsMod(D(data, 4)) && mods == ModOf(D(data, 4))
    ensures Matches(data, e)
  {
    var low := Key4x(D(data, i));
    if mods == 0 {
      e := Virtual(low, 0);
      assert Encode(e) == [0x1b, 0x5b, D(data, 2)];
    } else {
      ModBack(D(data, 4));
      if low == 0 {
        assert LeftOut(data[2..], D(data, 4));
      }
      e := Virtual(low, mods);
      assert Encode(e) == [0x1b, 0x5b, 0x31, 0x3b, D(data, 4), D(data, 5)];
    }
  }

  lemma EventOfBracket(data: seq<Byte>) returns (e: Event)
    requires D(data, 0) == 0x1b && D(data, 1) == 0x5b && !Stray(data) && IsKey(Decode(data))
    ensures Matches(data, e)
  {
    var b, c := D(data, 2), D(data, 3);
    if b == 0x31 && 0x35 <= c <= 0x39 {
      e := EventOfTilde(data, KeyF5F8(c), 4);
    } else if b == 0x31 {
      ModBack(D(data, 4));
      e := EventOfArrow(data, ModOf(D(data, 4)), 5);
    } else if b == 0x32 && c == 0x30 && (D(data, 4) == 0x30 || D(data, 4) == 0x31) && D(data, 5) == 0x7e {
      e := Paste(D(data, 4) == 0x30);
      assert Encode(e) == [0x1b, 0x5b, 0x32, 0x30, D(data, 4), 0x7e];
    } else if b == 0x32 && 0x30 <= c <= 0x34 {
      e := EventOfTilde(data, KeyF9F12(c), 4);
    } else if 0x32 <= b <= 0x36 {
      e := EventOfTilde(data, Key3x(b), 3);
    } else {
      e := EventOfArrow(data, 0, 2);
    }
  }

  lemma EventOfChar(data: seq<Byte>) returns (e: Event)
    requires data != [] && IsKey(Decode(data)) && (data[0] != 0x1b || (D(data, 1) != 0x4f && D(data, 1) != 0x5b))
    ensures Matches(data, e)
  {
    if data[0] != 0x1b {
      var n := Utf8(data);
      Utf8Local(data, data[..n]);
      e := Char(data[..n]);
      assert Packed(data[..1]) == data[0];
    } else {
      var n := Utf8(data[1..]);
      Utf8Local(data[1..], data[1..1 + n]);
      e := AltChar(data[1..1 + n]);
      assert Encode(e) == data[..1 + n];
    }
  }

  /** Every key that is decoded is in the table, at the start of the data, but for the bytes that are left out. */
  lemma KeyIsInTable(data: seq<Byte>) returns (e: Event)
    requires IsKey(Decode(data)) && !Stray(data)
    ensures Matches(data, e)
  {
    if D(data, 0) == 0x1b && D(data, 1) == 0x4f {
      e := EventOfO(data);
    } else if D(data, 0) == 0x1b && D(data, 1) == 0x5b {
      e := EventOfBracket(data);
    } else {
      e := EventOfChar(data);
    }
  }

  /** The bytes of `s` are the data from the third byte on. */
  ghost predicate StartsWith(data: seq<Byte>, s: seq<Byte>) {
    D(data, 0) == 0x1b && D(data, 1) == 0x5b && forall i :: 0 <= i < |s| ==> D(data, i + 2) == s[i]
  }

  lemma LeftOutDecodes(data: seq<Byte>, s: seq<Byte>, b: Byte)
    requires StartsWith(data, s) && IsMod(b) && LeftOut(s, b) && data != []
    ensures Decode(data).code == VirtCode(0, ModOf(b))
  {
    assert ModOf(b) != 0;
    assert D(data, 2) == s[0] && D(data, 3) == s[1] && D(data, 4) == s[2] && D(data, 5) == s[3];
    assert |s| > 4 ==> D(data, 6) == s[4];
  }

  /** Bytes that are left out are decoded as a modifier without a key. */
  lemma StrayIsDecoded(data: seq<Byte>) returns (b: Byte)
    requires Stray(data)
    ensures 0x32 <= b <= 0x38 && LeftOut(data[2..], b) && Decode(data).code == VIRT + ModBits(b)
  {
    b :| 0x32 <= b <= 0x38 && LeftOut(data[2..], b);
    assert StartsWith(data, data[2..]);
    LeftOutDecodes(data, data[2..], b);
    ModBitsAre(b);
  }

  /** Exactly the sequences of the table, and those with bytes that are left out, are decoded as keys. */
  lemma IsKeyIff(data: seq<Byte>)
    ensures IsKey(Decode(data)) <==> Stray(data) || exists e :: Encodable(e) && Encode(e) <= data
  {
    if Stray(data) {
      var b := StrayIsDecoded(data);
    } else if IsKey(Decode(data)) {
      var e := KeyIsInTable(data);
    } else {
      forall e | Encodable(e)
        ensures !(Encode(e) <= data)
      {
        EventDecodes(e);
        ReadBounds(Encode(e));
        if Encode(e) <= data {
          assert Encode(e)[..|Encode(e)|] == Encode(e);
          DependsOnConsumed(Encode(e), data);
        }
      }
    }
  }
}
