/**
  The decoder of terminal key sequences, and the table of sequences that it documents.

  A code is a 32-bit number: up to four bytes of UTF-8 (section 3 of RFC 3629), first byte lowest, or a
  virtual key with modifier bits. 0 stands for "not enough data" and 0xffffffff (-1) for an error.
 */
module KeyDecoder {
  import opened Basics

  type Byte = x: int | 0 <= x < 256

  const VIRT := 0x08000000
  const ALT := 0x04000000
  const ERROR := 0xffffffff

  /** Ctrl = 1, Shift = 2, Alt = 4: bits 24 to 26 of a code. */
  type Mods = m: int | 0 <= m < 8

  /** The low byte of a virtual key: DEL, INS, UP, DOWN, RIGHT, LEFT, HOME, END, PGUP, PGDN, F1 to F12. */
  type Key = k: int | 1 <= k <= 22 witness 1

  const TEXT_PASTED := VIRT + 23

  function VirtCode(low: int, mods: Mods): int {
    VIRT + mods * 0x1000000 + low
  }

  // ---- Characters ----

  predicate Continuation(b: Byte) {
    0x80 <= b <= 0xbf
  }

  /** How many bytes a character has that starts with `b`; 0 for a byte that starts none. */
  function Shape(b: Byte): nat {
    if b < 0x80 then 1
    else if 0xc0 <= b <= 0xdf then 2
    else if 0xe0 <= b <= 0xef then 3
    else if 0xf0 <= b <= 0xf7 then 4
    else 0
  }

  /** `ffutf8_decode`: the length of the first character, 0 if there is none, -1 if it is cut off. */
  function Utf8(s: seq<Byte>): int {
    if s == [] then -1
    else
      var n := Shape(s[0]);
      if n >= 2 && |s| >= 2 && !Continuation(s[1]) then 0
      else if n >= 3 && |s| >= 3 && !Continuation(s[2]) then 0
      else if n >= 4 && |s| >= 4 && !Continuation(s[3]) then 0
      else if n > |s| then -1
      else n
  }

  /** One whole character. */
  predicate IsChar(c: seq<Byte>) {
    c != [] && Utf8(c) == |c|
  }

  /** Bytes as a number, first byte lowest. */
  function Packed(c: seq<Byte>): int {
    if c == [] then 0 else c[0] as int + 256 * Packed(c[1..])
  }

  // ---- The decoder ----

  /** The code, and how much was read; `read` is 0 when the code does not write it. */
  datatype Result = Result(code: int, read: nat)

  /** `d[i]`: the data, padded with zeros. */
  function D(data: seq<Byte>, i: nat): Byte {
    if i < |data| then data[i] else 0
  }

  function ModOf(b: Byte): Mods
    requires 0x32 <= b <= 0x38
  {
    if b == 0x32 then 2 else if b == 0x33 then 4 else if b == 0x34 then 6 else if b == 0x35 then 1
    else if b == 0x36 then 3 else if b == 0x37 then 5 else 7
  }

  predicate IsMod(b: Byte) {
    0x32 <= b <= 0x38
  }

  function KeyF5F8(b: Byte): int {
    if b == 0x35 then 15 else if b == 0x37 then 16 else if b == 0x38 then 17 else if b == 0x39 then 18 else 0
  }

  function KeyF9F12(b: Byte): int {
    if b == 0x30 then 19 else if b == 0x31 then 20 else if b == 0x33 then 21 else if b == 0x34 then 22 else 0
  }

  function Key3x(b: Byte): int {
    if b == 0x32 then 2 else if b == 0x33 then 1 else if b == 0x35 then 9 else if b == 0x36 then 10 else 0
  }

  function Key4x(b: Byte): int {
    if b == 0x41 then 3 else if b == 0x42 then 4 else if b == 0x43 then 5 else if b == 0x44 then 6
    else if b == 0x46 then 8 else if b == 0x48 then 7 else 0
  }

  /** `fin`: the sequence ends at `i`. */
  function Finish(low: int, mods: Mods, i: nat): Result {
    Result(if low == 0 && mods == 0 then ERROR else VirtCode(low, mods), i + 1)
  }

  /** `I_3b_or_7e`: an optional modifier, then the final byte. */
  function Tail7e(data: seq<Byte>, low: int, i: nat): Result {
    if D(data, i) == 0x3b then
      if IsMod(D(data, i + 1)) && D(data, i + 2) == 0x7e then Finish(low, ModOf(D(data, i + 1)), i + 2)
      else Result(ERROR, 0)
    else if D(data, i) == 0x7e then Finish(low, 0, i)
    else Result(ERROR, 0)
  }

  /** `I_41_48`: the final byte is the key. */
  function Tail4x(data: seq<Byte>, mods: Mods, i: nat): Result {
    if 0x41 <= D(data, i) <= 0x48 then Finish(Key4x(D(data, i)), mods, i) else Result(ERROR, 0)
  }

  /** After 1b 4f. */
  function DecodeO(data: seq<Byte>): Result {
    var mods: Mods := if IsMod(D(data, 2)) then ModOf(D(data, 2)) else 0;
    var i := if IsMod(D(data, 2)) then 3 else 2;
    if 0x50 <= D(data, i) <= 0x53 then Finish(11 + D(data, i) - 0x50, mods, i) else Result(ERROR, 0)
  }

  /** After 1b 5b. */
  function DecodeBracket(data: seq<Byte>): Result {
    var b, c := D(data, 2), D(data, 3);
    if b == 0x31 then
      if 0x35 <= c <= 0x39 then Tail7e(data, KeyF5F8(c), 4)
      else if c == 0x3b && IsMod(D(data, 4)) then Tail4x(data, ModOf(D(data, 4)), 5)
      else Result(ERROR, 0)
    else if b == 0x32 && c == 0x30 && (D(data, 4) == 0x30 || D(data, 4) == 0x31) && D(data, 5) == 0x7e then
      Result(TEXT_PASTED, 6)
    else if b == 0x32 && 0x30 <= c <= 0x34 then Tail7e(data, KeyF9F12(c), 4)
    else if 0x32 <= b <= 0x36 then Tail7e(data, Key3x(b), 3)
    else Tail4x(data, 0, 2)
  }

  /** `ffstd_key_parse_unix`. */
  function Decode(data: seq<Byte>): Result {
    if data == [] then Result(0, 0)
    else if data[0] != 0x1b then
      var r := Utf8(data);
      if r < 0 then Result(0, 0) else if r == 0 then Result(ERROR, 0)
      else Result(Packed(data[..Min(r, |data|)]), r)
    else if D(data, 1) == 0x4f then DecodeO(data)
    else if D(data, 1) == 0x5b then DecodeBracket(data)
    else
      var r := Utf8(data[1..]);
      if r < 0 then Result(0, 0) else if r == 0 || r > 3 then Result(ERROR, 0)
      else Result(ALT + Packed(data[1..Min(1 + r, |data|)]), 1 + r)
  }

  /** The caller has a key: not "more data", not an error. */
  predicate IsKey(r: Result) {
    r.code != 0 && r.code != ERROR
  }

  // ---- What a result depends on ----

  lemma Utf8Local(s: seq<Byte>, t: seq<Byte>)
    requires Utf8(s) > 0
    ensures Utf8(s) <= |s| && (s[..Utf8(s)] <= t ==> Utf8(t) == Utf8(s))
  {
  }

  /** A key consumes at least one byte and no more than there are. */
  lemma ReadBounds(data: seq<Byte>)
    requires IsKey(Decode(data))
    ensures 1 <= Decode(data).read <= |data|
  {
  }

  /** A key depends only on the bytes it consumes: whatever follows them, the result is the same. */
  lemma DependsOnConsumed(data: seq<Byte>, other: seq<Byte>)
    requires IsKey(Decode(data)) && Decode(data).read <= |data| && data[..Decode(data).read] <= other
    ensures Decode(other) == Decode(data)
  {
    var n := Decode(data).read;
    var head := data[..n];
    ReadBounds(data);
    assert forall i :: 0 <= i < n ==> other[i] == head[i] == data[i];
    if data[0] != 0x1b {
      Utf8Local(data, other);
      assert other[..n] == data[..n];
    } else if D(data, 1) != 0x4f && D(data, 1) != 0x5b {
      var s, t := data[1..], other[1..];
      Utf8Local(s, t);
      assert s[..n - 1] == head[1..] && t[..n - 1] == other[1..n];
      assert forall i :: 0 <= i < n - 1 ==> t[i] == s[i];
      assert s[..n - 1] <= t;
      assert other[1..n] == data[1..n];
    } else {
      EscapeDepends(data, other);
    }
  }

  lemma EscapeDepends(data: seq<Byte>, other: seq<Byte>)
    requires data != [] && data[0] == 0x1b && (D(data, 1) == 0x4f || D(data, 1) == 0x5b)
    requires IsKey(Decode(data)) && Decode(data).read <= |data| && Decode(data).read <= |other|
    requires forall i :: 0 <= i < Decode(data).read ==> D(other, i) == D(data, i)
    ensures Decode(other) == Decode(data)
  {
    assert D(other, 0) == D(data, 0) && D(other, 1) == D(data, 1);
    assert D(other, 2) == D(data, 2);
    var n := Decode(data).read;
    assert n > 3 ==> D(other, 3) == D(data, 3);
    assert n > 4 ==> D(other, 4) == D(data, 4);
    assert n > 5 ==> D(other, 5) == D(data, 5);
    assert n > 6 ==> D(other, 6) == D(data, 6);
  }

  // ---- The documented table ----

  function ModByte(mods: Mods): Byte {
    if mods == 2 then 0x32 else if mods == 4 then 0x33 else if mods == 6 then 0x34 else if mods == 1 then 0x35
    else if mods == 3 then 0x36 else if mods == 5 then 0x37 else 0x38
  }

  /** `;` and the modifier, if there is one, then `~`. */
  function Suffix7e(mods: Mods): seq<Byte> {
    if mods == 0 then [0x7e] else [0x3b, ModByte(mods), 0x7e]
  }

  function KeyBytes(key: Key): seq<Byte> {
    match key
    case 1 => [0x33]
    case 2 => [0x32]
    case 3 => [0x41]
    case 4 => [0x42]
    case 5 => [0x43]
    case 6 => [0x44]
    case 7 => [0x48]
    case 8 => [0x46]
    case 9 => [0x35]
    case 10 => [0x36]
    case 15 => [0x31, 0x35]
    case 16 => [0x31, 0x37]
    case 17 => [0x31, 0x38]
    case 18 => [0x31, 0x39]
    case 19 => [0x32, 0x30]
    case 20 => [0x32, 0x31]
    case 21 => [0x32, 0x33]
    case 22 => [0x32, 0x34]
    case _ => [0x50 + key - 11]
  }

  /** The sequence of a virtual key with modifiers. */
  function EncodeKey(key: Key, mods: Mods): seq<Byte> {
    if 11 <= key <= 14 then
      [0x1b, 0x4f] + (if mods == 0 then [] else [ModByte(mods)]) + KeyBytes(key)
    else if 3 <= key <= 8 then
      [0x1b, 0x5b] + (if mods == 0 then [] else [0x31, 0x3b, ModByte(mods)]) + KeyBytes(key)
    else
      [0x1b, 0x5b] + KeyBytes(key) + Suffix7e(mods)
  }

  /** What the user does: a character, a character with Alt, a virtual key, or a paste. */
  datatype Event =
    | Char(c: seq<Byte>)
    | AltChar(c: seq<Byte>)
    | Virtual(key: Key, mods: Mods)
    | Paste(start: bool)

  function Encode(e: Event): seq<Byte> {
    match e
    case Char(c) => c
    case AltChar(c) => [0x1b] + c
    case Virtual(key, mods) => EncodeKey(key, mods)
    case Paste(start) => [0x1b, 0x5b, 0x32, 0x30, if start then 0x30 else 0x31, 0x7e]
  }

  function CodeOf(e: Event): int {
    match e
    case Char(c) => Packed(c)
    case AltChar(c) => ALT + Packed(c)
    case Virtual(key, mods) => VirtCode(key, mods)
    case Paste(_) => TEXT_PASTED
  }

  /** Plain NUL and plain ESC have no sequence of their own, nor have Alt+O, Alt+[ and Alt with four bytes. */
  predicate Encodable(e: Event) {
    match e
    case Char(c) => IsChar(c) && c[0] != 0 && c[0] != 0x1b
    case AltChar(c) => IsChar(c) && |c| <= 3 && c[0] != 0x4f && c[0] != 0x5b
    case _ => true
  }

  lemma PackedBound(c: seq<Byte>)
    requires 1 <= |c| <= 4
    ensures 0 <= Packed(c)
    ensures Packed(c) < (if |c| == 1 then 0x100 else if |c| == 2 then 0x10000 else if |c| == 3 then 0x1000000
                         else 0x100000000)
    ensures Packed(c) == 0 ==> c[0] == 0
    ensures |c| == 4 ==> 0x1000000 * (c[3] as int) <= Packed(c) < 0x1000000 * (c[3] as int + 1)
  {
    PackedFrom(c, 0);
    PackedFrom(c, 1);
    PackedFrom(c, 2);
    PackedFrom(c, 3);
    assert c[0..] == c;
  }

  lemma PackedFrom(c: seq<Byte>, i: nat)
    ensures i < |c| ==> Packed(c[i..]) == c[i] as int + 256 * Packed(c[i + 1..])
  {
    assert i < |c| ==> c[i..][1..] == c[i + 1..];
  }

  lemma CharDecodes(c: seq<Byte>)
    requires IsChar(c)
    ensures 1 <= |c| <= 4 && (|c| == 4 ==> Continuation(c[3]))
    ensures c[0] != 0x1b ==> Decode(c) == Result(Packed(c), |c|)
    ensures c[0] != 0x4f && c[0] != 0x5b && |c| <= 3 ==> Decode([0x1b] + c) == Result(ALT + Packed(c), 1 + |c|)
  {
    assert c[..|c|] == c;
    assert ([0x1b] + c)[1..] == c && ([0x1b] + c)[1..1 + |c|] == c;
  }

  lemma ArrowDecodes(key: Key, mods: Mods)
    requires 3 <= key <= 8
    ensures Decode(EncodeKey(key, mods)) == Result(VirtCode(key, mods), |EncodeKey(key, mods)|)
  {
  }

  lemma TildeDecodes(key: Key, mods: Mods)
    requires key <= 2 || key == 9 || key == 10 || 15 <= key
    ensures Decode(EncodeKey(key, mods)) == Result(VirtCode(key, mods), |EncodeKey(key, mods)|)
  {
  }

  lemma KeyDecodes(key: Key, mods: Mods)
    ensures Decode(EncodeKey(key, mods)) == Result(VirtCode(key, mods), |EncodeKey(key, mods)|)
  {
    if 3 <= key <= 8 {
      ArrowDecodes(key, mods);
    } else if key <= 10 || 15 <= key {
      TildeDecodes(key, mods);
    }
  }

  /** One sequence is decoded to its event, completely. */
  lemma EventDecodes(e: Event)
    requires Encodable(e)
    ensures Decode(Encode(e)) == Result(CodeOf(e), |Encode(e)|) && IsKey(Decode(Encode(e)))
  {
    match e
    case Char(c) => CharDecodes(c); PackedBound(c);
    case AltChar(c) => CharDecodes(c); PackedBound(c);
    case Virtual(key, mods) => KeyDecodes(key, mods);
    case Paste(_) =>
  }

  // ---- Streams ----

  function EncodeAll(events: seq<Event>): seq<Byte> {
    if events == [] then [] else Encode(events[0]) + EncodeAll(events[1..])
  }

  function CodesOf(events: seq<Event>): seq<int> {
    if events == [] then [] else [CodeOf(events[0])] + CodesOf(events[1..])
  }

  /** A caller that parses as long as it gets keys. */
  function DecodeAll(data: seq<Byte>): seq<int>
    decreases |data|
  {
    var r := Decode(data);
    if !IsKey(r) || !(1 <= r.read <= |data|) then [] else [r.code] + DecodeAll(data[r.read..])
  }

  ghost predicate AllEncodable(events: seq<Event>) {
    forall i :: 0 <= i < |events| ==> Encodable(events[i])
  }

  /** Every list of key events comes back from the stream of its sequences. */
  lemma {:induction false} StreamRoundTrip(events: seq<Event>)
    requires AllEncodable(events)
    ensures DecodeAll(EncodeAll(events)) == CodesOf(events)
  {
    if events != [] {
      var e, rest := events[0], EncodeAll(events[1..]);
      var enc := Encode(e);
      EventDecodes(e);
      ReadBounds(enc);
      assert enc[..|enc|] == enc <= enc + rest;
      DependsOnConsumed(enc, enc + rest);
      assert (enc + rest)[|enc|..] == rest;
      StreamRoundTrip(events[1..]);
    }
  }

  // ---- Codes identify events ----

  lemma {:induction false} PackedInjective(c: seq<Byte>, d: seq<Byte>)
    requires |c| == |d| && Packed(c) == Packed(d)
    ensures c == d
  {
    if c != [] {
      assert c[0] as int - d[0] as int == 256 * (Packed(d[1..]) - Packed(c[1..]));
      PackedInjective(c[1..], d[1..]);
      assert c == [c[0]] + c[1..] && d == [d[0]] + d[1..];
    }
  }

  lemma CharsInjective(c: seq<Byte>, d: seq<Byte>)
    requires IsChar(c) && IsChar(d) && Packed(c) == Packed(d)
    ensures c == d
  {
    assert c[0] as int - d[0] as int == 256 * (Packed(d[1..]) - Packed(c[1..]));
    assert c[0] == d[0];
    PackedInjective(c, d);
  }

  /** The range of codes of each kind of event; the ranges do not overlap. */
  lemma CodeRange(e: Event)
    requires Encodable(e)
    ensures match e
            case Char(c) => 0 < CodeOf(e) < 0x1000000 || 0x80000000 <= CodeOf(e) < 0xc0000000
            case AltChar(c) => ALT <= CodeOf(e) < ALT + 0x1000000
            case Virtual(key, mods) => VIRT < CodeOf(e) < VIRT + 0x8000000 && 1 <= CodeOf(e) % 0x1000000 <= 22
            case Paste(_) => CodeOf(e) == VIRT + 23
  {
    match e
    case Char(c) => CharDecodes(c); PackedBound(c);
    case AltChar(c) => CharDecodes(c); PackedBound(c);
    case _ =>
  }

  /** Different events have different codes, except that both ends of a paste have the same. */
  lemma CodesIdentify(a: Event, b: Event)
    requires Encodable(a) && Encodable(b) && CodeOf(a) == CodeOf(b)
    ensures a == b || (a.Paste? && b.Paste?)
  {
    CodeRange(a);
    CodeRange(b);
    match (a, b)
    case (Char(c), Char(d)) => CharsInjective(c, d);
    case (AltChar(c), AltChar(d)) => CharsInjective(c, d);
    case _ =>
  }

  // ---- Where the code and its documentation differ ----

  /**
    A sequence that is cut off is "not enough data" exactly after its first byte, and anywhere in a
    character, with or without Alt. A virtual key or a paste cut off later is an error.
   */
  lemma CutOff(e: Event, n: nat)
    requires Encodable(e) && 1 <= n < |Encode(e)|
    ensures Decode(Encode(e)[..n]).code == if n == 1 || e.Char? || e.AltChar? then 0 else ERROR
  {
    match e
    case Char(c) => CutOffChar(c, n);
    case AltChar(c) =>
      assert Encode(e)[..n] == [0x1b] + c[..n - 1];
      if n > 1 {
        CutOffAltChar(c, n - 1);
      }
    case _ => CutOffKey(e, n);
  }

  lemma CutOffChar(c: seq<Byte>, n: nat)
    requires IsChar(c) && 1 <= n < |c|
    ensures Utf8(c[..n]) == -1 && Decode(c[..n]).code == 0
  {
    assert c[..n][0] == c[0];
  }

  lemma CutOffAltChar(c: seq<Byte>, n: nat)
    requires IsChar(c) && 1 <= n < |c|
    ensures Decode([0x1b] + c[..n]).code == 0
  {
    CutOffChar(c, n);
    var data := [0x1b] + c[..n];
    assert data[1..] == c[..n] && data[1] == c[0];
  }

  lemma CutOffKey(e: Event, n: nat)
    requires (e.Virtual? || e.Paste?) && 1 <= n < |Encode(e)|
    ensures Decode(Encode(e)[..n]).code == if n == 1 then 0 else ERROR
  {
    var enc, part := Encode(e), Encode(e)[..n];
    assert forall i :: 0 <= i < n ==> part[i] == enc[i];
    if n == 1 {
      assert part[1..] == [];
    } else {
      assert D(part, 0) == enc[0] == 0x1b && D(part, 1) == enc[1] && (enc[1] == 0x4f || enc[1] == 0x5b);
      assert D(part, 2) == if 2 < n then enc[2] else 0;
      assert D(part, 3) == if 3 < n then enc[3] else 0;
      assert D(part, 4) == if 4 < n then enc[4] else 0;
      assert D(part, 5) == if 5 < n then enc[5] else 0;
      assert D(part, 6) == 0;
    }
  }

  /** A plain byte below 0x80 is decoded as itself, whatever follows, exactly when it is neither NUL nor ESC. */
  lemma PlainByteIff(b: Byte)
    requires b < 0x80
    ensures (forall rest :: Decode([b] + rest) == Result(b, 1) && IsKey(Decode([b] + rest))) <==> b != 0 && b != 0x1b
  {
    if b == 0 || b == 0x1b {
      var rest: seq<Byte> := [];
      assert [b] + rest == [b];
      CharDecodes([b]);
    } else {
      forall rest
        ensures Decode([b] + rest) == Result(b, 1) && IsKey(Decode([b] + rest))
      {
        assert ([b] + rest)[..1] == [b];
        assert Packed([b]) == b;
      }
    }
  }
}
