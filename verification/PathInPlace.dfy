/**
  `ffpath_normalize` on arrays. `dst` and `src` may be the same array: the write
  index never passes the offset of the component being read, so the bytes still to
  be read are never overwritten.
 */
module PathInPlace {
  import opened PathSyntax
  import opened PathNormalize
  import opened PathTheorems

  /** The verbatim copy of device and UNC paths. */
  method Copy(dst: array<char>, cap: nat, src: array<char>, len: nat) returns (r: int)
    requires cap <= dst.Length && len <= src.Length
    modifies dst
    ensures if len > cap then r == -1 else r == len && dst[..len] == old(src[..len])
    ensures forall i :: 0 <= i < dst.Length && (i >= len || i >= cap) ==> dst[i] == old(dst[i])
  {
    if len > cap {
      return -1;
    }
    if dst != src {
      forall i | 0 <= i < len {
        dst[i] := src[i];
      }
    }
    return len;
  }

  /** The branches taken at "..": the new write index, and whether ".." is written there. */
  method AtParent(cfg: Config, dst: array<char>, k: nat) returns (k': nat, write: bool)
    requires k <= dst.Length
    ensures k' <= k
    ensures AtDotDot(cfg, dst[..k]) == if write then Write(dst[..k']) else Drop(dst[..k'])
  {
    if k != 0 {
      assert dst[..k][..k - 1] == dst[..k - 1];
      var slash := LastSep(cfg, dst[..k - 1]);
      assert dst[..k][slash + 1..k - 1] == dst[slash + 1..k - 1];
      if slash < 0 {
        var prev := dst[..k - 1];
        if prev == "." {
          return 0, true;
        } else if prev == ".." {
          return k, true;
        } else if k == 1 {
          return k, false;
        } else if cfg.disk && prev[|prev| - 1] == ':' {
          return k, false;
        } else {
          return 0, false;
        }
      } else {
        var prev := dst[slash + 1..k - 1];
        if prev == ".." {
          return k, true;
        } else {
          assert dst[..k][..slash + 1] == dst[..slash + 1];
          return slash + 1, false;
        }
      }
    } else if cfg.simple {
      return k, false;
    }
    return k, true;
  }

  /** The overlapping move of a component's bytes down to the write index. */
  method MoveDown(dst: array<char>, k: nat, src: array<char>, off: nat, n: nat)
    requires k <= off && off + n <= src.Length && k + n <= dst.Length
    modifies dst
    ensures dst[..k + n] == old(dst[..k]) + old(src[off..off + n])
    ensures forall i :: k + n <= i < dst.Length ==> dst[i] == old(dst[i])
    ensures forall i :: off + n <= i < src.Length ==> src[i] == old(src[i])
  {
    forall i | 0 <= i < n {
      dst[k + i] := src[off + i];
    }
    assert dst[k..k + n] == old(src[off..off + n]);
    assert dst[..k + n] == dst[..k] + dst[k..k + n];
  }

  /** Writes a component and its separator; the input from `next` on is still intact afterwards. */
  method Emit(cfg: Config, dst: array<char>, k: nat, src: array<char>, off: nat, n: nat, next: nat, len: nat)
    requires k <= off && off + n <= next <= off + n + 1
    requires next <= len <= src.Length && k + (next - off) <= dst.Length
    modifies dst
    ensures dst[..k + (next - off)] == old(dst[..k]) + old(src[off..off + n]) 
            + (if next == off + n then [] else [OutSep(cfg, old(src[off + n]))])
    ensures forall i :: k + (next - off) <= i < dst.Length ==> dst[i] == old(dst[i])
    ensures src[next..len] == old(src[next..len])
  {
    MoveDown(dst, k, src, off, n);
    if next != off + n {
      dst[k + n] := OutSep(cfg, src[off + n]);
    }
  }

  lemma PeakCovers(cfg: Config, st: State, s: string)
    ensures |st.out| <= Peak(cfg, st, s)
  {
  }

  /** The decisions of one iteration: the component is written at `k'`, or only the index moves there. */
  method Decide(cfg: Config, dst: array<char>, k: nat, simplify: bool, skipDisk: bool, part: string, ghost term: string)
    returns (write: bool, k': nat, simplify': bool, skipDisk': bool)
    requires k <= dst.Length
    ensures k' <= k
    ensures Step(cfg, State(dst[..k], simplify, skipDisk), Component(part, term))
         == State(if write then dst[..k'] + part + term else dst[..k'], simplify', skipDisk')
  {
    write, k', simplify', skipDisk' := false, k, true, skipDisk;
    if simplify {
      if part == "" || part == "." {
        return;
      }
      if skipDisk {
        skipDisk' := false;
        if part[|part| - 1] == ':' {
          return;
        }
      }
    }
    if part == ".." {
      k', write := AtParent(cfg, dst, k);
    } else {
      write := true;
    }
  }

  /** `ffstr_splitbyany`: the component `src[off..off + n]`, and where the rest starts. */
  method Split(cfg: Config, src: array<char>, off: nat, len: nat) returns (n: nat, next: nat)
    requires off < len <= src.Length
    ensures off < next <= len && off + n <= next <= off + n + 1
    ensures Written(cfg, Head(cfg, src[off..len]))
         == Component(src[off..off + n], if next == off + n then [] else [OutSep(cfg, src[off + n])])
    ensures Tail(cfg, src[off..len]) == src[next..len]
  {
    var rest := src[off..len];
    n := FirstSep(cfg, rest);
    var ends := n == |rest|;
    next := if ends then len else off + n + 1;
    assert rest[..n] == src[off..off + n];
    assert rest[next - off..] == src[next..len];
  }

  /** One iteration: `false` exactly when the next text does not fit, otherwise the next state. */
  method Iterate(cfg: Config, dst: array<char>, cap: nat, src: array<char>, len: nat,
                 k: nat, off: nat, simplify: bool, skipDisk: bool)
    returns (ok: bool, k': nat, off': nat, simplify': bool, skipDisk': bool)
    requires k <= off < len <= src.Length && k <= cap <= dst.Length
    modifies dst
    ensures ok == (|Next(cfg, State(old(dst[..k]), simplify, skipDisk), old(src[off..len])).out| <= cap)
    ensures ok ==> off < off' && k' <= off' <= len && k' <= cap
    ensures ok ==>
              Next(cfg, State(old(dst[..k]), simplify, skipDisk), old(src[off..len]))
              == State(dst[..k'], simplify', skipDisk')
    ensures ok ==> src[off'..len] == Tail(cfg, old(src[off..len]))
    ensures !ok ==> dst[..] == old(dst[..])
    ensures ok ==> forall i :: k' <= i < dst.Length && k <= i ==> dst[i] == old(dst[i])
  {
    var n, next := Split(cfg, src, off, len);
    var part := src[off..off + n];
    ghost var term := if next == off + n then [] else [OutSep(cfg, src[off + n])];
    var write;
    write, k', simplify', skipDisk' := Decide(cfg, dst, k, simplify, skipDisk, part, term);
    ok, off' := true, next;
    if write {
      if k' + (next - off) > cap {
        ok := false;
      } else {
        ghost var kept := dst[..k'];
        Emit(cfg, dst, k', src, off, n, next, len);
        k' := k' + (next - off);
        assert dst[..k'] == kept + part + term;
      }
    }
  }

  /** What is left to do from `st` on is what the whole call is to do, the needed room included. */
  predicate OnCourse(cfg: Config, st: State, rest: string, goal: string, room: nat, cap: nat) {
    && Run(cfg, st, rest).out == goal
    && Peak(cfg, st, rest) <= room && (Peak(cfg, st, rest) > cap <==> room > cap)
  }

  lemma OnCourseNext(cfg: Config, st: State, rest: string, goal: string, room: nat, cap: nat)
    requires rest != [] && OnCourse(cfg, st, rest, goal, room, cap) && |st.out| <= cap
    ensures OnCourse(cfg, Next(cfg, st, rest), Tail(cfg, rest), goal, room, cap)
    ensures |Next(cfg, st, rest).out| <= room && |st.out| <= room
    ensures |Next(cfg, st, rest).out| > cap ==> room > cap
  {
    PeakCovers(cfg, Next(cfg, st, rest), Tail(cfg, rest));
  }

  /** The rewriting loop. */
  method Rewrite(cfg: Config, dst: array<char>, cap: nat, src: array<char>, len: nat) returns (r: int)
    requires cap <= dst.Length && len <= src.Length
    modifies dst
    ensures var s := old(src[..len]);
            if Peak(cfg, Initial(cfg), s) > cap then r == -1
            else 0 <= r <= cap && r == |Run(cfg, Initial(cfg), s).out| && dst[..r] == Run(cfg, Initial(cfg), s).out
    ensures forall i :: 0 <= i < dst.Length && (i >= Peak(cfg, Initial(cfg), old(src[..len])) || i >= cap)
              ==> dst[i] == old(dst[i])
  {
    ghost var s := src[..len];
    ghost var goal, room := Run(cfg, Initial(cfg), s).out, Peak(cfg, Initial(cfg), s);
    var k, off, simplify, skipDisk := 0, 0, cfg.simple, cfg.disk && cfg.simple;
    assert src[0..len] == s && dst[..0] == [];
    while off != len
      invariant 0 <= k <= off <= len && k <= cap
      invariant OnCourse(cfg, State(dst[..k], simplify, skipDisk), src[off..len], goal, room, cap)
      invariant forall i :: 0 <= i < dst.Length && (i >= room || i >= cap) ==> dst[i] == old(dst[i])
      decreases len - off
    {
      OnCourseNext(cfg, State(dst[..k], simplify, skipDisk), src[off..len], goal, room, cap);
      var ok;
      ok, k, off, simplify, skipDisk := Iterate(cfg, dst, cap, src, len, k, off, simplify, skipDisk);
      if !ok {
        return -1;
      }
    }
    assert src[off..len] == [];
    return k;
  }

  /**
    For every input, capacity and flags, and whether or not `dst` is `src`: -1 exactly when the
    needed room exceeds `cap`, otherwise the bytes of `Normalized`; nothing is written at or past
    the needed room.
   */
  method Normalize(dst: array<char>, cap: nat, src: array<char>, len: nat, flags: bv32, windows: bool)
    returns (r: int)
    requires cap <= dst.Length && len <= src.Length
    modifies dst
    ensures var cfg, s := Decode(flags, windows), old(src[..len]);
            if Room(cfg, s) > cap then r == -1
            else 0 <= r <= cap && r == |Normalized(cfg, s)| && dst[..r] == Normalized(cfg, s)
    ensures forall i :: 0 <= i < dst.Length && (i >= Room(Decode(flags, windows), old(src[..len])) || i >= cap)
              ==> dst[i] == old(dst[i])
    ensures len <= cap ==> r >= 0
  {
    var cfg := Decode(flags, windows);
    RoomBounds(cfg, src[..len]);
    if cfg.disk && len > 2 && src[0] == '\\' && src[1] == '\\' {
      r := Copy(dst, cap, src, len);
    } else {
      r := Rewrite(cfg, dst, cap, src, len);
    }
  }
}
