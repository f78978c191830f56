/**
  Expansion of `$NAME` in a text into a caller's buffer, on UNIX: `_ffsvar_next`, `_ffenv_val` and
  `ffenv_expand`.
 */
module EnvExpand {
  import opened Basics

  /** "a-z A-Z 0-9 _" */
  predicate IsNameChar(c: char) {
    'a' <= c <= 'z' || 'A' <= c <= 'Z' || '0' <= c <= '9' || c == '_'
  }

  /** The characters of a name, in the codes of ASCII: letters, digits and the underscore. */
  lemma NameCharacters(c: char)
    ensures var n := c as int;
            IsNameChar(c) <==> 0x61 <= n <= 0x7a || 0x41 <= n <= 0x5a || 0x30 <= n <= 0x39 || n == 0x5f
  {
  }

  predicate IsName(s: string) {
    forall i :: 0 <= i < |s| ==> IsNameChar(s[i])
  }

  predicate NoDollar(s: string) {
    forall i :: 0 <= i < |s| ==> s[i] != '$'
  }

  /** Length of the text before the first "$". */
  function TextLength(s: string): (n: nat)
    ensures n <= |s|
    ensures forall i :: 0 <= i < n ==> s[i] != '$'
    ensures n < |s| ==> s[n] == '$'
  {
    if s == [] || s[0] == '$' then 0
    else
      assert forall i :: 0 < i < |s| ==> s[i] == s[1..][i - 1];
      1 + TextLength(s[1..])
  }

  /** Length of the leading name. */
  function NameLength(s: string): (n: nat)
    ensures n <= |s|
    ensures forall i :: 0 <= i < n ==> IsNameChar(s[i])
    ensures n < |s| ==> !IsNameChar(s[n])
  {
    if s == [] || !IsNameChar(s[0]) then 0
    else
      assert forall i :: 0 < i < |s| ==> s[i] == s[1..][i - 1];
      1 + NameLength(s[1..])
  }

  /** Length of the next token: text up to a "$", or "$" and the longest name after it. */
  function TokenLength(s: string): (n: nat)
    requires s != []
    ensures 1 <= n <= |s|
  {
    if s[0] != '$' then TextLength(s) else 1 + NameLength(s[1..])
  }

  /** `_ffsvar_next`: never an empty token, and nothing is lost between the token and the rest. */
  method NextToken(s: string) returns (token: string, rest: string)
    requires s != []
    ensures token != [] && token + rest == s && |token| == TokenLength(s)
  {
    if s[0] != '$' {
      var pos := TextLength(s);
      return s[..pos], s[pos..];
    }
    var i := 1;
    while i < |s|
      invariant 1 <= i <= |s| && forall j :: 1 <= j < i ==> IsNameChar(s[j])
    {
      if !IsNameChar(s[i]) {
        break;
      }
      i := i + 1;
    }
    NameLengthIs(s[1..], i - 1);
    return s[..i], s[i..];
  }

  lemma NameLengthIs(s: string, n: nat)
    requires n <= |s| && (forall i :: 0 <= i < n ==> IsNameChar(s[i])) && (n < |s| ==> !IsNameChar(s[n]))
    ensures NameLength(s) == n
  {
  }

  // ---- The environment ----

  /** `entry` is "key=value". */
  predicate Defines(entry: string, key: string) {
    key < entry && entry[|key|] == '='
  }

  /** An entry defines a key exactly if it is that key, "=" and a value. */
  lemma DefinesIff(entry: string, key: string)
    ensures Defines(entry, key) <==> exists value :: entry == key + "=" + value
  {
    if Defines(entry, key) {
      assert entry == key + "=" + entry[|key| + 1..];
    }
  }

  /** The value of the first entry for `key`. */
  function ValueOf(env: seq<string>, key: string): Option<string> {
    if env == [] then None
    else if Defines(env[0], key) then Some(env[0][|key| + 1..])
    else ValueOf(env[1..], key)
  }

  /** `_ffenv_val`. */
  method FindValue(env: seq<string>, key: string) returns (r: Option<string>)
    ensures r == ValueOf(env, key)
    ensures r == None ==> forall i :: 0 <= i < |env| ==> !Defines(env[i], key)
    ensures r.Some? ==> exists i :: 0 <= i < |env| && Defines(env[i], key) && env[i] == key + "=" + r.value
                                    && forall j :: 0 <= j < i ==> !Defines(env[j], key)
  {
    assert env[0..] == env;
    for i := 0 to |env|
      invariant ValueOf(env[i..], key) == ValueOf(env, key)
      invariant forall j :: 0 <= j < i ==> !Defines(env[j], key)
    {
      assert env[i..][0] == env[i] && env[i..][1..] == env[i + 1..];
      var e := env[i];
      if key < e && e[|key|] == '=' {
        assert Defines(env[i], key) && e == key + "=" + e[|key| + 1..];
        return Some(e[|key| + 1..]);
      }
    }
    return None;
  }

  // ---- The expansion ----

  /** What a token is replaced by: the value of a variable, nothing for an unknown one or a lone "$". */
  function Replacement(env: seq<string>, token: string): string
    requires token != []
  {
    if token[0] != '$' then token
    else
      match ValueOf(env, token[1..])
      case Some(value) => if token == "$" then [] else value
      case None => []
  }

  function Expansion(env: seq<string>, s: string): string
    decreases |s|
  {
    if s == [] then []
    else
      var n := TokenLength(s);
      Replacement(env, s[..n]) + Expansion(env, s[n..])
  }

  /** `ffstr_add2`: appends as much of `s` as fits. */
  method AddTruncated(dst: array<char>, k: nat, cap: nat, s: string) returns (k': nat)
    requires k <= cap <= dst.Length
    modifies dst
    ensures k' == Min(k + |s|, cap) && dst[..k'] == (old(dst[..k]) + s)[..k']
  {
    var n := Min(|s|, cap - k);
    forall i | 0 <= i < n {
      dst[k + i] := s[i];
    }
    assert dst[..k] == old(dst[..k]);
    assert dst[k..k + n] == s[..n];
    assert dst[..k + n] == dst[..k] + dst[k..k + n];
    return k + n;
  }

  lemma TruncateAppend(e: string, s: string, cap: nat)
    ensures var out := e[..Min(|e|, cap)];
            var k := Min(|out| + |s|, cap);
            k == Min(|e + s|, cap) && (out + s)[..k] == (e + s)[..k]
  {
  }

  /**
    `ffenv_expand` with a caller's buffer: it succeeds exactly when the whole expansion and its NUL fit,
    and then writes just that.
   */
  method Expand(env: seq<string>, dst: array<char>, cap: nat, src: string) returns (ok: bool)
    requires cap <= dst.Length
    modifies dst
    ensures ok <==> |Expansion(env, src)| + 1 <= cap
    ensures ok ==> dst[..|Expansion(env, src)| + 1] == Expansion(env, src) + ['\0']
  {
    ghost var all := Expansion(env, src);
    ghost var done := "";
    var rest, k := src, 0;
    while |rest| != 0
      invariant done + Expansion(env, rest) == all
      invariant k == Min(|done|, cap) && dst[..k] == done[..k]
      decreases |rest|
    {
      var token, rest' := NextToken(rest);
      assert rest[..|token|] == token && rest[|token|..] == rest';
      ghost var replacement := Replacement(env, token);
      Assoc(done, replacement, Expansion(env, rest'));
      TruncateAppend(done, replacement, cap);
      rest := rest';
      if token[0] == '$' {
        var name := token[1..];
        if |name| == 0 {
          assert token == "$";
          assert done + replacement == done;
          continue;
        }
        var val := FindValue(env, name);
        token := if val.Some? then val.value else [];
      }
      assert token == replacement;
      k := AddTruncated(dst, k, cap, token);
      done := done + replacement;
    }
    assert done == all;
    if k == cap {
      return false;
    }
    ghost var out := dst[..k];
    dst[k] := '\0';
    assert dst[..k] == out == all;
    return true;
  }

  lemma Assoc(x: string, y: string, z: string)
    ensures x + (y + z) == x + y + z
  {
  }

  // ---- What the expansion is ----

  lemma TextLengthIs(t: string, rest: string)
    requires NoDollar(t) && (rest == [] || rest[0] == '$')
    ensures TextLength(t + rest) == |t|
  {
    var s := t + rest;
    assert forall i :: 0 <= i < |t| ==> s[i] == t[i];
    assert rest != [] ==> s[|t|] == rest[0];
  }

  /** Text without "$" stays as it is. */
  lemma TextIsKept(env: seq<string>, t: string, rest: string)
    requires NoDollar(t) && (rest == [] || rest[0] == '$')
    ensures Expansion(env, t + rest) == t + Expansion(env, rest)
  {
    if t == [] {
      assert t + rest == rest;
    } else {
      var s := t + rest;
      TextLengthIs(t, rest);
      assert s[0] == t[0];
      assert s[..|t|] == t && s[|t|..] == rest;
    }
  }

  /** A variable is replaced by the value of its first definition, which is not expanded again. */
  lemma VariableIsReplaced(env: seq<string>, name: string, rest: string)
    requires IsName(name) && name != [] && (rest == [] || !IsNameChar(rest[0]))
    ensures Expansion(env, "$" + name + rest) ==
              (match ValueOf(env, name) case Some(value) => value case None => "") + Expansion(env, rest)
  {
    var s := "$" + name + rest;
    NameThenRest(s, name, rest);
  }

  lemma NameThenRest(s: string, name: string, rest: string)
    requires IsName(name) && (rest == [] || !IsNameChar(rest[0])) && s == "$" + name + rest
    ensures TokenLength(s) == 1 + |name| && s[..1 + |name|] == "$" + name && s[1 + |name|..] == rest
    ensures ("$" + name)[1..] == name
  {
    var tail := name + rest;
    assert s[1..] == tail;
    assert forall i :: 0 <= i < |name| ==> tail[i] == name[i];
    assert rest != [] ==> tail[|name|] == rest[0];
    NameLengthIs(tail, |name|);
  }

  /** A "$" that no name follows is dropped. */
  lemma LoneDollarIsDropped(env: seq<string>, rest: string)
    requires rest == [] || !IsNameChar(rest[0])
    ensures Expansion(env, "$" + rest) == Expansion(env, rest)
  {
    var s := "$" + rest;
    assert s == "$" + "" + rest;
    NameThenRest(s, "", rest);
    assert s[..1] == "$";
    assert Replacement(env, "$") == [];
  }
}
