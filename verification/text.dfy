/** The string helpers the downloader takes from Python's `str` type:
    `strip()`, `index(':')`, `split('/')[-1]` and `endswith('/')`, and the
    percent-escaping the corrected segment naming uses. */
module Text {
  import opened Wrappers

  /** The characters for which Python's `str.isspace()` holds; `str.strip()`
      with no argument removes exactly these from both ends. */
  predicate IsSpace(c: char) {
    || ('\U{9}' <= c <= '\U{D}')
    || ('\U{1C}' <= c <= '\U{20}')
    || c == '\U{85}' || c == '\U{A0}' || c == '\U{1680}'
    || ('\U{2000}' <= c <= '\U{200A}')
    || c == '\U{2028}' || c == '\U{2029}' || c == '\U{202F}'
    || c == '\U{205F}' || c == '\U{3000}'
  }

  predicate AllSpace(s: string) {
    forall i :: 0 <= i < |s| ==> IsSpace(s[i])
  }

  /** Neither end of `s` is whitespace. */
  predicate Trimmed(s: string) {
    |s| == 0 || (!IsSpace(s[0]) && !IsSpace(s[|s| - 1]))
  }

  /** `r` is what remains of `s` once whitespace-only margins are cut away. */
  ghost predicate StrippedFrom(r: string, s: string) {
    && Trimmed(r)
    && |r| <= |s|
    && exists i :: 0 <= i <= |s| - |r| && s[i..i + |r|] == r
                   && AllSpace(s[..i]) && AllSpace(s[i + |r|..])
  }

  /** Python's `s.lstrip()`. */
  function TrimStart(s: string): (r: string)
    ensures |r| <= |s|
  {
    if |s| > 0 && IsSpace(s[0]) then TrimStart(s[1..]) else s
  }

  /** `TrimStart` removes a whitespace-only prefix and stops at the first
      character that is not whitespace. */
  lemma {:induction false} TrimStartShape(s: string)
    ensures var r := TrimStart(s);
      && r == s[|s| - |r|..]
      && AllSpace(s[..|s| - |r|])
      && (|r| > 0 ==> !IsSpace(r[0]))
  {
    if |s| > 0 && IsSpace(s[0]) {
      TrimStartShape(s[1..]);
      var r := TrimStart(s);
      assert s[..|s| - |r|] == [s[0]] + s[1..][..|s| - 1 - |r|];
    }
  }

  /** Python's `s.rstrip()`. */
  function TrimEnd(s: string): (r: string)
    ensures |r| <= |s|
  {
    if |s| > 0 && IsSpace(s[|s| - 1]) then TrimEnd(s[..|s| - 1]) else s
  }

  /** `TrimEnd` removes a whitespace-only suffix and stops at the last
      character that is not whitespace. */
  lemma {:induction false} TrimEndShape(s: string)
    ensures var r := TrimEnd(s);
      && r == s[..|r|]
      && AllSpace(s[|r|..])
      && (|r| > 0 ==> !IsSpace(r[|r| - 1]))
  {
    if |s| > 0 && IsSpace(s[|s| - 1]) {
      var q := s[..|s| - 1];
      TrimEndShape(q);
      var r := TrimEnd(s);
      assert s[|r|..] == q[|r|..] + [s[|s| - 1]];
    }
  }

  /** Python's `s.strip()`. */
  function Strip(s: string): (r: string)
    ensures |r| <= |s|
  {
    TrimEnd(TrimStart(s))
  }

  /** `Strip` cuts whitespace-only margins and nothing else, and leaves no
      whitespace at either end. */
  lemma StripShape(s: string)
    ensures StrippedFrom(Strip(s), s)
  {
    var t := TrimStart(s);
    var r := TrimEnd(t);
    TrimStartShape(s);
    TrimEndShape(t);
    if |r| == 0 {
      assert t[|r|..] == t;
      assert |t| == 0;
      assert s[..|s|] == s;
      assert s[0..0] == r && s[..0] == [] && s[0..] == s;
      assert StrippedFrom(r, s);
    } else {
      var i := |s| - |t|;
      assert s[i..i + |r|] == r;
      assert s[i + |r|..] == t[|r|..];
      assert AllSpace(s[..i]);
      assert AllSpace(s[i + |r|..]);
    }
  }

  /** Stripping a trimmed text padded with whitespace on both sides gives
      back that text: this determines `Strip` completely. */
  lemma {:induction false} StripPadded(a: string, t: string, b: string)
    requires AllSpace(a) && AllSpace(b) && Trimmed(t)
    ensures Strip(a + t + b) == t
  {
    var s := a + t + b;
    var u := TrimStart(s);
    TrimStartShape(s);
    TrimEndShape(u);
    if |t| == 0 {
      assert AllSpace(s) by {
        forall j | 0 <= j < |s|
          ensures IsSpace(s[j])
        {
          if j < |a| { assert s[j] == a[j]; } else { assert s[j] == b[j - |a|]; }
        }
      }
      assert |u| == 0;
    } else {
      var k := |s| - |u|;
      // the prefix TrimStart removes is all whitespace, and s[|a|] is not
      assert forall j :: 0 <= j < k ==> IsSpace(s[..k][j]);
      assert !IsSpace(s[|a|]);
      assert k <= |a|;
      // everything before |a| is whitespace, and TrimStart stops at non-space
      assert forall j :: 0 <= j < |a| ==> IsSpace(s[j]);
      assert u[0] == s[k];
      assert k == |a|;
      assert u == t + b;
      var r := TrimEnd(u);
      assert AllSpace(u[|r|..]);
      assert !IsSpace(u[|t| - 1]);
      assert |r| >= |t|;
      assert forall j :: |t| <= j < |u| ==> IsSpace(u[j]);
      assert r[|r| - 1] == u[|r| - 1];
      assert |r| == |t|;
      assert r == u[..|t|] == t;
    }
  }

  /** Stripping is idempotent. */
  lemma StripIdempotent(s: string)
    ensures Strip(Strip(s)) == Strip(s)
  {
    var r := Strip(s);
    StripShape(s);
    assert [] + r + [] == r;
    StripPadded([], r, []);
  }

  /** Python's `s.index(c)` on a string or a list: the position of the
      first `c`, or `None` where Python raises `ValueError`. */
  function IndexOf<T(==)>(s: seq<T>, c: T): (r: Option<nat>)
    ensures r.None? <==> c !in s
    ensures r.Some? ==> r.value < |s| && s[r.value] == c && c !in s[..r.value]
  {
    if |s| == 0 then None
    else if s[0] == c then Some(0)
    else match IndexOf(s[1..], c)
      case None => None
      case Some(k) =>
        assert s[..k + 1] == [s[0]] + s[1..][..k];
        Some(k + 1)
  }

  /** Python's `p.split('/')[-1]`: the text after the last `/`, or all of
      `p` when it has none. */
  function LastComponent(p: string): (r: string)
    decreases |p|
  {
    if |p| == 0 then ""
    else if p[|p| - 1] == '/' then ""
    else LastComponent(p[..|p| - 1]) + [p[|p| - 1]]
  }

  /** The last component holds no `/`, ends `p`, and is preceded by a `/`
      unless it is all of `p`. */
  lemma {:induction false} LastComponentShape(p: string)
    ensures var r := LastComponent(p);
      && '/' !in r
      && |r| <= |p| && r == p[|p| - |r|..]
      && (|r| < |p| ==> p[|p| - |r| - 1] == '/')
    decreases |p|
  {
    if |p| > 0 && p[|p| - 1] != '/' {
      var q := p[..|p| - 1];
      LastComponentShape(q);
      var r := LastComponent(p);
      assert r == LastComponent(q) + [p[|p| - 1]];
      assert r == p[|p| - |r|..];
    }
  }

  /** A path without `/` is its own last component. */
  lemma {:induction false} LastComponentNoSlash(p: string)
    requires '/' !in p
    ensures LastComponent(p) == p
    decreases |p|
  {
    if |p| > 0 {
      LastComponentNoSlash(p[..|p| - 1]);
      assert p[..|p| - 1] + [p[|p| - 1]] == p;
    }
  }

  /** The last component is everything after the last `/`. */
  lemma {:induction false} LastComponentAfterSlash(p: string, k: nat)
    requires k < |p| && p[k] == '/'
    requires forall j :: k < j < |p| ==> p[j] != '/'
    ensures LastComponent(p) == p[k + 1..]
    decreases |p|
  {
    if k < |p| - 1 {
      var q := p[..|p| - 1];
      assert q[k] == '/';
      LastComponentAfterSlash(q, k);
      assert q[k + 1..] + [p[|p| - 1]] == p[k + 1..];
    }
  }

  /** The last component of `dir/name` is `name` whatever `dir` is. */
  lemma LastComponentOfJoin(dir: string, name: string)
    requires '/' !in name
    ensures LastComponent(dir + "/" + name) == name
  {
    var p := dir + "/" + name;
    assert forall j :: |dir| < j < |p| ==> p[j] == name[j - |dir| - 1];
    LastComponentAfterSlash(p, |dir|);
    assert p[|dir| + 1..] == name;
  }

  /** Python's `s.endswith(suffix)`. */
  predicate EndsWith(s: string, suffix: string) {
    |suffix| <= |s| && s[|s| - |suffix|..] == suffix
  }

  /** Percent-escaping of `%` and `/` only, the two characters that stop a
      uri from being one file name or from being read back unambiguously. */
  function EscapeChar(c: char): (r: string) {
    if c == '%' then "%25" else if c == '/' then "%2F" else [c]
  }

  function Escape(u: string): (r: string)
    decreases |u|
  {
    if |u| == 0 then "" else EscapeChar(u[0]) + Escape(u[1..])
  }

  /** Reads an escaped text back: `%2F` is `/`, `%25` is `%`, and every
      other character stands for itself. */
  function Unescape(e: string): (r: string)
    decreases |e|
  {
    if |e| == 0 then ""
    else if |e| >= 3 && e[..3] == "%2F" then "/" + Unescape(e[3..])
    else if |e| >= 3 && e[..3] == "%25" then "%" + Unescape(e[3..])
    else [e[0]] + Unescape(e[1..])
  }

  /** Escaping round-trips, so distinct texts escape to distinct names. */
  lemma {:induction false} UnescapeEscape(u: string)
    ensures Unescape(Escape(u)) == u
    decreases |u|
  {
    if |u| > 0 {
      var e := Escape(u);
      var rest := Escape(u[1..]);
      UnescapeEscape(u[1..]);
      assert e == EscapeChar(u[0]) + rest;
      if u[0] == '%' || u[0] == '/' {
        assert e[..3] == EscapeChar(u[0]) && e[3..] == rest;
      } else {
        assert e[0] == u[0] && e[1..] == rest;
      }
      assert [u[0]] + u[1..] == u;
    }
  }

  /** An escaped text holds no `/`. */
  lemma {:induction false} EscapeNoSlash(u: string)
    ensures '/' !in Escape(u)
    decreases |u|
  {
    if |u| > 0 {
      EscapeNoSlash(u[1..]);
    }
  }
}
