/** The request headers given on the command line as `Name: Value`
    strings, folded into the header map sent with every request
    (`M3u8Downloader.__init__`). */
module Headers {
  import opened Wrappers
  import opened Text

  datatype Header = Header(name: string, value: string)

  /** `str.index(':')` raised `ValueError` on this string. */
  datatype HeaderError = MissingColon(header: string)

  /** Splits one header string at its FIRST colon and strips both halves,
      so a value may itself contain colons. */
  function ParseHeader(h: string): (r: Result<Header, HeaderError>)
    ensures r.Failure? <==> ':' !in h
    ensures r.Failure? ==> r.error == MissingColon(h)
  {
    match IndexOf(h, ':')
    case None => Failure(MissingColon(h))
    case Some(k) => Success(Header(Strip(h[..k]), Strip(h[k + 1..])))
  }

  /** The name is the stripped text before the first colon and the value
      the stripped text after it. */
  lemma ParseHeaderSplits(h: string, k: nat)
    requires k < |h| && h[k] == ':' && ':' !in h[..k]
    ensures ParseHeader(h) == Success(Header(Strip(h[..k]), Strip(h[k + 1..])))
  {
    var i := IndexOf(h, ':').value;
    assert forall j :: 0 <= j < k ==> h[..k][j] == h[j];
    assert forall j :: 0 <= j < i ==> h[..i][j] == h[j];
    assert i == k;
  }

  /** Whatever follows the first colon, colons included, is the value. */
  lemma SplitAtFirstColon(n: string, v: string)
    requires ':' !in n
    ensures ParseHeader(n + ":" + v) == Success(Header(Strip(n), Strip(v)))
  {
    var h := n + ":" + v;
    assert h[..|n|] == n;
    assert h[|n| + 1..] == v;
    ParseHeaderSplits(h, |n|);
  }

  /** A header written as `Name: Value` with a colon-free name and no
      surrounding whitespace parses back to exactly that name and value. */
  lemma HeaderRoundTrip(n: string, v: string)
    requires ':' !in n && Trimmed(n) && Trimmed(v)
    ensures ParseHeader(n + ": " + v) == Success(Header(n, v))
  {
    assert n + ": " + v == n + ":" + (" " + v);
    SplitAtFirstColon(n, " " + v);
    StripTrimmed(n);
    StripLeadingSpace(v);
  }

  lemma StripTrimmed(t: string)
    requires Trimmed(t)
    ensures Strip(t) == t
  {
    assert [] + t + [] == t;
    StripPadded([], t, []);
  }

  lemma StripLeadingSpace(t: string)
    requires Trimmed(t)
    ensures Strip(" " + t) == t
  {
    assert AllSpace(" ");
    assert " " + t + [] == " " + t;
    StripPadded(" ", t, []);
  }

  /** The string has a colon to split at. */
  predicate HasColon(h: string) {
    ':' in h
  }

  /** Parses every header string in order; the first one without a colon
      aborts, as the `ValueError` aborts the constructor. */
  function ParseAll(hs: seq<string>): (r: Result<seq<Header>, HeaderError>)
    ensures r.Success? <==> forall i :: 0 <= i < |hs| ==> HasColon(hs[i])
    ensures r.Success? ==> |r.value| == |hs|
    ensures r.Success? ==> forall i :: 0 <= i < |hs| ==> ParseHeader(hs[i]) == Success(r.value[i])
    decreases |hs|
  {
    if |hs| == 0 then Success([])
    else
      match ParseHeader(hs[0])
      case Failure(e) => Failure(e)
      case Success(p) =>
        match ParseAll(hs[1..])
        case Failure(e) => Failure(e)
        case Success(ps) =>
          assert forall i :: 1 <= i < |hs| ==> hs[i] == hs[1..][i - 1];
          Success([p] + ps)
  }

  /** The error reported is the one for the first string without a colon. */
  lemma {:induction false} ParseAllFirstError(hs: seq<string>, i: nat)
    requires i < |hs| && !HasColon(hs[i])
    requires forall j :: 0 <= j < i ==> HasColon(hs[j])
    ensures ParseAll(hs) == Failure(MissingColon(hs[i]))
    decreases |hs|
  {
    if i > 0 {
      assert forall j :: 0 <= j < i - 1 ==> hs[1..][j] == hs[j + 1];
      ParseAllFirstError(hs[1..], i - 1);
    }
  }

  /** Stores each pair under its name, left to right, so a later pair
      overwrites an earlier one with the same name. */
  function ToMap(ps: seq<Header>): (r: map<string, string>)
    decreases |ps|
  {
    if |ps| == 0 then map[]
    else ToMap(ps[..|ps| - 1])[ps[|ps| - 1].name := ps[|ps| - 1].value]
  }

  /** The keys are exactly the names of the pairs. */
  lemma {:induction false} ToMapKeys(ps: seq<Header>)
    ensures ToMap(ps).Keys == set i | 0 <= i < |ps| :: ps[i].name
    decreases |ps|
  {
    if |ps| > 0 {
      var pre := ps[..|ps| - 1];
      ToMapKeys(pre);
      var all := set i | 0 <= i < |ps| :: ps[i].name;
      var before := set i | 0 <= i < |pre| :: pre[i].name;
      var n := ps[|ps| - 1].name;
      forall x | x in all
        ensures x in before + {n}
      {
        var i :| 0 <= i < |ps| && ps[i].name == x;
        if i < |pre| {
          assert pre[i].name == x;
        }
      }
      forall x | x in before + {n}
        ensures x in all
      {
        if x != n {
          var i :| 0 <= i < |pre| && pre[i].name == x;
          assert ps[i].name == x;
        }
      }
    }
  }

  /** No later pair carries the same name as `ps[i]`. */
  ghost predicate LastOfName(ps: seq<Header>, i: nat)
    requires i < |ps|
  {
    forall j :: i < j < |ps| ==> ps[j].name != ps[i].name
  }

  /** Each name maps to the value of its LAST occurrence. */
  lemma {:induction false} ToMapLastWins(ps: seq<Header>, i: nat)
    requires i < |ps| && LastOfName(ps, i)
    ensures ps[i].name in ToMap(ps) && ToMap(ps)[ps[i].name] == ps[i].value
    decreases |ps|
  {
    var pre := ps[..|ps| - 1];
    if i < |pre| {
      assert ps[|ps| - 1].name != ps[i].name;
      assert LastOfName(pre, i);
      ToMapLastWins(pre, i);
    }
  }

  /** The header loop of the constructor: every string is parsed and stored
      under its name; the first string without a colon aborts. */
  function FoldHeaders(hs: seq<string>): (r: Result<map<string, string>, HeaderError>)
  {
    match ParseAll(hs)
    case Failure(e) => Failure(e)
    case Success(ps) => Success(ToMap(ps))
  }

  /** The folded map: it exists iff every string has a colon; its keys are
      exactly the parsed names, and each name holds the value of its last
      occurrence in the list. */
  lemma FoldHeadersMap(hs: seq<string>)
    ensures FoldHeaders(hs).Success? <==> forall i :: 0 <= i < |hs| ==> HasColon(hs[i])
    ensures FoldHeaders(hs).Success? ==>
      && ParseAll(hs).Success?
      && FoldHeaders(hs).value.Keys == (set i | 0 <= i < |hs| :: ParseAll(hs).value[i].name)
      && forall i :: 0 <= i < |hs| && LastOfName(ParseAll(hs).value, i) ==>
           FoldHeaders(hs).value[ParseAll(hs).value[i].name] == ParseAll(hs).value[i].value
  {
    if ParseAll(hs).Success? {
      var ps := ParseAll(hs).value;
      ToMapKeys(ps);
      forall i | 0 <= i < |hs| && LastOfName(ps, i)
        ensures ToMap(ps)[ps[i].name] == ps[i].value
      {
        ToMapLastWins(ps, i);
      }
    }
  }
}
