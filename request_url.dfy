/**
 * `Request::getRequestUrl`: the URL of the current GET request, rewritten to
 * `index.php` with its query string, the session parameters removed and
 * every `&` written as `&amp;`.
 *
 * The server variables are passed in: `None` stands for a variable that is
 * not set.
 */
module RequestUrl {
  import opened Wrappers
  import opened SpecialChars

  /** PHP truthiness of a string: every string but "" and "0". */
  predicate Truthy(s: string)
  {
    s != "" && s != "0"
  }

  /** The position `stripos` reports for a one-character needle. */
  function FirstIndex(s: string, c: char): (r: Option<nat>)
    ensures r.Some? ==> r.value < |s| && s[r.value] == c && c !in s[..r.value]
    ensures r.None? ==> c !in s
  {
    if s == [] then None
    else if s[0] == c then Some(0)
    else match FirstIndex(s[1..], c)
      case None => None
      case Some(i) =>
        assert s[..i + 1] == [s[0]] + s[1..][..i];
        Some(i + 1)
  }

  // ---------------------------------------------------------------------
  // The three preg_replace calls
  // ---------------------------------------------------------------------

  /** The two parameters stripped from the URL: the session id and the form token. */
  datatype SessionParam = SessionId | SessionToken

  predicate IsDelimiter(c: char)
  {
    c == '&' || c == '?'
  }

  /** Whether `w` occurs in `u` at position `i`. */
  predicate BeginsAt(u: string, i: nat, w: string)
  {
    i + |w| <= |u| && forall j :: 0 <= j < |w| ==> u[i + j] == w[j]
  }

  /** `|w|` when `w` occurs in `u` at position `i`, else 0: an optional group `(w)?`. */
  function Optional(u: string, i: nat, w: string): (n: nat)
    ensures n == 0 || (n == |w| && BeginsAt(u, i, w))
  {
    if BeginsAt(u, i, w) then |w| else 0
  }

  /**
   * The length of the parameter name matched right after the delimiter, if
   * any: `(force_)?(admin_)?sid=` for the session id, `stoken=` for the token.
   * The optional groups are greedy; a group that is present cannot be
   * skipped, since the text after it would then have to begin differently.
   */
  function NameLength(p: SessionParam, u: string): (r: Option<nat>)
    ensures r.Some? ==> 4 <= r.value <= |u| && u[r.value - 1] == '='
  {
    match p
    case SessionId =>
      var a := Optional(u, 0, "force_");
      var b := Optional(u, a, "admin_");
      if BeginsAt(u, a + b, "sid=") then
        assert u[a + b + 3] == "sid="[3];
        Some(a + b + 4)
      else None
    case SessionToken =>
      if BeginsAt(u, 0, "stoken=") then
        assert u[0 + 6] == "stoken="[6];
        Some(7)
      else None
  }

  /** The length of `[^&]*&?` at the start of `u`: up to and including the first `&`. */
  function ValueLength(u: string): (n: nat)
    ensures n <= |u|
  {
    if u == [] then 0
    else if u[0] == '&' then 1
    else 1 + ValueLength(u[1..])
  }

  /** The value runs up to and including the first `&`, or to the end when there is none. */
  lemma {:induction false} ValueLengthIsFirstAmpersand(u: string)
    ensures FirstIndex(u, '&').Some? ==> ValueLength(u) == FirstIndex(u, '&').value + 1
    ensures FirstIndex(u, '&').None? ==> ValueLength(u) == |u|
  {
    if u != [] && u[0] != '&' {
      ValueLengthIsFirstAmpersand(u[1..]);
    }
  }

  /**
   * `preg_replace('/(&|\?)NAME[^&]*&?/', '$1', $t)` for one of the two
   * parameters: every match, found left to right without overlap, is replaced
   * by its leading delimiter. The search resumes after the match, so the `&`
   * a match consumes cannot start the next one.
   */
  function RemoveParam(p: SessionParam, t: string): (r: string)
    ensures |r| <= |t|
    ensures t != [] ==> r != [] && r[0] == t[0]
    decreases |t|
  {
    if t == [] then []
    else match MatchLength(p, t)
      case Some(n) => [t[0]] + RemoveParam(p, t[n..])
      case None => [t[0]] + RemoveParam(p, t[1..])
  }

  /**
   * The length of a match of `(&|\?)NAME[^&]*&?` at the start of `t`: the
   * delimiter, the name, and the value up to and including the next `&`.
   */
  function MatchLength(p: SessionParam, t: string): (r: Option<nat>)
    ensures r.Some? <==> t != [] && IsDelimiter(t[0]) && NameLength(p, t[1..]).Some?
    ensures r.Some? ==> 5 <= r.value <= |t|
  {
    if t != [] && IsDelimiter(t[0]) && NameLength(p, t[1..]).Some? then
      var k := 1 + NameLength(p, t[1..]).value;
      Some(k + ValueLength(t[k..]))
    else None
  }

  /**
   * `preg_replace('/&$/', '', $t)`. Without the `m` or `D` modifier `$` also
   * matches before a final newline, so an `&` right before one goes as well.
   */
  function DropTrailingAmpersand(t: string): (r: string)
    ensures |t| > 0 && t[|t| - 1] == '&' ==> r == t[..|t| - 1]
    ensures |t| > 1 && t[|t| - 2] == '&' && t[|t| - 1] == '\n' ==> r == t[..|t| - 2] + "\n"
    ensures !(|t| > 0 && t[|t| - 1] == '&') && !(|t| > 1 && t[|t| - 2] == '&' && t[|t| - 1] == '\n') ==> r == t
  {
    if |t| > 0 && t[|t| - 1] == '&' then t[..|t| - 1]
    else if |t| > 1 && t[|t| - 2] == '&' && t[|t| - 1] == '\n' then t[..|t| - 2] + "\n"
    else t
  }

  /** The formatting of the query part: prefix, the three replacements, then `&` to `&amp;`. */
  function FormatRequestUrl(query: string): string
  {
    var url := "index.php" + query;
    var url1 := RemoveParam(SessionId, url);
    var url2 := RemoveParam(SessionToken, url1);
    var url3 := DropTrailingAmpersand(url2);
    ReplaceAll(url3, '&', "&amp;")
  }

  /**
   * The URI the source inspects: REQUEST_URI when it is set and truthy, else
   * SCRIPT_URI.
   */
  function RawRequestUrl(requestUri: Option<string>, scriptUri: Option<string>): Option<string>
  {
    if requestUri.Some? && Truthy(requestUri.value) then requestUri else scriptUri
  }

  /** Whether the source formats a URL at all, and from which query part. */
  function QueryPart(requestMethod: Option<string>, requestUri: Option<string>, scriptUri: Option<string>): Option<string>
  {
    var raw := RawRequestUrl(requestUri, scriptUri);
    if requestMethod == Some("POST") || raw.None? || !Truthy(raw.value) then None
    else match FirstIndex(raw.value, '?')
      case None => None
      case Some(pos) => Some(raw.value[pos..])
  }

  /** There is a query part exactly when the request is not a POST and the raw URL is non-empty and holds
      a `?`; it is then the suffix of the raw URL from its first `?` on. */
  lemma QueryPartSpec(requestMethod: Option<string>, requestUri: Option<string>, scriptUri: Option<string>)
    ensures var raw := RawRequestUrl(requestUri, scriptUri);
            QueryPart(requestMethod, requestUri, scriptUri).Some? <==>
              requestMethod != Some("POST") && raw.Some? && Truthy(raw.value) && '?' in raw.value
    ensures var r := QueryPart(requestMethod, requestUri, scriptUri);
            r.Some? ==>
              var u := RawRequestUrl(requestUri, scriptUri).value;
              r.value != [] && r.value[0] == '?' && |r.value| <= |u| &&
              u[|u| - |r.value|..] == r.value && '?' !in u[..|u| - |r.value|]
  {
  }

  /** Every `&` of `t` starts an `&amp;`. */
  predicate AmpersandsEscaped(t: string)
  {
    forall i :: 0 <= i < |t| && t[i] == '&' ==> StartsWith(t[i..], "&amp;")
  }

  /**
   * `getRequestUrl()`: empty for a POST request, when neither URI variable is
   * usable, or when the URI has no query string; otherwise `index.php` with
   * the query, which then starts with `index.php?` and carries every `&`
   * escaped.
   */
  function GetRequestUrl(requestMethod: Option<string>, requestUri: Option<string>, scriptUri: Option<string>): (r: string)
    ensures requestMethod == Some("POST") ==> r == ""
    ensures r != "" <==> QueryPart(requestMethod, requestUri, scriptUri).Some?
    ensures r != "" ==> StartsWith(r, "index.php?") && AmpersandsEscaped(r)
  {
    match QueryPart(requestMethod, requestUri, scriptUri)
    case None => ""
    case Some(query) =>
      FormattedUrlShape(query);
      FormatRequestUrl(query)
  }

  // ---------------------------------------------------------------------
  // Lemmas
  // ---------------------------------------------------------------------

  lemma NoAmpersandInPrefix()
    ensures '&' !in "index.php?"
    ensures forall c :: c in "index.php" ==> !IsDelimiter(c)
  {
  }

  /** No match at the start: the first character is copied and the scan moves on by one. */
  lemma RemoveParamNoMatchStep(p: SessionParam, t: string)
    requires t != [] && MatchLength(p, t).None?
    ensures RemoveParam(p, t) == [t[0]] + RemoveParam(p, t[1..])
  {
  }

  /** A character that is no delimiter is copied and the scan moves on. */
  lemma RemoveParamStep(p: SessionParam, t: string)
    requires t != [] && !IsDelimiter(t[0])
    ensures RemoveParam(p, t) == [t[0]] + RemoveParam(p, t[1..])
  {
    RemoveParamNoMatchStep(p, t);
  }

  /** The first character and the rest of a concatenation. */
  lemma ConsSplit(a: string, b: string)
    requires a != []
    ensures (a + b)[0] == a[0] && (a + b)[1..] == a[1..] + b
  {
  }

  /** A stretch with no delimiter passes through the replacement unchanged. */
  lemma {:induction false} RemoveParamPlainPrefix(p: SessionParam, a: string, b: string)
    requires forall c :: c in a ==> !IsDelimiter(c)
    ensures RemoveParam(p, a + b) == a + RemoveParam(p, b)
    decreases |a|
  {
    if a == [] {
      assert a + b == b;
    } else {
      assert a[0] in a;
      ConsSplit(a, b);
      RemoveParamStep(p, a + b);
      assert forall c :: c in a[1..] ==> c in a;
      RemoveParamPlainPrefix(p, a[1..], b);
      AppendAssoc([a[0]], a[1..], RemoveParam(p, b));
      assert a == [a[0]] + a[1..];
    }
  }

  /** Where no delimiter is followed by the parameter's name, nothing is removed. */
  lemma {:induction false} RemoveParamNoMatch(p: SessionParam, t: string)
    requires forall i :: 0 <= i < |t| && IsDelimiter(t[i]) ==> NameLength(p, t[i + 1..]).None?
    ensures RemoveParam(p, t) == t
    decreases |t|
  {
    if t != [] {
      assert IsDelimiter(t[0]) ==> NameLength(p, t[1..]).None?;
      forall i | 0 <= i < |t[1..]| && IsDelimiter(t[1..][i])
        ensures NameLength(p, t[1..][i + 1..]).None?
      {
        assert t[1..][i + 1..] == t[i + 2..];
        assert t[1..][i] == t[i + 1];
      }
      RemoveParamNoMatch(p, t[1..]);
      assert t == [t[0]] + t[1..];
    }
  }

  /**
   * A delimiter followed by the parameter, its value and an `&`: the whole run
   * goes and the delimiter stays.
   */
  lemma DropParam(p: SessionParam, d: char, a: string, b: string)
    requires IsDelimiter(d) && '&' !in a && '=' in a && NameLength(p, a).Some?
    ensures RemoveParam(p, [d] + a + ("&" + b)) == [d] + RemoveParam(p, b)
  {
    var t := [d] + a + ("&" + b);
    MatchOfRun(p, d, a, b);
    RunTail(d, a, b);
    DropAt(p, t, d, |a| + 2, b);
  }

  /** A match of length `n` at a delimiter `d`, followed by `b`. */
  lemma DropAt(p: SessionParam, t: string, d: char, n: nat, b: string)
    requires t != [] && t[0] == d && MatchLength(p, t) == Some(n) && n <= |t| && t[n..] == b
    ensures RemoveParam(p, t) == [d] + RemoveParam(p, b)
  {
  }

  /** The match at such a delimiter covers the delimiter, the parameter and its `&`. */
  lemma MatchOfRun(p: SessionParam, d: char, a: string, b: string)
    requires IsDelimiter(d) && '&' !in a && '=' in a && NameLength(p, a).Some?
    ensures MatchLength(p, [d] + a + ("&" + b)) == Some(|a| + 2)
  {
    var t := [d] + a + ("&" + b);
    var k := 1 + NameLength(p, a).value;
    assert t[1..] == a + ("&" + b);
    NameLengthIsLocal(p, a, "&" + b);
    RunValue(d, a, b, k);
    MatchLengthAt(p, t, k);
  }

  /** The value of `d a & b` after a name of length `k - 1` runs to the `&`. */
  lemma RunValue(d: char, a: string, b: string, k: nat)
    requires '&' !in a && 1 <= k <= |a| + 1
    ensures k + ValueLength(([d] + a + ("&" + b))[k..]) == |a| + 2
  {
    var e := "&" + b;
    var v := a[k - 1..];
    assert '&' !in v by {
      assert forall c :: c in v ==> c in a;
    }
    ValueLengthOfRun(v, b);
    SuffixOfConcat([d] + a, e, k);
    assert ([d] + a)[k..] == v;
  }

  /** What follows the `&` of `d a & b`. */
  lemma RunTail(d: char, a: string, b: string)
    ensures ([d] + a + ("&" + b))[|a| + 2..] == b
  {
    SuffixOfConcat([d] + a, "&" + b, |a| + 1);
  }

  lemma SuffixOfConcat(x: string, y: string, i: nat)
    requires i <= |x|
    ensures (x + y)[i..] == x[i..] + y
  {
  }

  lemma MatchLengthAt(p: SessionParam, t: string, k: nat)
    requires t != [] && IsDelimiter(t[0]) && NameLength(p, t[1..]).Some?
    requires k == 1 + NameLength(p, t[1..]).value
    ensures MatchLength(p, t) == Some(k + ValueLength(t[k..]))
  {
  }

  /** A delimiter followed by the parameter's name: the match is replaced by the delimiter. */
  lemma RemoveParamAtMatch(p: SessionParam, t: string)
    requires MatchLength(p, t).Some?
    ensures RemoveParam(p, t) == [t[0]] + RemoveParam(p, t[MatchLength(p, t).value..])
  {
  }

  /** A delimiter followed by the parameter and its value at the very end. */
  lemma DropLastParam(p: SessionParam, d: char, a: string)
    requires IsDelimiter(d) && '&' !in a
    requires NameLength(p, a).Some?
    ensures RemoveParam(p, [d] + a) == [d]
  {
    var t := [d] + a;
    MatchAtEnd(p, d, a);
    RemoveParamAtMatch(p, t);
    assert t[|t|..] == [];
  }

  /** At the end of the text the match runs to the end. */
  lemma MatchAtEnd(p: SessionParam, d: char, a: string)
    requires IsDelimiter(d) && '&' !in a
    requires NameLength(p, a).Some?
    ensures MatchLength(p, [d] + a) == Some(|a| + 1)
  {
    var t := [d] + a;
    assert t[0] == d && t[1..] == a;
    var k := 1 + NameLength(p, a).value;
    ValueAtEnd(t, k);
    MatchLengthAt(p, t, k);
  }

  lemma ValueAtEnd(t: string, k: nat)
    requires 1 <= k <= |t| && '&' !in t[1..]
    ensures k + ValueLength(t[k..]) == |t|
  {
    assert '&' !in t[k..] by {
      assert forall c :: c in t[k..] ==> c in t[1..];
    }
    ValueLengthIsFirstAmpersand(t[k..]);
  }

  lemma ValueLengthOfRun(v: string, b: string)
    requires '&' !in v
    ensures ValueLength(v + ("&" + b)) == |v| + 1
  {
    var u := v + ("&" + b);
    assert u[|v|] == '&';
    assert u[..|v|] == v;
    assert forall i :: 0 <= i < |v| ==> u[i] == v[i] && v[i] in v;
    assert FirstIndex(u, '&') == Some(|v|);
    ValueLengthIsFirstAmpersand(u);
  }

  /**
   * A delimiter followed by a parameter that is not the one removed is kept,
   * with its name and value.
   */
  lemma KeepParam(p: SessionParam, d: char, a: string, b: string)
    requires IsDelimiter(d)
    requires forall c :: c in a ==> !IsDelimiter(c)
    requires NameLength(p, a + b).None?
    ensures RemoveParam(p, [d] + a + b) == [d] + a + RemoveParam(p, b)
  {
    var t := [d] + a + b;
    assert t == [d] + (a + b);
    ConsSplit([d], a + b);
    RemoveParamNoMatchStep(p, t);
    RemoveParamPlainPrefix(p, a, b);
    AppendAssoc([d], a, RemoveParam(p, b));
  }

  /** The session parameters are searched for in the query part only. */
  lemma StripsKeepPrefix(query: string)
    requires query != [] && query[0] == '?'
    ensures var q2 := RemoveParam(SessionToken, RemoveParam(SessionId, query));
      RemoveParam(SessionToken, RemoveParam(SessionId, "index.php" + query)) == "index.php" + q2 &&
      q2 != [] && q2[0] == '?'
  {
    NoAmpersandInPrefix();
    RemoveParamPlainPrefix(SessionId, "index.php", query);
    RemoveParamPlainPrefix(SessionToken, "index.php", RemoveParam(SessionId, query));
  }

  /** The prefix `index.php?` survives the formatting, and every `&` ends up escaped. */
  lemma FormattedUrlShape(query: string)
    requires query != [] && query[0] == '?'
    ensures StartsWith(FormatRequestUrl(query), "index.php?")
    ensures AmpersandsEscaped(FormatRequestUrl(query))
  {
    StripsKeepPrefix(query);
    var q2 := RemoveParam(SessionToken, RemoveParam(SessionId, query));
    DropTrailingOfLonger("index.php", q2);
    var w := DropTrailingAmpersand(q2);
    EscapedPrefix(w);
  }

  /** `index.php` followed by a `?`-led tail, with every `&` escaped. */
  lemma EscapedPrefix(w: string)
    requires w != [] && w[0] == '?'
    ensures var r := ReplaceAll("index.php" + w, '&', "&amp;");
      StartsWith(r, "index.php?") && AmpersandsEscaped(r)
  {
    NoAmpersandInPrefix();
    assert "index.php" + w == "index.php?" + w[1..];
    ReplaceAllConcat("index.php?", w[1..], '&', "&amp;");
    ReplaceAllAbsent("index.php?", '&', "&amp;");
    var r := ReplaceAll("index.php" + w, '&', "&amp;");
    assert r == "index.php?" + ReplaceAll(w[1..], '&', "&amp;");
    assert r[..10] == "index.php?";
    EscapedAmpersands("index.php" + w);
  }

  /** Dropping a trailing `&` from `a + q` leaves `a` alone when neither ends the other badly. */
  lemma DropTrailingOfLonger(a: string, q: string)
    requires q != [] && q[0] != '&'
    requires a != [] && a[|a| - 1] != '&'
    ensures DropTrailingAmpersand(a + q) == a + DropTrailingAmpersand(q)
    ensures DropTrailingAmpersand(q) != [] && DropTrailingAmpersand(q)[0] == q[0]
  {
    var t := a + q;
    assert t[|t| - 1] == q[|q| - 1];
    assert t[|t| - 2] == (if |q| >= 2 then q[|q| - 2] else a[|a| - 1]);
    if t[|t| - 1] == '&' {
      assert t[..|t| - 1] == a + q[..|q| - 1];
    } else if t[|t| - 2] == '&' && t[|t| - 1] == '\n' {
      assert t[..|t| - 2] == a + q[..|q| - 2];
    }
  }

  /** After `&` becomes `&amp;`, every `&` starts an `&amp;`. */
  lemma {:induction false} EscapedAmpersands(t: string)
    ensures AmpersandsEscaped(ReplaceAll(t, '&', "&amp;"))
  {
    if t != [] {
      EscapedAmpersands(t[1..]);
      var tail := ReplaceAll(t[1..], '&', "&amp;");
      if t[0] == '&' {
        EscapedAmpersandsCons("&amp;", tail);
      } else {
        EscapedAmpersandsCons([t[0]], tail);
      }
    }
  }

  lemma EscapedAmpersandsCons(head: string, tail: string)
    requires head == "&amp;" || (|head| == 1 && head[0] != '&')
    requires AmpersandsEscaped(tail)
    ensures AmpersandsEscaped(head + tail)
  {
    var r := head + tail;
    forall i | 0 <= i < |r| && r[i] == '&' ensures StartsWith(r[i..], "&amp;") {
      if i < |head| {
        assert r[..5] == head;
      } else {
        assert r[i..] == tail[i - |head|..];
      }
    }
  }

  /** The `&amp;` writing loses nothing: decoding the entities gives the URL back. */
  lemma {:induction false} AmpersandEscapeRoundTrip(t: string)
    ensures Unescape(ReplaceAll(t, '&', "&amp;")) == t
  {
    if t != [] {
      AmpersandEscapeRoundTrip(t[1..]);
      var tail := ReplaceAll(t[1..], '&', "&amp;");
      if t[0] == '&' {
        UnescapeAmp(tail);
      } else {
        UnescapePlain(t[0], tail);
      }
      assert t == [t[0]] + t[1..];
    }
  }

  // ---------------------------------------------------------------------
  // Queries built from parameters
  // ---------------------------------------------------------------------

  /** `a` holds an `=` at `i` or after it. */
  predicate EqualsFrom(a: string, i: nat)
  {
    exists j :: i <= j < |a| && a[j] == '='
  }

  /** A name test only looks at the text up to and including its `=`. */
  lemma BeginsUpToEquals(a: string, b: string, i: nat, w: string)
    requires EqualsFrom(a, i) && w != [] && '=' !in w[..|w| - 1]
    ensures BeginsAt(a + b, i, w) == BeginsAt(a, i, w)
  {
    if i + |w| <= |a| {
      assert forall k :: i <= k < i + |w| ==> (a + b)[k] == a[k];
    } else {
      // The `=` of `a` falls where `w` has none.
      var j :| i <= j < |a| && a[j] == '=';
      assert w[..|w| - 1][j - i] == w[j - i];
      assert (a + b)[i + (j - i)] == a[j];
    }
  }

  /** After a group without `=`, the `=` of `a` still lies ahead. */
  lemma EqualsAfterGroup(a: string, i: nat, w: string)
    requires EqualsFrom(a, i) && BeginsAt(a, i, w) && '=' !in w
    ensures EqualsFrom(a, i + |w|)
  {
    var j :| i <= j < |a| && a[j] == '=';
    forall k | i <= k < i + |w|
      ensures a[k] != '='
    {
      assert a[i + (k - i)] == w[k - i];
      assert w[k - i] in w;
    }
  }

  /**
   * Whether a parameter name matches depends only on the text up to the first
   * `=`: what follows it cannot change the outcome.
   */
  lemma NameLengthIsLocal(p: SessionParam, a: string, b: string)
    requires '=' in a
    ensures NameLength(p, a + b) == NameLength(p, a)
  {
    var j :| 0 <= j < |a| && a[j] == '=';
    assert EqualsFrom(a, 0);
    match p
    case SessionId =>
      BeginsUpToEquals(a, b, 0, "force_");
      var x := Optional(a, 0, "force_");
      if x == 6 {
        EqualsAfterGroup(a, 0, "force_");
      }
      BeginsUpToEquals(a, b, x, "admin_");
      var y := Optional(a, x, "admin_");
      if y == 6 {
        EqualsAfterGroup(a, x, "admin_");
      }
      BeginsUpToEquals(a, b, x + y, "sid=");
    case SessionToken =>
      BeginsUpToEquals(a, b, 0, "stoken=");
  }

  /** A parameter the replacement keeps: a name with `=`, no delimiter, and not one of the two. */
  predicate KeptParam(a: string)
  {
    '=' in a && (forall c :: c in a ==> !IsDelimiter(c)) &&
    NameLength(SessionId, a).None? && NameLength(SessionToken, a).None?
  }

  /** `&p1&p2...`: the parameters, each led by an `&`. */
  function Chain(ps: seq<string>): string
  {
    if ps == [] then [] else "&" + ps[0] + Chain(ps[1..])
  }

  /** One kept parameter in front of a chain that survives in full. */
  lemma KeepChainStep(p: SessionParam, a: string, c: string, tail: string, x: string)
    requires KeptParam(a) && RemoveParam(p, c + tail) == c + x
    ensures RemoveParam(p, ("&" + a + c) + tail) == ("&" + a + c) + x
  {
    var rest := c + tail;
    assert ("&" + a + c) + tail == ['&'] + a + rest;
    NameLengthIsLocal(p, a, rest);
    KeepParam(p, '&', a, rest);
    AppendAssoc(['&'] + a, c, x);
  }

  /** Kept parameters survive both replacements in full. */
  lemma {:induction false} KeepChain(p: SessionParam, ps: seq<string>, tail: string)
    requires forall i :: 0 <= i < |ps| ==> KeptParam(ps[i])
    ensures RemoveParam(p, Chain(ps) + tail) == Chain(ps) + RemoveParam(p, tail)
  {
    if ps == [] {
      assert Chain(ps) + tail == tail;
    } else {
      assert KeptParam(ps[0]);
      assert forall i :: 0 <= i < |ps[1..]| ==> ps[1..][i] == ps[i + 1];
      KeepChain(p, ps[1..], tail);
      KeepChainStep(p, ps[0], Chain(ps[1..]), tail, RemoveParam(p, tail));
    }
  }

  /** Only re-associates a concatenation, so that the proofs that use it stay small. */
  lemma AppendAssoc(a: string, b: string, c: string)
    ensures a + (b + c) == (a + b) + c
  {
  }

  /** `&amp;p1&amp;p2...`: the chain as `getRequestUrl` writes it. */
  function EscapedChain(ps: seq<string>): string
  {
    if ps == [] then [] else "&amp;" + ps[0] + EscapedChain(ps[1..])
  }

  lemma {:induction false} ChainEscaping(ps: seq<string>)
    requires forall i :: 0 <= i < |ps| ==> '&' !in ps[i]
    ensures ReplaceAll(Chain(ps), '&', "&amp;") == EscapedChain(ps)
  {
    if ps != [] {
      ChainEscaping(ps[1..]);
      ReplaceAllConcat("&" + ps[0], Chain(ps[1..]), '&', "&amp;");
      ReplaceAllConcat("&", ps[0], '&', "&amp;");
      ReplaceAllAbsent(ps[0], '&', "&amp;");
      assert ReplaceAll("&", '&', "&amp;") == "&amp;";
    }
  }

  /** Queries whose parameters are all kept come out of both replacements unchanged. */
  lemma KeptQuery(p: SessionParam, p0: string, ps: seq<string>)
    requires KeptParam(p0) && forall i :: 0 <= i < |ps| ==> KeptParam(ps[i])
    ensures RemoveParam(p, "?" + p0 + Chain(ps)) == "?" + p0 + Chain(ps)
  {
    NameLengthIsLocal(p, p0, Chain(ps));
    KeepParam(p, '?', p0, Chain(ps));
    KeepChain(p, ps, []);
    assert Chain(ps) + [] == Chain(ps);
    assert RemoveParam(p, []) == [];
  }

  /** `&p1` in front of a chain is the chain with `p1` in front. */
  lemma ChainCons(p: string, ps: seq<string>)
    ensures Chain([p] + ps) == "&" + (p + Chain(ps))
  {
    assert ([p] + ps)[1..] == ps;
    AppendAssoc("&", p, Chain(ps));
  }

  /**
   * A session id after a delimiter and before a chain of kept parameters goes
   * with the `&` that follows it, and the first kept parameter takes its place.
   */
  lemma SessionIdDropped(d: char, sid: string, q: string, ps: seq<string>)
    requires IsDelimiter(d) && KeptParam(q) && forall i :: 0 <= i < |ps| ==> KeptParam(ps[i])
    requires '=' in sid && '&' !in sid && NameLength(SessionId, sid).Some?
    ensures RemoveParam(SessionId, [d] + sid + Chain([q] + ps)) == [d] + (q + Chain(ps))
  {
    var c := Chain(ps);
    ChainCons(q, ps);
    DropParam(SessionId, d, sid, q + c);
    RemoveParamPlainPrefix(SessionId, q, c);
    KeepChain(SessionId, ps, []);
    assert c + [] == c;
  }

  /**
   * Two session ids in a row: the first match takes the `&` between them, so
   * the second has no delimiter in front of it and stays.
   */
  lemma AdjacentSessionIdSurvives(sid1: string, sid2: string)
    requires '=' in sid1 && '&' !in sid1 && NameLength(SessionId, sid1).Some?
    requires forall c :: c in sid2 ==> !IsDelimiter(c)
    ensures RemoveParam(SessionId, "?" + sid1 + "&" + sid2) == "?" + sid2
  {
    AppendAssoc("?" + sid1, "&", sid2);
    DropParam(SessionId, '?', sid1, sid2);
    RemoveParamPlainPrefix(SessionId, sid2, []);
    assert sid2 + [] == sid2;
  }

  /** The session id as the first parameter: the `?` stays and the next parameter follows it. */
  lemma SessionIdFirst(sid: string, q: string, ps: seq<string>)
    requires KeptParam(q) && forall i :: 0 <= i < |ps| ==> KeptParam(ps[i])
    requires '=' in sid && '&' !in sid && NameLength(SessionId, sid).Some?
    ensures RemoveParam(SessionId, "?" + sid + Chain([q] + ps)) == "?" + q + Chain(ps)
  {
    SessionIdDropped('?', sid, q, ps);
    AppendAssoc("?", q, Chain(ps));
  }

  /** The session id between two kept parameters is dropped with the `&` after it. */
  lemma SessionIdInMiddle(p0: string, sid: string, q: string, ps: seq<string>)
    requires KeptParam(p0) && KeptParam(q) && forall i :: 0 <= i < |ps| ==> KeptParam(ps[i])
    requires '=' in sid && '&' !in sid && NameLength(SessionId, sid).Some?
    ensures RemoveParam(SessionId, "?" + p0 + Chain([sid, q] + ps)) == "?" + p0 + Chain([q] + ps)
  {
    var t := Chain([q] + ps);
    assert [sid, q] + ps == [sid] + ([q] + ps);
    ChainCons(sid, [q] + ps);
    var u := Chain([sid, q] + ps);
    assert u == "&" + (sid + t);
    AppendAssoc("&", sid, t);
    NameLengthIsLocal(SessionId, p0, u);
    KeepParam(SessionId, '?', p0, u);
    SessionIdDropped('&', sid, q, ps);
    ChainCons(q, ps);
  }

  /** The session id as the last parameter: its leading `&` is left at the end. */
  lemma SessionIdLast(p0: string, ps: seq<string>, sid: string)
    requires KeptParam(p0) && forall i :: 0 <= i < |ps| ==> KeptParam(ps[i])
    requires '&' !in sid && NameLength(SessionId, sid).Some?
    ensures RemoveParam(SessionId, "?" + p0 + (Chain(ps) + ("&" + sid))) == "?" + p0 + Chain(ps) + "&"
  {
    var c := Chain(ps);
    var e := "&" + sid;
    NameLengthIsLocal(SessionId, p0, c + e);
    KeepParam(SessionId, '?', p0, c + e);
    KeepChain(SessionId, ps, e);
    DropLastParam(SessionId, '&', sid);
    AppendAssoc("?" + p0, c, "&");
  }
}
