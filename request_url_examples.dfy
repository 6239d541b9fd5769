/**
 * `RequestUrlExamples`: the URLs of the unit tests of `getRequestUrl`,
 * worked out on the model. Each goes through the generic lemmas about
 * queries built from parameters. Each test's server variables are the ones
 * it sets; every other variable is taken as not set.
 */
module RequestUrlExamples {
  import opened Wrappers
  import opened SpecialChars
  import opened RequestUrl

  // ---------------------------------------------------------------------
  // Generic steps
  // ---------------------------------------------------------------------

  /** A word that does not occur at a position, shown by one differing character. */
  lemma NotBeginsAt(u: string, i: nat, w: string, j: nat)
    requires j < |w| && (i + j >= |u| || u[i + j] != w[j])
    ensures !BeginsAt(u, i, w)
  {
  }

  /**
   * A parameter whose first letters rule out `force_`, `admin_`, `sid=` and
   * `stoken=` is neither of the two removed.
   */
  lemma NotSessionName(a: string)
    requires |a| >= 2 && a[0] != 'f' && a[0] != 'a' && (a[0] != 's' || (a[1] != 'i' && a[1] != 't'))
    ensures NameLength(SessionId, a).None? && NameLength(SessionToken, a).None?
  {
    NotBeginsAt(a, 0, "force_", 0);
    NotBeginsAt(a, 0, "admin_", 0);
    if a[0] == 's' {
      NotBeginsAt(a, 0, "sid=", 1);
      NotBeginsAt(a, 0, "stoken=", 1);
    } else {
      NotBeginsAt(a, 0, "sid=", 0);
      NotBeginsAt(a, 0, "stoken=", 0);
    }
  }

  /** The last character of a chain is the last character of its last parameter. */
  lemma {:induction false} ChainLast(ps: seq<string>)
    requires ps != [] && ps[|ps| - 1] != []
    ensures var c := Chain(ps); var l := ps[|ps| - 1]; c != [] && c[|c| - 1] == l[|l| - 1]
  {
    var c := Chain(ps);
    assert c == "&" + ps[0] + Chain(ps[1..]);
    if |ps| > 1 {
      ChainLast(ps[1..]);
    }
  }

  /** A character that is neither `&` nor a line break: nothing for `/&$/` to remove behind it. */
  predicate EndsPlain(s: string)
  {
    s != [] && s[|s| - 1] != '&' && s[|s| - 1] != '\n'
  }

  /** The query `?p0&p1...` in full. */
  function Query(p0: string, ps: seq<string>): string
  {
    "?" + p0 + Chain(ps)
  }

  /** The query ends as its last parameter does. */
  lemma QueryEndsPlain(p0: string, ps: seq<string>)
    requires EndsPlain(if ps == [] then p0 else ps[|ps| - 1])
    ensures EndsPlain(Query(p0, ps))
  {
    var q := Query(p0, ps);
    if ps == [] {
      assert q == "?" + p0 + [];
    } else {
      ChainLast(ps);
      AppendAssoc("?", p0, Chain(ps));
    }
  }

  /** The form-token replacement keeps kept parameters, with or without a trailing `&`. */
  lemma TokenPassKeeps(p0: string, ps: seq<string>, tail: string)
    requires KeptParam(p0) && forall i :: 0 <= i < |ps| ==> KeptParam(ps[i])
    requires tail == [] || tail == "&"
    ensures RemoveParam(SessionToken, Query(p0, ps) + tail) == Query(p0, ps) + tail
  {
    var c := Chain(ps);
    NameLengthIsLocal(SessionToken, p0, c + tail);
    KeepParam(SessionToken, '?', p0, c + tail);
    KeepChain(SessionToken, ps, tail);
    if tail == "&" {
      assert RemoveParam(SessionToken, tail) == "&";
    }
    AppendAssoc("?" + p0, c, tail);
    AppendAssoc("?" + p0, c, RemoveParam(SessionToken, tail));
  }

  /** Kept parameters carry no `&`, and neither does the prefix with the first of them. */
  lemma KeptHaveNoAmpersand(p0: string, ps: seq<string>)
    requires KeptParam(p0) && forall i :: 0 <= i < |ps| ==> KeptParam(ps[i])
    ensures '&' !in "index.php?" + p0
    ensures forall i :: 0 <= i < |ps| ==> '&' !in ps[i]
  {
    forall i | 0 <= i < |ps| ensures '&' !in ps[i] {
      assert KeptParam(ps[i]);
    }
    NoAmpersandInPrefix();
    assert forall c :: c in "index.php?" + p0 ==> c in "index.php?" || c in p0;
  }

  /** With the last `&` gone, the kept query is written with `&amp;` between its parameters. */
  lemma EscapeKeptQuery(p0: string, ps: seq<string>)
    requires KeptParam(p0) && forall i :: 0 <= i < |ps| ==> KeptParam(ps[i])
    ensures ReplaceAll("index.php" + Query(p0, ps), '&', "&amp;") == "index.php?" + p0 + EscapedChain(ps)
  {
    KeptHaveNoAmpersand(p0, ps);
    ChainEscaping(ps);
    var head := "index.php?" + p0;
    var c := Chain(ps);
    assert "index.php" + Query(p0, ps) == head + c by {
      QueryAfterScript("index.php", "?", p0, c);
      ScriptWithMark();
    }
    ReplaceAllConcat(head, c, '&', "&amp;");
    ReplaceAllAbsent(head, '&', "&amp;");
  }

  lemma ScriptWithMark()
    ensures "index.php" + "?" == "index.php?"
  {
  }

  lemma QueryAfterScript(x: string, m: string, p0: string, c: string)
    ensures x + (m + p0 + c) == (x + m) + p0 + c
  {
    AppendAssoc(x, m, p0);
    AppendAssoc(x, m + p0, c);
  }

  /** `/&$/` takes off the `&` behind a plain ending and nothing else. */
  lemma DropTrailingBehindPlain(k: string, tail: string)
    requires EndsPlain(k) && (tail == [] || tail == "&")
    ensures DropTrailingAmpersand("index.php" + (k + tail)) == "index.php" + k
  {
    var m := "index.php" + k;
    var t := "index.php" + (k + tail);
    AppendAssoc("index.php", k, tail);
    assert m[|m| - 1] == k[|k| - 1];
    if tail == "&" {
      assert t[..|t| - 1] == m;
    } else {
      assert t == m;
    }
  }

  /**
   * A query whose session id replacement leaves kept parameters, perhaps with
   * an `&` after them, is formatted as `index.php?` and those parameters with
   * `&amp;` between them.
   */
  lemma FormatOfStripped(query: string, p0: string, ps: seq<string>, tail: string)
    requires query != [] && query[0] == '?'
    requires KeptParam(p0) && forall i :: 0 <= i < |ps| ==> KeptParam(ps[i])
    requires EndsPlain(if ps == [] then p0 else ps[|ps| - 1])
    requires tail == [] || tail == "&"
    requires RemoveParam(SessionId, query) == Query(p0, ps) + tail
    ensures FormatRequestUrl(query) == "index.php?" + p0 + EscapedChain(ps)
  {
    StripsKeepPrefix(query);
    TokenPassKeeps(p0, ps, tail);
    QueryEndsPlain(p0, ps);
    DropTrailingBehindPlain(Query(p0, ps), tail);
    EscapeKeptQuery(p0, ps);
  }

  /** The first `?` of a URI after a path without one; the query is what follows from it. */
  lemma {:induction false} FirstQuestionMark(a: string, q: string)
    requires '?' !in a && q != [] && q[0] == '?'
    ensures FirstIndex(a + q, '?') == Some(|a|)
  {
    if a != [] {
      assert (a + q)[0] == a[0] && (a + q)[1..] == a[1..] + q;
      assert forall c :: c in a[1..] ==> c in a;
      FirstQuestionMark(a[1..], q);
    }
  }

  /** A GET request whose URI is a path and a query: the query part is formatted, from either variable. */
  lemma GetQuery(a: string, q: string)
    requires '?' !in a && q != [] && q[0] == '?'
    ensures QueryPart(Some("GET"), Some(a + q), None) == Some(q)
    ensures QueryPart(Some("GET"), None, Some(a + q)) == Some(q)
  {
    var u := a + q;
    assert u[|a|] == '?';
    assert Truthy(u) by {
      assert '?' in u && '?' !in "0";
    }
    FirstQuestionMark(a, q);
    assert u[|a|..] == q;
  }

  /** One more parameter at the end of a chain. */
  lemma {:induction false} ChainSnoc(ps: seq<string>, x: string)
    ensures Chain(ps + [x]) == Chain(ps) + ("&" + x)
  {
    if ps == [] {
      assert ps + [x] == [x];
      assert Chain([x]) == "&" + x + Chain([]);
    } else {
      assert (ps + [x])[0] == ps[0] && (ps + [x])[1..] == ps[1..] + [x];
      ChainSnoc(ps[1..], x);
      var c := Chain(ps[1..]);
      AppendAssoc("&" + ps[0], c, "&" + x);
    }
  }

  /** A query with one parameter, written out. */
  lemma QueryOfOne(a: string, p0: string)
    ensures a + "?" + p0 == a + Query(p0, [])
  {
    assert Query(p0, []) == "?" + p0;
    AppendAssoc(a, "?", p0);
  }

  /** A chain with one parameter more in front, written out. */
  lemma QueryOfMore(a: string, p0: string, ps: seq<string>, x: string)
    requires a + "?" + p0 + Chain(ps) == a + Query(p0, ps)
    ensures a + "?" + p0 + Chain(ps) + "&" + x == a + Query(p0, ps + [x])
  {
    ChainSnoc(ps, x);
    var b := a + "?" + p0;
    var c := Chain(ps);
    AppendAssoc(b, c, "&" + x);
    AppendAssoc(b + c, "&", x);
    AppendAssoc("?" + p0, c, "&" + x);
    AppendAssoc(a, "?" + p0 + c, "&" + x);
  }

  /** The `&amp;` chain of two parameters, written out. */
  lemma EscapedOfTwo(h: string, p1: string, p2: string)
    ensures h + EscapedChain([p1, p2]) == h + "&amp;" + p1 + "&amp;" + p2
  {
    assert [p1, p2][1..] == [p2];
    assert EscapedChain([p2]) == "&amp;" + p2 + [];
    AppendAssoc(h, "&amp;" + p1, "&amp;" + p2);
    AppendAssoc(h, "&amp;", p1);
    AppendAssoc(h + "&amp;" + p1, "&amp;", p2);
  }

  // ---------------------------------------------------------------------
  // The parameters of the tests, one literal per lemma: each unfolds the
  // name patterns on its literal, which stays cheap only on its own.
  // ---------------------------------------------------------------------

  lemma KeptParam1()
    ensures KeptParam("param1=value1") && EndsPlain("param1=value1")
  {
    NotSessionName("param1=value1");
    assert "param1=value1"[6] == '=';
  }

  lemma KeptParam2()
    ensures KeptParam("param2=value2") && EndsPlain("param2=value2")
  {
    NotSessionName("param2=value2");
    assert "param2=value2"[6] == '=';
  }

  lemma KeptSysid()
    ensures KeptParam("sysid=vvv")
  {
    NotSessionName("sysid=vvv");
    assert "sysid=vvv"[5] == '=';
  }

  lemma KeptParam2b()
    ensures KeptParam("param2=ttt") && EndsPlain("param2=ttt")
  {
    NotSessionName("param2=ttt");
    assert "param2=ttt"[6] == '=';
  }

  lemma KeptCl()
    ensures KeptParam("cl=details") && EndsPlain("cl=details")
  {
    NotSessionName("cl=details");
    assert "cl=details"[2] == '=';
  }

  lemma SessionIdParam()
    ensures '=' in "sid=zzz" && '&' !in "sid=zzz" && NameLength(SessionId, "sid=zzz").Some?
  {
    assert "sid=zzz"[3] == '=';
    NotBeginsAt("sid=zzz", 0, "force_", 0);
    NotBeginsAt("sid=zzz", 0, "admin_", 0);
    assert BeginsAt("sid=zzz", 0, "sid=");
  }

  // ---------------------------------------------------------------------
  // The tests, with each URI written as its path and parameters
  // ---------------------------------------------------------------------

  /** A GET request with two parameters: `index.php` and the query, with the `&` escaped. */
  lemma PlainQueryVector()
    ensures GetRequestUrl(Some("GET"), Some("test.php" + "?" + "param1=value1" + "&" + "param2=value2"), None) ==
            "index.php?" + "param1=value1" + "&amp;" + "param2=value2"
  {
    var a, p0, p1 := "test.php", "param1=value1", "param2=value2";
    QueryOfOne(a, p0);
    assert [] + [p1] == [p1];
    QueryOfMore(a, p0, [], p1);
    var q := Query(p0, [p1]);
    GetQuery(a, q);
    KeptParam1();
    KeptParam2();
    KeptQuery(SessionId, p0, [p1]);
    assert RemoveParam(SessionId, q) == q + [];
    FormatOfStripped(q, p0, [p1], []);
    assert EscapedChain([p1]) == "&amp;" + p1 + [];
    AppendAssoc("index.php?" + p0, "&amp;", p1);
  }

  /** A URI without a query string gives no URL. */
  lemma NoQueryVector()
    ensures GetRequestUrl(Some("GET"), Some("/shop/"), None) == ""
  {
    assert FirstIndex("/shop/", '?') == None;
  }

  /** With REQUEST_URI not set, SCRIPT_URI is used. */
  lemma ScriptUriVector()
    ensures GetRequestUrl(Some("GET"), None, Some("/shop/" + "?" + "cl=details")) == "index.php?" + "cl=details"
  {
    var a, p0 := "/shop/", "cl=details";
    QueryOfOne(a, p0);
    var q := Query(p0, []);
    GetQuery(a, q);
    KeptCl();
    KeptQuery(SessionId, p0, []);
    assert RemoveParam(SessionId, q) == q + [];
    FormatOfStripped(q, p0, [], []);
    assert "index.php?" + p0 + EscapedChain([]) == "index.php?" + p0;
  }

  /** Three parameters after the first, as one query. */
  lemma QueryOfFour(a: string, p0: string, p1: string, p2: string, p3: string)
    ensures a + "?" + p0 + "&" + p1 + "&" + p2 + "&" + p3 == a + Query(p0, [p1, p2, p3])
  {
    QueryOfOne(a, p0);
    assert a + "?" + p0 + Chain([]) == a + "?" + p0;
    assert [] + [p1] == [p1];
    QueryOfMore(a, p0, [], p1);
    assert a + "?" + p0 + "&" + p1 == a + "?" + p0 + Chain([p1]) by {
      assert Chain([p1]) == "&" + p1 + [];
      AppendAssoc(a + "?" + p0, "&", p1);
    }
    assert [p1] + [p2] == [p1, p2];
    QueryOfMore(a, p0, [p1], p2);
    assert a + "?" + p0 + "&" + p1 + "&" + p2 == a + "?" + p0 + Chain([p1, p2]) by {
      ChainSnoc([p1], p2);
      assert Chain([p1]) == "&" + p1 + [];
      AppendAssoc(a + "?" + p0 + "&" + p1, "&", p2);
      AppendAssoc(a + "?" + p0, "&" + p1, "&" + p2);
      AppendAssoc(a + "?" + p0, "&", p1);
    }
    assert [p1, p2] + [p3] == [p1, p2, p3];
    QueryOfMore(a, p0, [p1, p2], p3);
  }

  /** The session id between two kept parameters goes with the `&` after it. */
  lemma SessionIdInMiddleCase(a: string, p0: string, sid: string, q: string, p2: string)
    requires '?' !in a && KeptParam(p0) && KeptParam(q) && KeptParam(p2) && EndsPlain(p2)
    requires '=' in sid && '&' !in sid && NameLength(SessionId, sid).Some?
    ensures GetRequestUrl(Some("GET"), Some(a + "?" + p0 + "&" + sid + "&" + q + "&" + p2), None) ==
            "index.php?" + p0 + "&amp;" + q + "&amp;" + p2
  {
    QueryOfFour(a, p0, sid, q, p2);
    var query := Query(p0, [sid, q, p2]);
    GetQuery(a, query);
    assert [sid, q] + [p2] == [sid, q, p2];
    SessionIdInMiddle(p0, sid, q, [p2]);
    assert [q] + [p2] == [q, p2];
    assert RemoveParam(SessionId, query) == Query(p0, [q, p2]) + [];
    FormatOfStripped(query, p0, [q, p2], []);
    EscapedOfTwo("index.php?" + p0, q, p2);
  }

  /** The session id as the first parameter: the `?` stays and the next parameter follows it. */
  lemma SessionIdFirstCase(a: string, sid: string, p0: string, q: string, p2: string)
    requires '?' !in a && KeptParam(p0) && KeptParam(q) && KeptParam(p2) && EndsPlain(p2)
    requires '=' in sid && '&' !in sid && NameLength(SessionId, sid).Some?
    ensures GetRequestUrl(Some("GET"), Some(a + "?" + sid + "&" + p0 + "&" + q + "&" + p2), None) ==
            "index.php?" + p0 + "&amp;" + q + "&amp;" + p2
  {
    QueryOfFour(a, sid, p0, q, p2);
    var query := Query(sid, [p0, q, p2]);
    GetQuery(a, query);
    assert [p0] + [q, p2] == [p0, q, p2];
    SessionIdFirst(sid, p0, [q, p2]);
    assert RemoveParam(SessionId, query) == Query(p0, [q, p2]) + [];
    FormatOfStripped(query, p0, [q, p2], []);
    EscapedOfTwo("index.php?" + p0, q, p2);
  }

  /** The session id as the last parameter: its `&` is left behind and then taken off. */
  lemma SessionIdLastCase(a: string, p0: string, q: string, p2: string, sid: string)
    requires '?' !in a && KeptParam(p0) && KeptParam(q) && KeptParam(p2) && EndsPlain(p2)
    requires '=' in sid && '&' !in sid && NameLength(SessionId, sid).Some?
    ensures GetRequestUrl(Some("GET"), Some(a + "?" + p0 + "&" + q + "&" + p2 + "&" + sid), None) ==
            "index.php?" + p0 + "&amp;" + q + "&amp;" + p2
  {
    QueryOfFour(a, p0, q, p2, sid);
    var query := Query(p0, [q, p2, sid]);
    GetQuery(a, query);
    assert [q, p2] + [sid] == [q, p2, sid];
    ChainSnoc([q, p2], sid);
    assert query == "?" + p0 + (Chain([q, p2]) + ("&" + sid)) by {
      AppendAssoc("?" + p0, Chain([q, p2]), "&" + sid);
    }
    SessionIdLast(p0, [q, p2], sid);
    FormatOfStripped(query, p0, [q, p2], "&");
    EscapedOfTwo("index.php?" + p0, q, p2);
  }

  /** The three URIs of the session id test: the id in the middle, first and last. */
  lemma SessionIdVectors()
    ensures GetRequestUrl(Some("GET"), Some("test.php" + "?" + "param1=value1" + "&" + "sid=zzz" + "&" + "sysid=vvv" + "&" + "param2=ttt"), None) ==
            "index.php?" + "param1=value1" + "&amp;" + "sysid=vvv" + "&amp;" + "param2=ttt"
    ensures GetRequestUrl(Some("GET"), Some("test.php" + "?" + "sid=zzz" + "&" + "param1=value1" + "&" + "sysid=vvv" + "&" + "param2=ttt"), None) ==
            "index.php?" + "param1=value1" + "&amp;" + "sysid=vvv" + "&amp;" + "param2=ttt"
    ensures GetRequestUrl(Some("GET"), Some("test.php" + "?" + "param1=value1" + "&" + "sysid=vvv" + "&" + "param2=ttt" + "&" + "sid=zzz"), None) ==
            "index.php?" + "param1=value1" + "&amp;" + "sysid=vvv" + "&amp;" + "param2=ttt"
  {
    KeptParam1();
    KeptSysid();
    KeptParam2b();
    SessionIdParam();
    assert '?' !in "test.php";
    SessionIdInMiddleCase("test.php", "param1=value1", "sid=zzz", "sysid=vvv", "param2=ttt");
    SessionIdFirstCase("test.php", "sid=zzz", "param1=value1", "sysid=vvv", "param2=ttt");
    SessionIdLastCase("test.php", "param1=value1", "sysid=vvv", "param2=ttt", "sid=zzz");
  }
}
