/**
 * The request escaping engine: `Request::replaceSpecialChars` and its
 * by-reference twin `Request::checkParamSpecialChars`.
 *
 * A request value is a string, an ordered array of key/value entries, or
 * anything else (null, booleans, integers, floats, objects), which is passed through.
 */
module SpecialChars {
  import opened Wrappers

  /** A PHP value as it reaches the escaping engine. */
  datatype RequestValue =
    | Null
    | Bool(b: bool)
    | Int(i: int)
    | Float(f: real)
    | Object(handle: nat)
    | Str(s: string)
    | Array(entries: seq<Entry>)

  /** One entry of a PHP array, in iteration order. */
  datatype Entry = Entry(key: string, value: RequestValue)

  // ---------------------------------------------------------------------
  // The string branch: one `str_replace` call with two parallel arrays.
  // ---------------------------------------------------------------------

  /** The characters searched for, in the order the source lists them. */
  const SearchChars: seq<char> := ['&', '<', '>', '"', '\'', '\0', '\\', '\n', '\r']

  /** The replacement of each search character, index by index. */
  const ReplaceStrings: seq<string> :=
    ["&amp;", "&lt;", "&gt;", "&quot;", "&#039;", "", "&#092;", "&#10;", "&#13;"]

  /** `str_replace(c, r, s)` for a one-character search string. */
  function ReplaceAll(s: string, c: char, r: string): string
  {
    if s == [] then []
    else (if s[0] == c then r else [s[0]]) + ReplaceAll(s[1..], c, r)
  }

  /**
   * `str_replace(search, replace, subject)` with array arguments: each pair
   * is applied in turn to the whole result of the previous one.
   */
  function StrReplace(search: seq<char>, replace: seq<string>, subject: string): string
    requires |search| == |replace|
    decreases |search|
  {
    if search == [] then subject
    else StrReplace(search[1..], replace[1..], ReplaceAll(subject, search[0], replace[0]))
  }

  /** The escaped form of a single character (the reference definition). */
  function EscapeChar(c: char): string
  {
    if c == '&' then "&amp;"
    else if c == '<' then "&lt;"
    else if c == '>' then "&gt;"
    else if c == '"' then "&quot;"
    else if c == '\'' then "&#039;"
    else if c == '\0' then ""
    else if c == '\\' then "&#092;"
    else if c == '\n' then "&#10;"
    else if c == '\r' then "&#13;"
    else [c]
  }

  /** Escaping as a per-character map: every character replaced by its escaped form. */
  function EscapeString(s: string): string
  {
    if s == [] then [] else EscapeChar(s[0]) + EscapeString(s[1..])
  }

  /**
   * The string branch of `replaceSpecialChars` as the source writes it. Because
   * `&` is replaced first and no later search character occurs in an earlier
   * replacement, the sequential replacement is the per-character map.
   */
  function ReplaceInString(s: string): (t: string)
    ensures t == EscapeString(s)
  {
    StrReplaceIsEscapeString(s);
    StrReplace(SearchChars, ReplaceStrings, s)
  }

  lemma {:induction false} ReplaceAllConcat(a: string, b: string, c: char, r: string)
    ensures ReplaceAll(a + b, c, r) == ReplaceAll(a, c, r) + ReplaceAll(b, c, r)
  {
    if a == [] {
      assert a + b == b;
    } else {
      assert (a + b)[0] == a[0];
      assert (a + b)[1..] == a[1..] + b;
      ReplaceAllConcat(a[1..], b, c, r);
    }
  }

  lemma {:induction false} ReplaceAllAbsent(s: string, c: char, r: string)
    requires c !in s
    ensures ReplaceAll(s, c, r) == s
  {
    if s != [] {
      assert s[0] != c;
      assert s == [s[0]] + s[1..];
      ReplaceAllAbsent(s[1..], c, r);
    }
  }

  lemma {:induction false} StrReplaceConcat(search: seq<char>, replace: seq<string>, a: string, b: string)
    requires |search| == |replace|
    ensures StrReplace(search, replace, a + b) == StrReplace(search, replace, a) + StrReplace(search, replace, b)
    decreases |search|
  {
    if search != [] {
      ReplaceAllConcat(a, b, search[0], replace[0]);
      StrReplaceConcat(search[1..], replace[1..],
        ReplaceAll(a, search[0], replace[0]), ReplaceAll(b, search[0], replace[0]));
    }
  }

  lemma {:induction false} StrReplaceAbsent(search: seq<char>, replace: seq<string>, s: string)
    requires |search| == |replace|
    requires forall i :: 0 <= i < |search| ==> search[i] !in s
    ensures StrReplace(search, replace, s) == s
    decreases |search|
  {
    if search != [] {
      ReplaceAllAbsent(s, search[0], replace[0]);
      assert forall i :: 0 <= i < |search[1..]| ==> search[1..][i] == search[i + 1];
      StrReplaceAbsent(search[1..], replace[1..], s);
    }
  }

  /**
   * No later search character occurs in an earlier replacement, and the
   * search characters are distinct: the condition under which applying the
   * pairs in turn never touches text that an earlier pair inserted.
   */
  ghost predicate NoReescape(search: seq<char>, replace: seq<string>)
    requires |search| == |replace|
  {
    forall i, j :: 0 <= i < j < |search| ==> search[j] !in replace[i] && search[i] != search[j]
  }

  lemma TableHasNoReescape()
    ensures NoReescape(SearchChars, ReplaceStrings)
  {
    var S, R := SearchChars, ReplaceStrings;
    forall i, j | 0 <= i < j < |S| ensures S[j] !in R[i] && S[i] != S[j] {
      assert forall k :: 0 <= k < |R[i]| ==> R[i][k] in "&amp;lgtquo#0123456789";
      assert forall k :: 1 <= k < |S| ==> S[k] !in "&amp;lgtquo#0123456789";
    }
  }

  /**
   * Under NoReescape, a one-character subject equal to the k-th search
   * character ends up as the k-th replacement.
   */
  lemma {:induction false} StrReplaceHit(search: seq<char>, replace: seq<string>, k: nat)
    requires |search| == |replace| && k < |search|
    requires NoReescape(search, replace)
    ensures StrReplace(search, replace, [search[k]]) == replace[k]
    decreases k
  {
    var c := search[k];
    assert [c][1..] == [];
    assert forall i :: 0 <= i < |search[1..]| ==> search[1..][i] == search[i + 1];
    if k == 0 {
      assert ReplaceAll([c], c, replace[0]) == replace[0];
      StrReplaceAbsent(search[1..], replace[1..], replace[0]);
    } else {
      assert ReplaceAll([c], search[0], replace[0]) == [c];
      StrReplaceHit(search[1..], replace[1..], k - 1);
    }
  }

  lemma StrReplaceMiss(search: seq<char>, replace: seq<string>, c: char)
    requires |search| == |replace| && c !in search
    ensures StrReplace(search, replace, [c]) == [c]
  {
    assert forall i :: 0 <= i < |search| ==> search[i] !in [c];
    StrReplaceAbsent(search, replace, [c]);
  }

  /** The table pairs each search character with its escaped form. */
  lemma TableIsEscapeChar(k: nat)
    requires k < |SearchChars|
    ensures ReplaceStrings[k] == EscapeChar(SearchChars[k])
  {
    if k == 0 {} else if k == 1 {} else if k == 2 {} else if k == 3 {} else if k == 4 {}
    else if k == 5 {} else if k == 6 {} else if k == 7 {} else {}
  }

  lemma StrReplaceOneChar(c: char)
    ensures StrReplace(SearchChars, ReplaceStrings, [c]) == EscapeChar(c)
  {
    if c in SearchChars {
      var k :| 0 <= k < |SearchChars| && SearchChars[k] == c;
      TableHasNoReescape();
      StrReplaceHit(SearchChars, ReplaceStrings, k);
      TableIsEscapeChar(k);
    } else {
      StrReplaceMiss(SearchChars, ReplaceStrings, c);
    }
  }

  /** The sequential `str_replace` of the source equals the per-character escape. */
  lemma {:induction false} StrReplaceIsEscapeString(s: string)
    ensures StrReplace(SearchChars, ReplaceStrings, s) == EscapeString(s)
  {
    if s != [] {
      assert s == [s[0]] + s[1..];
      StrReplaceConcat(SearchChars, ReplaceStrings, [s[0]], s[1..]);
      StrReplaceOneChar(s[0]);
      StrReplaceIsEscapeString(s[1..]);
    }
  }

  // ---------------------------------------------------------------------
  // What the escaped string looks like.
  // ---------------------------------------------------------------------

  /** The characters that never survive escaping. */
  predicate IsSpecial(c: char)
  {
    c == '<' || c == '>' || c == '"' || c == '\'' || c == '\0' || c == '\\' || c == '\n' || c == '\r'
  }

  lemma {:induction false} EscapeStringConcat(a: string, b: string)
    ensures EscapeString(a + b) == EscapeString(a) + EscapeString(b)
  {
    if a == [] {
      assert a + b == b;
    } else {
      assert (a + b)[0] == a[0];
      assert (a + b)[1..] == a[1..] + b;
      EscapeStringConcat(a[1..], b);
    }
  }

  /** None of `<`, `>`, `"`, `'`, NUL, `\`, LF, CR occurs in an escaped string. */
  lemma {:induction false} EscapedStringHasNoSpecialChars(s: string)
    ensures forall c :: c in EscapeString(s) ==> !IsSpecial(c)
  {
    if s != [] {
      EscapedStringHasNoSpecialChars(s[1..]);
      assert forall c :: c in EscapeChar(s[0]) ==> !IsSpecial(c);
    }
  }

  /** A string with none of the searched characters passes through unchanged. */
  lemma {:induction false} EscapeStringOfPlain(s: string)
    requires forall c :: c in s ==> c != '&' && !IsSpecial(c)
    ensures EscapeString(s) == s
  {
    if s != [] {
      assert s[0] in s;
      assert forall c :: c in s[1..] ==> c in s;
      EscapeStringOfPlain(s[1..]);
    }
  }

  /** `s` with every NUL character removed. */
  function DropNul(s: string): string
  {
    if s == [] then [] else (if s[0] == '\0' then [] else [s[0]]) + DropNul(s[1..])
  }

  /** Whether `t` begins with `p`. */
  predicate StartsWith(t: string, p: string)
  {
    |p| <= |t| && t[..|p|] == p
  }

  /**
   * Decoding of exactly the entities the escape produces; any other
   * character, a lone `&` included, is kept.
   */
  function Unescape(t: string): string
    decreases |t|
  {
    if t == [] then []
    else if t[0] != '&' then [t[0]] + Unescape(t[1..])
    else if StartsWith(t, "&amp;") then "&" + Unescape(t[5..])
    else if StartsWith(t, "&lt;") then "<" + Unescape(t[4..])
    else if StartsWith(t, "&gt;") then ">" + Unescape(t[4..])
    else if StartsWith(t, "&quot;") then "\"" + Unescape(t[6..])
    else if StartsWith(t, "&#039;") then "'" + Unescape(t[6..])
    else if StartsWith(t, "&#092;") then "\\" + Unescape(t[6..])
    else if StartsWith(t, "&#10;") then "\n" + Unescape(t[5..])
    else if StartsWith(t, "&#13;") then "\r" + Unescape(t[5..])
    else [t[0]] + Unescape(t[1..])
  }

  lemma UnescapeAmp(rest: string)
    ensures Unescape("&amp;" + rest) == ['&'] + Unescape(rest)
  {
    var t := "&amp;" + rest;
    assert t[..5] == "&amp;" && t[5..] == rest;
  }

  lemma UnescapeLt(rest: string)
    ensures Unescape("&lt;" + rest) == ['<'] + Unescape(rest)
  {
    var t := "&lt;" + rest;
    assert t[..4] == "&lt;" && t[4..] == rest;
    assert t[1] == 'l';
  }

  lemma UnescapeGt(rest: string)
    ensures Unescape("&gt;" + rest) == ['>'] + Unescape(rest)
  {
    var t := "&gt;" + rest;
    assert t[..4] == "&gt;" && t[4..] == rest;
    assert t[1] == 'g';
  }

  lemma UnescapeQuot(rest: string)
    ensures Unescape("&quot;" + rest) == ['"'] + Unescape(rest)
  {
    var t := "&quot;" + rest;
    assert t[..6] == "&quot;" && t[6..] == rest;
    assert t[1] == 'q';
  }

  lemma UnescapeApos(rest: string)
    ensures Unescape("&#039;" + rest) == ['\''] + Unescape(rest)
  {
    var t := "&#039;" + rest;
    assert t[..6] == "&#039;" && t[6..] == rest;
    assert t[1] == '#' && t[2] == '0' && t[3] == '3';
  }

  lemma UnescapeBackslash(rest: string)
    ensures Unescape("&#092;" + rest) == ['\\'] + Unescape(rest)
  {
    var t := "&#092;" + rest;
    assert t[..6] == "&#092;" && t[6..] == rest;
    assert t[1] == '#' && t[2] == '0' && t[3] == '9';
  }

  lemma UnescapeLf(rest: string)
    ensures Unescape("&#10;" + rest) == ['\n'] + Unescape(rest)
  {
    var t := "&#10;" + rest;
    assert t[..5] == "&#10;" && t[5..] == rest;
    assert t[1] == '#' && t[2] == '1' && t[3] == '0';
  }

  lemma UnescapeCr(rest: string)
    ensures Unescape("&#13;" + rest) == ['\r'] + Unescape(rest)
  {
    var t := "&#13;" + rest;
    assert t[..5] == "&#13;" && t[5..] == rest;
    assert t[1] == '#' && t[2] == '1' && t[3] == '3';
  }

  lemma UnescapePlain(c: char, rest: string)
    requires c != '&'
    ensures Unescape([c] + rest) == [c] + Unescape(rest)
  {
    var t := [c] + rest;
    assert t[0] == c && t[1..] == rest;
  }

  lemma UnescapeEscapedChar(c: char, rest: string)
    requires c != '\0'
    ensures Unescape(EscapeChar(c) + rest) == [c] + Unescape(rest)
  {
    if c == '&' { UnescapeAmp(rest); }
    else if c == '<' { UnescapeLt(rest); }
    else if c == '>' { UnescapeGt(rest); }
    else if c == '"' { UnescapeQuot(rest); }
    else if c == '\'' { UnescapeApos(rest); }
    else if c == '\\' { UnescapeBackslash(rest); }
    else if c == '\n' { UnescapeLf(rest); }
    else if c == '\r' { UnescapeCr(rest); }
    else {
      assert EscapeChar(c) == [c];
      UnescapePlain(c, rest);
    }
  }

  /** Escaping loses nothing but NUL characters: decoding gives the input back. */
  lemma {:induction false} UnescapeEscapeString(s: string)
    ensures Unescape(EscapeString(s)) == DropNul(s)
  {
    if s != [] {
      UnescapeEscapeString(s[1..]);
      if s[0] == '\0' {
        assert EscapeString(s) == EscapeString(s[1..]);
      } else {
        UnescapeEscapedChar(s[0], EscapeString(s[1..]));
      }
    }
  }

  lemma {:induction false} DropNulOfNulFree(s: string)
    requires '\0' !in s
    ensures DropNul(s) == s
  {
    if s != [] {
      assert s == [s[0]] + s[1..];
      DropNulOfNulFree(s[1..]);
    }
  }

  /** Two distinct strings without NUL never escape to the same string. */
  lemma EscapeStringInjective(a: string, b: string)
    requires '\0' !in a && '\0' !in b && EscapeString(a) == EscapeString(b)
    ensures a == b
  {
    UnescapeEscapeString(a);
    UnescapeEscapeString(b);
    DropNulOfNulFree(a);
    DropNulOfNulFree(b);
  }

  // ---------------------------------------------------------------------
  // Arrays: ordered entries with unique keys.
  // ---------------------------------------------------------------------

  /** The keys of a PHP array are pairwise distinct. */
  ghost predicate UniqueKeys(es: seq<Entry>)
  {
    forall i, j :: 0 <= i < j < |es| ==> es[i].key != es[j].key
  }

  /** The position of key `k` in `es`, if any. */
  function FindKey(es: seq<Entry>, k: string): (r: Option<nat>)
    ensures r.Some? ==> r.value < |es| && es[r.value].key == k
    ensures r.Some? ==> forall j :: 0 <= j < r.value ==> es[j].key != k
    ensures r.None? <==> forall j :: 0 <= j < |es| ==> es[j].key != k
  {
    if es == [] then None
    else if es[0].key == k then Some(0)
    else match FindKey(es[1..], k)
      case None => None
      case Some(i) => Some(i + 1)
  }

  /**
   * PHP's `$a[$k] = $v`: an existing key keeps its position and takes the new
   * value; a new key is appended at the end.
   */
  function Put(es: seq<Entry>, e: Entry): (r: seq<Entry>)
    ensures UniqueKeys(es) ==> UniqueKeys(r)
    ensures e in r
    ensures (forall j :: 0 <= j < |es| ==> es[j].key != e.key) ==> r == es + [e]
    ensures forall j :: 0 <= j < |es| && es[j].key != e.key ==> es[j] in r
    ensures forall x :: x in r ==> x == e || x in es
  {
    match FindKey(es, e.key)
    case None => es + [e]
    case Some(i) =>
      var r := es[i := e];
      assert r[i] == e;
      assert forall j :: 0 <= j < |es| && j != i ==> r[j] == es[j];
      r
  }

  /**
   * The entry `replaceSpecialChars` stores for one input entry: a key in the
   * raw list keeps key and value; any other has its key escaped and its value
   * escaped recursively with no raw list. String escaping is stated by the
   * per-character map, which `ReplaceInString` shows equal to the sequential
   * `str_replace` the source performs.
   */
  function EscapeEntry(e: Entry, raw: seq<string>): Entry
    decreases e, 0
  {
    if e.key in raw then e
    else Entry(EscapeString(e.key), Escape(e.value, []))
  }

  /** The array `replaceSpecialChars` builds from the first |es| entries. */
  function EscapeArray(es: seq<Entry>, raw: seq<string>): (r: seq<Entry>)
    ensures UniqueKeys(r) && |r| <= |es|
    decreases es, 1
  {
    if es == [] then []
    else Put(EscapeArray(es[..|es| - 1], raw), EscapeEntry(es[|es| - 1], raw))
  }

  /**
   * `replaceSpecialChars(value, raw)`. Objects and every other non-array,
   * non-string value come back unchanged.
   */
  function Escape(v: RequestValue, raw: seq<string>): (r: RequestValue)
    ensures v.Str? ==> r == Str(EscapeString(v.s))
    ensures v.Array? ==> r.Array? && UniqueKeys(r.entries) && |r.entries| <= |v.entries|
    ensures !v.Str? && !v.Array? ==> r == v
    decreases v, 2
  {
    match v
    case Array(es) => Array(EscapeArray(es, raw))
    case Str(s) => Str(EscapeString(s))
    case _ => v
  }

  /** One more input entry: the array so far, with that entry assigned into it. */
  lemma EscapeArrayPrefix(es: seq<Entry>, i: nat, raw: seq<string>)
    requires i < |es|
    ensures EscapeArray(es[..i + 1], raw) == Put(EscapeArray(es[..i], raw), EscapeEntry(es[i], raw))
  {
    assert es[..i + 1][..i] == es[..i];
  }

  /** No two entries of `es` end up under the same key once escaped. */
  ghost predicate DistinctEscapedKeys(es: seq<Entry>, raw: seq<string>)
  {
    forall i, j :: 0 <= i < j < |es| ==> EscapeEntry(es[i], raw).key != EscapeEntry(es[j], raw).key
  }

  /**
   * When escaping merges no keys, the escaped array is the input entry by
   * entry, in the same order: raw entries verbatim, the others with escaped
   * key and a value escaped with no raw list.
   */
  lemma {:induction false} EscapeArrayPointwise(es: seq<Entry>, raw: seq<string>)
    requires DistinctEscapedKeys(es, raw)
    ensures var r := EscapeArray(es, raw);
      |r| == |es| &&
      forall i :: 0 <= i < |es| ==>
        (es[i].key in raw ==> r[i] == es[i]) &&
        (es[i].key !in raw ==> r[i] == Entry(EscapeString(es[i].key), Escape(es[i].value, [])))
  {
    if es != [] {
      var n := |es| - 1;
      var init := es[..n];
      assert DistinctEscapedKeys(init, raw) by {
        assert forall i :: 0 <= i < n ==> init[i] == es[i];
      }
      EscapeArrayPointwise(init, raw);
      EscapeArrayPointwiseStep(es, raw);
    }
  }

  lemma EscapeArrayPointwiseStep(es: seq<Entry>, raw: seq<string>)
    requires es != [] && DistinctEscapedKeys(es, raw)
    requires var n := |es| - 1; var r := EscapeArray(es[..n], raw);
      |r| == n && forall i :: 0 <= i < n ==> r[i] == EscapeEntry(es[i], raw)
    ensures var r := EscapeArray(es, raw);
      |r| == |es| && forall i :: 0 <= i < |es| ==> r[i] == EscapeEntry(es[i], raw)
  {
    var n := |es| - 1;
    var prev := EscapeArray(es[..n], raw);
    var x := EscapeEntry(es[n], raw);
    assert forall j :: 0 <= j < |prev| ==> prev[j].key != x.key;
    assert EscapeArray(es, raw) == prev + [x];
  }

  /** The entries `xs` assigned one after the other into an empty array. */
  function PutAll(xs: seq<Entry>): seq<Entry>
  {
    if xs == [] then [] else Put(PutAll(xs[..|xs| - 1]), xs[|xs| - 1])
  }

  /** `x` is `xs[i]` and no later entry of `xs` has its key. */
  ghost predicate LastWithKey(xs: seq<Entry>, i: int, x: Entry)
  {
    0 <= i < |xs| && x == xs[i] && forall j :: i < j < |xs| ==> xs[j].key != x.key
  }

  /** An entry that is last with its key stays last when an entry with another key follows. */
  lemma LastWithKeyExtend(init: seq<Entry>, e: Entry, i: int, x: Entry)
    requires LastWithKey(init, i, x) && e.key != x.key
    ensures LastWithKey(init + [e], i, x)
  {
    var xs := init + [e];
    assert xs[i] == init[i];
    forall j | i < j < |xs| ensures xs[j].key != x.key {
      if j < |init| {
        assert xs[j] == init[j];
      } else {
        assert xs[j] == e;
      }
    }
  }

  /** Every entry of PutAll(xs) is the last entry of `xs` with its key. */
  lemma {:induction false} PutAllLastWins(xs: seq<Entry>)
    ensures UniqueKeys(PutAll(xs))
    ensures forall x :: x in PutAll(xs) ==> exists i :: LastWithKey(xs, i, x)
  {
    if xs != [] {
      var n := |xs| - 1;
      var init := xs[..n];
      var e := xs[n];
      assert xs == init + [e];
      PutAllLastWins(init);
      assert PutAll(xs) == Put(PutAll(init), e);
      forall x | x in PutAll(xs) ensures exists i :: LastWithKey(xs, i, x) {
        if x == e {
          assert LastWithKey(xs, n, x);
        } else {
          PutKeepsOthers(PutAll(init), e, x);
          var i :| LastWithKey(init, i, x);
          LastWithKeyExtend(init, e, i, x);
        }
      }
    }
  }

  /** The prefix of `xs` one entry longer is the prefix with that entry assigned into it. */
  lemma PutAllPrefix(xs: seq<Entry>, m: nat)
    requires m < |xs|
    ensures PutAll(xs[..m + 1]) == Put(PutAll(xs[..m]), xs[m])
  {
    assert xs[..m + 1][..m] == xs[..m];
  }

  /** One assignment neither shrinks the array nor moves a key, and it keeps every entry with another key. */
  lemma PutKeepsPosition(es: seq<Entry>, e: Entry, p: nat)
    requires p < |es|
    ensures |Put(es, e)| >= |es| && Put(es, e)[p].key == es[p].key
    ensures es[p].key != e.key ==> Put(es, e)[p] == es[p]
  {
    match FindKey(es, e.key)
    case None =>
    case Some(q) =>
  }

  /** Assigning never moves a key: every position keeps its key, and the array does not shrink. */
  lemma {:induction false} PutAllKeepsKeys(xs: seq<Entry>, n: nat, m: nat, p: nat)
    requires n <= m <= |xs| && p < |PutAll(xs[..n])|
    ensures p < |PutAll(xs[..m])| && PutAll(xs[..m])[p].key == PutAll(xs[..n])[p].key
    decreases m
  {
    if m > n {
      PutAllKeepsKeys(xs, n, m - 1, p);
      var prev := PutAll(xs[..m - 1]);
      PutAllPrefix(xs, m - 1);
      PutKeepsPosition(prev, xs[m - 1], p);
      assert PutAll(xs[..m])[p].key == prev[p].key;
    }
  }

  /** Entries with other keys leave the entry at position `p` as it is. */
  lemma {:induction false} PutAllKeepsSlot(xs: seq<Entry>, n: nat, m: nat, p: nat)
    requires n <= m <= |xs| && p < |PutAll(xs[..n])|
    requires forall j :: n <= j < m ==> xs[j].key != PutAll(xs[..n])[p].key
    ensures p < |PutAll(xs[..m])| && PutAll(xs[..m])[p] == PutAll(xs[..n])[p]
    decreases m
  {
    if m > n {
      PutAllKeepsSlot(xs, n, m - 1, p);
      PutAllPrefix(xs, m - 1);
      PutKeepsPosition(PutAll(xs[..m - 1]), xs[m - 1], p);
    }
  }

  /** A key not seen before is appended at the end. */
  lemma PutAllNewKey(xs: seq<Entry>, f: nat)
    requires f < |xs| && forall j :: 0 <= j < f ==> xs[j].key != xs[f].key
    ensures PutAll(xs[..f + 1]) == PutAll(xs[..f]) + [xs[f]]
  {
    var before := PutAll(xs[..f]);
    PutAllLastWins(xs[..f]);
    forall q | 0 <= q < |before| ensures before[q].key != xs[f].key {
      assert before[q] in before;
      var j :| LastWithKey(xs[..f], j, before[q]);
      assert xs[..f][j] == xs[j];
    }
    PutAllPrefix(xs, f);
  }

  /** A key already at position `p` takes the new entry there. */
  lemma PutAllOverwrite(xs: seq<Entry>, i: nat, p: nat)
    requires i < |xs| && p < |PutAll(xs[..i])| && PutAll(xs[..i])[p].key == xs[i].key
    ensures p < |PutAll(xs[..i + 1])| && PutAll(xs[..i + 1])[p] == xs[i]
  {
    var mid := PutAll(xs[..i]);
    PutAllLastWins(xs[..i]);
    match FindKey(mid, xs[i].key)
    case None => assert false;
    case Some(q) =>
      assert q == p;
      PutAllPrefix(xs, i);
  }

  /**
   * The entries from the first with a key up to the last assigned in turn:
   * the last of them sits where the first was appended.
   */
  lemma PutAllUpToLast(xs: seq<Entry>, f: nat, i: nat)
    requires f <= i < |xs| && xs[f].key == xs[i].key
    requires forall j :: 0 <= j < f ==> xs[j].key != xs[f].key
    ensures |PutAll(xs[..f])| < |PutAll(xs[..i + 1])| && PutAll(xs[..i + 1])[|PutAll(xs[..f])|] == xs[i]
  {
    var p := |PutAll(xs[..f])|;
    PutAllNewKey(xs, f);
    assert PutAll(xs[..f + 1])[p] == xs[f];
    if i > f {
      PutAllKeepsKeys(xs, f + 1, i, p);
      PutAllOverwrite(xs, i, p);
    }
  }

  /**
   * The converse of PutAllLastWins, with the position: the last entry of `xs`
   * with its key is in PutAll(xs), at the position the array had reached when
   * that key was first assigned, since later assignments overwrite in place.
   */
  lemma PutAllPosition(xs: seq<Entry>, i: int)
    requires 0 <= i < |xs| && LastWithKey(xs, i, xs[i])
    ensures FindKey(xs, xs[i].key).Some?
    ensures var p := |PutAll(xs[..FindKey(xs, xs[i].key).value])|;
            p < |PutAll(xs)| && PutAll(xs)[p] == xs[i]
  {
    var f := FindKey(xs, xs[i].key).value;
    assert f <= i;
    var p := |PutAll(xs[..f])|;
    PutAllUpToLast(xs, f, i);
    PutAllKeepsLast(xs, i, p);
  }

  /** After the last entry with its key, the slot that entry was assigned to keeps it to the end. */
  lemma PutAllKeepsLast(xs: seq<Entry>, i: nat, p: nat)
    requires i < |xs| && LastWithKey(xs, i, xs[i])
    requires p < |PutAll(xs[..i + 1])| && PutAll(xs[..i + 1])[p] == xs[i]
    ensures p < |PutAll(xs)| && PutAll(xs)[p] == xs[i]
  {
    PutAllKeepsSlot(xs, i + 1, |xs|, p);
    assert xs[..|xs|] == xs;
  }

  /** The escaped entries of `es`, position by position, before assignment. */
  ghost function EscapedEntries(es: seq<Entry>, raw: seq<string>): (xs: seq<Entry>)
    ensures |xs| == |es| && forall i :: 0 <= i < |es| ==> xs[i] == EscapeEntry(es[i], raw)
  {
    seq(|es|, i requires 0 <= i < |es| => EscapeEntry(es[i], raw))
  }

  lemma {:induction false} EscapeArrayIsPutAll(es: seq<Entry>, raw: seq<string>)
    ensures EscapeArray(es, raw) == PutAll(EscapedEntries(es, raw))
  {
    if es != [] {
      var n := |es| - 1;
      EscapeArrayIsPutAll(es[..n], raw);
      assert EscapedEntries(es, raw)[..n] == EscapedEntries(es[..n], raw);
    }
  }

  /**
   * Whatever the keys, every entry of the escaped array is the escaped form of
   * the LAST input entry that escapes to its key: a later entry overwrites an
   * earlier one in place.
   */
  lemma EscapeArrayLastWins(es: seq<Entry>, raw: seq<string>, x: Entry)
    requires x in EscapeArray(es, raw)
    ensures exists i :: 0 <= i < |es| && x == EscapeEntry(es[i], raw) &&
                        forall j :: i < j < |es| ==> EscapeEntry(es[j], raw).key != x.key
  {
    var xs := EscapedEntries(es, raw);
    EscapeArrayIsPutAll(es, raw);
    PutAllLastWins(xs);
    var i :| LastWithKey(xs, i, x);
    assert x == EscapeEntry(es[i], raw);
  }

  /** The escaped array of a prefix is the prefix of the escaped entries, assigned in turn. */
  lemma EscapeArrayPrefixIsPutAll(es: seq<Entry>, raw: seq<string>, f: nat)
    requires f <= |es|
    ensures EscapeArray(es[..f], raw) == PutAll(EscapedEntries(es, raw)[..f])
  {
    EscapeArrayIsPutAll(es[..f], raw);
    assert EscapedEntries(es[..f], raw) == EscapedEntries(es, raw)[..f];
  }

  /**
   * The converse of EscapeArrayLastWins: the escaped form of an input entry
   * that no later entry overwrites is in the escaped array, at the position
   * the array had reached when the first entry with that escaped key came.
   */
  lemma EscapeArrayLastKept(es: seq<Entry>, raw: seq<string>, i: int)
    requires 0 <= i < |es|
    requires forall j :: i < j < |es| ==> EscapeEntry(es[j], raw).key != EscapeEntry(es[i], raw).key
    ensures exists f :: 0 <= f <= i && EscapeEntry(es[f], raw).key == EscapeEntry(es[i], raw).key &&
              (forall j :: 0 <= j < f ==> EscapeEntry(es[j], raw).key != EscapeEntry(es[i], raw).key) &&
              |EscapeArray(es[..f], raw)| < |EscapeArray(es, raw)| &&
              EscapeArray(es, raw)[|EscapeArray(es[..f], raw)|] == EscapeEntry(es[i], raw)
  {
    var xs := EscapedEntries(es, raw);
    var k := xs[i].key;
    assert LastWithKey(xs, i, xs[i]);
    PutAllPosition(xs, i);
    var f := FindKey(xs, k).value;
    assert f <= i;
    var p := |PutAll(xs[..f])|;
    assert p < |PutAll(xs)| && PutAll(xs)[p] == xs[i];
    EscapeArrayIsPutAll(es, raw);
    EscapeArrayPrefixIsPutAll(es, raw, f);
    assert |EscapeArray(es[..f], raw)| == p;
    assert EscapeArray(es, raw)[p] == EscapeEntry(es[i], raw);
    assert forall j :: 0 <= j < f ==> EscapeEntry(es[j], raw).key != k;
    assert EscapeEntry(es[f], raw).key == k;
  }

  lemma PutKeepsOthers(es: seq<Entry>, e: Entry, x: Entry)
    requires UniqueKeys(es) && x in Put(es, e) && x != e
    ensures x in es && x.key != e.key
  {
    match FindKey(es, e.key)
    case None => assert x in es;
    case Some(i) =>
      var j :| 0 <= j < |Put(es, e)| && Put(es, e)[j] == x;
      assert j != i && es[j] == x;
  }

  /**
   * Distinct NUL-free keys and no raw list: escaping merges no keys, so
   * EscapeArrayPointwise applies.
   */
  lemma NulFreeKeysStayDistinct(es: seq<Entry>)
    requires UniqueKeys(es)
    requires forall i :: 0 <= i < |es| ==> '\0' !in es[i].key
    ensures DistinctEscapedKeys(es, [])
  {
    forall i, j | 0 <= i < j < |es|
      ensures EscapeEntry(es[i], []).key != EscapeEntry(es[j], []).key
    {
      if EscapeString(es[i].key) == EscapeString(es[j].key) {
        EscapeStringInjective(es[i].key, es[j].key);
      }
    }
  }
}
