/**
 * The expected outputs of the escaping engine's unit tests, and a few more.
 * Each literal is evaluated through the generic lemmas below (plain runs,
 * one character at a time, concatenation) rather than unfolded at once.
 */
module SpecialCharsExamples {
  import opened Wrappers
  import opened SpecialChars

  lemma EscapeCons(c: char, s: string)
    ensures EscapeString([c] + s) == EscapeChar(c) + EscapeString(s)
  {
    assert ([c] + s)[0] == c && ([c] + s)[1..] == s;
  }

  lemma EscapeStringOfThree(a: string, b: string, c: string)
    ensures EscapeString(a + b + c) == EscapeString(a) + EscapeString(b) + EscapeString(c)
  {
    EscapeStringConcat(a, b);
    EscapeStringConcat(a + b, c);
  }

  /** A one-entry array escapes to its one escaped entry. */
  lemma EscapeOneEntry(e: Entry, raw: seq<string>, r: Entry)
    requires r == EscapeEntry(e, raw)
    ensures Escape(Array([e]), raw) == Array([r])
  {
    EscapeArrayPointwise([e], raw);
  }

  /** A three-entry array whose escaped keys stay distinct escapes entry by entry. */
  lemma EscapeThreeEntries(e0: Entry, e1: Entry, e2: Entry, raw: seq<string>, r0: Entry, r1: Entry, r2: Entry)
    requires r0 == EscapeEntry(e0, raw) && r1 == EscapeEntry(e1, raw) && r2 == EscapeEntry(e2, raw)
    requires r0.key != r1.key && r0.key != r2.key && r1.key != r2.key
    ensures Escape(Array([e0, e1, e2]), raw) == Array([r0, r1, r2])
  {
    var es := [e0, e1, e2];
    forall i, j | 0 <= i < j < |es| ensures EscapeEntry(es[i], raw).key != EscapeEntry(es[j], raw).key {
      if i == 0 && j == 1 {
        assert es[i] == e0 && es[j] == e1;
      } else if i == 0 {
        assert es[i] == e0 && es[j] == e2;
      } else {
        assert es[i] == e1 && es[j] == e2;
      }
    }
    EscapeArrayPointwise(es, raw);
  }

  /**
   * Three entries whose first and last keys collide once escaped: the last
   * value is stored at the first position.
   */
  lemma EscapeCollidingEntries(e0: Entry, e1: Entry, e2: Entry, raw: seq<string>, r0: Entry, r1: Entry, r2: Entry)
    requires r0 == EscapeEntry(e0, raw) && r1 == EscapeEntry(e1, raw) && r2 == EscapeEntry(e2, raw)
    requires r0.key != r1.key && r0.key == r2.key
    ensures Escape(Array([e0, e1, e2]), raw) == Array([r2, r1])
  {
    var es := [e0, e1, e2];
    assert es[..1] == [e0] && es[..2] == [e0, e1];
    assert [e0][..0] == [] && [e0, e1][..1] == [e0];
    assert EscapeArray([e0], raw) == [r0];
    assert EscapeArray([e0, e1], raw) == [r0, r1];
    assert FindKey([r0, r1], r2.key) == Some(0);
  }

  lemma TestStringHead()
    ensures EscapeString("&\\o<") == "&amp;&#092;o&lt;"
  {
    EscapeCons('&', "\\o<");
    EscapeCons('\\', "o<");
    EscapeCons('o', "<");
    EscapeCons('<', "");
  }

  lemma TestStringMiddle()
    ensures EscapeString("x>i\"") == "x&gt;i&quot;"
  {
    EscapeCons('x', ">i\"");
    EscapeCons('>', "i\"");
    EscapeCons('i', "\"");
    EscapeCons('"', "");
  }

  lemma TestStringTail()
    ensures EscapeString("'d\0") == "&#039;d"
  {
    EscapeCons('\'', "d\0");
    EscapeCons('d', "\0");
    EscapeCons('\0', "");
  }

  /** Only joins the literal pieces, so that the vector can be proved piece by piece. */
  lemma TestStringJoins()
    ensures "&\\o<" + "x>i\"" + "'d\0" == "&\\o<x>i\"'d\0"
    ensures "&amp;&#092;o&lt;" + "x&gt;i&quot;" + "&#039;d" == "&amp;&#092;o&lt;x&gt;i&quot;&#039;d"
  {
  }

  /** The string case of the unit tests: every entry of the table at once. */
  lemma StringTestVector()
    ensures EscapeString("&\\o<x>i\"'d\0") == "&amp;&#092;o&lt;x&gt;i&quot;&#039;d"
  {
    TestStringHead();
    TestStringMiddle();
    TestStringTail();
    TestStringJoins();
    EscapeStringOfThree("&\\o<", "x>i\"", "'d\0");
  }

  lemma CrLf()
    ensures EscapeString("\r\n") == "&#13;&#10;"
  {
    EscapeCons('\r', "\n");
    EscapeCons('\n', "");
  }

  lemma LfCr()
    ensures EscapeString("\n\r") == "&#10;&#13;"
  {
    EscapeCons('\n', "\r");
    EscapeCons('\r', "");
  }

  lemma TextIsPlain()
    ensures EscapeString("text") == "text"
  {
    EscapeStringOfPlain("text");
  }

  /** Only joins the literal pieces, so that the vectors can be proved piece by piece. */
  lemma LineBreakJoins()
    ensures "text" + "\r\n" == "text\r\n" && "text" + "&#13;&#10;" == "text&#13;&#10;"
    ensures "text" + "\n\r" == "text\n\r" && "text" + "&#10;&#13;" == "text&#10;&#13;"
  {
  }

  /** The line-break cases of the unit tests: CR LF and LF CR keep their order. */
  lemma CrLfTestVector()
    ensures EscapeString("text\r\n") == "text&#13;&#10;"
  {
    TextIsPlain();
    CrLf();
    LineBreakJoins();
    EscapeStringConcat("text", "\r\n");
  }

  lemma LfCrTestVector()
    ensures EscapeString("text\n\r") == "text&#10;&#13;"
  {
    TextIsPlain();
    LfCr();
    LineBreakJoins();
    EscapeStringConcat("text", "\n\r");
  }

  lemma AmpersandAfter(s: string)
    requires forall c :: c in s ==> c != '&' && !IsSpecial(c)
    ensures EscapeString(s + "&") == s + "&amp;"
  {
    EscapeStringOfPlain(s);
    EscapeCons('&', "");
    EscapeStringConcat(s, "&");
  }

  lemma ArrayKeyPieces()
    ensures EscapeString("asd&") == "asd&amp;" && EscapeString("a%&") == "a%&amp;"
  {
    AmpersandAfter("asd");
    AmpersandAfter("a%");
    ArrayKeyJoins();
  }

  /** Only joins the literal pieces, so that the vector can be proved piece by piece. */
  lemma ArrayKeyJoins()
    ensures "asd" + "&" == "asd&" && "asd" + "&amp;" == "asd&amp;"
    ensures "a%" + "&" == "a%&" && "a%" + "&amp;" == "a%&amp;"
  {
  }

  /** The array cases of the unit tests: values and keys are escaped. */
  lemma ArrayKeyTestVector()
    ensures Escape(Array([Entry("asd&", Str("a%&"))]), []) == Array([Entry("asd&amp;", Str("a%&amp;"))])
  {
    ArrayKeyPieces();
    EscapeOneEntry(Entry("asd&", Str("a%&")), [], Entry("asd&amp;", Str("a%&amp;")));
  }

  lemma ZeroIsPlain()
    ensures EscapeString("0") == "0"
  {
    EscapeStringOfPlain("0");
  }

  lemma ArrayLineBreakTestVector()
    ensures Escape(Array([Entry("0", Str("text\r\n"))]), []) == Array([Entry("0", Str("text&#13;&#10;"))])
  {
    CrLfTestVector();
    ZeroIsPlain();
    EscapeOneEntry(Entry("0", Str("text\r\n")), [], Entry("0", Str("text&#13;&#10;")));
  }

  lemma RawListKeys()
    ensures "first" in ["first", "third"] && "third" in ["first", "third"] && "second" !in ["first", "third"]
    ensures "first" != "second" && "first" != "third" && "second" != "third"
  {
  }

  /**
   * The raw-list case of the unit tests, for any values: the entries named in
   * the raw list keep their value whatever it holds, the other is escaped.
   */
  lemma RawListTestVector(first: RequestValue, second: string, third: RequestValue)
    ensures Escape(Array([Entry("first", first), Entry("second", Str(second)), Entry("third", third)]),
                   ["first", "third"]) ==
            Array([Entry("first", first), Entry("second", Str(EscapeString(second))), Entry("third", third)])
  {
    RawListKeys();
    EscapeStringOfPlain("second");
    EscapeThreeEntries(Entry("first", first), Entry("second", Str(second)), Entry("third", third), ["first", "third"],
                       Entry("first", first), Entry("second", Str(EscapeString(second))), Entry("third", third));
  }

  /** A raw key keeps its whole subtree. */
  lemma RawKeyKeepsSubtree(v: RequestValue)
    ensures Escape(Array([Entry("a", v)]), ["a"]) == Array([Entry("a", v)])
  {
    EscapeOneEntry(Entry("a", v), ["a"], Entry("a", v));
  }

  lemma NestedEntryIsEscaped()
    ensures Escape(Array([Entry("a", Str("&"))]), []) == Array([Entry("a", Str("&amp;"))])
  {
    EscapeStringOfPlain("a");
    AmpersandOnce();
    EscapeOneEntry(Entry("a", Str("&")), [], Entry("a", Str("&amp;")));
  }

  /**
   * The raw list applies to the top level only: the raw key one level down
   * is escaped like any other.
   */
  lemma RawListIsNotInherited()
    ensures Escape(Array([Entry("b", Array([Entry("a", Str("&"))]))]), ["a"]) ==
            Array([Entry("b", Array([Entry("a", Str("&amp;"))]))])
  {
    NestedEntryIsEscaped();
    EscapeStringOfPlain("b");
    EscapeOneEntry(Entry("b", Array([Entry("a", Str("&"))])), ["a"], Entry("b", Array([Entry("a", Str("&amp;"))])));
  }

  /**
   * Keys that differ only by NUL characters collide once escaped: the later
   * entry overwrites the earlier one at the earlier position.
   */
  lemma CollidingKeysOverwrite(x: RequestValue, y: RequestValue, z: RequestValue)
    requires !x.Str? && !x.Array? && !y.Str? && !y.Array? && !z.Str? && !z.Array?
    ensures Escape(Array([Entry("a\0", x), Entry("b", y), Entry("a", z)]), []) ==
            Array([Entry("a", z), Entry("b", y)])
  {
    EscapeCons('a', "\0");
    EscapeCons('\0', "");
    EscapeStringOfPlain("a");
    EscapeStringOfPlain("b");
    EscapeCollidingEntries(Entry("a\0", x), Entry("b", y), Entry("a", z), [],
                           Entry("a", x), Entry("b", y), Entry("a", z));
  }

  lemma AmpersandOnce()
    ensures EscapeString("&") == "&amp;"
  {
    EscapeCons('&', "");
  }

  lemma AmpersandTwice()
    ensures EscapeString("&amp;") == "&amp;amp;"
  {
    EscapeCons('&', "amp;");
    EscapeStringOfPlain("amp;");
  }

  /** Escaping twice is not escaping once: an inserted `&amp;` is escaped again. */
  lemma EscapeIsNotIdempotent()
    ensures EscapeString("&") == "&amp;"
    ensures EscapeString(EscapeString("&")) == "&amp;amp;"
  {
    AmpersandOnce();
    AmpersandTwice();
  }
}
