/** Worked examples of `formatSerpicoText` and `parseSerpico`: two inputs of
    well-formed markup, translated token by token; a code block, which
    well-formed markup leaves out; two inputs showing that markup can reach
    the output when it is not well formed or was escaped; and a record that
    `parseSerpico` cannot convert. */
module SerpicoExamples {
  import opened JsValue
  import opened TextReplace
  import opened Lodash
  import opened Serpico
  import opened SerpicoMarkup

  /** A substitution group leaves alone text lacking a character its
      patterns need. */
  lemma ParagraphsAbsent(s: string)
    requires 'p' !in s
    ensures Paragraphs(s) == s
  {
    ReplaceAllAbsentChar(s, "<paragraph>", "", 1);
    ReplaceAllAbsentChar(s, "</paragraph>", "\n", 2);
  }

  lemma BulletsAbsent(s: string)
    requires 'b' !in s
    ensures Bullets(s) == s && NestedBullets(s) == s
  {
    ReplaceAllAbsentChar(s, "<bullet>", "* ", 1);
    ReplaceAllAbsentChar(s, "</bullet>", "", 2);
    ReplaceAllAbsentChar(s, "<bullet1>", "    * ", 1);
    ReplaceAllAbsentChar(s, "</bullet1>", "", 2);
  }

  lemma HeadersAbsent(s: string)
    requires 'h' !in s
    ensures Headers(s) == s
  {
    ReplaceAllAbsentChar(s, "<h4>", "", 1);
    ReplaceAllAbsentChar(s, "</h4>", "", 2);
  }

  lemma IndentedItalicsAbsent(s: string)
    requires 'i' !in s
    ensures Indented(s) == s && Italics(s) == s
  {
    ReplaceAllAbsentChar(s, "<indented>", "    ", 1);
    ReplaceAllAbsentChar(s, "</indented>", "", 2);
    ReplaceAllAbsentChar(s, "<italics>", "", 1);
    ReplaceAllAbsentChar(s, "</italics>", "", 2);
  }

  /** Paragraphs become line breaks and a bullet becomes `* `. */
  lemma ParagraphAndBullet(a: string, b: string)
    requires PlainText(a) && PlainText(b)
    ensures FormatText("<paragraph>" + a + "</paragraph>" + "<bullet>" + b + "</bullet>") == a + "\n* " + b
  {
    var ts := [Tag("paragraph"), Text(a), Tag("/paragraph"), Tag("bullet"), Text(b), Tag("/bullet")];
    var us := [Text(""), Text(a), Text("\n"), Text("* "), Text(b), Text("")];
    ParagraphAndBulletTokens(a, b, ts, us);
    ParagraphAndBulletRender(a, b, ts, us);
    FormatTextTokens(ts);
  }

  lemma ParagraphAndBulletTokens(a: string, b: string, ts: seq<Token>, us: seq<Token>)
    requires PlainText(a) && PlainText(b)
    requires ts == [Tag("paragraph"), Text(a), Tag("/paragraph"), Tag("bullet"), Text(b), Tag("/bullet")]
    requires us == [Text(""), Text(a), Text("\n"), Text("* "), Text(b), Text("")]
    ensures WellFormed(ts) && TranslateAll(ts) == us
  {
    KnownTagNames();
  }

  lemma ParagraphAndBulletRender(a: string, b: string, ts: seq<Token>, us: seq<Token>)
    requires ts == [Tag("paragraph"), Text(a), Tag("/paragraph"), Tag("bullet"), Text(b), Tag("/bullet")]
    requires us == [Text(""), Text(a), Text("\n"), Text("* "), Text(b), Text("")]
    ensures Render(ts) == "<paragraph>" + a + "</paragraph>" + "<bullet>" + b + "</bullet>"
    ensures Render(ts) != "English" && Render(ts) != "French"
    ensures Render(us) == a + "\n* " + b
  {
    RenderSix(Tag("paragraph"), Text(a), Tag("/paragraph"), Tag("bullet"), Text(b), Tag("/bullet"));
    ParagraphAndBulletSpellings();
    assert Render(ts)[0] == '<';
    RenderSix(Text(""), Text(a), Text("\n"), Text("* "), Text(b), Text(""));
    ParagraphAndBulletJoin(a, b);
  }

  lemma ParagraphAndBulletSpellings()
    ensures Spell(Tag("paragraph")) == "<paragraph>"
    ensures Spell(Tag("/paragraph")) == "</paragraph>"
    ensures Spell(Tag("bullet")) == "<bullet>"
    ensures Spell(Tag("/bullet")) == "</bullet>"
  {
  }

  lemma ParagraphAndBulletJoin(a: string, b: string)
    ensures "" + a + "\n" + "* " + b + "" == a + "\n* " + b
  {
  }

  /** A nested bullet becomes four spaces and `* `; indented text is
      preceded by four spaces. */
  lemma NestedBulletAndIndent(x: string, y: string)
    requires PlainText(x) && PlainText(y)
    ensures FormatText("<bullet1>" + x + "</bullet1>" + "<indented>" + y + "</indented>") == "    * " + x + "    " + y
  {
    var ts := [Tag("bullet1"), Text(x), Tag("/bullet1"), Tag("indented"), Text(y), Tag("/indented")];
    var us := [Text("    * "), Text(x), Text(""), Text("    "), Text(y), Text("")];
    NestedBulletAndIndentTokens(x, y, ts, us);
    NestedBulletAndIndentRender(x, y, ts, us);
    FormatTextTokens(ts);
  }

  lemma NestedBulletAndIndentTokens(x: string, y: string, ts: seq<Token>, us: seq<Token>)
    requires PlainText(x) && PlainText(y)
    requires ts == [Tag("bullet1"), Text(x), Tag("/bullet1"), Tag("indented"), Text(y), Tag("/indented")]
    requires us == [Text("    * "), Text(x), Text(""), Text("    "), Text(y), Text("")]
    ensures WellFormed(ts) && TranslateAll(ts) == us
  {
    KnownTagNames();
  }

  lemma NestedBulletAndIndentRender(x: string, y: string, ts: seq<Token>, us: seq<Token>)
    requires ts == [Tag("bullet1"), Text(x), Tag("/bullet1"), Tag("indented"), Text(y), Tag("/indented")]
    requires us == [Text("    * "), Text(x), Text(""), Text("    "), Text(y), Text("")]
    ensures Render(ts) == "<bullet1>" + x + "</bullet1>" + "<indented>" + y + "</indented>"
    ensures Render(ts) != "English" && Render(ts) != "French"
    ensures Render(us) == "    * " + x + "    " + y
  {
    RenderSix(Tag("bullet1"), Text(x), Tag("/bullet1"), Tag("indented"), Text(y), Tag("/indented"));
    NestedBulletAndIndentSpellings();
    assert Render(ts)[0] == '<';
    RenderSix(Text("    * "), Text(x), Text(""), Text("    "), Text(y), Text(""));
    NestedBulletAndIndentJoin(x, y);
  }

  lemma NestedBulletAndIndentSpellings()
    ensures Spell(Tag("bullet1")) == "<bullet1>"
    ensures Spell(Tag("/bullet1")) == "</bullet1>"
    ensures Spell(Tag("indented")) == "<indented>"
    ensures Spell(Tag("/indented")) == "</indented>"
  {
  }

  lemma NestedBulletAndIndentJoin(x: string, y: string)
    ensures "    * " + x + "" + "    " + y + "" == "    * " + x + "    " + y
  {
  }

  /** The text six tokens spell. */
  lemma RenderSix(x0: Token, x1: Token, x2: Token, x3: Token, x4: Token, x5: Token)
    ensures Render([x0, x1, x2, x3, x4, x5])
      == Spell(x0) + Spell(x1) + Spell(x2) + Spell(x3) + Spell(x4) + Spell(x5)
  {
    Nest6(x0, x1, x2, x3, x4, x5);
    RenderSingle(x5);
    RenderCons(x4, [x5]);
    RenderCons(x3, [x4] + [x5]);
    RenderCons(x2, [x3] + ([x4] + [x5]));
    RenderCons(x1, [x2] + ([x3] + ([x4] + [x5])));
    RenderCons(x0, [x1] + ([x2] + ([x3] + ([x4] + [x5]))));
    Regroup(Spell(x0), Spell(x1), Spell(x2), Spell(x3), Spell(x4), Spell(x5));
  }

  lemma Nest6<T>(x0: T, x1: T, x2: T, x3: T, x4: T, x5: T)
    ensures [x0, x1, x2, x3, x4, x5] == [x0] + ([x1] + ([x2] + ([x3] + ([x4] + [x5]))))
  {
  }

  /** Concatenation regrouped from the right to the left. */
  lemma Regroup(p: string, q: string, r: string, s: string, t: string, u: string)
    ensures p + (q + (r + (s + (t + u)))) == p + q + r + s + t + u
  {
  }

  /** Removing a header tag can join the text around it into a new header
      tag, which is never rewritten because its rule has already run: the
      output of `formatSerpicoText` may still hold Serpico markup. */
  lemma TagSurvives()
    ensures FormatText("<<h4>h4>") == "<h4>"
    ensures Contains(FormatText("<<h4>h4>"), "<h4>")
  {
    TagSurvivesOn("<<h4>h4>");
  }

  lemma TagSurvivesOn(s: string)
    requires s == "<<h4>h4>"
    ensures FormatText(s) == "<h4>"
    ensures Contains(FormatText(s), "<h4>")
  {
    var a, b := s[..1], s[5..];
    TagSurvivesSplit(s, a, b);
    ParagraphsAbsent(s);
    BulletsAbsent(s);
    var h := TagSurvivesHeaders(s, a, b);
    TagSurvivesRest(h);
    assert s[0] == '<';
    HeadersOnly(s, h);
  }

  /** Text that only the header rules change comes out as they leave it,
      provided the later rules and the unescaping leave that alone. */
  lemma HeadersOnly(s: string, h: string)
    requires |s| > 0 && s[0] == '<'
    requires Paragraphs(s) == s && Bullets(s) == s && NestedBullets(s) == s
    requires Headers(s) == h && Unescape(Code(Italics(Indented(h)))) == h
    ensures FormatText(s) == h
  {
    assert s != "English" && s != "French";
  }

  lemma TagSurvivesSplit(s: string, a: string, b: string)
    requires s == "<<h4>h4>" && a == s[..1] && b == s[5..]
    ensures s == a + "<h4>" + b && a + b == "<h4>"
    ensures !OccursAt(s, "<h4>", 0) && '<' !in b && '/' !in a + b
    ensures 'p' !in s && 'b' !in s && 'i' !in s && '[' !in s && ']' !in s
  {
    assert s[1] == '<';
  }

  /** The header rules join the two halves of the outer tag. */
  lemma TagSurvivesHeaders(s: string, a: string, b: string) returns (h: string)
    requires |a| > 0 && s == a + "<h4>" + b && a[1..] == [] && '<' !in b && '/' !in a + b
    requires !OccursAt(s, "<h4>", 0)
    ensures h == a + b && Headers(s) == h
  {
    h := a + b;
    ReplaceAllSplice(a, "<h4>", "", b);
    assert a + "" + b == h;
    ReplaceAllAbsentChar(h, "</h4>", "", 1);
  }

  /** The rules after the header rules, and the unescaping, leave the new
      tag alone. */
  lemma TagSurvivesRest(h: string)
    requires h == "<h4>"
    ensures Unescape(Code(Italics(Indented(h)))) == h
    ensures OccursAt(h, "<h4>", 0)
  {
    assert h[..] == "<h4>";
    assert 'i' !in h && '[' !in h && ']' !in h && '&' !in h;
    IndentedItalicsAbsent(h);
  }

  /** Escaped markup is decoded only after every substitution has run, so
      `formatSerpicoText(_.escape(t))` gives back `t` itself, markup and all. */
  lemma EscapedMarkupSurvives(t: string)
    requires '[' !in t && ']' !in t
    requires Escape(t) != "English" && Escape(t) != "French"
    ensures FormatText(Escape(t)) == t
  {
    EscapeNoOpener(t);
    UnescapeEscape(t);
  }

  /** A header tag that reaches the output that way: `&lt;h4&gt;` becomes
      `<h4>`. */
  lemma EscapedTagSurvives()
    ensures FormatText(Escape("<h4>")) == "<h4>"
  {
    EscapedTagSurvivesOn("<h4>");
  }

  lemma EscapedTagSurvivesOn(t: string)
    requires t == "<h4>"
    ensures FormatText(Escape(t)) == "<h4>"
  {
    assert Escape(t)[0] == '&';
    EscapedMarkupSurvives(t);
  }

  /** A Serpico record with an `id` but no `references` key cannot be
      converted: `formatSerpicoText(undefined)` throws. */
  lemma MissingFieldThrows()
    ensures ParseSerpico([Obj(map["id" := Num(1.0), "title" := Str("English"),
                                  "overview" := Str("<bullet>ok</bullet>")])]) == Throw(TypeError)
  {
    var v := Obj(map["id" := Num(1.0), "title" := Str("English"),
                     "overview" := Str("<bullet>ok</bullet>")]);
    assert Prop(v, "references") == Undefined;
    assert !SerpicoConvertible(v);
  }

  /** A code block becomes its text between two line breaks. */
  lemma CodeBlock(x: string)
    requires PlainText(x)
    ensures FormatText("[[[" + x + "]]]") == "\n" + x + "\n"
  {
    var s := "[[[" + x + "]]]";
    PlainChars(x);
    assert s[0] == '[';
    assert '<' !in s by {
      assert s == "[[[" + (x + "]]]");
    }
    CodeBlockCode(x);
    assert '&' !in "\n" + x + "\n";
  }

  lemma PlainChars(x: string)
    requires PlainText(x)
    ensures '<' !in x && '[' !in x && ']' !in x && '&' !in x
  {
    forall c | c in x ensures !Special(c) {
      var i :| 0 <= i < |x| && x[i] == c;
    }
  }

  /** The code rules replace the two delimiters of a block by line breaks. */
  lemma CodeBlockCode(x: string)
    requires '[' !in x && ']' !in x
    ensures Code("[[[" + x + "]]]") == "\n" + x + "\n"
  {
    var tail := x + "]]]";
    assert "[[[" + x + "]]]" == "[[[" + tail;
    ReplaceAllHit("[[[", "\n", tail);
    ReplaceAllAbsentChar(tail, "[[[", "\n", 0);
    var front := "\n" + x;
    assert "\n" + tail == front + "]]]";
    ReplaceAllFree(front, "]]]", "]]]", "\n");
    ReplaceAllSpliceTail("]]]", "\n", []);
    assert "]]]" + [] == "]]]" && "\n" + [] == "\n";
  }
}
