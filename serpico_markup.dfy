/** What `formatSerpicoText` does to well-formed Serpico markup. Such text is a
    sequence of tokens: plain text, and tags `<name>`. Neither plain text nor
    a tag name holds `<`, `[`, `]` or `&`, and a tag name holds no `>`: so
    well-formed text has no code block (`[[[`, `]]]`) and no entity, which
    are covered by separate lemmas. On it the fourteen substitutions act
    token by token: each of the twelve known tags becomes its replacement,
    every other tag and all text is kept, and no known tag is left in the
    result. This holds for every well-formed text other than the two
    language names, which `formatSerpicoText` maps to `en` and `fr`. */
module SerpicoMarkup {
  import opened TextReplace
  import opened Serpico

  datatype Token = Text(text: string) | Tag(name: string)

  /** The characters that can start a pattern of the rewriting or an entity:
      a tag opener, a code delimiter character, an ampersand. */
  predicate Special(c: char)
  {
    c == '<' || c == '[' || c == ']' || c == '&'
  }

  /** Text the rewriting and the unescaping leave alone. */
  predicate PlainText(t: string)
  {
    forall i :: 0 <= i < |t| ==> !Special(t[i])
  }

  /** A tag name: plain text without a tag closer. */
  predicate TagName(n: string)
  {
    forall i :: 0 <= i < |n| ==> !Special(n[i]) && n[i] != '>'
  }

  predicate TokenOk(t: Token)
  {
    match t
    case Text(x) => PlainText(x)
    case Tag(n) => TagName(n)
  }

  predicate WellFormed(ts: seq<Token>)
  {
    forall i :: 0 <= i < |ts| ==> TokenOk(ts[i])
  }

  function TagText(n: string): string
  {
    "<" + n + ">"
  }

  function Spell(t: Token): string
  {
    match t
    case Text(x) => x
    case Tag(n) => TagText(n)
  }

  /** The text a token sequence spells. */
  function Render(ts: seq<Token>): string
    decreases |ts|
  {
    if ts == [] then "" else Spell(ts[0]) + Render(ts[1..])
  }

  lemma WellFormedCons(t: Token, ts: seq<Token>)
    requires TokenOk(t) && WellFormed(ts)
    ensures WellFormed([t] + ts)
  {
    forall i | 1 <= i < |ts| + 1 ensures TokenOk(([t] + ts)[i]) {
      assert ([t] + ts)[i] == ts[i - 1];
    }
  }

  lemma RenderSingle(t: Token)
    ensures Render([t]) == Spell(t)
  {
    assert [t][1..] == [];
  }

  lemma RenderCons(t: Token, ts: seq<Token>)
    ensures Render([t] + ts) == Spell(t) + Render(ts)
  {
    assert ([t] + ts)[1..] == ts;
  }

  /** Every tag `<pn>` turned into the text `rep`. */
  function SubstToken(t: Token, pn: string, rep: string): Token
  {
    if t == Tag(pn) then Text(rep) else t
  }

  function Subst(ts: seq<Token>, pn: string, rep: string): seq<Token>
  {
    seq(|ts|, i requires 0 <= i < |ts| => SubstToken(ts[i], pn, rep))
  }

  /** What `formatSerpicoText` makes of one token. */
  function Translate(t: Token): Token
  {
    match t
    case Text(_) => t
    case Tag(n) =>
      if n == "paragraph" then Text("")
      else if n == "/paragraph" then Text("\n")
      else if n == "bullet" then Text("* ")
      else if n == "/bullet" then Text("")
      else if n == "bullet1" then Text("    * ")
      else if n == "/bullet1" then Text("")
      else if n == "h4" then Text("")
      else if n == "/h4" then Text("")
      else if n == "indented" then Text("    ")
      else if n == "/indented" then Text("")
      else if n == "italics" then Text("")
      else if n == "/italics" then Text("")
      else t
  }

  function TranslateAll(ts: seq<Token>): seq<Token>
  {
    seq(|ts|, i requires 0 <= i < |ts| => Translate(ts[i]))
  }

  /** The names of the tags `formatSerpicoText` rewrites. */
  predicate KnownTag(n: string)
  {
    Translate(Tag(n)) != Tag(n)
  }

  /** A tag `<n>` does not start with a different tag `<pn>`: their first
      `>` would be at different places. */
  lemma OtherTagNotAtFront(n: string, pn: string, rest: string)
    requires TagName(n) && TagName(pn) && n != pn
    ensures !OccursAt(TagText(n) + rest, TagText(pn), 0)
  {
    var t, pat := TagText(n), TagText(pn);
    var s := t + rest;
    if |pat| < |t| {
      var k := |pat| - 1;
      assert s[k] == n[k - 1] && n[k - 1] in n;
      assert s[..|pat|][k] != pat[k];
    } else if |t| < |pat| <= |s| {
      var k := |t| - 1;
      assert s[k] == '>' && pat[k] == pn[k - 1] && pn[k - 1] in pn;
      assert s[..|pat|][k] != pat[k];
    } else if |pat| == |t| {
      assert t[1..|t| - 1] == n && pat[1..|pat| - 1] == pn;
      assert s[..|pat|] == t;
    }
  }

  /** A tag other than `<pn>` at the front is copied whole: no occurrence of
      `<pn>` starts inside it. */
  lemma ReplaceAllOtherTag(n: string, pn: string, rep: string, rest: string)
    requires TagName(n) && TagName(pn) && n != pn
    ensures ReplaceAll(TagText(n) + rest, TagText(pn), rep) == TagText(n) + ReplaceAll(rest, TagText(pn), rep)
  {
    var s := TagText(n) + rest;
    OtherTagNotAtFront(n, pn, rest);
    ReplaceAllCopyFront(s, TagText(pn), rep);
    TagTextSplit(n, rest);
    ReplaceAllFree(n + ">", rest, TagText(pn), rep);
    TagTextSplit(n, ReplaceAll(rest, TagText(pn), rep));
  }

  /** The spelling of a tag followed by `x`: its `<`, then the rest. */
  lemma TagTextSplit(n: string, x: string)
    ensures (TagText(n) + x)[0] == '<'
    ensures (TagText(n) + x)[1..] == (n + ">") + x
    ensures ['<'] + ((n + ">") + x) == TagText(n) + x
  {
  }

  /** Replacing the tag `<pn>` in the spelled text is substituting the
      token: the substitution never reaches across token boundaries. */
  lemma {:induction false} ReplaceAllTag(ts: seq<Token>, pn: string, rep: string)
    requires WellFormed(ts) && TagName(pn) && PlainText(rep)
    ensures ReplaceAll(Render(ts), TagText(pn), rep) == Render(Subst(ts, pn, rep))
    ensures WellFormed(Subst(ts, pn, rep))
    decreases |ts|
  {
    var us := Subst(ts, pn, rep);
    if ts != [] {
      var pat, rest := TagText(pn), Render(ts[1..]);
      assert WellFormed(ts[1..]) by {
        forall i | 0 <= i < |ts| - 1 ensures TokenOk(ts[1..][i]) {
          assert ts[1..][i] == ts[i + 1];
        }
      }
      ReplaceAllTag(ts[1..], pn, rep);
      assert us[1..] == Subst(ts[1..], pn, rep);
      assert TokenOk(ts[0]);
      match ts[0]
      case Text(x) =>
        ReplaceAllFree(x, rest, pat, rep);
      case Tag(n) =>
        if n == pn {
          ReplaceAllHit(pat, rep, rest);
        } else {
          ReplaceAllOtherTag(n, pn, rep, rest);
        }
    }
  }

  /** Well-formed tokens spell text without code delimiters or entities. */
  lemma {:induction false} RenderPlain(ts: seq<Token>)
    requires WellFormed(ts)
    ensures '[' !in Render(ts) && ']' !in Render(ts) && '&' !in Render(ts)
    decreases |ts|
  {
    if ts != [] {
      assert TokenOk(ts[0]);
      assert WellFormed(ts[1..]) by {
        forall i | 0 <= i < |ts| - 1 ensures TokenOk(ts[1..][i]) {
          assert ts[1..][i] == ts[i + 1];
        }
      }
      RenderPlain(ts[1..]);
    }
  }

  /** One stage: the tag `<o>` replaced by `ro`, then the tag `<c>` by `rc`. */
  lemma StageTokens(ts: seq<Token>, o: string, ro: string, c: string, rc: string) returns (us: seq<Token>)
    requires WellFormed(ts) && TagName(o) && TagName(c) && PlainText(ro) && PlainText(rc)
    ensures WellFormed(us)
    ensures ReplaceAll(ReplaceAll(Render(ts), TagText(o), ro), TagText(c), rc) == Render(us)
    ensures us == Subst(Subst(ts, o, ro), c, rc)
  {
    var t1 := Subst(ts, o, ro);
    ReplaceAllTag(ts, o, ro);
    us := Subst(t1, c, rc);
    ReplaceAllTag(t1, c, rc);
  }

  /** `Paragraphs` on well-formed tokens substitutes the tags `<paragraph>` and `</paragraph>`. */
  lemma ParagraphsTokens(ts: seq<Token>) returns (us: seq<Token>)
    requires WellFormed(ts)
    ensures WellFormed(us)
    ensures Paragraphs(Render(ts)) == Render(us)
    ensures us == Subst(Subst(ts, "paragraph", ""), "/paragraph", "\n")
  {
    assert "<paragraph>" == TagText("paragraph") && "</paragraph>" == TagText("/paragraph");
    us := StageTokens(ts, "paragraph", "", "/paragraph", "\n");
  }

  /** `Bullets` on well-formed tokens substitutes the tags `<bullet>` and `</bullet>`. */
  lemma BulletsTokens(ts: seq<Token>) returns (us: seq<Token>)
    requires WellFormed(ts)
    ensures WellFormed(us)
    ensures Bullets(Render(ts)) == Render(us)
    ensures us == Subst(Subst(ts, "bullet", "* "), "/bullet", "")
  {
    assert "<bullet>" == TagText("bullet") && "</bullet>" == TagText("/bullet");
    us := StageTokens(ts, "bullet", "* ", "/bullet", "");
  }

  /** `NestedBullets` on well-formed tokens substitutes the tags `<bullet1>` and `</bullet1>`. */
  lemma NestedBulletsTokens(ts: seq<Token>) returns (us: seq<Token>)
    requires WellFormed(ts)
    ensures WellFormed(us)
    ensures NestedBullets(Render(ts)) == Render(us)
    ensures us == Subst(Subst(ts, "bullet1", "    * "), "/bullet1", "")
  {
    assert "<bullet1>" == TagText("bullet1") && "</bullet1>" == TagText("/bullet1");
    us := StageTokens(ts, "bullet1", "    * ", "/bullet1", "");
  }

  /** `Headers` on well-formed tokens substitutes the tags `<h4>` and `</h4>`. */
  lemma HeadersTokens(ts: seq<Token>) returns (us: seq<Token>)
    requires WellFormed(ts)
    ensures WellFormed(us)
    ensures Headers(Render(ts)) == Render(us)
    ensures us == Subst(Subst(ts, "h4", ""), "/h4", "")
  {
    assert "<h4>" == TagText("h4") && "</h4>" == TagText("/h4");
    us := StageTokens(ts, "h4", "", "/h4", "");
  }

  /** `Indented` on well-formed tokens substitutes the tags `<indented>` and `</indented>`. */
  lemma IndentedTokens(ts: seq<Token>) returns (us: seq<Token>)
    requires WellFormed(ts)
    ensures WellFormed(us)
    ensures Indented(Render(ts)) == Render(us)
    ensures us == Subst(Subst(ts, "indented", "    "), "/indented", "")
  {
    assert "<indented>" == TagText("indented") && "</indented>" == TagText("/indented");
    us := StageTokens(ts, "indented", "    ", "/indented", "");
  }

  /** `Italics` on well-formed tokens substitutes the tags `<italics>` and `</italics>`. */
  lemma ItalicsTokens(ts: seq<Token>) returns (us: seq<Token>)
    requires WellFormed(ts)
    ensures WellFormed(us)
    ensures Italics(Render(ts)) == Render(us)
    ensures us == Subst(Subst(ts, "italics", ""), "/italics", "")
  {
    assert "<italics>" == TagText("italics") && "</italics>" == TagText("/italics");
    us := StageTokens(ts, "italics", "", "/italics", "");
  }

  /** The twelve tag substitutions, one after another, are `Translate`. */
  lemma SubstChainToken(t: Token)
    ensures
      SubstToken(SubstToken(SubstToken(SubstToken(SubstToken(SubstToken(
      SubstToken(SubstToken(SubstToken(SubstToken(SubstToken(SubstToken(t,
        "paragraph", ""), "/paragraph", "\n"), "bullet", "* "), "/bullet", ""),
        "bullet1", "    * "), "/bullet1", ""), "h4", ""), "/h4", ""),
        "indented", "    "), "/indented", ""), "italics", ""), "/italics", "")
      == Translate(t)
  {
  }

  /** The rewriting of well-formed markup, token by token. */
  lemma RewriteTokens(ts: seq<Token>)
    requires WellFormed(ts)
    ensures Rewrite(Render(ts)) == Render(TranslateAll(ts))
    ensures WellFormed(TranslateAll(ts))
  {
    var u1 := ParagraphsTokens(ts);
    var u2 := BulletsTokens(u1);
    var u3 := NestedBulletsTokens(u2);
    var u4 := HeadersTokens(u3);
    var u5 := IndentedTokens(u4);
    var u6 := ItalicsTokens(u5);
    RenderPlain(u6);
    ReplaceAllAbsentChar(Render(u6), "[[[", "\n", 0);
    ReplaceAllAbsentChar(Render(u6), "]]]", "\n", 0);
    forall i | 0 <= i < |ts| ensures u6[i] == TranslateAll(ts)[i] {
      SubstChainToken(ts[i]);
    }
    assert u6 == TranslateAll(ts);
  }

  /** The names of the known tags are tag names. */
  lemma KnownTagNames()
    ensures TagName("paragraph")
    ensures TagName("/paragraph")
    ensures TagName("bullet")
    ensures TagName("/bullet")
    ensures TagName("bullet1")
    ensures TagName("/bullet1")
    ensures TagName("h4")
    ensures TagName("/h4")
    ensures TagName("indented")
    ensures TagName("/indented")
    ensures TagName("italics")
    ensures TagName("/italics")
  {
  }

  /** A known tag cannot survive translation. */
  lemma TranslateNotKnownTag(t: Token, pn: string)
    ensures KnownTag(pn) ==> Translate(t) != Tag(pn)
  {
  }

  /** Text spelled by well-formed tokens none of which is the tag `<pn>`
      does not contain `<pn>`. */
  lemma TagAbsent(us: seq<Token>, pn: string)
    requires WellFormed(us) && TagName(pn)
    requires forall i :: 0 <= i < |us| ==> us[i] != Tag(pn)
    ensures !Contains(Render(us), TagText(pn))
  {
    assert Subst(us, pn, "") == us;
    ReplaceAllTag(us, pn, "");
    ReplaceAllRemoveShortens(Render(us), TagText(pn));
  }

  /** After translation no known tag is left. */
  lemma TranslatedNoKnownTags(ts: seq<Token>)
    requires WellFormed(ts)
    ensures forall pn :: TagName(pn) && KnownTag(pn) ==> !Contains(Render(TranslateAll(ts)), TagText(pn))
  {
    var us := TranslateAll(ts);
    RewriteTokens(ts);
    forall pn | TagName(pn) && KnownTag(pn) ensures !Contains(Render(us), TagText(pn)) {
      forall i | 0 <= i < |us| ensures us[i] != Tag(pn) {
        TranslateNotKnownTag(ts[i], pn);
      }
      TagAbsent(us, pn);
    }
  }

  /** The twelve tags `formatSerpicoText` rewrites. */
  lemma KnownTags()
    ensures KnownTag("paragraph")
    ensures KnownTag("/paragraph")
    ensures KnownTag("bullet")
    ensures KnownTag("/bullet")
    ensures KnownTag("bullet1")
    ensures KnownTag("/bullet1")
    ensures KnownTag("h4")
    ensures KnownTag("/h4")
    ensures KnownTag("indented")
    ensures KnownTag("/indented")
    ensures KnownTag("italics")
    ensures KnownTag("/italics")
  {
  }

  /** How the twelve known tags are spelled. */
  lemma KnownTagSpellings()
    ensures TagText("paragraph") == "<paragraph>"
    ensures TagText("/paragraph") == "</paragraph>"
    ensures TagText("bullet") == "<bullet>"
    ensures TagText("/bullet") == "</bullet>"
    ensures TagText("bullet1") == "<bullet1>"
    ensures TagText("/bullet1") == "</bullet1>"
    ensures TagText("h4") == "<h4>"
    ensures TagText("/h4") == "</h4>"
    ensures TagText("indented") == "<indented>"
    ensures TagText("/indented") == "</indented>"
    ensures TagText("italics") == "<italics>"
    ensures TagText("/italics") == "</italics>"
  {
  }

  /** After translation none of the fourteen patterns is left. */
  lemma TranslatedNoMarkup(ts: seq<Token>)
    requires WellFormed(ts)
    ensures NoMarkup(Render(TranslateAll(ts)))
  {
    RewriteTokens(ts);
    RenderPlain(TranslateAll(ts));
    TranslatedNoKnownTags(ts);
    NoKnownTagNoMarkup(Render(TranslateAll(ts)));
  }

  /** Text with no known tag and no square bracket holds none of the
      fourteen patterns. */
  lemma NoKnownTagNoMarkup(s: string)
    requires forall pn :: TagName(pn) && KnownTag(pn) ==> !Contains(s, TagText(pn))
    requires '[' !in s && ']' !in s
    ensures NoMarkup(s)
  {
    AbsentCharNotContained(s, "[[[", 0);
    AbsentCharNotContained(s, "]]]", 0);
    KnownTagNames();
    KnownTags();
    KnownTagSpellings();
  }

  /** `formatSerpicoText` on well-formed markup other than the two language
      names is the token-by-token translation, and leaves no markup behind. */
  lemma FormatTextTokens(ts: seq<Token>)
    requires WellFormed(ts)
    requires Render(ts) != "English" && Render(ts) != "French"
    ensures FormatText(Render(ts)) == Render(TranslateAll(ts))
    ensures NoMarkup(FormatText(Render(ts)))
  {
    RewriteTokens(ts);
    RenderPlain(TranslateAll(ts));
    TranslatedNoMarkup(ts);
  }
}
