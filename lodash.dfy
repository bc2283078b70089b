/** Lodash 4's `_.unescape`, the last step of the Serpico text conversion, and
    its inverse `_.escape`. `_.unescape` replaces, in one left-to-right pass,
    each of the five HTML entities `&amp;`, `&lt;`, `&gt;`, `&quot;` and `&#39;`
    by the character it stands for; every other `&` is kept. */
module Lodash {
  import opened TextReplace

  /** The entities `_.unescape` decodes, in the order of its pattern. */
  const Entities: seq<string> := ["&amp;", "&lt;", "&gt;", "&quot;", "&#39;"]

  /** The character entity `Entities[k]` stands for. */
  function EntityChar(k: nat): char
    requires k < |Entities|
  {
    ['&', '<', '>', '"', '\''][k]
  }

  /** The index in `Entities` of the entity `s` starts with, or `|Entities|`. */
  function EntityAt(s: string): (k: nat)
    ensures k <= |Entities|
    ensures k < |Entities| ==> OccursAt(s, Entities[k], 0) && s[0] == '&'
    ensures k == |Entities| ==> forall j :: 0 <= j < |Entities| ==> !OccursAt(s, Entities[j], 0)
  {
    if OccursAt(s, "&amp;", 0) then 0
    else if OccursAt(s, "&lt;", 0) then 1
    else if OccursAt(s, "&gt;", 0) then 2
    else if OccursAt(s, "&quot;", 0) then 3
    else if OccursAt(s, "&#39;", 0) then 4
    else 5
  }

  /** `_.unescape(s)`. Decoding never lengthens the text, and text without
      `&` is returned unchanged. */
  function Unescape(s: string): (r: string)
    ensures |r| <= |s|
    ensures '&' !in s ==> r == s
    decreases |s|
  {
    if |s| == 0 then ""
    else
      var k := EntityAt(s);
      if k < |Entities| then [EntityChar(k)] + Unescape(s[|Entities[k]|..])
      else [s[0]] + Unescape(s[1..])
  }

  /** `_.escape` applied to one character. */
  function EscapeChar(c: char): string
  {
    match c
    case '&' => "&amp;"
    case '<' => "&lt;"
    case '>' => "&gt;"
    case '"' => "&quot;"
    case '\'' => "&#39;"
    case _ => [c]
  }

  /** `_.escape(s)`. */
  function Escape(s: string): string
    decreases |s|
  {
    if |s| == 0 then "" else EscapeChar(s[0]) + Escape(s[1..])
  }

  /** Text holding none of the five entities is returned unchanged. */
  lemma {:induction false} UnescapeNoEntity(s: string)
    requires forall k :: 0 <= k < |Entities| ==> !Contains(s, Entities[k])
    ensures Unescape(s) == s
    decreases |s|
  {
    if |s| > 0 {
      forall k | 0 <= k < |Entities| ensures !OccursAt(s, Entities[k], 0) {
        assert !Contains(s, Entities[k]);
      }
      var t := s[1..];
      forall k | 0 <= k < |Entities| ensures !Contains(t, Entities[k]) {
        forall j | 0 <= j <= |t| - |Entities[k]| ensures !OccursAt(t, Entities[k], j) {
          ShiftOccurs(s, Entities[k], j + 1);
        }
      }
      UnescapeNoEntity(t);
    }
  }

  /** Text holding one of the five entities, here `Entities[k]` at `j`, is
      strictly shortened: whatever entity the pass decodes first, it turns at
      least four characters into one. */
  lemma {:induction false} UnescapeEntityShortens(s: string, k: nat, j: nat)
    requires k < |Entities| && OccursAt(s, Entities[k], j)
    ensures |Unescape(s)| < |s|
    decreases j
  {
    if EntityAt(s) == |Entities| {
      assert j != 0;
      ShiftOccurs(s, Entities[k], j);
      UnescapeEntityShortens(s[1..], k, j - 1);
    }
  }

  /** An entity at the front decodes to its character. */
  lemma UnescapeEntityFront(k: nat, rest: string)
    requires k < |Entities|
    ensures Unescape(Entities[k] + rest) == [EntityChar(k)] + Unescape(rest)
  {
    var e := Entities[k];
    var u := e + rest;
    assert u[..|e|] == e && u[|e|..] == rest;
    assert u[0] == '&' && u[1] == e[1] && u[2] == e[2];
    forall j | 0 <= j < k ensures !OccursAt(u, Entities[j], 0) {
      assert u[1] != Entities[j][1] || u[2] != Entities[j][2];
    }
    assert EntityAt(u) == k;
  }

  /** A character other than `&` at the front is kept. */
  lemma UnescapePlainFront(c: char, rest: string)
    requires c != '&'
    ensures Unescape([c] + rest) == [c] + Unescape(rest)
  {
    var u := [c] + rest;
    assert u[1..] == rest;
    assert EntityAt(u) == |Entities| by {
      forall j | 0 <= j < |Entities| ensures !OccursAt(u, Entities[j], 0) {
        assert u[0] != Entities[j][0];
      }
    }
  }

  /** Unescaping undoes escaping: `_.unescape(_.escape(s)) == s`. */
  lemma {:induction false} UnescapeEscape(s: string)
    ensures Unescape(Escape(s)) == s
    decreases |s|
  {
    if |s| > 0 {
      var rest := Escape(s[1..]);
      UnescapeEscape(s[1..]);
      UnescapeEscapeChar(s[0], rest);
      assert s == [s[0]] + s[1..];
    }
  }

  /** One escaped character at the front decodes back to itself. */
  lemma UnescapeEscapeChar(c: char, rest: string)
    ensures Unescape(EscapeChar(c) + rest) == [c] + Unescape(rest)
  {
    match c
    case '&' => UnescapeEntityFront(0, rest);
    case '<' => UnescapeEntityFront(1, rest);
    case '>' => UnescapeEntityFront(2, rest);
    case '"' => UnescapeEntityFront(3, rest);
    case '\'' => UnescapeEntityFront(4, rest);
    case _ => UnescapePlainFront(c, rest);
  }

  /** Escaped text holds no `<`, and no `[` or `]` unless the original does. */
  lemma {:induction false} EscapeNoOpener(s: string)
    ensures '<' !in Escape(s)
    ensures '[' !in s ==> '[' !in Escape(s)
    ensures ']' !in s ==> ']' !in Escape(s)
    decreases |s|
  {
    if |s| > 0 {
      EscapeNoOpener(s[1..]);
      assert s[0] in s;
      EscapeCharNoOpener(s[0]);
    }
  }

  lemma EscapeCharNoOpener(c: char)
    ensures '<' !in EscapeChar(c)
    ensures c != '[' ==> '[' !in EscapeChar(c)
    ensures c != ']' ==> ']' !in EscapeChar(c)
  {
  }
}
