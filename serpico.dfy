/** The conversion of a Serpico export into the page's vulnerability records:
    `formatSerpicoText`, which turns Serpico's inline markup into plain text,
    and `parseSerpico`, which maps each Serpico record to one vulnerability
    record with a single detail block. */
module Serpico {
  import opened JsValue
  import opened TextReplace
  import opened Lodash

  /** The fourteen `res = res.replace(/pattern/g, replacement)` lines of
      `formatSerpicoText`, grouped as the source comments them and run in
      this order, each over the whole text produced by the one before. */
  function Paragraphs(s: string): (r: string)
    ensures '<' !in s ==> r == s
  {
    PairAbsent(s, "<paragraph>", "", "</paragraph>", "\n");
    ReplaceAll(ReplaceAll(s, "<paragraph>", ""), "</paragraph>", "\n")
  }

  function Bullets(s: string): (r: string)
    ensures '<' !in s ==> r == s
  {
    PairAbsent(s, "<bullet>", "* ", "</bullet>", "");
    ReplaceAll(ReplaceAll(s, "<bullet>", "* "), "</bullet>", "")
  }

  function NestedBullets(s: string): (r: string)
    ensures '<' !in s ==> r == s
  {
    PairAbsent(s, "<bullet1>", "    * ", "</bullet1>", "");
    ReplaceAll(ReplaceAll(s, "<bullet1>", "    * "), "</bullet1>", "")
  }

  function Headers(s: string): (r: string)
    ensures '<' !in s ==> r == s
  {
    PairAbsent(s, "<h4>", "", "</h4>", "");
    ReplaceAll(ReplaceAll(s, "<h4>", ""), "</h4>", "")
  }

  function Indented(s: string): (r: string)
    ensures '<' !in s ==> r == s
  {
    PairAbsent(s, "<indented>", "    ", "</indented>", "");
    ReplaceAll(ReplaceAll(s, "<indented>", "    "), "</indented>", "")
  }

  function Italics(s: string): (r: string)
    ensures '<' !in s ==> r == s
  {
    PairAbsent(s, "<italics>", "", "</italics>", "");
    ReplaceAll(ReplaceAll(s, "<italics>", ""), "</italics>", "")
  }

  function Code(s: string): (r: string)
    ensures '[' !in s && ']' !in s ==> r == s
  {
    PairAbsent(s, "[[[", "\n", "]]]", "\n");
    ReplaceAll(ReplaceAll(s, "[[[", "\n"), "]]]", "\n")
  }

  /** Two substitutions in a row leave text holding neither pattern's first
      character unchanged. */
  lemma PairAbsent(s: string, p1: string, r1: string, p2: string, r2: string)
    requires |p1| > 0 && |p2| > 0
    ensures p1[0] !in s && p2[0] !in s ==> ReplaceAll(ReplaceAll(s, p1, r1), p2, r2) == s
  {
    if p1[0] !in s && p2[0] !in s {
      ReplaceAllAbsentChar(s, p1, r1, 0);
      ReplaceAllAbsentChar(s, p2, r2, 0);
    }
  }

  /** All fourteen substitutions, in source order. Text holding no tag
      opener and no square bracket is left unchanged. */
  function Rewrite(s: string): (r: string)
    ensures '<' !in s && '[' !in s && ']' !in s ==> r == s
  {
    Code(Italics(Indented(Headers(NestedBullets(Bullets(Paragraphs(s)))))))
  }

  /** `s` holds none of the fourteen patterns `Rewrite` looks for. */
  predicate NoMarkup(s: string)
  {
    && !Contains(s, "<paragraph>") && !Contains(s, "</paragraph>")
    && !Contains(s, "<bullet>") && !Contains(s, "</bullet>")
    && !Contains(s, "<bullet1>") && !Contains(s, "</bullet1>")
    && !Contains(s, "<h4>") && !Contains(s, "</h4>")
    && !Contains(s, "<indented>") && !Contains(s, "</indented>")
    && !Contains(s, "<italics>") && !Contains(s, "</italics>")
    && !Contains(s, "[[[") && !Contains(s, "]]]")
  }

  /** `formatSerpicoText` on a string: the two language names become their
      locale codes; any other text has every rule applied in order and is then
      unescaped. Text with no `<`, square bracket or `&` comes back as it was. */
  function FormatText(s: string): (r: string)
    ensures s == "English" ==> r == "en"
    ensures s == "French" ==> r == "fr"
    ensures s != "English" && s != "French" && '<' !in s && '[' !in s && ']' !in s && '&' !in s ==> r == s
  {
    if s == "English" then "en"
    else if s == "French" then "fr"
    else Unescape(Rewrite(s))
  }

  /** `formatSerpicoText(str)` on any value. `null` is passed through;
      anything that is neither null nor a string has no `replace` method, so
      the call throws (this includes `undefined`, a missing field). */
  function FormatSerpicoText(v: Value): (r: Result<Value>)
    ensures r.Ok? <==> NullOrString(v)
    ensures r.Throw? ==> r.error == TypeError
    ensures v.Null? ==> r == Ok(Null)
    ensures v == Str("English") ==> r == Ok(Str("en"))
    ensures v == Str("French") ==> r == Ok(Str("fr"))
    ensures r.Ok? && v.Str? ==> r.value.Str?
  {
    match v
    case Null => Ok(Null)
    case Str(s) => Ok(Str(FormatText(s)))
    case _ => Throw(TypeError)
  }

  /** The localised part of a vulnerability record. */
  datatype Detail = Detail(
    locale: Value,
    title: Value,
    vulnType: Value,
    description: Value,
    observation: Value,
    remediation: Value)

  /** A vulnerability record as the page builds it from a Serpico record. */
  datatype VulnRecord = VulnRecord(
    cvssv3: Value,
    cvssScore: Value,
    cvssSeverity: Value,
    priority: Value,
    remediationComplexity: Value,
    references: Value,
    details: seq<Detail>)

  /** What `formatSerpicoText` accepts without throwing. */
  predicate NullOrString(v: Value)
  {
    v.Null? || v.Str?
  }

  /** A Serpico record `parseSerpico` converts without throwing: it is not
      null or undefined, and each key that goes through `formatSerpicoText`
      holds null or a string. */
  predicate SerpicoConvertible(v: Value)
  {
    && !Nullish(v)
    && NullOrString(Prop(v, "references"))
    && NullOrString(Prop(v, "language"))
    && NullOrString(Prop(v, "title"))
    && NullOrString(Prop(v, "type"))
    && NullOrString(Prop(v, "overview"))
    && NullOrString(Prop(v, "poc"))
    && NullOrString(Prop(v, "remediation"))
  }

  /** The body of the `forEach` callback in `parseSerpico`, for one record. */
  function MapRecord(v: Value): (r: Result<VulnRecord>)
    ensures r.Ok? <==> SerpicoConvertible(v)
    ensures r.Throw? ==> r.error == TypeError
    ensures r.Ok? ==>
      var rec := r.value;
      && rec.priority == Null
      && rec.remediationComplexity == Null
      && |rec.details| == 1
      && (Truthy(Prop(v, "c3_vs")) ==> rec.cvssv3 == Prop(v, "c3_vs"))
      && (!Truthy(Prop(v, "c3_vs")) ==> rec.cvssv3 == Null)
      && (Truthy(Prop(v, "cvss_base_score")) ==> rec.cvssScore == Prop(v, "cvss_base_score"))
      && (!Truthy(Prop(v, "cvss_base_score")) ==> rec.cvssScore == Null)
      && (Truthy(Prop(v, "severity")) ==> rec.cvssSeverity == Prop(v, "severity"))
      && (!Truthy(Prop(v, "severity")) ==> rec.cvssSeverity == Null)
      && FormatSerpicoText(Prop(v, "references")) == Ok(rec.references)
      && FormatSerpicoText(Prop(v, "language")) == Ok(rec.details[0].locale)
      && FormatSerpicoText(Prop(v, "title")) == Ok(rec.details[0].title)
      && FormatSerpicoText(Prop(v, "type")) == Ok(rec.details[0].vulnType)
      && FormatSerpicoText(Prop(v, "overview")) == Ok(rec.details[0].description)
      && FormatSerpicoText(Prop(v, "poc")) == Ok(rec.details[0].observation)
      && FormatSerpicoText(Prop(v, "remediation")) == Ok(rec.details[0].remediation)
  {
    if Nullish(v) then Throw(TypeError)
    else
      var references := FormatSerpicoText(Prop(v, "references"));
      var locale := FormatSerpicoText(Prop(v, "language"));
      var title := FormatSerpicoText(Prop(v, "title"));
      var vulnType := FormatSerpicoText(Prop(v, "type"));
      var description := FormatSerpicoText(Prop(v, "overview"));
      var observation := FormatSerpicoText(Prop(v, "poc"));
      var remediation := FormatSerpicoText(Prop(v, "remediation"));
      if references.Throw? || locale.Throw? || title.Throw? || vulnType.Throw?
         || description.Throw? || observation.Throw? || remediation.Throw?
      then Throw(TypeError)
      else
        var detail := Detail(locale.value, title.value, vulnType.value,
                             description.value, observation.value, remediation.value);
        Ok(VulnRecord(OrNull(Prop(v, "c3_vs")), OrNull(Prop(v, "cvss_base_score")),
                      OrNull(Prop(v, "severity")), Null, Null, references.value, [detail]))
  }

  /** `parseSerpico(vulnerabilities)`: the records converted one by one, in
      order; the first record that cannot be converted makes the call throw. */
  function ParseSerpico(items: seq<Value>): (r: Result<seq<VulnRecord>>)
    ensures r.Ok? ==> |r.value| == |items|
    ensures r.Throw? ==> r.error == TypeError
    decreases |items|
  {
    if items == [] then Ok([])
    else
      match MapRecord(items[0])
      case Throw(e) => Throw(e)
      case Ok(rec) =>
        match ParseSerpico(items[1..])
        case Throw(e) => Throw(e)
        case Ok(recs) => Ok([rec] + recs)
  }

  /** `parseSerpico` succeeds exactly when every record is convertible; its
      result then has one record per input record, in input order, each the
      conversion of the record at the same position. */
  lemma {:induction false} ParseSerpicoSpec(items: seq<Value>)
    ensures ParseSerpico(items).Ok? <==> forall i :: 0 <= i < |items| ==> SerpicoConvertible(items[i])
    ensures ParseSerpico(items).Throw? ==> ParseSerpico(items).error == TypeError
    ensures ParseSerpico(items).Ok? ==>
      var recs := ParseSerpico(items).value;
      && |recs| == |items|
      && forall i :: 0 <= i < |items| ==> MapRecord(items[i]) == Ok(recs[i])
  {
    ParseSerpicoOk(items);
    if ParseSerpico(items).Ok? {
      ParseSerpicoValues(items);
    }
  }

  lemma {:induction false} ParseSerpicoOk(items: seq<Value>)
    ensures ParseSerpico(items).Ok? <==> forall i :: 0 <= i < |items| ==> SerpicoConvertible(items[i])
    decreases |items|
  {
    if items != [] {
      ParseSerpicoOk(items[1..]);
      assert forall i :: 1 <= i < |items| ==> items[1..][i - 1] == items[i];
    }
  }

  lemma {:induction false} ParseSerpicoValues(items: seq<Value>)
    requires ParseSerpico(items).Ok?
    ensures forall i :: 0 <= i < |items| ==> MapRecord(items[i]) == Ok(ParseSerpico(items).value[i])
    decreases |items|
  {
    if items != [] {
      ParseSerpicoCons(items);
      ParseSerpicoValues(items[1..]);
      ShiftPositions(MapRecord, items, ParseSerpico(items).value, MapRecord(items[0]).value, ParseSerpico(items[1..]).value);
    }
  }

  /** A successful conversion is the first record's followed by the rest's. */
  lemma ParseSerpicoCons(items: seq<Value>)
    requires items != [] && ParseSerpico(items).Ok?
    ensures MapRecord(items[0]).Ok? && ParseSerpico(items[1..]).Ok?
    ensures ParseSerpico(items).value == [MapRecord(items[0]).value] + ParseSerpico(items[1..]).value
  {
  }

  /** Position-by-position conversion carries over from the tail to the
      whole sequence. */
  lemma ShiftPositions<A, B>(f: A -> Result<B>, items: seq<A>, recs: seq<B>, first: B, more: seq<B>)
    requires items != [] && |more| == |items| - 1 && recs == [first] + more
    requires f(items[0]) == Ok(first)
    requires forall i :: 0 <= i < |more| ==> f(items[1..][i]) == Ok(more[i])
    ensures forall i :: 0 <= i < |items| ==> f(items[i]) == Ok(recs[i])
  {
    forall i | 1 <= i < |items| ensures f(items[i]) == Ok(recs[i]) {
      assert recs[i] == more[i - 1];
      assert items[1..][i - 1] == items[i];
    }
  }

  /** Every record `parseSerpico` returns has exactly one detail block and no
      priority or remediation complexity. */
  lemma ParseSerpicoShape(items: seq<Value>)
    requires ParseSerpico(items).Ok?
    ensures forall rec :: rec in ParseSerpico(items).value ==>
      |rec.details| == 1 && rec.priority == Null && rec.remediationComplexity == Null
  {
    ParseSerpicoSpec(items);
    var recs := ParseSerpico(items).value;
    forall rec | rec in recs
      ensures |rec.details| == 1 && rec.priority == Null && rec.remediationComplexity == Null
    {
      var i :| 0 <= i < |recs| && recs[i] == rec;
      assert MapRecord(items[i]) == Ok(rec);
    }
  }

  /** The JavaScript object the page stores for a detail block. */
  function DetailValue(d: Detail): Value
  {
    Obj(map["locale" := d.locale, "title" := d.title, "vulnType" := d.vulnType,
            "description" := d.description, "observation" := d.observation,
            "remediation" := d.remediation])
  }

  /** The JavaScript object the page stores for a vulnerability record. */
  function RecordValue(rec: VulnRecord): Value
  {
    Obj(map["cvssv3" := rec.cvssv3, "cvssScore" := rec.cvssScore,
            "cvssSeverity" := rec.cvssSeverity, "priority" := rec.priority,
            "remediationComplexity" := rec.remediationComplexity,
            "references" := rec.references,
            "details" := Arr(seq(|rec.details|, i requires 0 <= i < |rec.details| => DetailValue(rec.details[i])))])
  }

  function RecordValues(recs: seq<VulnRecord>): (vs: seq<Value>)
    ensures |vs| == |recs|
  {
    seq(|recs|, i requires 0 <= i < |recs| => RecordValue(recs[i]))
  }

  /** Text holding none of the patterns is left unchanged by the rewriting. */
  lemma RewriteNoMarkup(s: string)
    requires NoMarkup(s)
    ensures Rewrite(s) == s
  {
    ReplaceAllAbsent(s, "<paragraph>", "");
    ReplaceAllAbsent(s, "</paragraph>", "\n");
    ReplaceAllAbsent(s, "<bullet>", "* ");
    ReplaceAllAbsent(s, "</bullet>", "");
    ReplaceAllAbsent(s, "<bullet1>", "    * ");
    ReplaceAllAbsent(s, "</bullet1>", "");
    ReplaceAllAbsent(s, "<h4>", "");
    ReplaceAllAbsent(s, "</h4>", "");
    ReplaceAllAbsent(s, "<indented>", "    ");
    ReplaceAllAbsent(s, "</indented>", "");
    ReplaceAllAbsent(s, "<italics>", "");
    ReplaceAllAbsent(s, "</italics>", "");
    ReplaceAllAbsent(s, "[[[", "\n");
    ReplaceAllAbsent(s, "]]]", "\n");
  }

  /** Text other than the two language names that holds none of the fourteen
      patterns but holds an entity, `Entities[k]` at `j`, is changed by
      `formatSerpicoText`: decoding the entity shortens it. */
  lemma FormatTextEntity(s: string, k: nat, j: nat)
    requires s != "English" && s != "French"
    requires NoMarkup(s)
    requires k < |Entities| && OccursAt(s, Entities[k], j)
    ensures |FormatText(s)| < |s|
  {
    RewriteNoMarkup(s);
    UnescapeEntityShortens(s, k, j);
  }

  /** Text other than the two language names that holds none of the fourteen
      patterns and none of the entities `_.unescape` decodes is returned
      unchanged by `formatSerpicoText`. */
  lemma FormatTextPlain(s: string)
    requires s != "English" && s != "French"
    requires NoMarkup(s)
    requires forall k :: 0 <= k < |Entities| ==> !Contains(s, Entities[k])
    ensures FormatText(s) == s
  {
    RewriteNoMarkup(s);
    UnescapeNoEntity(s);
  }
}
