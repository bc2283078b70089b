/** `importVulnerabilities`: each selected file is read, parsed according to
    its extension, and folded into the page's accumulator
    `this.vulnerabilities`; a counter of files still to be accounted for
    starts at the number of files, and the accumulated list is submitted
    when the counter reaches zero. */
module Import {
  import opened JsValue
  import opened Serpico

  /** `name.split('.').pop()`: the text after the last dot, or the whole
      name when it has none. */
  function Extension(name: string): (ext: string)
    ensures '.' !in ext
    ensures |ext| <= |name| && name[|name| - |ext|..] == ext
    ensures ext == name || name[|name| - |ext| - 1] == '.'
    decreases |name|
  {
    if |name| == 0 then ""
    else if name[|name| - 1] == '.' then ""
    else
      var init := name[..|name| - 1];
      var e := Extension(init);
      assert name[|name| - |e| - 1..] == init[|init| - |e|..] + [name[|name| - 1]];
      assert e != init ==> name[|name| - |e| - 2] == init[|init| - |e| - 1];
      e + [name[|name| - 1]]
  }

  /** A name ending in a dot and a dot-free extension has that extension. */
  lemma {:induction false} ExtensionAfterDot(base: string, ext: string)
    requires '.' !in ext
    ensures Extension(base + "." + ext) == ext
    decreases |ext|
  {
    var name := base + "." + ext;
    if |ext| == 0 {
      assert name[|name| - 1] == '.';
    } else {
      var init := ext[..|ext| - 1];
      DropLast(ext);
      assert name[..|name| - 1] == base + "." + init;
      ExtensionAfterDot(base, init);
    }
  }

  /** A name without a dot is its own extension: a file called `yml` is read
      as YAML. */
  lemma {:induction false} ExtensionNoDot(name: string)
    requires '.' !in name
    ensures Extension(name) == name
    decreases |name|
  {
    if |name| > 0 {
      var init := name[..|name| - 1];
      DropLast(name);
      ExtensionNoDot(init);
    }
  }

  /** A non-empty text is its prefix without the last character, followed by
      that character; a dot-free text has a dot-free prefix. */
  lemma DropLast(s: string)
    requires |s| > 0
    ensures s == s[..|s| - 1] + [s[|s| - 1]]
    ensures s[|s| - 1] in s
    ensures '.' !in s ==> '.' !in s[..|s| - 1]
  {
    assert s[|s| - 1] == s[|s| - 1];
    forall k | 0 <= k < |s| - 1 ensures s[..|s| - 1][k] == s[k] && s[k] in s {
    }
  }

  predicate EndsWith(s: string, suffix: string)
  {
    |suffix| <= |s| && s[|s| - |suffix|..] == suffix
  }

  /** A name has the dot-free extension `e` exactly when it is `e` or ends in
      a dot followed by `e`, spelt `dotted`. */
  lemma ExtensionIs(name: string, e: string, dotted: string)
    requires '.' !in e && dotted == "." + e
    ensures Extension(name) == e <==> name == e || EndsWith(name, dotted)
  {
    if name == e {
      ExtensionNoDot(name);
    } else if EndsWith(name, dotted) {
      var base := name[..|name| - |dotted|];
      SuffixSplit(name, base, e, dotted);
      ExtensionAfterDot(base, e);
    } else if Extension(name) == e {
      ExtensionTail(name, e, dotted);
    }
  }

  /** The extension is one of two dot-free strings exactly when the name is
      one of them or ends in a dot followed by one of them. */
  lemma EitherExtension(name: string, e1: string, d1: string, e2: string, d2: string)
    requires '.' !in e1 && d1 == "." + e1 && '.' !in e2 && d2 == "." + e2
    ensures (Extension(name) == e1 || Extension(name) == e2) <==>
      name == e1 || name == e2 || EndsWith(name, d1) || EndsWith(name, d2)
  {
    ExtensionIs(name, e1, d1);
    ExtensionIs(name, e2, d2);
  }

  lemma SuffixSplit(name: string, base: string, e: string, dotted: string)
    requires dotted == "." + e && EndsWith(name, dotted) && base == name[..|name| - |dotted|]
    ensures name == base + "." + e
  {
    assert name == base + name[|name| - |dotted|..];
  }

  lemma ExtensionTail(name: string, e: string, dotted: string)
    requires '.' !in e && dotted == "." + e && name != e
    requires Extension(name) == e
    ensures EndsWith(name, dotted)
  {
    assert name[|name| - |dotted|..] == [name[|name| - |e| - 1]] + name[|name| - |e|..];
  }

  /** What the parser for a file's format returned: the parsed value, or the
      error it threw. */
  datatype Loaded = Unparsable(error: JsError) | Parsed(value: Value)

  /** What one completed read does to the accumulator. */
  datatype Effect =
    | Replace(items: seq<Value>)  // `this.vulnerabilities = …` with an array
    | Append(item: Value)         // `this.vulnerabilities.push(…)`
    | Reject(error: JsError)      // caught: notified, and the callback returns early
    | Skip                        // unrecognised extension: only logged

  /** `ext === "yml"` or `ext === "json"`. */
  predicate Recognised(name: string)
  {
    Extension(name) == "yml" || Extension(name) == "json"
  }

  /** A file is read as YAML or JSON exactly when its name is `yml` or `json`
      itself, or ends in `.yml` or `.json`; the test is case-sensitive. */
  lemma RecognisedNames(name: string)
    ensures Recognised(name) <==>
      || name == "yml" || name == "json" || EndsWith(name, ".yml") || EndsWith(name, ".json")
  {
    EitherExtension(name, "yml", ".yml", "json", ".json");
  }

  /** A JSON array is taken for a Serpico export when it is non-empty and
      its first element has a truthy `id` (a null or undefined first element
      makes the test itself throw). */
  predicate SerpicoExport(items: seq<Value>)
  {
    |items| > 0 && !Nullish(items[0]) && Truthy(Prop(items[0], "id"))
  }

  /** `this.vulnerabilities = this.parseSerpico(vulnFile)`: the array is
      converted record by record, or the conversion throws a TypeError and
      the accumulator is left alone. */
  function FromSerpico(items: seq<Value>): (e: Effect)
    ensures e.Replace? <==> forall k :: 0 <= k < |items| ==> SerpicoConvertible(items[k])
    ensures !e.Replace? ==> e == Reject(TypeError)
    ensures e.Replace? ==>
      && |e.items| == |items|
      && forall k :: 0 <= k < |items| ==> MapRecord(items[k]).Ok? && e.items[k] == RecordValue(MapRecord(items[k]).value)
  {
    ParseSerpicoSpec(items);
    match ParseSerpico(items)
    case Throw(err) => Reject(err)
    case Ok(recs) => Replace(RecordValues(recs))
  }

  /** The YAML branch of the callback, from `YAML.safeLoad` on. */
  function DecideYaml(loaded: Loaded): (e: Effect)
    ensures !e.Skip?
    ensures e.Replace? || e.Append? ==> loaded.Parsed?
  {
    match loaded
    case Unparsable(e) => Reject(e)
    case Parsed(v) =>
      if !TypeofObject(v) then Reject(Error("Invalid YAML format detected"))
      else if v.Arr? then Replace(v.items)
      else Append(v)
  }

  /** The JSON branch of the callback, from `JSON.parse` on. */
  function DecideJson(loaded: Loaded): (e: Effect)
    ensures !e.Skip?
    ensures e.Replace? || e.Append? ==> loaded.Parsed?
  {
    match loaded
    case Unparsable(e) => Reject(e)
    case Parsed(v) =>
      if !TypeofObject(v) then Reject(Error("Invalid JSON format detected"))
      else if v.Arr? then
        if |v.items| == 0 then Replace(v.items)
        else
          match Get(v.items[0], "id")
          case Throw(e) => Reject(e)
          case Ok(id) =>
            if !Truthy(id) then Replace(v.items)
            else FromSerpico(v.items)
      else Append(v)
  }

  /** The decision the `onloadend` callback makes for one file. */
  function Decide(name: string, loaded: Loaded): (e: Effect)
    ensures e.Skip? <==> !Recognised(name)
    ensures e.Replace? || e.Append? ==> loaded.Parsed?
  {
    var ext := Extension(name);
    if ext == "yml" then DecideYaml(loaded)
    else if ext == "json" then DecideJson(loaded)
    else Skip
  }

  /** A parser error is reported and the file is not counted. */
  lemma DecideUnparsable(name: string, err: JsError)
    requires Recognised(name)
    ensures Decide(name, Unparsable(err)) == Reject(err)
  {
  }

  /** A parsed value whose `typeof` is not 'object' is refused with an
      Error naming the format. */
  lemma DecideNotObject(name: string, v: Value)
    requires Recognised(name) && !TypeofObject(v)
    ensures Decide(name, Parsed(v)) == Reject(Error(
      if Extension(name) == "yml" then "Invalid YAML format detected" else "Invalid JSON format detected"))
  {
  }

  /** Null and non-array objects are appended, whatever the format. */
  lemma DecideObject(name: string, v: Value)
    requires Recognised(name) && (v.Null? || v.Obj?)
    ensures Decide(name, Parsed(v)) == Append(v)
  {
  }

  /** A YAML array always replaces the accumulator as it is: YAML files are
      never converted from Serpico. */
  lemma DecideYamlArray(name: string, items: seq<Value>)
    requires Extension(name) == "yml"
    ensures Decide(name, Parsed(Arr(items))) == Replace(items)
  {
  }

  /** A JSON array replaces the accumulator as it is unless its first
      element has a truthy `id`; a null or undefined first element makes the
      `id` test throw. */
  lemma DecideJsonArray(name: string, items: seq<Value>)
    requires Extension(name) == "json"
    ensures !SerpicoExport(items) && !(|items| > 0 && Nullish(items[0])) ==>
      Decide(name, Parsed(Arr(items))) == Replace(items)
    ensures |items| > 0 && Nullish(items[0]) ==>
      Decide(name, Parsed(Arr(items))) == Reject(TypeError)
  {
  }

  /** A Serpico export goes through the conversion; whether it is one is
      decided by its first element alone. */
  lemma DecideSerpico(name: string, items: seq<Value>)
    requires Extension(name) == "json" && SerpicoExport(items)
    ensures Decide(name, Parsed(Arr(items))) == FromSerpico(items)
  {
    DecideJsonSerpico(items);
  }

  lemma DecideJsonSerpico(items: seq<Value>)
    requires SerpicoExport(items)
    ensures DecideJson(Parsed(Arr(items))) == FromSerpico(items)
  {
    assert Get(items[0], "id") == Ok(Prop(items[0], "id"));
  }

  /** The accumulator after one effect. Only an array file discards what was
      accumulated; any other file keeps it and adds at most one value. */
  function Accumulate(acc: seq<Value>, e: Effect): (r: seq<Value>)
    ensures !e.Replace? ==> |acc| <= |r| <= |acc| + 1 && r[..|acc|] == acc
  {
    match e
    case Replace(items) => items
    case Append(v) => acc + [v]
    case _ => acc
  }

  /** The accumulator after a sequence of effects, in completion order. */
  function AccumulateAll(acc: seq<Value>, es: seq<Effect>): (r: seq<Value>)
    ensures NoReplace(es) ==> |acc| <= |r| <= |acc| + |es| && r[..|acc|] == acc
    decreases |es|
  {
    if es == [] then acc else Accumulate(AccumulateAll(acc, es[..|es| - 1]), es[|es| - 1])
  }

  /** The values the appending effects of `es` push, in order. */
  function Appended(es: seq<Effect>): seq<Value>
    decreases |es|
  {
    if es == [] then []
    else Appended(es[..|es| - 1]) + (if es[|es| - 1].Append? then [es[|es| - 1].item] else [])
  }

  predicate NoReplace(es: seq<Effect>)
  {
    forall k :: 0 <= k < |es| ==> !es[k].Replace?
  }

  /** Without an array file, the accumulator only grows: every object file
      is appended, in completion order. */
  lemma {:induction false} AccumulateAppendsOnly(acc: seq<Value>, es: seq<Effect>)
    requires NoReplace(es)
    ensures AccumulateAll(acc, es) == acc + Appended(es)
    decreases |es|
  {
    if es != [] {
      var init := es[..|es| - 1];
      assert NoReplace(init) by {
        forall k | 0 <= k < |init| ensures !init[k].Replace? {
          assert init[k] == es[k];
        }
      }
      AccumulateAppendsOnly(acc, init);
      assert !es[|es| - 1].Replace?;
    }
  }

  /** The last array file to complete wins: the submitted list is its items,
      followed by the object files that completed after it; everything
      accumulated before it is discarded. */
  lemma {:induction false} AccumulateLastReplace(acc: seq<Value>, es: seq<Effect>, j: nat)
    requires j < |es| && es[j].Replace?
    requires NoReplace(es[j + 1..])
    ensures AccumulateAll(acc, es) == es[j].items + Appended(es[j + 1..])
    decreases |es|
  {
    var init := es[..|es| - 1];
    if j == |es| - 1 {
      assert es[j + 1..] == [];
    } else {
      assert init[j + 1..] == es[j + 1..|es| - 1];
      assert NoReplace(init[j + 1..]) by {
        var mid := init[j + 1..];
        forall k | 0 <= k < |mid| ensures !mid[k].Replace? {
          assert mid[k] == es[j + 1..][k];
        }
      }
      assert !es[|es| - 1].Replace? by {
        assert es[|es| - 1] == es[j + 1..][|es| - j - 2];
      }
      AccumulateLastReplace(acc, init, j);
      var tail := es[j + 1..];
      assert tail[..|tail| - 1] == init[j + 1..];
      assert tail[|tail| - 1] == es[|es| - 1];
    }
  }

  /** The outcome depends on the completion order: an array file and an
      object file give both values or only the array's, depending on which
      is read first. */
  lemma CompletionOrderMatters(items: seq<Value>, v: Value)
    ensures AccumulateAll([], [Replace(items), Append(v)]) == items + [v]
    ensures AccumulateAll([], [Append(v), Replace(items)]) == items
  {
    assert [Replace(items), Append(v)][..1] == [Replace(items)];
    assert [Append(v), Replace(items)][..1] == [Append(v)];
  }

  /** Where each file of the batch stands. */
  datatype Status =
    | Reading    // its `onloadend` has not run yet
    | Counted    // it completed and `pending` was decremented
    | Rejected   // its callback returned early, leaving `pending` as it was

  function Count(s: seq<Status>, x: Status): (n: nat)
    ensures n <= |s|
    decreases |s|
  {
    if s == [] then 0 else Count(s[..|s| - 1], x) + (if s[|s| - 1] == x then 1 else 0)
  }

  /** Every entry is `x` exactly when all of them are counted. */
  lemma {:induction false} CountAll(s: seq<Status>, x: Status)
    ensures Count(s, x) == |s| <==> forall k :: 0 <= k < |s| ==> s[k] == x
    decreases |s|
  {
    if s != [] {
      var init := s[..|s| - 1];
      CountAll(init, x);
      assert forall k :: 0 <= k < |init| ==> init[k] == s[k];
    }
  }

  /** Changing one entry changes the count by at most one. */
  lemma {:induction false} CountUpdate(s: seq<Status>, i: nat, y: Status, x: Status)
    requires i < |s|
    ensures Count(s[i := y], x) == Count(s, x) - (if s[i] == x then 1 else 0) + (if y == x then 1 else 0)
    decreases |s|
  {
    var t := s[i := y];
    if i == |s| - 1 {
      assert t[..|t| - 1] == s[..|s| - 1];
    } else {
      CountUpdate(s[..|s| - 1], i, y, x);
      assert t[..|t| - 1] == s[..|s| - 1][i := y];
    }
  }

  /** `n` files, none of them read yet. */
  function AllReading(n: nat): (s: seq<Status>)
    ensures |s| == n && forall k :: 0 <= k < n ==> s[k] == Reading
  {
    seq(n, k => Reading)
  }

  /** How the parts of a batch's state relate: `pending` counts the files
      not yet counted down (those still being read and those rejected), one
      effect was recorded per completed read, the accumulator is their fold,
      one notice was shown per rejection, and the accumulated list was
      submitted once exactly when a non-empty batch reached zero. */
  ghost predicate Consistent(files: seq<string>, status: seq<Status>, pending: nat, events: seq<Effect>,
                             vulnerabilities: seq<Value>, notices: seq<JsError>, submitted: seq<seq<Value>>)
  {
    && |status| == |files|
    && pending == |files| - Count(status, Counted)
    && |events| == |files| - Count(status, Reading)
    && vulnerabilities == AccumulateAll([], events)
    && |notices| == Count(status, Rejected)
    && |submitted| == (if |files| > 0 && pending == 0 then 1 else 0)
    && (|submitted| == 1 ==> submitted[0] == vulnerabilities)
  }

  /** A rejected read adds a notice and leaves the counter where it was. */
  lemma ConsistentReject(files: seq<string>, status: seq<Status>, pending: nat, events: seq<Effect>,
                         vulnerabilities: seq<Value>, notices: seq<JsError>, submitted: seq<seq<Value>>,
                         i: nat, err: JsError)
    requires Consistent(files, status, pending, events, vulnerabilities, notices, submitted)
    requires i < |files| && status[i] == Reading
    ensures pending > 0 && submitted == []
    ensures Consistent(files, status[i := Rejected], pending, events + [Reject(err)],
                       vulnerabilities, notices + [err], submitted)
  {
    CountStep(status, i, Rejected);
    AccumulateAllSnoc(events, Reject(err));
  }

  /** Any other read is folded into the accumulator and counted down; the
      read that reaches zero submits the accumulator. */
  lemma ConsistentCount(files: seq<string>, status: seq<Status>, pending: nat, events: seq<Effect>,
                        vulnerabilities: seq<Value>, notices: seq<JsError>, submitted: seq<seq<Value>>,
                        i: nat, e: Effect)
    requires Consistent(files, status, pending, events, vulnerabilities, notices, submitted)
    requires i < |files| && status[i] == Reading && !e.Reject?
    ensures pending > 0 && submitted == []
    ensures var acc := Accumulate(vulnerabilities, e);
      Consistent(files, status[i := Counted], pending - 1, events + [e],
                 acc, notices, submitted + (if pending == 1 then [acc] else []))
  {
    CountStep(status, i, Counted);
    AccumulateAllSnoc(events, e);
  }

  /** The page's import state for one batch of files. */
  class Importer {
    /** `this.vulnerabilities`. */
    var vulnerabilities: seq<Value>
    /** The batch's `pending` counter. */
    var pending: nat
    /** The names of the batch's files. */
    var files: seq<string>
    /** The lists handed to `createVulnerabilities` during the current batch,
        in order. */
    var submitted: seq<seq<Value>>
    /** The errors reported to the user during the current batch, in order.
        The page cannot take back a submission or a notification of an earlier
        batch; the model starts each batch with both lists empty. */
    var notices: seq<JsError>
    ghost var status: seq<Status>
    /** The effects of the completed reads, in completion order. */
    ghost var events: seq<Effect>

    ghost predicate Valid()
      reads this
    {
      Consistent(files, status, pending, events, vulnerabilities, notices, submitted)
    }

    /** The page as it is mounted: an empty list and no batch. */
    constructor ()
      ensures Valid()
      ensures vulnerabilities == [] && files == [] && pending == 0
      ensures submitted == [] && notices == []
    {
      vulnerabilities := [];
      pending := 0;
      files := [];
      submitted := [];
      notices := [];
      status := [];
      events := [];
    }

    /** The synchronous part of `importVulnerabilities(files)`: the
        accumulator is emptied, and every file is registered and counted
        before any read completes. */
    method ImportVulnerabilities(names: seq<string>)
      modifies this
      ensures Valid()
      ensures files == names && vulnerabilities == [] && pending == |names|
      ensures status == AllReading(|names|) && events == []
      ensures submitted == [] && notices == []
    {
      vulnerabilities := [];
      pending := 0;
      files := names;
      submitted := [];
      notices := [];
      events := [];
      status := [];
      for i := 0 to |names|
        invariant vulnerabilities == [] && files == names && events == []
        invariant submitted == [] && notices == []
        invariant pending == i && |status| == i
        invariant forall k :: 0 <= k < i ==> status[k] == Reading
      {
        status := status + [Reading];
        pending := pending + 1;
      }
      assert status == AllReading(|names|);
      CountNone(status, Counted);
      CountNone(status, Rejected);
      CountAll(status, Reading);
    }

    /** The `onloadend` callback of file `i`, whose parser produced
        `loaded`. */
    method OnLoadEnd(i: nat, loaded: Loaded)
      requires Valid()
      requires i < |files| && status[i] == Reading
      modifies this
      ensures Valid()
      ensures files == old(files)
      ensures var e := Decide(old(files)[i], loaded);
        && vulnerabilities == Accumulate(old(vulnerabilities), e)
        && events == old(events) + [e]
        && status == old(status)[i := if e.Reject? then Rejected else Counted]
        && pending == old(pending) - (if e.Reject? then 0 else 1)
        && notices == old(notices) + (if e.Reject? then [e.error] else [])
        && submitted == old(submitted) + (if !e.Reject? && pending == 0 then [vulnerabilities] else [])
    {
      var e := Decide(files[i], loaded);
      Complete(i, e);
    }

    /** The rest of the callback once the file's effect `e` is known: a
        rejection is reported and returns early; anything else updates the
        accumulator, counts the file down and submits at zero. */
    method Complete(i: nat, e: Effect)
      requires Valid()
      requires i < |files| && status[i] == Reading
      modifies this
      ensures Valid()
      ensures files == old(files)
      ensures vulnerabilities == Accumulate(old(vulnerabilities), e)
      ensures events == old(events) + [e]
      ensures status == old(status)[i := if e.Reject? then Rejected else Counted]
      ensures pending == old(pending) - (if e.Reject? then 0 else 1)
      ensures notices == old(notices) + (if e.Reject? then [e.error] else [])
      ensures submitted == old(submitted) + (if !e.Reject? && pending == 0 then [vulnerabilities] else [])
    {
      if e.Reject? {
        ConsistentReject(files, status, pending, events, vulnerabilities, notices, submitted, i, e.error);
        events := events + [e];
        notices := notices + [e.error];
        status := status[i := Rejected];
        return;
      }
      ConsistentCount(files, status, pending, events, vulnerabilities, notices, submitted, i, e);
      events := events + [e];
      match e {
        case Replace(items) => vulnerabilities := items;
        case Append(v) => vulnerabilities := vulnerabilities + [v];
        case Skip =>
      }
      status := status[i := Counted];
      pending := pending - 1;
      if pending == 0 {
        submitted := submitted + [vulnerabilities];
      }
    }

    /** The list is submitted exactly when every file of a non-empty batch
        completed without error. */
    lemma SubmittedIffAllCounted()
      requires Valid()
      ensures |submitted| == 1 <==> |files| > 0 && forall k :: 0 <= k < |files| ==> status[k] == Counted
      ensures |submitted| <= 1
    {
      CountAll(status, Counted);
    }

    /** A file whose callback returned early keeps `pending` above zero, so
        the batch is never submitted. */
    lemma RejectedBlocksSubmission(j: nat)
      requires Valid()
      requires j < |files| && status[j] == Rejected
      ensures pending > 0 && submitted == []
    {
      CountAll(status, Counted);
    }

    /** Once every file has completed, the submitted list is the last array
        file's items followed by the object files that completed after it. */
    lemma SubmittedAfterLastArray(j: nat)
      requires Valid() && |submitted| == 1
      requires j < |events| && events[j].Replace? && NoReplace(events[j + 1..])
      ensures submitted[0] == events[j].items + Appended(events[j + 1..])
    {
      AccumulateLastReplace([], events, j);
    }
  }

  /** Completing a file that was still being read. */
  lemma CountStep(s: seq<Status>, i: nat, y: Status)
    requires i < |s| && s[i] == Reading && y != Reading
    ensures Count(s, Counted) < |s|
    ensures Count(s[i := y], Reading) == Count(s, Reading) - 1
    ensures Count(s[i := y], Counted) == Count(s, Counted) + (if y == Counted then 1 else 0)
    ensures Count(s[i := y], Rejected) == Count(s, Rejected) + (if y == Rejected then 1 else 0)
  {
    CountAll(s, Counted);
    CountUpdate(s, i, y, Reading);
    CountUpdate(s, i, y, Counted);
    CountUpdate(s, i, y, Rejected);
  }

  /** One more completion folds one more effect into the accumulator. */
  lemma AccumulateAllSnoc(es: seq<Effect>, e: Effect)
    ensures AccumulateAll([], es + [e]) == Accumulate(AccumulateAll([], es), e)
  {
    assert (es + [e])[..|es|] == es;
  }

  /** A sequence without `x` counts none. */
  lemma {:induction false} CountNone(s: seq<Status>, x: Status)
    requires forall k :: 0 <= k < |s| ==> s[k] != x
    ensures Count(s, x) == 0
    decreases |s|
  {
    if s != [] {
      CountNone(s[..|s| - 1], x);
    }
  }
}
