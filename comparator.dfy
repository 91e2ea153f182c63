/** `compare_segments` (app.py:84-149) and `status_icon` (app.py:151-160):
    judge each section of a segmented template against the same section of a
    segmented filled document, asking a chat model only when the answer is not
    obvious, and pick an icon for each verdict. */
module Comparator {
  import opened Text
  import opened Dicts
  import opened Segmenter

  /** One entry of the report (app.py:141-148). */
  datatype Record = Record(template: string, filled: string, status: string, analysis: string,
                           remediation: string, matchPercent: int)

  /** What is read from the model's reply (app.py:126-140). */
  datatype Judgment = Judgment(status: string, reason: string, remediation: string, matchPercent: int)

  /** One call of the chat model: the section it was made for, and its template
      and filled texts. The prompt sent (app.py:100-114) is fixed text with these
      two texts inserted, so they determine it. */
  datatype Request = Request(section: string, content: string, filledContent: string)

  /** The chat model, as the reply it gives to each call. A comparison calls it
      at most once per section, so any sequence of replies the model may give is
      one such function. */
  type Oracle = Request -> string

  const MissingReason: string := "This section is missing in the filled document."
  const MissingRemediation: string := "Please provide content for this section."
  const SufficientReason: string := "This section is sufficiently filled and matches the template."
  const SufficientRemediation: string := "None needed."
  const DefaultStatus: string := "Other Issue"
  const DefaultRemediation: string := "None provided."

  // ---------------------------------------------------------------------
  // Reading the reply.

  const StatusField: string := "status:"
  const ReasonField: string := "reason:"
  const RemediationField: string := "remediation:"
  const PercentField: string := "match percentage:"

  /** `line.lower().startswith(field)` */
  predicate HasField(line: string, field: string) {
    field <= Lower(line)
  }

  /** A field name, lower case and ending in a colon. */
  predicate IsFieldName(field: string) {
    |field| > 0 && field[|field| - 1] == ':'
  }

  lemma FieldNames()
    ensures IsFieldName(StatusField) && IsFieldName(ReasonField)
    ensures IsFieldName(RemediationField) && IsFieldName(PercentField)
  {
  }

  /** A line that starts with a field name holds a colon, so the text after the
      first colon exists. */
  lemma FieldHasColon(line: string, field: string)
    requires IsFieldName(field) && HasField(line, field)
    ensures ':' in line
  {
    var p := |field| - 1;
    assert LowerChar(line[p]) == Lower(line)[p] == ':';
  }

  /** The colon that ends the field name is the first one of the line, so the
      value is what follows the field name. */
  lemma FieldValueAfterName(line: string, field: string)
    requires IsFieldName(field) && HasField(line, field)
    requires forall i :: 0 <= i < |field| - 1 ==> field[i] != ':'
    ensures ':' in line && IndexOf(line, ':') == |field| - 1
  {
    FieldHasColon(line, field);
    var p := |field| - 1;
    forall i | 0 <= i < p
      ensures line[i] != ':'
    {
      assert LowerChar(line[i]) == Lower(line)[i] == field[i];
    }
    assert LowerChar(line[p]) == Lower(line)[p] == ':';
  }

  /** `line.split(":", 1)[1].strip()` */
  function FieldValue(line: string): string
    requires ':' in line
  {
    Strip(AfterFirst(line, ':'))
  }

  /** The value of a line that starts with `field`. */
  function FieldText(line: string, field: string): string
    requires IsFieldName(field) && HasField(line, field)
  {
    FieldHasColon(line, field);
    FieldValue(line)
  }

  /** `int(value.replace('%', ''))`, or 0 where `int` raises (app.py:135-138). */
  function PercentValue(value: string): int {
    match ParseInt(RemoveAll(value, '%'))
    case Some(n) => n
    case None => 0
  }

  /** The four field names are told apart by the first three letters of the
      line, so a line holds at most one field and the order of the `elif`
      tests does not matter. */
  lemma FieldsExclusive(line: string)
    ensures HasField(line, StatusField) ==>
      !HasField(line, ReasonField) && !HasField(line, RemediationField) && !HasField(line, PercentField)
    ensures HasField(line, ReasonField) ==> !HasField(line, RemediationField) && !HasField(line, PercentField)
    ensures HasField(line, RemediationField) ==> !HasField(line, PercentField)
  {
    if |line| >= 3 {
      var l := Lower(line);
      assert StatusField[0] == 's' && ReasonField[0] == 'r' && RemediationField[0] == 'r';
      assert PercentField[0] == 'm' && ReasonField[2] == 'a' && RemediationField[2] == 'm';
      assert HasField(line, StatusField) ==> l[0] == 's';
      assert HasField(line, ReasonField) ==> l[0] == 'r' && l[2] == 'a';
      assert HasField(line, RemediationField) ==> l[0] == 'r' && l[2] == 'm';
      assert HasField(line, PercentField) ==> l[0] == 'm';
    }
  }

  /** Index of the last line that starts with `field`, or -1 if none does. */
  function LastFieldLine(lines: seq<string>, field: string): (j: int)
    ensures -1 <= j < |lines|
    ensures j >= 0 ==> HasField(lines[j], field)
    ensures forall i :: j < i < |lines| ==> !HasField(lines[i], field)
    decreases |lines|
  {
    if lines == [] then -1
    else if HasField(lines[|lines| - 1], field) then |lines| - 1
    else LastFieldLine(lines[..|lines| - 1], field)
  }

  /** The value of the last line with `field`, or `default` if there is none. */
  function FieldOr(lines: seq<string>, field: string, default: string): string
    requires IsFieldName(field)
  {
    var j := LastFieldLine(lines, field);
    if j < 0 then default else FieldText(lines[j], field)
  }

  /** The percentage of the last "match percentage:" line, or 0 if there is none. */
  function PercentOf(lines: seq<string>): int {
    var j := LastFieldLine(lines, PercentField);
    if j < 0 then 0
    else
      FieldNames();
      PercentValue(FieldText(lines[j], PercentField))
  }

  /** What the parsing loop reads from the lines of a reply: for each field, the
      last line that gives it wins. */
  function JudgmentOfLines(lines: seq<string>): (v: Judgment)
    ensures v.remediation != ""
  {
    FieldNames();
    var remediation := FieldOr(lines, RemediationField, "");
    Judgment(FieldOr(lines, StatusField, DefaultStatus),
             FieldOr(lines, ReasonField, ""),
             if remediation == "" then DefaultRemediation else remediation,
             PercentOf(lines))
  }

  /** What is read from a reply of the model. */
  function JudgmentOf(reply: string): Judgment {
    JudgmentOfLines(SplitLines(reply))
  }

  lemma PrefixOfPrefix<T>(a: seq<T>, i: nat)
    requires i < |a|
    ensures a[..i + 1][..i] == a[..i] && a[..i + 1][i] == a[i]
  {
  }

  lemma FieldOrStep(lines: seq<string>, i: nat, field: string, default: string)
    requires i < |lines| && IsFieldName(field)
    ensures FieldOr(lines[..i + 1], field, default) ==
      if HasField(lines[i], field) then FieldText(lines[i], field)
      else FieldOr(lines[..i], field, default)
  {
    PrefixOfPrefix(lines, i);
  }

  lemma PercentOfStep(lines: seq<string>, i: nat)
    requires i < |lines|
    ensures PercentOf(lines[..i + 1]) ==
      if HasField(lines[i], PercentField)
      then (FieldNames(); PercentValue(FieldText(lines[i], PercentField)))
      else PercentOf(lines[..i])
  {
    PrefixOfPrefix(lines, i);
  }

  /** The loop over the reply (app.py:125-140). */
  method ParseReply(reply: string) returns (judgment: Judgment)
    ensures judgment == JudgmentOf(reply)
  {
    FieldNames();
    var lines := SplitLines(reply);
    var status, reason, remediation, matchPercent := DefaultStatus, "", "", 0;
    for i := 0 to |lines|
      invariant status == FieldOr(lines[..i], StatusField, DefaultStatus)
      invariant reason == FieldOr(lines[..i], ReasonField, "")
      invariant remediation == FieldOr(lines[..i], RemediationField, "")
      invariant matchPercent == PercentOf(lines[..i])
    {
      var line := lines[i];
      FieldsExclusive(line);
      FieldOrStep(lines, i, StatusField, DefaultStatus);
      FieldOrStep(lines, i, ReasonField, "");
      FieldOrStep(lines, i, RemediationField, "");
      PercentOfStep(lines, i);
      if StatusField <= Lower(line) {
        FieldHasColon(line, StatusField);
        status := Strip(AfterFirst(line, ':'));
      } else if ReasonField <= Lower(line) {
        FieldHasColon(line, ReasonField);
        reason := Strip(AfterFirst(line, ':'));
      } else if RemediationField <= Lower(line) {
        FieldHasColon(line, RemediationField);
        remediation := Strip(AfterFirst(line, ':'));
      } else if PercentField <= Lower(line) {
        FieldHasColon(line, PercentField);
        var parsed := ParseInt(RemoveAll(Strip(AfterFirst(line, ':')), '%'));
        if parsed.Some? {
          matchPercent := parsed.value;
        } else {
          matchPercent := 0;
        }
      }
    }
    assert lines[..|lines|] == lines;
    if remediation == "" {
      remediation := DefaultRemediation;
    }
    judgment := Judgment(status, reason, remediation, matchPercent);
  }

  // ---------------------------------------------------------------------
  // What the parsing promises.

  lemma AppendLast<T>(a: seq<T>, x: T)
    ensures (a + [x])[..|a|] == a && (a + [x])[..|a| + 1] == a + [x] && (a + [x])[|a|] == x
  {
  }

  /** A line added at the end of a reply settles the field it gives, whatever
      earlier lines said, and leaves the other fields as they were. */
  lemma LaterLineWins(lines: seq<string>, line: string)
    ensures var before, after := JudgmentOfLines(lines), JudgmentOfLines(lines + [line]);
      && after.status ==
           (if HasField(line, StatusField) then FieldText(line, StatusField) else before.status)
      && after.reason ==
           (if HasField(line, ReasonField) then FieldText(line, ReasonField) else before.reason)
      && after.remediation ==
           (if !HasField(line, RemediationField) then before.remediation
            else if FieldText(line, RemediationField) == "" then DefaultRemediation
            else FieldText(line, RemediationField))
      && after.matchPercent ==
           (if HasField(line, PercentField) then PercentValue(FieldText(line, PercentField))
            else before.matchPercent)
  {
    FieldNames();
    var all := lines + [line];
    AppendLast(lines, line);
    FieldOrStep(all, |lines|, StatusField, DefaultStatus);
    FieldOrStep(all, |lines|, ReasonField, "");
    FieldOrStep(all, |lines|, RemediationField, "");
    PercentOfStep(all, |lines|);
  }

  /** A reply that gives no field leaves every default in place. */
  lemma NoFieldsDefaults(lines: seq<string>)
    requires forall i :: 0 <= i < |lines| ==>
      && !HasField(lines[i], StatusField) && !HasField(lines[i], ReasonField)
      && !HasField(lines[i], RemediationField) && !HasField(lines[i], PercentField)
    ensures JudgmentOfLines(lines) == Judgment(DefaultStatus, "", DefaultRemediation, 0)
  {
    assert LastFieldLine(lines, StatusField) == -1;
    assert LastFieldLine(lines, ReasonField) == -1;
    assert LastFieldLine(lines, RemediationField) == -1;
    assert LastFieldLine(lines, PercentField) == -1;
  }

  /** A line made of a field name as the model writes it, a space and a value:
      the value, stripped, is what the field reads. */
  lemma FieldLine(name: string, field: string, value: string)
    requires IsFieldName(field) && forall i :: 0 <= i < |field| - 1 ==> field[i] != ':'
    requires Lower(name) == field + " "
    ensures HasField(name + value, field) && FieldText(name + value, field) == Strip(value)
  {
    var line := name + value;
    assert forall i :: 0 <= i < |field| ==> Lower(line)[i] == Lower(name)[i];
    FieldValueAfterName(line, field);
    assert line[|field|] == ' ' by {
      assert LowerChar(name[|field|]) == ' ';
    }
    assert AfterFirst(line, ':') == [' '] + value;
    StripSpaceBefore(' ', value);
  }

  lemma StatusLine(value: string)
    ensures var line := "Status: " + value;
      HasField(line, StatusField) && FieldText(line, StatusField) == Strip(value)
  {
    assert Lower("Status: ") == StatusField + " ";
    FieldLine("Status: ", StatusField, value);
  }

  lemma PercentLine(value: string)
    ensures var line := "Match Percentage: " + value;
      HasField(line, PercentField) && FieldText(line, PercentField) == Strip(value)
  {
    assert Lower("Match Percentage: ") == PercentField + " ";
    FieldLine("Match Percentage: ", PercentField, value);
  }

  /** The status is whatever text follows "Status:", not one of the three
      statuses the prompt asks for; an empty one stays empty. */
  lemma StatusIsRawText(s: string)
    requires s == [] || (!IsSpace(s[0]) && !IsSpace(s[|s| - 1]))
    ensures JudgmentOfLines(["Status: " + s]).status == s
  {
    StatusLine(s);
    StripTrimmed(s);
    assert LastFieldLine(["Status: " + s], StatusField) == 0;
  }

  /** `int(str(n) + "%" with the "%" removed)` is n, for every n that `str`
      can print. */
  lemma PercentOfInt(n: int)
    requires Printable(n)
    ensures PercentValue(Strip(IntToString(n) + "%")) == n
  {
    var digits := IntToString(n);
    assert '%' !in digits && !IsSpace(digits[0]);
    PercentSignDropped(digits);
    ParseIntToString(n);
  }

  /** "Match Percentage: n%" gives n for every integer n of at most
      `MaxStrDigits` digits: the percentage is neither clamped to 0..100 nor
      required to be positive. */
  lemma PercentNotClamped(n: int)
    requires Printable(n)
    ensures JudgmentOfLines(["Match Percentage: " + IntToString(n) + "%"]).matchPercent == n
  {
    var line := "Match Percentage: " + (IntToString(n) + "%");
    assert line == "Match Percentage: " + IntToString(n) + "%";
    PercentLine(IntToString(n) + "%");
    PercentOfInt(n);
    assert LastFieldLine([line], PercentField) == 0;
  }

  /** Every "%" is removed before the value is read, wherever it stands. */
  lemma PercentSignsIgnored(a: string, b: string)
    ensures PercentValue(a + "%" + b) == PercentValue(a + b)
  {
    RemoveAllDropsOne(a, b, '%');
  }

  /** A percentage of more than `MaxStrDigits` digits is one `int` refuses, so
      a last such line gives 0, whatever earlier lines said. */
  lemma OverlongPercentGivesZero(lines: seq<string>, ds: string)
    requires forall i :: 0 <= i < |ds| ==> IsDigit(ds[i])
    requires |ds| > MaxStrDigits
    ensures JudgmentOfLines(lines + ["Match Percentage: " + ds + "%"]).matchPercent == 0
  {
    OverlongValueRefused(ds);
    assert "Match Percentage: " + ds + "%" == "Match Percentage: " + (ds + "%");
    MalformedPercentResets(lines, ds + "%");
  }

  lemma OverlongValueRefused(ds: string)
    requires forall i :: 0 <= i < |ds| ==> IsDigit(ds[i])
    requires |ds| > MaxStrDigits
    ensures ParseInt(RemoveAll(Strip(ds + "%"), '%')) == None
  {
    assert '%' !in ds;
    PercentSignDropped(ds);
    TooManyDigitsFail(ds);
  }

  /** Text that starts with neither whitespace nor "%" and holds no "%" is what
      `int` is given once a "%" after it is stripped and removed. */
  lemma PercentSignDropped(kept: string)
    requires kept != [] && !IsSpace(kept[0]) && '%' !in kept
    ensures RemoveAll(Strip(kept + "%"), '%') == kept
  {
    var value := kept + "%";
    assert !IsSpace(value[0]) && !IsSpace(value[|value| - 1]);
    StripTrimmed(value);
    RemoveAllAppend(kept, "%", '%');
    assert RemoveAll("%", '%') == "";
  }

  /** A separator U+001C..U+001F between the digits and the "%" survives
      `strip()`, which only removes it at the ends, and `int` refuses it: the
      last such line gives 0. */
  lemma SeparatorInPercentGivesZero(lines: seq<string>, ds: string, c: char)
    requires 0 < |ds| && forall i :: 0 <= i < |ds| ==> IsDigit(ds[i])
    requires '\U{1C}' <= c <= '\U{1F}'
    ensures JudgmentOfLines(lines + ["Match Percentage: " + ds + [c] + "%"]).matchPercent == 0
  {
    SeparatorValueRefused(ds, c);
    assert "Match Percentage: " + ds + [c] + "%" == "Match Percentage: " + (ds + [c] + "%");
    MalformedPercentResets(lines, ds + [c] + "%");
  }

  lemma SeparatorValueRefused(ds: string, c: char)
    requires 0 < |ds| && forall i :: 0 <= i < |ds| ==> IsDigit(ds[i])
    requires '\U{1C}' <= c <= '\U{1F}'
    ensures ParseInt(RemoveAll(Strip(ds + [c] + "%"), '%')) == None
  {
    var kept := ds + [c];
    assert '%' !in kept && !IsSpace(kept[0]);
    PercentSignDropped(kept);
    ParseIntRefusesStray(kept, |ds|);
  }

  /** A reply without a "Match Percentage:" line gives a match of 0. */
  lemma NoPercentLineGivesZero(lines: seq<string>)
    requires forall i :: 0 <= i < |lines| ==> !HasField(lines[i], PercentField)
    ensures JudgmentOfLines(lines).matchPercent == 0
  {
    assert LastFieldLine(lines, PercentField) == -1;
  }

  /** A later percentage line that `int` cannot read sets the percentage back
      to 0, whatever earlier lines gave. */
  lemma MalformedPercentResets(lines: seq<string>, value: string)
    requires ParseInt(RemoveAll(Strip(value), '%')) == None
    ensures JudgmentOfLines(lines + ["Match Percentage: " + value]).matchPercent == 0
  {
    PercentLine(value);
    LaterLineWins(lines, "Match Percentage: " + value);
  }

  // ---------------------------------------------------------------------
  // The comparison.

  /** Whether a section goes to the model: its filled text is not blank and,
      stripped, differs from the template's. */
  predicate NeedsJudgment(content: string, filledContent: string) {
    Strip(filledContent) != "" && Strip(filledContent) != Strip(content)
  }

  /** The record of one section (app.py:88-148). */
  function Assess(section: string, content: string, filledContent: string, oracle: Oracle): Record {
    if Strip(filledContent) == "" then
      Record(content, filledContent, "Missing", MissingReason, MissingRemediation, 0)
    else if Strip(filledContent) == Strip(content) then
      Record(content, filledContent, "Sufficient", SufficientReason, SufficientRemediation, 100)
    else
      var v := JudgmentOf(oracle(Request(section, content, filledContent)));
      Record(content, filledContent, v.status, v.reason, v.remediation, v.matchPercent)
  }

  /** The record of every section of the template. */
  function Records(template: SegmentMap, filled: SegmentMap, oracle: Oracle): map<string, Record> {
    map k | k in template.entries :: Assess(k, template.entries[k], filled.Get(k, ""), oracle)
  }

  /** The report `compare_segments(template, filled)` returns: one record per
      section of the template, in the template's order. */
  function Comparison(template: SegmentMap, filled: SegmentMap, oracle: Oracle): Dict<Record> {
    Dict(template.keys, Records(template, filled, oracle))
  }

  /** The call of the model made for one section, if any. */
  function RequestFor(section: string, content: string, filledContent: string): seq<Request> {
    if NeedsJudgment(content, filledContent) then [Request(section, content, filledContent)] else []
  }

  /** The call made for each section of the template. */
  function RequestMap(template: SegmentMap, filled: SegmentMap): map<string, seq<Request>> {
    map k | k in template.entries :: RequestFor(k, template.entries[k], filled.Get(k, ""))
  }

  /** The calls of the model that comparing the sections `keys` makes, in order. */
  function Requests(keys: seq<string>, template: SegmentMap, filled: SegmentMap): seq<Request>
    requires forall k :: k in keys ==> k in template.entries
  {
    Concat(keys, RequestMap(template, filled))
  }

  /** The body of the loop of `compare_segments` (app.py:88-148): the record of
      one section, and the call of the model made for it, if any. */
  method CompareSection(section: string, content: string, filledContent: string, oracle: Oracle)
    returns (record: Record, call: seq<Request>)
    ensures record == Assess(section, content, filledContent, oracle)
    ensures call == RequestFor(section, content, filledContent)
  {
    var status, reason, remediation, matchPercent;
    call := [];
    if Strip(filledContent) == "" {
      status, reason, remediation, matchPercent := "Missing", MissingReason, MissingRemediation, 0;
    } else if Strip(filledContent) == Strip(content) {
      status, reason, remediation, matchPercent := "Sufficient", SufficientReason, SufficientRemediation, 100;
    } else {
      var request := Request(section, content, filledContent);
      var reply := oracle(request);
      call := [request];
      var judgment := ParseReply(reply);
      status, reason, remediation, matchPercent :=
        judgment.status, judgment.reason, judgment.remediation, judgment.matchPercent;
    }
    record := Record(content, filledContent, status, reason, remediation, matchPercent);
  }

  /** `compare_segments` (app.py:84-149), with the model as `oracle`; `calls`
      lists the calls made, in order. */
  method CompareSegments(template: SegmentMap, filled: SegmentMap, oracle: Oracle)
    returns (comparison: Dict<Record>, calls: seq<Request>)
    requires template.Valid()
    ensures comparison == Comparison(template, filled, oracle)
    ensures calls == Requests(template.keys, template, filled)
  {
    comparison := Empty();
    calls := [];
    ghost var records := Records(template, filled, oracle);
    ghost var requests := RequestMap(template, filled);
    for i := 0 to |template.keys|
      invariant comparison == Restrict(template.keys[..i], records)
      invariant calls == Concat(template.keys[..i], requests)
    {
      var section := template.keys[i];
      KeyNotBefore(template, i);
      RestrictConcatStep(template.keys, i, records, requests, comparison, calls);
      var record, call := CompareSection(section, template.entries[section], filled.Get(section, ""), oracle);
      assert record == records[section] && call == requests[section];
      calls := calls + call;
      comparison := comparison.Put(section, record);
    }
    ConcatAll(template.keys, requests);
    RestrictAll(template.keys, records);
  }

  // ---------------------------------------------------------------------
  // What a comparison promises.

  /** The calls made for the sections `keys`: one for each section that needs
      a judgment, carrying that section's template and filled texts, and no
      other; when `keys` holds no section twice, no section is asked twice. */
  lemma RequestsOnePerSection(keys: seq<string>, template: SegmentMap, filled: SegmentMap)
    requires forall k :: k in keys ==> k in template.entries
    requires forall i, j :: 0 <= i < j < |keys| ==> keys[i] != keys[j]
    ensures forall r :: r in Requests(keys, template, filled) <==>
      && r.section in keys
      && r.content == template.entries[r.section]
      && r.filledContent == filled.Get(r.section, "")
      && NeedsJudgment(r.content, r.filledContent)
    ensures forall i, j :: 0 <= i < j < |Requests(keys, template, filled)| ==>
      Requests(keys, template, filled)[i].section != Requests(keys, template, filled)[j].section
  {
    var m := RequestMap(template, filled);
    ConcatOwned(keys, m, (r: Request) => r.section);
    forall r ensures r in Requests(keys, template, filled) <==>
      && r.section in keys
      && r.content == template.entries[r.section]
      && r.filledContent == filled.Get(r.section, "")
      && NeedsJudgment(r.content, r.filledContent)
    {
      ConcatMember(keys, m, r);
      if r.section in keys {
        assert r in m[r.section] <==>
          r == Request(r.section, template.entries[r.section], filled.Get(r.section, ""))
          && NeedsJudgment(r.content, r.filledContent);
      }
    }
  }

  /** The report lists the template's sections, in the template's order, each
      once; a section that only the filled document has is not reported. */
  lemma ReportFollowsTemplate(template: SegmentMap, filled: SegmentMap, oracle: Oracle)
    requires template.Valid()
    ensures var report := Comparison(template, filled, oracle);
      && report.Valid() && report.keys == template.keys
      && (forall k :: k in report.entries <==> k in template.entries)
      && (forall k :: k in report.entries ==>
            report.entries[k].template == template.entries[k] && report.entries[k].filled == filled.Get(k, ""))
  {
    RecordsKeepTexts(template, filled, oracle);
  }

  lemma RecordsKeepTexts(template: SegmentMap, filled: SegmentMap, oracle: Oracle)
    ensures var records := Records(template, filled, oracle);
      forall k :: k in records ==>
        records[k].template == template.entries[k] && records[k].filled == filled.Get(k, "")
  {
    var records := Records(template, filled, oracle);
    forall k | k in records
      ensures records[k].template == template.entries[k] && records[k].filled == filled.Get(k, "")
    {
      AssessKeepsTexts(k, template.entries[k], filled.Get(k, ""), oracle);
    }
  }

  lemma AssessKeepsTexts(section: string, content: string, filledContent: string, oracle: Oracle)
    ensures Assess(section, content, filledContent, oracle).template == content
    ensures Assess(section, content, filledContent, oracle).filled == filledContent
  {
    if NeedsJudgment(content, filledContent) {
      var v := JudgmentOf(oracle(Request(section, content, filledContent)));
      assert Assess(section, content, filledContent, oracle) ==
        Record(content, filledContent, v.status, v.reason, v.remediation, v.matchPercent);
    }
  }

  /** A section whose filled text is absent or blank is reported Missing with
      a match of 0, and the model is not asked about it. */
  lemma AbsentIsMissing(template: SegmentMap, filled: SegmentMap, oracle: Oracle, k: string)
    requires template.Valid() && k in template.entries
    requires k !in filled.entries || Strip(filled.entries[k]) == ""
    ensures var r := Comparison(template, filled, oracle).entries[k];
      && r.status == "Missing" && r.matchPercent == 0
      && r.analysis == MissingReason && r.remediation == MissingRemediation
    ensures forall r :: r in Requests(template.keys, template, filled) ==> r.section != k
  {
    NoCallFor(template, filled, k);
  }

  /** A section whose filled text is, stripped, the template's and not blank
      is reported Sufficient with a match of 100, and the model is not asked
      about it. */
  lemma UnchangedIsSufficient(template: SegmentMap, filled: SegmentMap, oracle: Oracle, k: string)
    requires template.Valid() && k in template.entries && k in filled.entries
    requires Strip(filled.entries[k]) != "" && Strip(filled.entries[k]) == Strip(template.entries[k])
    ensures var r := Comparison(template, filled, oracle).entries[k];
      && r.status == "Sufficient" && r.matchPercent == 100
      && r.analysis == SufficientReason && r.remediation == SufficientRemediation
    ensures forall r :: r in Requests(template.keys, template, filled) ==> r.section != k
  {
    NoCallFor(template, filled, k);
  }

  /** A section whose filled text is not blank and differs from the
      template's is sent to the model exactly once, with both texts, and its
      record carries what the reply says. */
  lemma ChangedIsJudgedOnce(template: SegmentMap, filled: SegmentMap, oracle: Oracle, k: string)
    requires template.Valid() && k in template.entries
    requires NeedsJudgment(template.entries[k], filled.Get(k, ""))
    ensures var request := Request(k, template.entries[k], filled.Get(k, ""));
      var r, v := Comparison(template, filled, oracle).entries[k], JudgmentOf(oracle(request));
      && r.status == v.status && r.analysis == v.reason
      && r.remediation == v.remediation && r.matchPercent == v.matchPercent
    ensures var calls := Requests(template.keys, template, filled);
      && Request(k, template.entries[k], filled.Get(k, "")) in calls
      && forall i, j :: 0 <= i < |calls| && 0 <= j < |calls| && calls[i].section == k == calls[j].section ==> i == j
  {
    RequestOfSection(template, filled, k);
    CallSectionsDistinct(template, filled);
  }

  lemma NoCallFor(template: SegmentMap, filled: SegmentMap, k: string)
    requires template.Valid() && k in template.entries
    requires !NeedsJudgment(template.entries[k], filled.Get(k, ""))
    ensures forall r :: r in Requests(template.keys, template, filled) ==> r.section != k
  {
    RequestsOnePerSection(template.keys, template, filled);
  }

  lemma CallSectionsDistinct(template: SegmentMap, filled: SegmentMap)
    requires template.Valid()
    ensures forall i, j :: 0 <= i < j < |Requests(template.keys, template, filled)| ==>
      Requests(template.keys, template, filled)[i].section != Requests(template.keys, template, filled)[j].section
  {
    RequestsOnePerSection(template.keys, template, filled);
  }

  /** Two models that answer every call made alike give the same report: the
      model is consulted on the calls listed and nothing else. */
  lemma OnlyRequestsConsulted(template: SegmentMap, filled: SegmentMap, oracle1: Oracle, oracle2: Oracle)
    requires template.Valid()
    requires forall r :: r in Requests(template.keys, template, filled) ==> oracle1(r) == oracle2(r)
    ensures Comparison(template, filled, oracle1) == Comparison(template, filled, oracle2)
  {
    var records1, records2 := Records(template, filled, oracle1), Records(template, filled, oracle2);
    forall k | k in template.entries ensures records1[k] == records2[k] {
      var request := Request(k, template.entries[k], filled.Get(k, ""));
      if NeedsJudgment(request.content, request.filledContent) {
        RequestOfSection(template, filled, k);
      }
      SameReplySameRecord(template, filled, oracle1, oracle2, k);
    }
    MapsEqual(records1, records2);
  }

  lemma SameReplySameRecord(template: SegmentMap, filled: SegmentMap, oracle1: Oracle, oracle2: Oracle, k: string)
    requires k in template.entries
    requires var request := Request(k, template.entries[k], filled.Get(k, ""));
      NeedsJudgment(request.content, request.filledContent) ==> oracle1(request) == oracle2(request)
    ensures Records(template, filled, oracle1)[k] == Records(template, filled, oracle2)[k]
  {
  }

  lemma RequestOfSection(template: SegmentMap, filled: SegmentMap, k: string)
    requires template.Valid() && k in template.entries
    requires NeedsJudgment(template.entries[k], filled.Get(k, ""))
    ensures Request(k, template.entries[k], filled.Get(k, "")) in Requests(template.keys, template, filled)
  {
    RequestsOnePerSection(template.keys, template, filled);
  }



  lemma HeadIsMember<T>(s: seq<T>)
    requires s != []
    ensures s[0] in s
  {
  }

  /** Comparing a template with itself asks the model nothing: every section
      is Sufficient, or Missing when it is blank. */
  lemma SelfComparison(template: SegmentMap, oracle: Oracle)
    requires template.Valid()
    ensures Requests(template.keys, template, template) == []
    ensures var report := Comparison(template, template, oracle);
      forall k :: k in report.entries ==>
        report.entries[k].status == (if Strip(template.entries[k]) == "" then "Missing" else "Sufficient")
  {
    RequestsOnePerSection(template.keys, template, template);
    var calls := Requests(template.keys, template, template);
    if calls != [] {
      HeadIsMember(calls);
      assert false;
    }
  }

  /** Every report has a "Header" record first, even when neither document
      has text before its first heading; such a filled document has its
      "Header" reported Missing. */
  lemma HeaderAlwaysReported(templateText: string, filledText: string, oracle: Oracle)
    ensures var report := Comparison(Segmentation(templateText), Segmentation(filledText), oracle);
      |report.keys| > 0 && report.keys[0] == HeaderKey && HeaderKey in report.entries
    ensures var report := Comparison(Segmentation(templateText), Segmentation(filledText), oracle);
      var lines := SplitLines(filledText);
      lines == [] || IsHeading(lines[0]) ==> report.entries[HeaderKey].status == "Missing"
  {
    var template, filled := Segmentation(templateText), Segmentation(filledText);
    SegmentationSections(templateText);
    HeaderBeforeFirstHeading(filledText);
    var lines := SplitLines(filledText);
    if lines == [] || IsHeading(lines[0]) {
      assert Strip(filled.entries[HeaderKey]) == "";
      AbsentIsMissing(template, filled, oracle, HeaderKey);
    }
  }

  // ---------------------------------------------------------------------
  // The icon shown beside a status (app.py:151-160).

  const SufficientIcon: string := "\U{2705}"
  const MissingIcon: string := "\U{274C}"
  const LackingIcon: string := "\U{26A0}\U{FE0F}"
  const UnknownIcon: string := "\U{2753}"

  /** `status_icon(status)`: one of three icons for the statuses it knows,
      compared after lowering, and a question mark for any other. */
  function StatusIcon(status: string): (icon: string)
    ensures icon == UnknownIcon <==>
      Lower(status) != "sufficient" && Lower(status) != "missing" && Lower(status) != "lacking information"
  {
    var s := Lower(status);
    if s == "sufficient" then SufficientIcon
    else if s == "missing" then MissingIcon
    else if s == "lacking information" then LackingIcon
    else UnknownIcon
  }

  /** The icon does not depend on case: a status and its lowered form show
      the same icon. */
  lemma StatusIconIgnoresCase(status: string)
    ensures StatusIcon(Lower(status)) == StatusIcon(status)
  {
    LowerIdempotent(status);
  }

  /** The statuses a report holds show their icons: a check mark for
      Sufficient, a cross for Missing, a warning sign for Lacking Information,
      and the question mark for Other Issue. */
  lemma StatusIcons()
    ensures StatusIcon("Sufficient") == SufficientIcon
    ensures StatusIcon("Missing") == MissingIcon
    ensures StatusIcon("Lacking Information") == LackingIcon
    ensures StatusIcon(DefaultStatus) == UnknownIcon
  {
    assert Lower("Sufficient") == "sufficient";
    assert Lower("Missing") == "missing";
    assert Lower("Lacking Information") == "lacking information";
  }
}
