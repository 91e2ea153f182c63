/** `segment_document` (app.py:71-81): split a document into sections at lines
    that look like headings. */
module Segmenter {
  import opened Text
  import opened Dicts

  /** A segmented document: section name to section text, in document order. */
  type SegmentMap = Dict<string>

  /** The section that collects the lines before the first heading. */
  const HeaderKey: string := "Header"

  /** Number of leading ASCII digits of `t`. */
  function LeadingDigits(t: string): (n: nat)
    ensures n <= |t|
    ensures forall i :: 0 <= i < n ==> IsDigit(t[i])
    ensures n < |t| ==> !IsDigit(t[n])
  {
    if t == [] || !IsDigit(t[0]) then 0 else 1 + LeadingDigits(t[1..])
  }

  /** `re.match(r"^\s*\d+\.", t)`: optional whitespace, one or more digits,
      then a period; whatever follows does not matter. */
  predicate NumberedHeading(t: string) {
    var u := StripStart(t);
    var n := LeadingDigits(u);
    0 < n < |u| && u[n] == '.'
  }

  /** `re.match(r"^[A-Z][A-Za-z\s]+:$", t)`: a capital letter, at least one
      letter or whitespace character, and a colon that ends `t`. (`$` could also
      match before a final newline, but `t` is always stripped.) */
  predicate TitledHeading(t: string) {
    && |t| >= 3 && IsAsciiUpper(t[0]) && t[|t| - 1] == ':'
    && forall i :: 1 <= i < |t| - 1 ==> IsAsciiLetter(t[i]) || IsSpace(t[i])
  }

  /** The test on each line of the scan (app.py:77). */
  predicate IsHeading(line: string) {
    NumberedHeading(Strip(line)) || TitledHeading(Strip(line))
  }

  /** A heading, stripped, is not empty and starts with a digit or a capital
      letter. */
  lemma HeadingStart(line: string)
    requires IsHeading(line)
    ensures Strip(line) != [] && (IsDigit(Strip(line)[0]) || IsAsciiUpper(Strip(line)[0]))
  {
    var t := Strip(line);
    if NumberedHeading(t) {
      assert t != [] && !IsSpace(t[0]);
      assert StripStart(t) == t;
    }
  }

  /** A titled text is its own strip, so it is a heading as it stands. */
  lemma TitledIsHeading(t: string)
    requires TitledHeading(t)
    ensures IsHeading(t)
  {
    assert !IsSpace(t[0]) && !IsSpace(t[|t| - 1]);
    StripTrimmed(t);
  }

  /** The characters of `[c] + body + ":"`, position by position. */
  lemma TitleChars(c: char, body: string)
    ensures var t := [c] + body + ":";
      && |t| == |body| + 2 && t[0] == c && t[|t| - 1] == ':'
      && forall i :: 1 <= i < |t| - 1 ==> t[i] == body[i - 1]
  {
  }

  /** A capital letter, at least one letter or space, and a final colon make
      a titled heading, as "Scope Of Work:" is. */
  lemma TitledHeadingShape(c: char, body: string)
    requires IsAsciiUpper(c) && |body| > 0
    requires forall i :: 0 <= i < |body| ==> IsAsciiLetter(body[i]) || IsSpace(body[i])
    ensures IsHeading([c] + body + ":")
  {
    var t := [c] + body + ":";
    TitleChars(c, body);
    assert TitledHeading(t);
    TitledIsHeading(t);
  }

  /** The text `[c, ':']` does not start with a digit, so it is not numbered. */
  lemma CapitalColonNotNumbered(c: char)
    requires IsAsciiUpper(c)
    ensures !NumberedHeading([c, ':'])
  {
    var t := [c, ':'];
    StripStartNoSpace(t);
    assert LeadingDigits(t) == 0;
  }

  /** A capital alone before the colon, as in "A:", is not a heading. */
  lemma SingleCapitalIsNoHeading(c: char)
    requires IsAsciiUpper(c)
    ensures !IsHeading([c, ':'])
  {
    var t := [c, ':'];
    assert !IsSpace(t[0]) && !IsSpace(t[1]);
    StripTrimmed(t);
    CapitalColonNotNumbered(c);
  }

  /** Digits and a period start a numbered heading, as in "12. Budget"; text
      may follow the period, and `IndentedHeading` adds indentation. */
  lemma NumberedHeadingShape(ds: string, rest: string)
    requires |ds| > 0 && forall i :: 0 <= i < |ds| ==> IsDigit(ds[i])
    ensures IsHeading(ds + "." + rest)
  {
    var p := ds + ".";
    assert ds + "." + rest == p + rest;
    StripKeepsPrefix(p, rest);
    var t := Strip(p + rest);
    StripStartNoSpace(t);
    assert t[|ds|] == '.' && forall i :: 0 <= i < |ds| ==> t[i] == ds[i];
    assert LeadingDigits(t) == |ds|;
  }

  /** Indentation does not decide whether a line is a heading, nor which
      section it opens. */
  lemma IndentedHeading(ws: string, line: string)
    requires forall i :: 0 <= i < |ws| ==> IsSpace(ws[i])
    ensures IsHeading(ws + line) == IsHeading(line)
    ensures HeadingName(ws + line) == HeadingName(line)
  {
    StripIndented(ws, line);
  }

  /** A line whose stripped text neither starts with a digit nor ends with a
      colon is body text, as "Conclusion: done" is. */
  lemma NoDigitNoColonIsBody(line: string)
    requires Strip(line) == [] || (!IsDigit(Strip(line)[0]) && Strip(line)[|Strip(line)| - 1] != ':')
    ensures !IsHeading(line)
  {
    var t := Strip(line);
    if t != [] {
      StripStartNoSpace(t);
    }
  }

  /** The state of the scan: the dictionary of line buffers and `current_section`. */
  datatype ScanState = ScanState(buffers: Dict<seq<string>>, current: string)

  ghost predicate Consistent(st: ScanState) {
    && st.buffers.Valid()
    && |st.buffers.keys| > 0 && st.buffers.keys[0] == HeaderKey
    && st.current in st.buffers.entries
  }

  /** `segments = {}; current_section = "Header"; segments[current_section] = []` */
  function Start(): (st: ScanState)
    ensures Consistent(st)
  {
    ScanState(Empty<seq<string>>().Put(HeaderKey, []), HeaderKey)
  }

  /** One turn of the loop (app.py:77-80). */
  function Step(st: ScanState, line: string): (st': ScanState)
    requires Consistent(st)
    ensures Consistent(st')
  {
    var entered :=
      if IsHeading(line) then ScanState(st.buffers.Put(Strip(line), []), Strip(line))
      else st;
    var cur := entered.current;
    ScanState(entered.buffers.Put(cur, entered.buffers.entries[cur] + [line]), cur)
  }

  /** The state after the loop has consumed `lines`. */
  function Scan(lines: seq<string>): (st: ScanState)
    ensures Consistent(st)
    decreases |lines|
  {
    if lines == [] then Start()
    else Step(Scan(lines[..|lines| - 1]), lines[|lines| - 1])
  }

  /** `{k: "\n".join(v) for k, v in segments.items()}` */
  function Joined(buffers: Dict<seq<string>>): (segments: SegmentMap)
    ensures buffers.Valid() ==> segments.Valid()
    ensures segments.keys == buffers.keys
    ensures forall k :: k in segments.entries <==> k in buffers.entries
  {
    Dict(buffers.keys, map k | k in buffers.entries :: Join(buffers.entries[k]))
  }

  /** What `segment_document(text)` returns. */
  function Segmentation(text: string): SegmentMap {
    Joined(Scan(SplitLines(text)).buffers)
  }

  // ---------------------------------------------------------------------
  // An independent description of the sections, by positions of the headings.

  /** The section a line opens, if it is a heading. */
  function HeadingName(line: string): Option<string> {
    if IsHeading(line) then Some(Strip(line)) else None
  }

  /** No heading is named "Header", so the first section is never reopened. */
  lemma HeaderIsNoHeading(line: string)
    ensures HeadingName(line) != Some(HeaderKey)
  {
    if Strip(line) == HeaderKey {
      assert StripStart(HeaderKey) == HeaderKey;
      assert LeadingDigits(HeaderKey) == 0;
    }
  }

  /** The heading name of each line, in order. */
  function HeadingNames(lines: seq<string>): (names: seq<Option<string>>)
    ensures |names| == |lines|
    decreases |lines|
  {
    if lines == [] then []
    else HeadingNames(lines[..|lines| - 1]) + [HeadingName(lines[|lines| - 1])]
  }

  lemma {:induction false} HeadingNamesAt(lines: seq<string>, i: nat)
    requires i < |lines|
    ensures HeadingNames(lines)[i] == HeadingName(lines[i])
    decreases |lines|
  {
    if i < |lines| - 1 {
      HeadingNamesAt(lines[..|lines| - 1], i);
    }
  }

  /** Index of the last heading that opens section `k`, or -1 if none does. */
  function LastOccurrence(names: seq<Option<string>>, k: string): (j: int)
    ensures -1 <= j < |names|
    ensures j >= 0 ==> names[j] == Some(k)
    ensures forall i :: j < i < |names| ==> names[i] != Some(k)
    decreases |names|
  {
    if names == [] then -1
    else if names[|names| - 1] == Some(k) then |names| - 1
    else LastOccurrence(names[..|names| - 1], k)
  }

  /** Index of the first heading that opens section `k`, or -1 if none does. */
  function FirstOccurrence(names: seq<Option<string>>, k: string): (f: int)
    ensures -1 <= f < |names|
    ensures f >= 0 ==> names[f] == Some(k)
    ensures forall i :: 0 <= i < |names| && (f < 0 || i < f) ==> names[i] != Some(k)
    decreases |names|
  {
    if names == [] then -1
    else
      var f := FirstOccurrence(names[..|names| - 1], k);
      if f >= 0 then f
      else if names[|names| - 1] == Some(k) then |names| - 1
      else -1
  }

  /** Index of the last heading of any name, or -1 if there is none. */
  function LastHeading(names: seq<Option<string>>): (h: int)
    ensures -1 <= h < |names|
    ensures h >= 0 ==> names[h].Some?
    ensures forall i :: h < i < |names| ==> names[i].None?
    decreases |names|
  {
    if names == [] then -1
    else if names[|names| - 1].Some? then |names| - 1
    else LastHeading(names[..|names| - 1])
  }

  /** Index of the first heading at or after `start`, or `|names|` if there is none. */
  function NextHeading(names: seq<Option<string>>, start: nat): (e: nat)
    requires start <= |names|
    ensures start <= e <= |names|
    ensures forall i :: start <= i < e ==> names[i].None?
    ensures e < |names| ==> names[e].Some?
    decreases |names| - start
  {
    if start == |names| then start
    else if names[start].Some? then start
    else NextHeading(names, start + 1)
  }

  /** The section that receives the next line. */
  function OpenSection(names: seq<Option<string>>): string {
    var h := LastHeading(names);
    if h >= 0 then names[h].value else HeaderKey
  }

  /** The lines of section `k`, given the heading name of each line: from its
      last heading (from the start, for "Header") up to the next heading of any name. */
  function SectionOf(lines: seq<string>, names: seq<Option<string>>, k: string): seq<string>
    requires |names| == |lines|
  {
    var j := LastOccurrence(names, k);
    lines[(if j < 0 then 0 else j)..NextHeading(names, j + 1)]
  }

  /** The lines of section `k` of a document. */
  function SectionLines(lines: seq<string>, k: string): seq<string> {
    SectionOf(lines, HeadingNames(lines), k)
  }

  lemma NextHeadingAppend(names: seq<Option<string>>, name: Option<string>, start: nat)
    requires start <= |names|
    ensures NextHeading(names + [name], start) ==
      if NextHeading(names, start) < |names| || name.Some? then NextHeading(names, start)
      else |names| + 1
  {
    var all := names + [name];
    var e, e' := NextHeading(names, start), NextHeading(all, start);
    assert forall i :: 0 <= i < |names| ==> all[i] == names[i];
    if e < |names| {
      assert all[e].Some?;
    } else if name.Some? {
      assert all[|names|].Some?;
    }
  }

  lemma LastOccurrenceAppend(names: seq<Option<string>>, name: Option<string>, k: string)
    ensures LastOccurrence(names + [name], k) ==
      if name == Some(k) then |names| else LastOccurrence(names, k)
  {
    assert (names + [name])[..|names|] == names;
  }

  lemma LastHeadingAppend(names: seq<Option<string>>, name: Option<string>)
    ensures LastHeading(names + [name]) == if name.Some? then |names| else LastHeading(names)
  {
    assert (names + [name])[..|names|] == names;
  }

  lemma SliceOfAppend<T>(a: seq<T>, x: T, s: nat, e: nat)
    requires s <= e <= |a|
    ensures (a + [x])[s..e] == a[s..e]
    ensures (a + [x])[s..|a| + 1] == a[s..] + [x]
  {
  }

  lemma PrefixStep<T>(a: seq<T>, i: nat)
    requires i < |a|
    ensures a[..i + 1] == a[..i] + [a[i]]
  {
  }

  lemma HeadingNamesAppend(prefix: seq<string>, line: string)
    ensures HeadingNames(prefix + [line]) == HeadingNames(prefix) + [HeadingName(line)]
  {
    assert (prefix + [line])[..|prefix|] == prefix;
  }

  lemma {:induction false} NoHeadingNamedHeader(lines: seq<string>)
    ensures forall i :: 0 <= i < |lines| ==> HeadingNames(lines)[i] != Some(HeaderKey)
    decreases |lines|
  {
    if lines != [] {
      var n := |lines| - 1;
      assert lines == lines[..n] + [lines[n]];
      NoHeadingNamedHeader(lines[..n]);
      HeaderIsNoHeading(lines[n]);
    }
  }

  /** A heading line starts its section afresh; the other sections keep their lines. */
  lemma HeadingStepSection(prefix: seq<string>, names: seq<Option<string>>, line: string, k0: string, k: string)
    requires |names| == |prefix|
    ensures SectionOf(prefix + [line], names + [Some(k0)], k) ==
      if k == k0 then [line] else SectionOf(prefix, names, k)
  {
    var lines, n := prefix + [line], |prefix|;
    var all := names + [Some(k0)];
    LastOccurrenceAppend(names, Some(k0), k);
    var j' := LastOccurrence(all, k);
    var e' := NextHeading(all, j' + 1);
    assert SectionOf(lines, all, k) == lines[(if j' < 0 then 0 else j')..e'];
    if k == k0 {
      assert j' == n;
      assert e' == n + 1;
    } else {
      var j := LastOccurrence(names, k);
      NextHeadingAppend(names, Some(k0), j + 1);
      var s, e := (if j < 0 then 0 else j), NextHeading(names, j + 1);
      assert e' == e;
      assert SectionOf(prefix, names, k) == prefix[s..e];
      SliceOfAppend(prefix, line, s, e);
    }
  }

  /** A body line extends the open section. */
  lemma BodyStepOpenSection(prefix: seq<string>, names: seq<Option<string>>, line: string, k: string)
    requires |names| == |prefix|
    requires forall i :: 0 <= i < |names| ==> names[i] != Some(HeaderKey)
    requires k == OpenSection(names)
    ensures SectionOf(prefix + [line], names + [None], k) == SectionOf(prefix, names, k) + [line]
  {
    var n := |prefix|;
    LastOccurrenceAppend(names, None, k);
    var j := LastOccurrence(names, k);
    var h := LastHeading(names);
    if h >= 0 {
      assert names[h] == Some(k);
    }
    assert j == h;
    NextHeadingAppend(names, None, j + 1);
    var s := if j < 0 then 0 else j;
    assert NextHeading(names, j + 1) == n;
    assert NextHeading(names + [None], j + 1) == n + 1;
    assert SectionOf(prefix, names, k) == prefix[s..n];
    assert SectionOf(prefix + [line], names + [None], k) == (prefix + [line])[s..n + 1];
    SliceOfAppend(prefix, line, s, n);
  }

  /** A body line leaves the sections that are not open alone. */
  lemma BodyStepClosedSection(prefix: seq<string>, names: seq<Option<string>>, line: string, k: string)
    requires |names| == |prefix|
    requires k != OpenSection(names)
    requires k == HeaderKey || LastOccurrence(names, k) >= 0
    ensures SectionOf(prefix + [line], names + [None], k) == SectionOf(prefix, names, k)
  {
    ClosedSectionBounds(names, k);
    var j := LastOccurrence(names, k);
    var s, e := (if j < 0 then 0 else j), NextHeading(names, j + 1);
    assert SectionOf(prefix, names, k) == prefix[s..e];
    assert SectionOf(prefix + [line], names + [None], k) == (prefix + [line])[s..e];
    SliceOfAppend(prefix, line, s, e);
  }

  /** A section that is not open ends at a heading, so a body line changes
      neither where it starts nor where it ends. */
  lemma ClosedSectionBounds(names: seq<Option<string>>, k: string)
    requires k != OpenSection(names)
    requires k == HeaderKey || LastOccurrence(names, k) >= 0
    ensures LastOccurrence(names + [None], k) == LastOccurrence(names, k)
    ensures var j := LastOccurrence(names, k);
      NextHeading(names + [None], j + 1) == NextHeading(names, j + 1) < |names|
  {
    LastOccurrenceAppend(names, None, k);
    var j := LastOccurrence(names, k);
    var h := LastHeading(names);
    if j >= 0 {
      assert names[j].Some?;
      assert j <= h;
    }
    if h >= 0 {
      assert names[h] != Some(k);
    }
    assert j < h;
    NextHeadingAppend(names, None, j + 1);
    assert NextHeading(names, j + 1) <= h;
  }

  /** `st` holds the sections of `lines` as `SectionLines` describes them. */
  ghost predicate Describes(st: ScanState, lines: seq<string>) {
    var names := HeadingNames(lines);
    && st.current == OpenSection(names)
    && (forall k :: k in st.buffers.entries <==> k == HeaderKey || LastOccurrence(names, k) >= 0)
    && (forall k :: k in st.buffers.entries ==> st.buffers.entries[k] == SectionOf(lines, names, k))
  }

  /** The buffers after one turn of the loop: the section `name` (if the line
      is a heading) starts afresh with the line, otherwise the line goes to the
      end of the `current` one, and every other buffer stays. */
  ghost predicate Appended(entries: map<string, seq<string>>, current: string, name: Option<string>, line: string,
                           entries': map<string, seq<string>>) {
    && (forall k :: k in entries' <==> k in entries || name == Some(k))
    && (forall k :: k in entries' ==>
          entries'[k] ==
            (if name == Some(k) then [line]
             else if name.None? && k == current then entries[k] + [line]
             else entries[k]))
  }

  /** What one turn of the loop does to each buffer. */
  lemma StepEntries(st: ScanState, line: string)
    requires Consistent(st)
    ensures Step(st, line).current == (if HeadingName(line).Some? then HeadingName(line).value else st.current)
    ensures Appended(st.buffers.entries, st.current, HeadingName(line), line, Step(st, line).buffers.entries)
  {
    var name := HeadingName(line);
    var current' := if name.Some? then name.value else st.current;
    var withNew := if name.Some? then st.buffers.entries[name.value := []] else st.buffers.entries;
    assert Step(st, line).current == current';
    assert Step(st, line).buffers.entries == withNew[current' := withNew[current'] + [line]];
    BufferStep(st.buffers.entries, st.current, name, line, withNew, current');
  }

  /** `StepEntries` over plain values: the effect on the buffers of opening
      section `name` (if any) and appending `line` to the current one. */
  lemma BufferStep(entries: map<string, seq<string>>, current: string, name: Option<string>, line: string,
                   withNew: map<string, seq<string>>, current': string)
    requires current in entries
    requires current' == (if name.Some? then name.value else current)
    requires withNew == if name.Some? then entries[name.value := []] else entries
    ensures Appended(entries, current, name, line, withNew[current' := withNew[current'] + [line]])
  {
    var empty: seq<string> := [];
    assert empty + [line] == [line];
  }

  /** What one turn of the loop does to the key order. */
  lemma StepKeyList(st: ScanState, line: string)
    requires Consistent(st)
    ensures var name := HeadingName(line);
      Step(st, line).buffers.keys ==
        if name.Some? && name.value !in st.buffers.entries then st.buffers.keys + [name.value]
        else st.buffers.keys
  {
  }

  lemma StepSections(st: ScanState, prefix: seq<string>, line: string)
    requires Consistent(st) && Describes(st, prefix)
    ensures var st', names := Step(st, line), HeadingNames(prefix) + [HeadingName(line)];
      forall k :: k in st'.buffers.entries ==>
        st'.buffers.entries[k] == SectionOf(prefix + [line], names, k)
  {
    NoHeadingNamedHeader(prefix);
    HeaderIsNoHeading(line);
    StepEntries(st, line);
    SectionsAfterLine(prefix, HeadingNames(prefix), line, HeadingName(line),
                      st.buffers.entries, st.current, Step(st, line).buffers.entries);
  }

  /** `StepSections` over plain values. */
  lemma SectionsAfterLine(prefix: seq<string>, names: seq<Option<string>>, line: string, name: Option<string>,
                          entries: map<string, seq<string>>, current: string, entries': map<string, seq<string>>)
    requires |names| == |prefix|
    requires forall i :: 0 <= i < |names| ==> names[i] != Some(HeaderKey)
    requires current == OpenSection(names)
    requires forall k :: k in entries <==> k == HeaderKey || LastOccurrence(names, k) >= 0
    requires forall k :: k in entries ==> entries[k] == SectionOf(prefix, names, k)
    requires Appended(entries, current, name, line, entries')
    ensures forall k :: k in entries' ==> entries'[k] == SectionOf(prefix + [line], names + [name], k)
  {
    forall k | k in entries'
      ensures entries'[k] == SectionOf(prefix + [line], names + [name], k)
    {
      SectionAfterLine(prefix, names, line, name, current, k);
    }
  }

  /** What one more line does to section `k`: a heading named `k` starts it
      afresh, a body line extends it when it is open, and otherwise it stays. */
  lemma SectionAfterLine(prefix: seq<string>, names: seq<Option<string>>, line: string, name: Option<string>,
                         current: string, k: string)
    requires |names| == |prefix|
    requires forall i :: 0 <= i < |names| ==> names[i] != Some(HeaderKey)
    requires current == OpenSection(names)
    requires name == Some(k) || k == HeaderKey || LastOccurrence(names, k) >= 0
    ensures SectionOf(prefix + [line], names + [name], k) ==
      if name == Some(k) then [line]
      else if name.None? && k == current then SectionOf(prefix, names, k) + [line]
      else SectionOf(prefix, names, k)
  {
    if name.Some? {
      HeadingStepSection(prefix, names, line, name.value, k);
    } else if k == current {
      BodyStepOpenSection(prefix, names, line, k);
    } else {
      BodyStepClosedSection(prefix, names, line, k);
    }
  }

  lemma StepKeys(st: ScanState, prefix: seq<string>, line: string)
    requires Consistent(st) && Describes(st, prefix)
    ensures var st', names := Step(st, line), HeadingNames(prefix) + [HeadingName(line)];
      && st'.current == OpenSection(names)
      && forall k :: k in st'.buffers.entries <==> k == HeaderKey || LastOccurrence(names, k) >= 0
  {
    var st', names, name := Step(st, line), HeadingNames(prefix), HeadingName(line);
    StepEntries(st, line);
    OpenSectionStep(names, name);
    KeyDomainStep(names, name, st.buffers.entries, st'.buffers.entries);
  }

  lemma OpenSectionStep(names: seq<Option<string>>, name: Option<string>)
    ensures OpenSection(names + [name]) == if name.Some? then name.value else OpenSection(names)
  {
    LastHeadingAppend(names, name);
  }

  /** The keys after one more line: "Header" and every name some heading gives. */
  lemma KeyDomainStep(names: seq<Option<string>>, name: Option<string>,
                      entries: map<string, seq<string>>, entries': map<string, seq<string>>)
    requires forall k :: k in entries <==> k == HeaderKey || LastOccurrence(names, k) >= 0
    requires forall k :: k in entries' <==> k in entries || name == Some(k)
    ensures forall k :: k in entries' <==> k == HeaderKey || LastOccurrence(names + [name], k) >= 0
  {
    forall k
      ensures k in entries' <==> k == HeaderKey || LastOccurrence(names + [name], k) >= 0
    {
      LastOccurrenceAppend(names, name, k);
    }
  }

  lemma StepDescribes(st: ScanState, prefix: seq<string>, line: string)
    requires Consistent(st) && Describes(st, prefix)
    ensures Describes(Step(st, line), prefix + [line])
  {
    HeadingNamesAppend(prefix, line);
    StepKeys(st, prefix, line);
    StepSections(st, prefix, line);
  }

  /** The scan builds exactly the sections `SectionLines` describes: the keys are
      "Header" and the names of the headings, and each section holds the lines from
      its last heading up to the next heading. */
  lemma {:induction false} ScanSections(lines: seq<string>)
    ensures Describes(Scan(lines), lines)
    decreases |lines|
  {
    if lines == [] {
      assert Scan(lines).buffers.entries == map[HeaderKey := []];
    } else {
      var n := |lines| - 1;
      var prefix, line := lines[..n], lines[n];
      assert lines == prefix + [line];
      ScanSections(prefix);
      StepDescribes(Scan(prefix), prefix, line);
    }
  }

  lemma FirstOccurrenceAppend(names: seq<Option<string>>, name: Option<string>, k: string)
    ensures FirstOccurrence(names + [name], k) ==
      if FirstOccurrence(names, k) >= 0 then FirstOccurrence(names, k)
      else if name == Some(k) then |names| else -1
  {
    assert (names + [name])[..|names|] == names;
  }

  /** Keys in the order of the first heading that names them. */
  ghost predicate KeysInOrder(keys: seq<string>, names: seq<Option<string>>) {
    forall i, j :: 0 <= i < j < |keys| ==> FirstOccurrence(names, keys[i]) < FirstOccurrence(names, keys[j])
  }

  /** One turn of the loop keeps the keys in order of first appearance. */
  lemma KeyOrderStep(keys: seq<string>, names: seq<Option<string>>, name: Option<string>, keys': seq<string>)
    requires KeysInOrder(keys, names)
    requires forall k :: k in keys <==> k == HeaderKey || LastOccurrence(names, k) >= 0
    requires forall k :: k in keys ==> (FirstOccurrence(names, k) < 0 <==> k == HeaderKey)
    requires name != Some(HeaderKey)
    requires keys' == if name.Some? && name.value !in keys then keys + [name.value] else keys
    ensures KeysInOrder(keys', names + [name])
    ensures forall k :: k in keys' ==> (FirstOccurrence(names + [name], k) < 0 <==> k == HeaderKey)
  {
    var all := names + [name];
    FirstOccurrencesKept(keys, names, name);
    if name.Some? && name.value !in keys {
      var k0 := name.value;
      assert LastOccurrence(names, k0) < 0;
      assert FirstOccurrence(names, k0) < 0;
      FirstOccurrenceAppend(names, name, k0);
      forall i, j | 0 <= i < j < |keys'|
        ensures FirstOccurrence(all, keys'[i]) < FirstOccurrence(all, keys'[j])
      {
        assert keys'[i] == keys[i] && keys[i] in keys;
        if j < |keys| {
          assert keys'[j] == keys[j] && keys[j] in keys;
        }
      }
    } else {
      forall i, j | 0 <= i < j < |keys|
        ensures FirstOccurrence(all, keys[i]) < FirstOccurrence(all, keys[j])
      {
        assert keys[i] in keys && keys[j] in keys;
      }
    }
  }

  /** A heading that does not name "Header" leaves the first heading of every
      present section where it was. */
  lemma FirstOccurrencesKept(keys: seq<string>, names: seq<Option<string>>, name: Option<string>)
    requires forall k :: k in keys ==> (FirstOccurrence(names, k) < 0 <==> k == HeaderKey)
    requires name != Some(HeaderKey)
    ensures forall k :: k in keys ==> FirstOccurrence(names + [name], k) == FirstOccurrence(names, k)
  {
    forall k | k in keys
      ensures FirstOccurrence(names + [name], k) == FirstOccurrence(names, k)
    {
      FirstOccurrenceAppend(names, name, k);
    }
  }

  /** Sections appear in the order in which their first heading appears, and
      "Header", which no heading names, comes first. */
  lemma {:induction false} ScanKeyOrder(lines: seq<string>)
    ensures KeysInOrder(Scan(lines).buffers.keys, HeadingNames(lines))
    ensures forall k :: k in Scan(lines).buffers.entries ==>
      (FirstOccurrence(HeadingNames(lines), k) < 0 <==> k == HeaderKey)
    decreases |lines|
  {
    if lines != [] {
      var n := |lines| - 1;
      var prefix, line := lines[..n], lines[n];
      assert lines == prefix + [line];
      ScanKeyOrder(prefix);
      ScanSections(prefix);
      var st := Scan(prefix);
      var names := HeadingNames(prefix);
      HeadingNamesAppend(prefix, line);
      HeaderIsNoHeading(line);
      StepKeyList(st, line);
      forall k | k in st.buffers.keys
        ensures FirstOccurrence(names, k) < 0 <==> k == HeaderKey
      {
        if k != HeaderKey {
          assert names[LastOccurrence(names, k)] == Some(k);
        }
      }
      KeyOrderStep(st.buffers.keys, names, HeadingName(line), Step(st, line).buffers.keys);
    }
  }

  /** One turn of the loop, when its heading (if any) opens a new section,
      appends its line to the concatenation. */
  lemma ConcatStep(keys: seq<string>, entries: map<string, seq<string>>, line: string, name: Option<string>,
                   keys': seq<string>, entries': map<string, seq<string>>)
    requires |keys| > 0 && forall i, j :: 0 <= i < j < |keys| ==> keys[i] != keys[j]
    requires forall k :: k in keys ==> k in entries
    requires name.Some? ==> name.value !in keys
    requires keys' == if name.Some? then keys + [name.value] else keys
    requires forall k :: k in keys' ==> k in entries'
    requires name.Some? ==> entries'[name.value] == [line]
    requires name.None? ==> entries'[keys[|keys| - 1]] == entries[keys[|keys| - 1]] + [line]
    requires forall i :: 0 <= i < |keys| && (name.Some? || i < |keys| - 1) ==>
      entries'[keys[i]] == entries[keys[i]]
    ensures Concat(keys', entries') == Concat(keys, entries) + [line]
  {
    if name.Some? {
      var k0 := name.value;
      assert keys'[..|keys|] == keys && keys'[|keys|] == k0;
      assert Concat(keys', entries') == Concat(keys, entries') + [line];
      ConcatFrame(keys, entries, entries');
    } else {
      var m := |keys| - 1;
      var last := keys[m];
      assert Concat(keys, entries') == Concat(keys[..m], entries') + (entries[last] + [line]);
      assert Concat(keys, entries) == Concat(keys[..m], entries) + entries[last];
      ConcatFrame(keys[..m], entries, entries');
    }
  }

  /** No heading name occurs twice. */
  ghost predicate DistinctNames(names: seq<Option<string>>) {
    forall i, j :: 0 <= i < j < |names| && names[i].Some? ==> names[i] != names[j]
  }

  /** No heading text occurs twice. */
  ghost predicate DistinctHeadings(lines: seq<string>) {
    DistinctNames(HeadingNames(lines))
  }

  lemma DistinctAppend(names: seq<Option<string>>, name: Option<string>)
    requires DistinctNames(names + [name])
    ensures DistinctNames(names)
    ensures name.Some? ==> LastOccurrence(names, name.value) < 0
  {
    var all := names + [name];
    assert forall i :: 0 <= i < |names| ==> all[i] == names[i];
    if name.Some? {
      forall i | 0 <= i < |names|
        ensures names[i] != name
      {
        assert all[i] == names[i] && all[|names|] == name;
      }
    }
  }

  /** A heading whose name did not occur before opens a section that was not there. */
  lemma NewHeadingIsNewKey(st: ScanState, prefix: seq<string>, line: string)
    requires Describes(st, prefix)
    requires HeadingName(line).Some? ==> LastOccurrence(HeadingNames(prefix), HeadingName(line).value) < 0
    ensures HeadingName(line).Some? ==> HeadingName(line).value !in st.buffers.entries
  {
    HeaderIsNoHeading(line);
  }

  /** One turn of the loop on a line whose heading, if any, is new. */
  lemma CoverStep(st: ScanState, line: string)
    requires Consistent(st)
    requires st.current == st.buffers.keys[|st.buffers.keys| - 1]
    requires HeadingName(line).Some? ==> HeadingName(line).value !in st.buffers.entries
    ensures var st' := Step(st, line);
      && Concat(st'.buffers.keys, st'.buffers.entries) == Concat(st.buffers.keys, st.buffers.entries) + [line]
      && st'.current == st'.buffers.keys[|st'.buffers.keys| - 1]
  {
    var st' := Step(st, line);
    StepEntries(st, line);
    StepKeyList(st, line);
    BuffersAfterLine(st.buffers, st.current, HeadingName(line), line, st'.buffers, st'.current);
  }

  /** The open section stays the last key when each heading is new. */
  lemma LastKeyAfterLine(buffers: Dict<seq<string>>, current: string, name: Option<string>,
                         keys': seq<string>, current': string)
    requires |buffers.keys| > 0 && current == buffers.keys[|buffers.keys| - 1]
    requires name.Some? ==> name.value !in buffers.entries
    requires keys' == if name.Some? && name.value !in buffers.entries then buffers.keys + [name.value] else buffers.keys
    requires current' == if name.Some? then name.value else current
    ensures |keys'| > 0 && current' == keys'[|keys'| - 1]
  {
  }

  /** `CoverStep` over plain values. */
  lemma BuffersAfterLine(buffers: Dict<seq<string>>, current: string, name: Option<string>, line: string,
                         buffers': Dict<seq<string>>, current': string)
    requires buffers.Valid() && |buffers.keys| > 0 && current == buffers.keys[|buffers.keys| - 1]
    requires current' == if name.Some? then name.value else current
    requires name.Some? ==> name.value !in buffers.entries
    requires buffers'.keys ==
      if name.Some? && name.value !in buffers.entries then buffers.keys + [name.value] else buffers.keys
    requires Appended(buffers.entries, current, name, line, buffers'.entries)
    ensures Concat(buffers'.keys, buffers'.entries) == Concat(buffers.keys, buffers.entries) + [line]
    ensures |buffers'.keys| > 0 && current' == buffers'.keys[|buffers'.keys| - 1]
  {
    LastKeyAfterLine(buffers, current, name, buffers'.keys, current');
    var keys, entries := buffers.keys, buffers.entries;
    var m := |keys| - 1;
    forall i | 0 <= i < |keys| && (name.Some? || i < m)
      ensures buffers'.entries[keys[i]] == entries[keys[i]]
    {
      assert keys[i] in entries;
      if name.None? {
        assert keys[i] != current;
      }
    }
    ConcatStep(keys, entries, line, name, buffers'.keys, buffers'.entries);
  }

  /** When no heading text repeats, the sections, concatenated in key order,
      give back every line of the document, each once, in order. */
  lemma {:induction false} ScanCoversLines(lines: seq<string>)
    requires DistinctHeadings(lines)
    ensures var st := Scan(lines);
      Concat(st.buffers.keys, st.buffers.entries) == lines
    ensures Scan(lines).current == Scan(lines).buffers.keys[|Scan(lines).buffers.keys| - 1]
    decreases |lines|
  {
    if lines != [] {
      var n := |lines| - 1;
      var prefix, line := lines[..n], lines[n];
      var st := Scan(prefix);
      assert lines == prefix + [line];
      assert Scan(lines) == Step(st, line);
      LastHeadingIsNew(prefix, line);
      ScanCoversLines(prefix);
      CoverStep(st, line);
    }
  }

  /** With distinct headings, the last line's heading, if any, names no
      section of the scan before it. */
  lemma LastHeadingIsNew(prefix: seq<string>, line: string)
    requires DistinctHeadings(prefix + [line])
    ensures DistinctHeadings(prefix)
    ensures HeadingName(line).Some? ==> HeadingName(line).value !in Scan(prefix).buffers.entries
  {
    HeadingNamesAppend(prefix, line);
    DistinctAppend(HeadingNames(prefix), HeadingName(line));
    ScanSections(prefix);
    NewHeadingIsNewKey(Scan(prefix), prefix, line);
  }

  /** The segmentation of a document: "Header" first, then one key per distinct
      heading text, and each value is the section's lines joined again. */
  lemma SegmentationSections(text: string)
    ensures var segments, lines := Segmentation(text), SplitLines(text);
      && segments.Valid() && |segments.keys| > 0 && segments.keys[0] == HeaderKey
      && (forall k :: k in segments.entries <==>
            k == HeaderKey || LastOccurrence(HeadingNames(lines), k) >= 0)
      && (forall k :: k in segments.entries ==> segments.entries[k] == Join(SectionLines(lines, k)))
      && KeysInOrder(segments.keys, HeadingNames(lines))
  {
    var lines := SplitLines(text);
    ScanSections(lines);
    ScanKeyOrder(lines);
  }

  lemma LastTwo<T>(a: seq<T>)
    requires |a| == 4
    ensures a[2..4] == [a[2], a[3]]
  {
  }

  /** The sections of four lines whose first and third open the same section. */
  lemma ReopenedSections(lines: seq<string>, names: seq<Option<string>>, name: string)
    requires |lines| == |names| == 4
    requires names[0] == Some(name) && names[1] == None && names[2] == Some(name) && names[3] == None
    ensures SectionOf(lines, names, name) == [lines[2], lines[3]]
    ensures forall k :: k != name ==> SectionOf(lines, names, k) == []
  {
    assert LastOccurrence(names, name) == 2;
    assert NextHeading(names, 3) == 4;
    LastTwo(lines);
    forall k | k != name
      ensures SectionOf(lines, names, k) == []
    {
      forall i | 0 <= i < 4
        ensures names[i] != Some(k)
      {
        assert i == 0 || i == 1 || i == 2 || i == 3;
      }
      assert LastOccurrence(names, k) == -1;
      assert NextHeading(names, 0) == 0;
    }
  }

  /** A heading that comes back starts its section again: the body between its
      two occurrences ends up in no section at all. */
  lemma RepeatedHeadingExample(heading: string, draft: string, final: string)
    requires IsHeading(heading) && !IsHeading(draft) && !IsHeading(final)
    ensures var lines := [heading, draft, heading, final];
      && SectionLines(lines, Strip(heading)) == [heading, final]
      && forall k :: k != Strip(heading) ==> SectionLines(lines, k) == []
  {
    var lines := [heading, draft, heading, final];
    HeadingNamesAt(lines, 0);
    HeadingNamesAt(lines, 1);
    HeadingNamesAt(lines, 2);
    HeadingNamesAt(lines, 3);
    var names := HeadingNames(lines);
    assert names[0] == names[2] == Some(Strip(heading)) && names[1] == names[3] == None;
    ReopenedSections(lines, names, Strip(heading));
  }

  lemma NoHeadingNames(lines: seq<string>)
    requires forall i :: 0 <= i < |lines| ==> !IsHeading(lines[i])
    ensures forall i :: 0 <= i < |lines| ==> HeadingNames(lines)[i] == None
  {
    forall i | 0 <= i < |lines|
      ensures HeadingNames(lines)[i] == None
    {
      HeadingNamesAt(lines, i);
    }
  }

  /** Without headings, only "Header" has a section, and it is everything. */
  lemma SectionsWithoutHeadings(lines: seq<string>, names: seq<Option<string>>)
    requires |names| == |lines| && forall i :: 0 <= i < |names| ==> names[i] == None
    ensures forall k :: LastOccurrence(names, k) == -1
    ensures SectionOf(lines, names, HeaderKey) == lines
  {
    assert NextHeading(names, 0) == |lines|;
    assert lines[0..|lines|] == lines;
  }

  lemma OnlyKey(d: SegmentMap, k: string)
    requires d.Valid() && |d.keys| > 0 && d.keys[0] == k
    requires forall k' :: k' in d.entries ==> k' == k
    ensures d.keys == [k]
  {
    assert forall i :: 0 <= i < |d.keys| ==> d.keys[i] in d.entries;
    var last := |d.keys| - 1;
    assert d.keys[last] == d.keys[0];
  }

  /** A document without headings is one section, "Header", holding all of it. */
  lemma NoHeadingsOneSection(text: string)
    requires forall i :: 0 <= i < |SplitLines(text)| ==> !IsHeading(SplitLines(text)[i])
    ensures Segmentation(text).keys == [HeaderKey]
    ensures Segmentation(text).entries[HeaderKey] == Join(SplitLines(text))
  {
    var lines := SplitLines(text);
    NoHeadingNames(lines);
    SectionsWithoutHeadings(lines, HeadingNames(lines));
    SegmentationSections(text);
    var segments := Segmentation(text);
    assert forall k :: k in segments.entries ==> k == HeaderKey;
    OnlyKey(segments, HeaderKey);
  }

  /** A heading line opens the section named by its stripped text; the section
      keeps the untrimmed line of the last heading with that text as its start. */
  lemma HeadingOpensSection(text: string, i: nat)
    requires i < |SplitLines(text)| && IsHeading(SplitLines(text)[i])
    ensures var lines, k := SplitLines(text), Strip(SplitLines(text)[i]);
      var j := LastOccurrence(HeadingNames(lines), k);
      && k in Segmentation(text).entries
      && i <= j && Strip(lines[j]) == k && IsHeading(lines[j])
      && lines[j] <= Segmentation(text).entries[k]
  {
    var lines := SplitLines(text);
    var names := HeadingNames(lines);
    var k := Strip(lines[i]);
    HeadingNamesAt(lines, i);
    var j := LastOccurrence(names, k);
    HeadingNamesAt(lines, j);
    var sec := SectionLines(lines, k);
    assert sec == lines[j..NextHeading(names, j + 1)];
    assert sec[0] == lines[j];
    SegmentationSections(text);
    assert Segmentation(text).entries[k] == Join(sec);
  }

  /** The section "Header", when no heading names it, runs from the start up
      to the first heading. */
  lemma HeaderSection(lines: seq<string>, names: seq<Option<string>>)
    requires |names| == |lines| && forall i :: 0 <= i < |names| ==> names[i] != Some(HeaderKey)
    ensures SectionOf(lines, names, HeaderKey) == lines[..NextHeading(names, 0)]
    ensures |names| > 0 && names[0].Some? ==> SectionOf(lines, names, HeaderKey) == []
  {
    assert LastOccurrence(names, HeaderKey) == -1;
  }

  /** "Header" is always a section: the lines before the first heading, and
      nothing when the document opens with a heading or is empty. */
  lemma HeaderBeforeFirstHeading(text: string)
    ensures var lines := SplitLines(text);
      && HeaderKey in Segmentation(text).entries
      && Segmentation(text).entries[HeaderKey] == Join(lines[..NextHeading(HeadingNames(lines), 0)])
    ensures var lines := SplitLines(text);
      lines == [] || IsHeading(lines[0]) ==> Segmentation(text).entries[HeaderKey] == ""
  {
    var lines := SplitLines(text);
    var names := HeadingNames(lines);
    NoHeadingNamedHeader(lines);
    HeaderSection(lines, names);
    if lines != [] {
      HeadingNamesAt(lines, 0);
    }
    SegmentationSections(text);
  }

  /** `segment_document` (app.py:71-81). */
  method SegmentDocument(text: string) returns (segments: SegmentMap)
    ensures segments == Segmentation(text)
  {
    var lines := SplitLines(text);
    var buffers := Empty<seq<string>>();
    var current := HeaderKey;
    buffers := buffers.Put(current, []);
    for i := 0 to |lines|
      invariant ScanState(buffers, current) == Scan(lines[..i])
    {
      var line := lines[i];
      PrefixStep(lines, i);
      if IsHeading(line) {
        current := Strip(line);
        buffers := buffers.Put(current, []);
      }
      buffers := buffers.Put(current, buffers.entries[current] + [line]);
    }
    assert lines[..|lines|] == lines;
    segments := Joined(buffers);
  }
}
