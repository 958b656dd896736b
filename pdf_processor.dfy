/** The CV heuristics of `PDFProcessor`: the candidate's name and the text of
    named sections, taken from the plain text of a CV. */
module PdfProcessor {
  import opened Wrappers
  import opened Text
  import opened Seqs

  /** A stripped line `_extract_name` accepts: non-empty, starting with an
      upper-case letter, holding a space, and of at most three words. */
  predicate IsNameLine(line: string)
  {
    line != [] && IsUpper(line[0]) && ' ' in line && |Words(line)| <= 3
  }

  /** Whether `line`, once stripped, is accepted as a name. */
  predicate IsNameSource(line: string)
  {
    IsNameLine(Strip(line))
  }

  /** The first line among `lines[k..]` that `accept` accepts, stripped. */
  function NameIn(lines: seq<string>, accept: string -> bool, k: nat): Option<string>
    requires k <= |lines|
    decreases |lines| - k
  {
    if k == |lines| then None
    else if accept(lines[k]) then Some(Strip(lines[k]))
    else NameIn(lines, accept, k + 1)
  }

  /** The name `_extract_name` finds in `text`. */
  function NameOf(text: string): Option<string>
  {
    NameIn(SplitLines(text), IsNameSource, 0)
  }

  /** There is no name among `lines[k..]` exactly when no line there is
      accepted; a name is the first accepted line, stripped. */
  lemma {:induction false} NameInFirstAccepted(lines: seq<string>, accept: string -> bool, k: nat)
    requires k <= |lines|
    ensures NameIn(lines, accept, k).None? <==> forall i :: k <= i < |lines| ==> !accept(lines[i])
    ensures NameIn(lines, accept, k).Some? ==> exists i :: (k <= i < |lines| && NameIn(lines, accept, k).value == Strip(lines[i]) &&
      accept(lines[i]) && forall j :: k <= j < i ==> !accept(lines[j]))
    decreases |lines| - k
  {
    if k < |lines| && !accept(lines[k]) {
      NameInFirstAccepted(lines, accept, k + 1);
      if NameIn(lines, accept, k).Some? {
        var i :| k + 1 <= i < |lines| && NameIn(lines, accept, k).value == Strip(lines[i]) &&
          accept(lines[i]) && forall j :: k + 1 <= j < i ==> !accept(lines[j]);
        assert forall j :: k <= j < i ==> !accept(lines[j]);
      }
    }
  }

  /** The name of a text is its first accepted line, stripped, which looks
      like a name, or None when no line is accepted. */
  lemma NameFirstAccepted(text: string)
    ensures NameOf(text).None? ==> forall i :: 0 <= i < |SplitLines(text)| ==> !IsNameSource(SplitLines(text)[i])
    ensures (forall i :: 0 <= i < |SplitLines(text)| ==> !IsNameSource(SplitLines(text)[i])) ==> NameOf(text).None?
    ensures NameOf(text).Some? ==> IsNameLine(NameOf(text).value)
    ensures NameOf(text).Some? ==> exists i :: (0 <= i < |SplitLines(text)| && NameOf(text).value == Strip(SplitLines(text)[i]) &&
      forall j :: 0 <= j < i ==> !IsNameSource(SplitLines(text)[j]))
  {
    var lines := SplitLines(text);
    var accept: string -> bool := IsNameSource;
    NameInFirstAccepted(lines, accept, 0);
    assert NameOf(text) == NameIn(lines, accept, 0);
    if forall i :: 0 <= i < |lines| ==> !IsNameSource(lines[i]) {
      forall i | 0 <= i < |lines| ensures !accept(lines[i]) {
        assert !IsNameSource(lines[i]);
      }
    }
    if NameOf(text).Some? {
      var i :| 0 <= i < |lines| && NameOf(text).value == Strip(lines[i]) &&
        IsNameSource(lines[i]) && forall j :: 0 <= j < i ==> !IsNameSource(lines[j]);
      assert IsNameLine(NameOf(text).value);
    }
  }

  /** `_extract_name`: the first line of the text (split on line breaks, then
      stripped) that looks like a name, or None when no line does. */
  method ExtractName(text: string) returns (r: Option<string>)
    ensures r == NameOf(text)
  {
    var lines := SplitLines(text);
    var i := 0;
    while i < |lines|
      invariant 0 <= i <= |lines|
      invariant NameIn(lines, IsNameSource, i) == NameOf(text)
    {
      var line := Strip(lines[i]);
      if IsNameLine(line) {
        return Some(line);
      }
      i := i + 1;
    }
    return None;
  }

  /** Whether `header`, lowered, occurs in the lowered text `low`. */
  predicate HeaderIn(low: string, header: string)
  {
    Find(low, Lower(header), 0) != -1
  }

  /** Where the section that starts at `start` ends, looking at the first `n`
      headers: the earliest occurrence at or after `start` of a header other
      than `header`, or the end of the text. */
  function SectionEnd(low: string, headers: seq<string>, header: string, start: nat, n: nat): (e: nat)
    requires n <= |headers| && start <= |low|
    ensures start <= e <= |low|
    ensures e == |low| || exists i :: 0 <= i < n && headers[i] != header && Find(low, Lower(headers[i]), start) == e
    ensures forall i :: 0 <= i < n && headers[i] != header && Find(low, Lower(headers[i]), start) != -1 ==>
      e <= Find(low, Lower(headers[i]), start)
    decreases n
  {
    if n == 0 then |low|
    else
      var e := SectionEnd(low, headers, header, start, n - 1);
      var other := headers[n - 1];
      if other != header then
        var pos := Find(low, Lower(other), start);
        if pos != -1 && pos < e then pos else e
      else e
  }

  /** One step of the running minimum. */
  lemma SectionEndStep(low: string, headers: seq<string>, header: string, start: nat, n: nat)
    requires n < |headers| && start <= |low|
    ensures var e := SectionEnd(low, headers, header, start, n);
      var pos := Find(low, Lower(headers[n]), start);
      SectionEnd(low, headers, header, start, n + 1) ==
        if headers[n] != header && pos != -1 && pos < e then pos else e
  {
  }

  /** The section `_extract_section(text, _, headers)` finds. */
  function SectionOf(text: string, headers: seq<string>): (r: Option<string>)
    ensures r.None? <==> forall i :: 0 <= i < |headers| ==> !HeaderIn(Lower(text), headers[i])
    ensures r.Some? ==> IsSlice(r.value, text)
  {
    var low := Lower(text);
    match FirstIndex(headers, h => HeaderIn(low, h), 0)
    case None => None
    case Some(i) =>
      var start := Find(low, Lower(headers[i]), 0) + |headers[i]|;
      var end := SectionEnd(low, headers, headers[i], start, |headers|);
      StripOfSlice(text, start, end);
      Some(Strip(text[start..end]))
  }

  /** Header `i` is the first, in list order, that occurs in the lowered text
      `low`, even when a later-listed header occurs earlier in the text. */
  ghost predicate ChosenHeader(low: string, headers: seq<string>, i: nat)
  {
    && i < |headers|
    && (forall k :: 0 <= k < i ==> !HeaderIn(low, headers[k]))
    && HeaderIn(low, headers[i])
  }

  /** `end` is the earliest occurrence at or after `start` of a header of the
      list other than `header`, or the end of the text. */
  ghost predicate EndsSection(low: string, headers: seq<string>, header: string, start: nat, end: nat)
  {
    && start <= end <= |low|
    && (end == |low| || exists k :: 0 <= k < |headers| && headers[k] != header && Find(low, Lower(headers[k]), start) == end)
    && (forall k :: 0 <= k < |headers| && headers[k] != header && Find(low, Lower(headers[k]), start) != -1 ==>
          end <= Find(low, Lower(headers[k]), start))
  }

  /** A found section: the text after the first occurrence of the chosen
      header, up to where the section ends, stripped. */
  ghost predicate SectionAt(text: string, headers: seq<string>, section: string, i: nat, start: nat, end: nat)
  {
    && ChosenHeader(Lower(text), headers, i)
    && start == Find(Lower(text), Lower(headers[i]), 0) + |headers[i]|
    && EndsSection(Lower(text), headers, headers[i], start, end)
    && section == Strip(text[start..end])
  }

  lemma EndsSectionOf(low: string, headers: seq<string>, header: string, start: nat)
    requires start <= |low|
    ensures EndsSection(low, headers, header, start, SectionEnd(low, headers, header, start, |headers|))
  {
  }

  /** Every section `SectionOf` finds has the shape of `SectionAt`. */
  lemma SectionShape(text: string, headers: seq<string>)
    requires SectionOf(text, headers).Some?
    ensures exists i, start, end :: SectionAt(text, headers, SectionOf(text, headers).value, i, start, end)
  {
    var low := Lower(text);
    var i := FirstIndex(headers, h => HeaderIn(low, h), 0).value;
    assert ChosenHeader(low, headers, i);
    var start := Find(low, Lower(headers[i]), 0) + |headers[i]|;
    var end := SectionEnd(low, headers, headers[i], start, |headers|);
    EndsSectionOf(low, headers, headers[i], start);
    assert SectionOf(text, headers) == Some(Strip(text[start..end]));
    assert SectionAt(text, headers, Strip(text[start..end]), i, start, end);
  }

  /** The inner loop of `_extract_section`: the running minimum over all
      headers of the list, starting from the length of the text. */
  method SectionEndPos(low: string, headers: seq<string>, header: string, start: nat) returns (next: nat)
    requires start <= |low|
    ensures next == SectionEnd(low, headers, header, start, |headers|)
  {
    next := |low|;
    var k := 0;
    while k < |headers|
      invariant 0 <= k <= |headers|
      invariant next == SectionEnd(low, headers, header, start, k)
    {
      SectionEndStep(low, headers, header, start, k);
      var other := headers[k];
      if other != header {
        var p := Find(low, Lower(other), start);
        if p != -1 && p < next {
          next := p;
        }
      }
      k := k + 1;
    }
  }

  /** `_extract_section(text, section_name, possible_headers)`; `section_name`
      is not used by the source either. */
  method ExtractSection(text: string, sectionName: string, headers: seq<string>) returns (r: Option<string>)
    ensures r == SectionOf(text, headers)
  {
    var low := Lower(text);
    var i := 0;
    while i < |headers|
      invariant 0 <= i <= |headers|
      invariant forall k :: 0 <= k < i ==> !HeaderIn(low, headers[k])
    {
      var header := headers[i];
      var pos := Find(low, Lower(header), 0);
      if pos != -1 {
        var start := pos + |header|;
        var next := SectionEndPos(low, headers, header, start);
        FirstIndexAt(headers, h => HeaderIn(low, h), i);
        return Some(Strip(text[start..next]));
      }
      i := i + 1;
    }
    return None;
  }

  const SkillsHeaders: seq<string> := ["technical skills", "skills"]
  const ExperienceHeaders: seq<string> := ["work experience", "experience"]
  const EducationHeaders: seq<string> := ["education", "academic background"]

  /** The dictionary `extract_candidate_info` returns, from its six values. */
  function InfoMap(name: Option<string>, email: Option<string>, phone: Option<string>,
                   skills: Option<string>, experience: Option<string>, education: Option<string>)
    : (info: map<string, Option<string>>)
    ensures info.Keys == {"name", "email", "phone", "skills", "experience", "education"}
    ensures info["name"] == name && info["email"] == email && info["phone"] == phone
    ensures info["skills"] == skills && info["experience"] == experience && info["education"] == education
  {
    assert "name"[0] == 'n' && "phone"[0] == 'p' && "skills"[0] == 's';
    assert "email"[1] == 'm' && "experience"[1] == 'x' && "education"[1] == 'd';
    assert "email"[0] == 'e' && "experience"[0] == 'e' && "education"[0] == 'e';
    map["name" := name, "email" := email, "phone" := phone,
        "skills" := skills, "experience" := experience, "education" := education]
  }

  /** `extract_candidate_info(text)`: always exactly the six keys below. The
      email and phone regular-expression matches on `text` are given. */
  function ExtractCandidateInfo(text: string, email: Option<string>, phone: Option<string>): (info: map<string, Option<string>>)
    ensures info.Keys == {"name", "email", "phone", "skills", "experience", "education"}
    ensures info["name"] == NameOf(text) && info["email"] == email && info["phone"] == phone
    ensures info["skills"] == SectionOf(text, SkillsHeaders)
    ensures info["experience"] == SectionOf(text, ExperienceHeaders)
    ensures info["education"] == SectionOf(text, EducationHeaders)
  {
    InfoMap(NameOf(text), email, phone, SectionOf(text, SkillsHeaders),
            SectionOf(text, ExperienceHeaders), SectionOf(text, EducationHeaders))
  }
}
