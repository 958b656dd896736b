/** The helper functions of `app.py` and the pure parts of its pages: how
    model output is stored and read back, how a scoring result becomes a match
    row, score bands, the listing filters and the action gates. */
module Helpers {
  import opened Wrappers
  import opened Json
  import opened Text
  import opened Seqs
  import opened Database

  /** `json.dumps(v) if v else None`: what is stored for a summary or for
      extracted data. The JSON text is taken to decode back to `v` exactly. */
  function StoredForm(v: Value): (s: Option<Value>)
    ensures s.Some? <==> Truthy(v)
    ensures s.Some? ==> s.value == v
  {
    if Truthy(v) then Some(v) else None
  }

  /** `json.loads(s) if s else None` on a stored column. */
  function LoadedForm(s: Option<Value>): (v: Value)
    ensures s.None? ==> v == JNull
    ensures s.Some? ==> v == s.value
  {
    if s.Some? then s.value else JNull
  }

  /** Reading back what was stored gives the value when it was truthy, and
      something falsy otherwise: truthiness survives the round trip. */
  lemma LoadStoredForm(v: Value)
    ensures Truthy(v) ==> LoadedForm(StoredForm(v)) == v
    ensures Truthy(LoadedForm(StoredForm(v))) <==> Truthy(v)
  {
  }

  /** What `match_candidates_to_jobs` does with one scoring result. */
  datatype ScoreStep =
    | Skip            // no match row
    | Insert(score: real)  // `add_match` with this score
    | Abort(error: string) // an exception that ends the batch

  const ScoreKey: string := "match_score"

  // The messages below are those of CPython 3.11 and of its `sqlite3` module;
  // the batch shows `str(e)`, which carries no exception class name.

  /** `add_match` with `None`: the column is `REAL NOT NULL`. */
  const ScoreRequired: string := "NOT NULL constraint failed: matches.match_score"
  /** `match_result['match_score']` on a list. */
  const ListKey: string := "list indices must be integers or slices, not str"
  /** `match_result['match_score']` on a string. */
  const StringKey: string := "string indices must be integers, not 'str'"
  /** A string score. SQLite stores it (as REAL when it reads as a number, as
      TEXT otherwise) and the batch goes on; the model has only real scores
      and ends the batch here instead. This is not a message of the source. */
  const TextScore: string := "string match_score"

  /** `sqlite3` refusing to bind a list or a dict as a parameter. */
  function UnsupportedScore(v: Value): string
  {
    "Error binding parameter 3: type '" + PyTypeName(v) + "' is not supported"
  }

  /** `'match_score' in match_result` on a number or a boolean. */
  function NotIterable(v: Value): string
  {
    "argument of type '" + PyTypeName(v) + "' is not iterable"
  }

  /** `if match_result and 'match_score' in match_result:
      db.add_match(..., match_result['match_score'])` by the kind of the
      decoded result. `in` and `[...]` follow Python on each kind: membership
      of keys for a dict, of elements for a list, of substrings for a string,
      and a TypeError for a number or a boolean. A boolean score is bound as
      the integer 0 or 1. */
  function ScoreStepOf(result: Value): (step: ScoreStep)
    ensures !Truthy(result) ==> step == Skip
    ensures result.JObject? && ScoreKey !in result.fields ==> step == Skip
    ensures step.Insert? ==> result.JObject? && ScoreKey in result.fields
    ensures result.JObject? && ScoreKey in result.fields ==>
      match result.fields[ScoreKey]
      case JNumber(n) => step == Insert(n)
      case JBool(b) => step == Insert(if b then 1.0 else 0.0)
      case JNull => step == Abort(ScoreRequired)
      case _ => step.Abort?
    ensures (result.JNumber? || result.JBool?) && Truthy(result) ==> step == Abort(NotIterable(result))
  {
    if !Truthy(result) then Skip
    else match result
      case JObject(fields) =>
        if ScoreKey !in fields then Skip
        else (match fields[ScoreKey]
          case JNumber(n) => Insert(n)
          case JBool(b) => Insert(if b then 1.0 else 0.0)
          case JNull => Abort(ScoreRequired)
          case JString(_) => Abort(TextScore)
          case v => Abort(UnsupportedScore(v)))
      case JArray(items) => if JString(ScoreKey) in items then Abort(ListKey) else Skip
      case JString(s) => if Contains(s, ScoreKey) then Abort(StringKey) else Skip
      case _ => Abort(NotIterable(result))
  }

  /** `get_match_class`: the CSS class of a score. */
  function GetMatchClass(score: real): (css: string)
    ensures css in {"match-high", "match-medium", "match-low"}
    ensures css == "match-high" <==> score >= 80.0
    ensures css == "match-low" <==> score < 50.0
  {
    if score >= 80.0 then "match-high"
    else if score >= 50.0 then "match-medium"
    else "match-low"
  }

  /** `color_score`: the table style of a score, `f"color: {color}; font-weight: bold"`
      with the colour of its band. */
  function ColorScore(score: real): (style: string)
    ensures style in {"color: green; font-weight: bold", "color: orange; font-weight: bold", "color: red; font-weight: bold"}
    ensures style == "color: green; font-weight: bold" <==> score >= 80.0
    ensures style == "color: red; font-weight: bold" <==> score < 50.0
  {
    var green, orange, red := "color: green; font-weight: bold", "color: orange; font-weight: bold", "color: red; font-weight: bold";
    assert green[7] == 'g' && orange[7] == 'o' && red[7] == 'r';
    if score >= 80.0 then green else if score >= 50.0 then orange else red
  }

  /** The class and the colour band a score the same way. */
  lemma ClassAgreesWithColour(score: real)
    ensures GetMatchClass(score) == "match-high" <==> ColorScore(score) == "color: green; font-weight: bold"
    ensures GetMatchClass(score) == "match-medium" <==> ColorScore(score) == "color: orange; font-weight: bold"
    ensures GetMatchClass(score) == "match-low" <==> ColorScore(score) == "color: red; font-weight: bold"
  {
  }

  /** A better score is never in a lower band. */
  lemma ClassMonotone(a: real, b: real)
    requires a <= b
    ensures GetMatchClass(a) == "match-high" ==> GetMatchClass(b) == "match-high"
    ensures GetMatchClass(b) == "match-low" ==> GetMatchClass(a) == "match-low"
  {
  }

  /** `[m for m in matches if m['match_score'] >= min_score]`. */
  function ScoreFilter(rows: seq<Listed>, minScore: int): (r: seq<Listed>)
    ensures forall l :: l in r <==> l in rows && l.row.matchScore >= minScore as real
  {
    Keep(rows, (l: Listed) => l.row.matchScore >= minScore as real)
  }

  /** The score filter keeps the listing's order and its distinct rows. */
  lemma ScoreFilterKeepsOrder(rows: seq<Listed>, minScore: int)
    ensures ByScoreDescending(rows) ==> ByScoreDescending(ScoreFilter(rows, minScore))
    ensures ByCreationDescending(rows) ==> ByCreationDescending(ScoreFilter(rows, minScore))
    ensures DistinctRows(rows) ==> DistinctRows(ScoreFilter(rows, minScore))
  {
    var p := (l: Listed) => l.row.matchScore >= minScore as real;
    var byScore := (a: Listed, b: Listed) => a.row.matchScore >= b.row.matchScore;
    var byCreation := (a: Listed, b: Listed) => a.row.createdAt >= b.row.createdAt;
    var distinct := (a: Listed, b: Listed) => a.row.id != b.row.id;
    if ByScoreDescending(rows) {
      assert Pairwise(rows, byScore);
      KeepPairwise(rows, p, byScore);
    }
    if ByCreationDescending(rows) {
      assert Pairwise(rows, byCreation);
      KeepPairwise(rows, p, byCreation);
    }
    if DistinctRows(rows) {
      assert Pairwise(rows, distinct);
      KeepPairwise(rows, p, distinct);
    }
  }

  /** `[m for m in db.get_matches() if m['is_shortlisted']]`. */
  function ShortlistedOf(rows: seq<Listed>): (r: seq<Listed>)
    ensures forall l :: l in r <==> l in rows && l.row.isShortlisted
  {
    Keep(rows, (l: Listed) => l.row.isShortlisted)
  }

  /** `[m for m in shortlisted_matches if m['job_id'] == job['id']]`. */
  function ForJob(rows: seq<Listed>, jobId: int): (r: seq<Listed>)
    ensures forall l :: l in r <==> l in rows && l.row.jobId == jobId
  {
    Keep(rows, (l: Listed) => l.row.jobId == jobId)
  }

  /** The shortlist button is shown only for a match not yet shortlisted. */
  predicate OffersShortlist(m: Match)
  {
    !m.isShortlisted
  }

  /** The scheduling form is shown only for a shortlisted match not yet
      scheduled. */
  predicate OffersScheduling(m: Match)
  {
    m.isShortlisted && !m.interviewScheduled
  }

  /** A match is never offered both actions, and scheduling is offered only
      after shortlisting. */
  lemma GatesExclusive(m: Match)
    ensures !(OffersShortlist(m) && OffersScheduling(m))
    ensures OffersScheduling(m) ==> m.isShortlisted
  {
  }

  /** `f"{interview_date} {interview_time}"`. */
  function InterviewDateTime(date: string, time: string): string
  {
    date + " " + time
  }
}
