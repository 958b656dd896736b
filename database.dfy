/** The record store behind `DatabaseManager`: the `jobs`, `candidates` and
    `matches` tables held in memory, with AUTOINCREMENT ids handed out by
    counters and `created_at` taken from a clock that every insert advances. */
module Database {
  import opened Wrappers
  import opened Json
  import opened Seqs

  /** A row of `jobs`. `summary` is the stored summariser result (its JSON text
      in the table), or None for a NULL column. */
  datatype Job = Job(id: int, title: string, description: string, summary: Option<Value>, createdAt: nat)

  /** A row of `candidates`. `extractedData` is the stored extraction result. */
  datatype Candidate = Candidate(
    id: int, name: string, email: Option<string>, phone: Option<string>,
    cvPath: string, extractedData: Option<Value>, createdAt: nat)

  /** A row of `matches` with its workflow flags. */
  datatype Match = Match(
    id: int, jobId: int, candidateId: int, matchScore: real,
    isShortlisted: bool, interviewScheduled: bool,
    interviewDate: Option<string>, feedback: Option<string>, createdAt: nat)

  /** The columns a `get_matches` query adds to `m.*` by joining. */
  datatype Joined =
    | NoJoin
    | CandidateColumns(candidateName: string, candidateEmail: Option<string>)
    | JobColumns(jobTitle: string)
    | JobAndCandidateColumns(jobTitle: string, candidateName: string)

  /** One row of a `get_matches` result. */
  datatype Listed = Listed(row: Match, extra: Joined)

  /** The error SQLite raises for a candidate row without a name. */
  const NameRequired: string := "NOT NULL constraint failed: candidates.name"

  /** Python truthiness of an optional id argument: None and 0 are falsy. */
  predicate Given(id: Option<int>)
  {
    id.Some? && id.value != 0
  }

  function JobById(js: seq<Job>, id: int): Option<Job>
  {
    FindFirst(js, (j: Job) => j.id == id)
  }

  function CandidateById(cs: seq<Candidate>, id: int): Option<Candidate>
  {
    FindFirst(cs, (c: Candidate) => c.id == id)
  }

  /** What `JOIN candidates c ON m.candidate_id = c.id` adds to `m`, or None
      when the candidate row is missing (the match then drops out). */
  function CandidateJoin(cs: seq<Candidate>, m: Match): Option<Joined>
  {
    match CandidateById(cs, m.candidateId)
    case Some(c) => Some(CandidateColumns(c.name, c.email))
    case None => None
  }

  /** What `JOIN jobs j ON m.job_id = j.id` adds to `m`. */
  function JobJoin(js: seq<Job>, m: Match): Option<Joined>
  {
    match JobById(js, m.jobId)
    case Some(j) => Some(JobColumns(j.title))
    case None => None
  }

  /** What joining both `jobs` and `candidates` adds to `m`. */
  function BothJoin(js: seq<Job>, cs: seq<Candidate>, m: Match): Option<Joined>
  {
    match (JobById(js, m.jobId), CandidateById(cs, m.candidateId))
    case (Some(j), Some(c)) => Some(JobAndCandidateColumns(j.title, c.name))
    case _ => None
  }

  ghost predicate JobsAscending(js: seq<Job>)
  {
    forall i, k :: 0 <= i < k < |js| ==> js[i].id < js[k].id && js[i].createdAt < js[k].createdAt
  }

  ghost predicate CandidatesAscending(cs: seq<Candidate>)
  {
    forall i, k :: 0 <= i < k < |cs| ==> cs[i].id < cs[k].id && cs[i].createdAt < cs[k].createdAt
  }

  ghost predicate MatchesAscending(ms: seq<Match>)
  {
    forall i, k :: 0 <= i < k < |ms| ==> ms[i].id < ms[k].id && ms[i].createdAt < ms[k].createdAt
  }

  /** Each job row has a larger id and a later stamp than the row before it;
      an insert only has to compare the new row with the last one. */
  ghost predicate JobsChain(js: seq<Job>)
    decreases |js|
  {
    |js| < 2 ||
      (&& js[|js| - 2].id < js[|js| - 1].id && js[|js| - 2].createdAt < js[|js| - 1].createdAt
       && JobsChain(js[..|js| - 1]))
  }

  ghost predicate CandidatesChain(cs: seq<Candidate>)
    decreases |cs|
  {
    |cs| < 2 ||
      (&& cs[|cs| - 2].id < cs[|cs| - 1].id && cs[|cs| - 2].createdAt < cs[|cs| - 1].createdAt
       && CandidatesChain(cs[..|cs| - 1]))
  }

  ghost predicate MatchesChain(ms: seq<Match>)
    decreases |ms|
  {
    |ms| < 2 ||
      (&& ms[|ms| - 2].id < ms[|ms| - 1].id && ms[|ms| - 2].createdAt < ms[|ms| - 1].createdAt
       && MatchesChain(ms[..|ms| - 1]))
  }

  /** Row-by-row order is order between any two rows. */
  lemma {:induction false} JobsChainAscending(js: seq<Job>)
    requires JobsChain(js)
    ensures JobsAscending(js)
    decreases |js|
  {
    if |js| >= 2 {
      var p := js[..|js| - 1];
      JobsChainAscending(p);
      forall i, k | 0 <= i < k < |js| ensures js[i].id < js[k].id && js[i].createdAt < js[k].createdAt {
        if k < |js| - 1 {
          assert js[i] == p[i] && js[k] == p[k];
        } else if i < |js| - 2 {
          assert js[i] == p[i] && js[|js| - 2] == p[|js| - 2];
        }
      }
    }
  }

  lemma {:induction false} CandidatesChainAscending(cs: seq<Candidate>)
    requires CandidatesChain(cs)
    ensures CandidatesAscending(cs)
    decreases |cs|
  {
    if |cs| >= 2 {
      var p := cs[..|cs| - 1];
      CandidatesChainAscending(p);
      forall i, k | 0 <= i < k < |cs| ensures cs[i].id < cs[k].id && cs[i].createdAt < cs[k].createdAt {
        if k < |cs| - 1 {
          assert cs[i] == p[i] && cs[k] == p[k];
        } else if i < |cs| - 2 {
          assert cs[i] == p[i] && cs[|cs| - 2] == p[|cs| - 2];
        }
      }
    }
  }

  lemma {:induction false} MatchesChainAscending(ms: seq<Match>)
    requires MatchesChain(ms)
    ensures MatchesAscending(ms)
    decreases |ms|
  {
    if |ms| >= 2 {
      var p := ms[..|ms| - 1];
      MatchesChainAscending(p);
      forall i, k | 0 <= i < k < |ms| ensures ms[i].id < ms[k].id && ms[i].createdAt < ms[k].createdAt {
        if k < |ms| - 1 {
          assert ms[i] == p[i] && ms[k] == p[k];
        } else if i < |ms| - 2 {
          assert ms[i] == p[i] && ms[|ms| - 2] == p[|ms| - 2];
        }
      }
    }
  }

  /** Bounds on the first and last row of a chain bound every row. */
  lemma JobsInRange(js: seq<Job>, hi: int, t: nat)
    requires JobsChain(js)
    requires js != [] ==> 1 <= js[0].id && js[|js| - 1].id < hi && js[|js| - 1].createdAt < t
    ensures forall i :: 0 <= i < |js| ==> 1 <= js[i].id < hi && js[i].createdAt < t
  {
    JobsChainAscending(js);
    forall i | 0 <= i < |js| ensures 1 <= js[i].id < hi && js[i].createdAt < t {
      if 0 < i {
        assert js[0].id < js[i].id;
      }
      if i < |js| - 1 {
        assert js[i].id < js[|js| - 1].id && js[i].createdAt < js[|js| - 1].createdAt;
      }
    }
  }

  lemma CandidatesInRange(cs: seq<Candidate>, hi: int, t: nat)
    requires CandidatesChain(cs)
    requires cs != [] ==> 1 <= cs[0].id && cs[|cs| - 1].id < hi && cs[|cs| - 1].createdAt < t
    ensures forall i :: 0 <= i < |cs| ==> 1 <= cs[i].id < hi && cs[i].createdAt < t
  {
    CandidatesChainAscending(cs);
    forall i | 0 <= i < |cs| ensures 1 <= cs[i].id < hi && cs[i].createdAt < t {
      if 0 < i {
        assert cs[0].id < cs[i].id;
      }
      if i < |cs| - 1 {
        assert cs[i].id < cs[|cs| - 1].id && cs[i].createdAt < cs[|cs| - 1].createdAt;
      }
    }
  }

  lemma MatchesInRange(ms: seq<Match>, hi: int, t: nat)
    requires MatchesChain(ms)
    requires ms != [] ==> 1 <= ms[0].id && ms[|ms| - 1].id < hi && ms[|ms| - 1].createdAt < t
    ensures forall i :: 0 <= i < |ms| ==> 1 <= ms[i].id < hi && ms[i].createdAt < t
  {
    MatchesChainAscending(ms);
    forall i | 0 <= i < |ms| ensures 1 <= ms[i].id < hi && ms[i].createdAt < t {
      if 0 < i {
        assert ms[0].id < ms[i].id;
      }
      if i < |ms| - 1 {
        assert ms[i].id < ms[|ms| - 1].id && ms[i].createdAt < ms[|ms| - 1].createdAt;
      }
    }
  }

  /** The chain only looks at ids and stamps. */
  lemma {:induction false} MatchesChainSameKeys(a: seq<Match>, b: seq<Match>)
    requires |a| == |b| && MatchesChain(a)
    requires forall i :: 0 <= i < |a| ==> a[i].id == b[i].id && a[i].createdAt == b[i].createdAt
    ensures MatchesChain(b)
    decreases |a|
  {
    if |a| >= 2 {
      var n := |a| - 1;
      assert a[..n][n - 1] == a[n - 1] && b[..n][n - 1] == b[n - 1];
      MatchesChainSameKeys(a[..n], b[..n]);
    }
  }

  ghost predicate ListedAscending(rows: seq<Listed>)
  {
    forall i, k :: 0 <= i < k < |rows| ==>
      rows[i].row.id < rows[k].row.id && rows[i].row.createdAt < rows[k].row.createdAt
  }

  /** `ORDER BY m.match_score DESC`. */
  ghost predicate ByScoreDescending(rows: seq<Listed>)
  {
    forall i, k :: 0 <= i < k < |rows| ==> rows[i].row.matchScore >= rows[k].row.matchScore
  }

  /** `ORDER BY m.created_at DESC`. */
  ghost predicate ByCreationDescending(rows: seq<Listed>)
  {
    forall i, k :: 0 <= i < k < |rows| ==> rows[i].row.createdAt >= rows[k].row.createdAt
  }

  /** No match appears twice in a listing. */
  ghost predicate DistinctRows(rows: seq<Listed>)
  {
    forall i, k :: 0 <= i < k < |rows| ==> rows[i].row.id != rows[k].row.id
  }

  /** The rows of an inner join, in table order: every match for which
      `columns` finds the joined rows, and no other. */
  function Join(ms: seq<Match>, columns: Match -> Option<Joined>): (r: seq<Listed>)
    ensures forall l :: l in r ==> l.row in ms && columns(l.row) == Some(l.extra)
    ensures forall m :: m in ms && columns(m).Some? ==> Listed(m, columns(m).value) in r
    decreases |ms|
  {
    if ms == [] then []
    else
      var rest := Join(ms[1..], columns);
      assert forall m :: m in ms ==> m == ms[0] || m in ms[1..];
      match columns(ms[0])
      case Some(e) => [Listed(ms[0], e)] + rest
      case None => rest
  }

  /** A join keeps the table's order of ids and creation stamps. */
  lemma {:induction false} JoinAscending(ms: seq<Match>, columns: Match -> Option<Joined>)
    requires MatchesAscending(ms)
    ensures ListedAscending(Join(ms, columns))
    decreases |ms|
  {
    if ms != [] {
      var rest := Join(ms[1..], columns);
      JoinAscending(ms[1..], columns);
      if columns(ms[0]).Some? {
        var r := Join(ms, columns);
        assert r == [Listed(ms[0], columns(ms[0]).value)] + rest;
        forall k | 0 < k < |r|
          ensures r[0].row.id < r[k].row.id && r[0].row.createdAt < r[k].row.createdAt
        {
          assert r[k] in rest;
          var q :| 0 <= q < |ms[1..]| && ms[1..][q] == r[k].row;
          assert ms[q + 1] == r[k].row;
        }
      }
    }
  }

  /** Puts `x` into a listing that is ordered by score, best first. */
  function InsertByScore(x: Listed, s: seq<Listed>): (r: seq<Listed>)
    requires ByScoreDescending(s)
    ensures ByScoreDescending(r)
    ensures |r| == |s| + 1
    ensures forall y :: y in r <==> y == x || y in s
    decreases |s|
  {
    if s == [] || x.row.matchScore >= s[0].row.matchScore then [x] + s
    else
      var rest := InsertByScore(x, s[1..]);
      assert forall y :: y in rest ==> s[0].row.matchScore >= y.row.matchScore by {
        forall y | y in rest ensures s[0].row.matchScore >= y.row.matchScore {
          if y != x {
            var q :| 0 <= q < |s[1..]| && s[1..][q] == y;
            assert s[q + 1] == y;
          }
        }
      }
      [s[0]] + rest
  }

  lemma {:induction false} InsertKeepsDistinct(x: Listed, s: seq<Listed>)
    requires ByScoreDescending(s) && DistinctRows(s)
    requires forall i :: 0 <= i < |s| ==> s[i].row.id != x.row.id
    ensures DistinctRows(InsertByScore(x, s))
    decreases |s|
  {
    var r := InsertByScore(x, s);
    if s == [] || x.row.matchScore >= s[0].row.matchScore {
      assert r == [x] + s;
    } else {
      var rest := InsertByScore(x, s[1..]);
      InsertKeepsDistinct(x, s[1..]);
      assert r == [s[0]] + rest;
      forall k | 0 < k < |r| ensures r[0].row.id != r[k].row.id {
        assert r[k] == rest[k - 1];
        assert r[k] in rest;
        if r[k] != x {
          var q :| 0 <= q < |s[1..]| && s[1..][q] == r[k];
          assert s[q + 1] == r[k];
        }
      }
    }
  }

  /** The rows of `s` ordered by score, best first (the relative order of equal
      scores is left to the storage engine; this is one admissible order). */
  function SortByScore(s: seq<Listed>): (r: seq<Listed>)
    ensures ByScoreDescending(r)
    ensures |r| == |s|
    ensures forall y :: y in r <==> y in s
    ensures DistinctRows(s) ==> DistinctRows(r)
    decreases |s|
  {
    if s == [] then []
    else
      var rest := SortByScore(s[1..]);
      var r := InsertByScore(s[0], rest);
      assert DistinctRows(s) ==> DistinctRows(r) by {
        if DistinctRows(s) {
          assert DistinctRows(s[1..]);
          forall i | 0 <= i < |rest| ensures rest[i].row.id != s[0].row.id {
            assert rest[i] in s[1..];
            var q :| 0 <= q < |s[1..]| && s[1..][q] == rest[i];
            assert s[q + 1] == rest[i];
          }
          InsertKeepsDistinct(s[0], rest);
        }
      }
      r
  }

  /** `UPDATE matches SET is_shortlisted = flag WHERE id = matchId`. */
  function WithShortlist(ms: seq<Match>, matchId: int, flag: bool): (r: seq<Match>)
    ensures |r| == |ms|
    ensures forall i :: 0 <= i < |ms| && ms[i].id != matchId ==> r[i] == ms[i]
    ensures forall i :: 0 <= i < |ms| && ms[i].id == matchId ==> r[i] == ms[i].(isShortlisted := flag)
  {
    seq(|ms|, i requires 0 <= i < |ms| =>
      if ms[i].id == matchId then ms[i].(isShortlisted := flag) else ms[i])
  }

  /** `UPDATE matches SET interview_scheduled = TRUE, interview_date = date WHERE id = matchId`. */
  function WithInterview(ms: seq<Match>, matchId: int, date: string): (r: seq<Match>)
    ensures |r| == |ms|
    ensures forall i :: 0 <= i < |ms| && ms[i].id != matchId ==> r[i] == ms[i]
    ensures forall i :: 0 <= i < |ms| && ms[i].id == matchId ==>
      r[i] == ms[i].(interviewScheduled := true, interviewDate := Some(date))
  {
    seq(|ms|, i requires 0 <= i < |ms| =>
      if ms[i].id == matchId then ms[i].(interviewScheduled := true, interviewDate := Some(date)) else ms[i])
  }

  /** `UPDATE matches SET feedback = text WHERE id = matchId`. */
  function WithFeedback(ms: seq<Match>, matchId: int, text: string): (r: seq<Match>)
    ensures |r| == |ms|
    ensures forall i :: 0 <= i < |ms| && ms[i].id != matchId ==> r[i] == ms[i]
    ensures forall i :: 0 <= i < |ms| && ms[i].id == matchId ==> r[i] == ms[i].(feedback := Some(text))
  {
    seq(|ms|, i requires 0 <= i < |ms| =>
      if ms[i].id == matchId then ms[i].(feedback := Some(text)) else ms[i])
  }

  /** Every match has an interview date exactly when an interview is scheduled. */
  ghost predicate DatesMatchSchedule(ms: seq<Match>)
  {
    forall i :: 0 <= i < |ms| ==> (ms[i].interviewScheduled <==> ms[i].interviewDate.Some?)
  }

  /** Every scheduled interview belongs to a shortlisted match. */
  ghost predicate ScheduledOnlyIfShortlisted(ms: seq<Match>)
  {
    forall i :: 0 <= i < |ms| ==> ms[i].interviewScheduled ==> ms[i].isShortlisted
  }

  /** At most one match per (job, candidate) pair. */
  ghost predicate OneMatchPerPair(ms: seq<Match>)
  {
    forall i, k :: 0 <= i < k < |ms| ==>
      (ms[i].jobId, ms[i].candidateId) != (ms[k].jobId, ms[k].candidateId)
  }


  /** The three updates leave a table without that id exactly as it was. */
  lemma UnknownIdIsNoOp(ms: seq<Match>, matchId: int, flag: bool, text: string)
    requires forall i :: 0 <= i < |ms| ==> ms[i].id != matchId
    ensures WithShortlist(ms, matchId, flag) == ms
    ensures WithInterview(ms, matchId, text) == ms
    ensures WithFeedback(ms, matchId, text) == ms
  {
  }

  /** `add_feedback` replaces the earlier feedback rather than appending to it. */
  lemma FeedbackOverwrites(ms: seq<Match>, matchId: int, first: string, second: string)
    ensures WithFeedback(WithFeedback(ms, matchId, first), matchId, second) == WithFeedback(ms, matchId, second)
  {
  }

  /** The updates never change which pairs have matches, nor any id or stamp,
      so they keep the table ascending and at most one match per pair. */
  lemma UpdatesKeepKeys(ms: seq<Match>, matchId: int, flag: bool, text: string)
    requires MatchesAscending(ms)
    ensures MatchesAscending(WithShortlist(ms, matchId, flag))
    ensures MatchesAscending(WithInterview(ms, matchId, text))
    ensures MatchesAscending(WithFeedback(ms, matchId, text))
    ensures OneMatchPerPair(ms) ==> OneMatchPerPair(WithShortlist(ms, matchId, flag))
    ensures OneMatchPerPair(ms) ==> OneMatchPerPair(WithInterview(ms, matchId, text))
    ensures OneMatchPerPair(ms) ==> OneMatchPerPair(WithFeedback(ms, matchId, text))
  {
  }

  /** Setting the shortlist flag to true, and writing feedback, keep the
      workflow invariants; scheduling keeps dates and schedule in step. */
  lemma UpdatesKeepWorkflow(ms: seq<Match>, matchId: int, text: string)
    ensures ScheduledOnlyIfShortlisted(ms) ==> ScheduledOnlyIfShortlisted(WithShortlist(ms, matchId, true))
    ensures ScheduledOnlyIfShortlisted(ms) ==> ScheduledOnlyIfShortlisted(WithFeedback(ms, matchId, text))
    ensures DatesMatchSchedule(ms) ==> DatesMatchSchedule(WithShortlist(ms, matchId, true))
    ensures DatesMatchSchedule(ms) ==> DatesMatchSchedule(WithFeedback(ms, matchId, text))
    ensures DatesMatchSchedule(ms) ==> DatesMatchSchedule(WithInterview(ms, matchId, text))
  {
  }

  /** Scheduling keeps "scheduled only if shortlisted" when the row scheduled
      is shortlisted. */
  lemma ScheduleShortlistedKeepsWorkflow(ms: seq<Match>, matchId: int, date: string)
    requires ScheduledOnlyIfShortlisted(ms)
    requires forall i :: 0 <= i < |ms| && ms[i].id == matchId ==> ms[i].isShortlisted
    ensures ScheduledOnlyIfShortlisted(WithInterview(ms, matchId, date))
  {
  }

  /** `schedule_interview` does not look at `is_shortlisted`: scheduling a row
      that is not shortlisted breaks "scheduled only if shortlisted". */
  lemma ScheduleIgnoresShortlist(ms: seq<Match>, i: nat, date: string)
    requires i < |ms| && !ms[i].isShortlisted
    ensures !ScheduledOnlyIfShortlisted(WithInterview(ms, ms[i].id, date))
  {
    assert WithInterview(ms, ms[i].id, date)[i].interviewScheduled;
  }

  /** Some match exists for the pair. */
  predicate HasPair(ms: seq<Match>, jobId: int, candidateId: int)
  {
    exists i :: 0 <= i < |ms| && ms[i].jobId == jobId && ms[i].candidateId == candidateId
  }

  /** A pair query finds nothing exactly when the pair has no match. */
  lemma PairListingEmpty(rows: seq<Listed>, ms: seq<Match>, j: int, c: int)
    requires IsPairListing(rows, ms, j, c)
    ensures rows == [] <==> !HasPair(ms, j, c)
  {
    if HasPair(ms, j, c) {
      var i :| 0 <= i < |ms| && ms[i].jobId == j && ms[i].candidateId == c;
      assert Listed(ms[i], NoJoin) in rows;
    }
    if rows != [] {
      assert rows[0] in rows;
      var i :| 0 <= i < |ms| && ms[i] == rows[0].row;
    }
  }

  /** Adding a match for a pair that has none keeps one match per pair. */
  lemma AddNewPair(ms: seq<Match>, m: Match)
    requires OneMatchPerPair(ms) && !HasPair(ms, m.jobId, m.candidateId)
    ensures OneMatchPerPair(ms + [m])
  {
    var r := ms + [m];
    forall i, k | 0 <= i < k < |r|
      ensures (r[i].jobId, r[i].candidateId) != (r[k].jobId, r[k].candidateId)
    {
      if k == |ms| {
        assert r[i] == ms[i];
      } else {
        assert r[i] == ms[i] && r[k] == ms[k];
      }
    }
  }

  /** `SELECT * FROM matches WHERE job_id = j AND candidate_id = c`: exactly
      that pair's matches, unjoined, each once. */
  ghost predicate IsPairListing(rows: seq<Listed>, ms: seq<Match>, j: int, c: int)
  {
    && DistinctRows(rows)
    && (forall l :: l in rows ==> l.row in ms && l.extra == NoJoin && l.row.jobId == j && l.row.candidateId == c)
    && (forall m :: m in ms && m.jobId == j && m.candidateId == c ==> Listed(m, NoJoin) in rows)
  }

  /** The query for one job: its matches whose candidate row exists, each once
      with the candidate's name and email, best score first. */
  ghost predicate IsJobListing(rows: seq<Listed>, ms: seq<Match>, cs: seq<Candidate>, j: int)
  {
    && DistinctRows(rows)
    && ByScoreDescending(rows)
    && (forall l :: l in rows ==> l.row in ms && l.row.jobId == j && CandidateJoin(cs, l.row) == Some(l.extra))
    && (forall m :: m in ms && m.jobId == j && CandidateJoin(cs, m).Some? ==> Listed(m, CandidateJoin(cs, m).value) in rows)
  }

  /** The query for one candidate: its matches whose job row exists, each once
      with the job title, best score first. */
  ghost predicate IsCandidateListing(rows: seq<Listed>, ms: seq<Match>, js: seq<Job>, c: int)
  {
    && DistinctRows(rows)
    && ByScoreDescending(rows)
    && (forall l :: l in rows ==> l.row in ms && l.row.candidateId == c && JobJoin(js, l.row) == Some(l.extra))
    && (forall m :: m in ms && m.candidateId == c && JobJoin(js, m).Some? ==> Listed(m, JobJoin(js, m).value) in rows)
  }

  /** The unfiltered query: the matches whose job and candidate rows both
      exist, each once with the job title and candidate name, newest first. */
  ghost predicate IsFullListing(rows: seq<Listed>, ms: seq<Match>, js: seq<Job>, cs: seq<Candidate>)
  {
    && DistinctRows(rows)
    && ByCreationDescending(rows)
    && (forall l :: l in rows ==> l.row in ms && BothJoin(js, cs, l.row) == Some(l.extra))
    && (forall m :: m in ms && BothJoin(js, cs, m).Some? ==> Listed(m, BothJoin(js, cs, m).value) in rows)
  }

  function PairRows(ms: seq<Match>, j: int, c: int): (rows: seq<Listed>)
    requires MatchesAscending(ms)
    ensures IsPairListing(rows, ms, j, c)
  {
    var columns := (m: Match) => if m.jobId == j && m.candidateId == c then Some(NoJoin) else None;
    JoinAscending(ms, columns);
    Join(ms, columns)
  }

  function JobRows(ms: seq<Match>, cs: seq<Candidate>, j: int): (rows: seq<Listed>)
    requires MatchesAscending(ms)
    ensures IsJobListing(rows, ms, cs, j)
  {
    var columns := (m: Match) => if m.jobId == j then CandidateJoin(cs, m) else None;
    JoinAscending(ms, columns);
    SortByScore(Join(ms, columns))
  }

  function CandidateRows(ms: seq<Match>, js: seq<Job>, c: int): (rows: seq<Listed>)
    requires MatchesAscending(ms)
    ensures IsCandidateListing(rows, ms, js, c)
  {
    var columns := (m: Match) => if m.candidateId == c then JobJoin(js, m) else None;
    JoinAscending(ms, columns);
    SortByScore(Join(ms, columns))
  }

  function AllRows(ms: seq<Match>, js: seq<Job>, cs: seq<Candidate>): (rows: seq<Listed>)
    requires MatchesAscending(ms)
    ensures IsFullListing(rows, ms, js, cs)
  {
    var columns := (m: Match) => BothJoin(js, cs, m);
    var joined := Join(ms, columns);
    JoinAscending(ms, columns);
    ReverseMembers(joined);
    Reverse(joined)
  }

  class RecordStore {
    var jobs: seq<Job>
    var candidates: seq<Candidate>
    var matches: seq<Match>
    /** The id the next insert into each table receives (AUTOINCREMENT). */
    var nextJobId: int
    var nextCandidateId: int
    var nextMatchId: int
    /** CURRENT_TIMESTAMP: later inserts get later stamps. */
    var clock: nat

    /** Ids are positive, below the table's counter and increase with insertion
        order, as do creation stamps, which are all in the past. This is stated
        on neighbouring rows and on the first and last row of each table;
        `RowsInRange` and `JobsChainAscending` and its siblings give it for
        every row and every pair of rows. */
    ghost predicate Valid()
      reads this
    {
      && 1 <= nextJobId && 1 <= nextCandidateId && 1 <= nextMatchId
      && JobsChain(jobs) && CandidatesChain(candidates) && MatchesChain(matches)
      && (jobs != [] ==> 1 <= jobs[0].id && jobs[|jobs| - 1].id < nextJobId && jobs[|jobs| - 1].createdAt < clock)
      && (candidates != [] ==>
            1 <= candidates[0].id && candidates[|candidates| - 1].id < nextCandidateId
            && candidates[|candidates| - 1].createdAt < clock)
      && (matches != [] ==>
            1 <= matches[0].id && matches[|matches| - 1].id < nextMatchId && matches[|matches| - 1].createdAt < clock)
    }

    /** Every row's id lies between 1 and its table's counter, and every stamp
        is in the past. */
    lemma RowsInRange()
      requires Valid()
      ensures forall i :: 0 <= i < |jobs| ==> 1 <= jobs[i].id < nextJobId && jobs[i].createdAt < clock
      ensures forall i :: 0 <= i < |candidates| ==> 1 <= candidates[i].id < nextCandidateId && candidates[i].createdAt < clock
      ensures forall i :: 0 <= i < |matches| ==> 1 <= matches[i].id < nextMatchId && matches[i].createdAt < clock
    {
      JobsInRange(jobs, nextJobId, clock);
      CandidatesInRange(candidates, nextCandidateId, clock);
      MatchesInRange(matches, nextMatchId, clock);
    }

    /** A fresh, empty store (`_initialize_database` on a new file). */
    constructor ()
      ensures Valid()
      ensures jobs == [] && candidates == [] && matches == []
    {
      jobs, candidates, matches := [], [], [];
      nextJobId, nextCandidateId, nextMatchId := 1, 1, 1;
      clock := 0;
    }

    /** `add_job`: inserts one row and returns its new id. */
    method AddJob(title: string, description: string, summary: Option<Value>) returns (id: int)
      requires Valid()
      modifies this
      ensures Valid()
      ensures forall i :: 0 <= i < |old(jobs)| ==> old(jobs)[i].id != id
      ensures jobs == old(jobs) + [Job(id, title, description, summary, old(clock))]
      ensures id == old(nextJobId) && nextJobId == id + 1 && clock == old(clock) + 1
      ensures candidates == old(candidates) && matches == old(matches)
      ensures nextCandidateId == old(nextCandidateId) && nextMatchId == old(nextMatchId)
    {
      RowsInRange();
      id := nextJobId;
      var row := Job(id, title, description, summary, clock);
      assert (jobs + [row])[..|jobs|] == jobs;
      jobs := jobs + [row];
      nextJobId := nextJobId + 1;
      clock := clock + 1;
    }

    /** `get_jobs`: every job, newest first. */
    function GetJobs(): (rows: seq<Job>)
      reads this
      requires Valid()
      ensures |rows| == |jobs|
      ensures forall j :: j in rows <==> j in jobs
      ensures forall i, k :: 0 <= i < k < |rows| ==> rows[i].createdAt >= rows[k].createdAt
    {
      JobsChainAscending(jobs);
      ReverseMembers(jobs);
      Reverse(jobs)
    }

    /** `get_job`: the job with exactly that id, or None. */
    function GetJob(id: int): (r: Option<Job>)
      reads this
      requires Valid()
      ensures r.Some? ==> r.value in jobs && r.value.id == id
      ensures r.None? <==> forall i :: 0 <= i < |jobs| ==> jobs[i].id != id
    {
      JobById(jobs, id)
    }

    /** `add_candidate`: inserts one row and returns its new id; a missing name
        violates `name TEXT NOT NULL`, raises, and inserts nothing. */
    method AddCandidate(name: Option<string>, cvPath: string, extractedData: Option<Value>,
                        email: Option<string>, phone: Option<string>)
      returns (r: Result<int, string>)
      requires Valid()
      modifies this
      ensures Valid()
      ensures r.Failure? <==> name.None?
      ensures r.Failure? ==>
        && candidates == old(candidates) && nextCandidateId == old(nextCandidateId) && clock == old(clock)
        && r.error == NameRequired
      ensures r.Success? ==>
        && (forall i :: 0 <= i < |old(candidates)| ==> old(candidates)[i].id != r.value)
        && candidates == old(candidates) + [Candidate(r.value, name.value, email, phone, cvPath, extractedData, old(clock))]
        && r.value == old(nextCandidateId) && nextCandidateId == r.value + 1 && clock == old(clock) + 1
      ensures jobs == old(jobs) && matches == old(matches)
      ensures nextJobId == old(nextJobId) && nextMatchId == old(nextMatchId)
    {
      if name.None? {
        r := Failure(NameRequired);
      } else {
        RowsInRange();
        var id := nextCandidateId;
        var row := Candidate(id, name.value, email, phone, cvPath, extractedData, clock);
        assert (candidates + [row])[..|candidates|] == candidates;
        candidates := candidates + [row];
        nextCandidateId := nextCandidateId + 1;
        clock := clock + 1;
        r := Success(id);
      }
    }

    /** `get_candidates`: every candidate, newest first. */
    function GetCandidates(): (rows: seq<Candidate>)
      reads this
      requires Valid()
      ensures |rows| == |candidates|
      ensures forall c :: c in rows <==> c in candidates
      ensures forall i, k :: 0 <= i < k < |rows| ==> rows[i].createdAt >= rows[k].createdAt
    {
      CandidatesChainAscending(candidates);
      ReverseMembers(candidates);
      Reverse(candidates)
    }

    /** `get_candidate`: the candidate with exactly that id, or None. */
    function GetCandidate(id: int): (r: Option<Candidate>)
      reads this
      requires Valid()
      ensures r.Some? ==> r.value in candidates && r.value.id == id
      ensures r.None? <==> forall i :: 0 <= i < |candidates| ==> candidates[i].id != id
    {
      CandidateById(candidates, id)
    }

    /** `add_match`: inserts a new match, not shortlisted, not scheduled, with
        no interview date and no feedback, and returns its new id. Neither the
        job nor the candidate is checked to exist (SQLite leaves foreign keys
        unenforced unless asked). */
    method AddMatch(jobId: int, candidateId: int, matchScore: real) returns (id: int)
      requires Valid()
      modifies this
      ensures Valid()
      ensures forall i :: 0 <= i < |old(matches)| ==> old(matches)[i].id != id
      ensures matches == old(matches) + [Match(id, jobId, candidateId, matchScore, false, false, None, None, old(clock))]
      ensures id == old(nextMatchId) && nextMatchId == id + 1 && clock == old(clock) + 1
      ensures jobs == old(jobs) && candidates == old(candidates)
      ensures nextJobId == old(nextJobId) && nextCandidateId == old(nextCandidateId)
    {
      RowsInRange();
      id := nextMatchId;
      var row := Match(id, jobId, candidateId, matchScore, false, false, None, None, clock);
      assert (matches + [row])[..|matches|] == matches;
      matches := matches + [row];
      nextMatchId := nextMatchId + 1;
      clock := clock + 1;
    }

    /** `get_matches(job_id, candidate_id)`: which query runs depends on which
        of the two ids is truthy. */
    function GetMatches(jobId: Option<int>, candidateId: Option<int>): (rows: seq<Listed>)
      reads this
      requires Valid()
      ensures Given(jobId) && Given(candidateId) ==> IsPairListing(rows, matches, jobId.value, candidateId.value)
      ensures Given(jobId) && !Given(candidateId) ==> IsJobListing(rows, matches, candidates, jobId.value)
      ensures !Given(jobId) && Given(candidateId) ==> IsCandidateListing(rows, matches, jobs, candidateId.value)
      ensures !Given(jobId) && !Given(candidateId) ==> IsFullListing(rows, matches, jobs, candidates)
    {
      MatchesChainAscending(matches);
      if Given(jobId) && Given(candidateId) then PairRows(matches, jobId.value, candidateId.value)
      else if Given(jobId) then JobRows(matches, candidates, jobId.value)
      else if Given(candidateId) then CandidateRows(matches, jobs, candidateId.value)
      else AllRows(matches, jobs, candidates)
    }

    /** `update_shortlist_status`: sets `is_shortlisted` of the match with that
        id; every other row and field is untouched, and an unknown id changes nothing. */
    method UpdateShortlistStatus(matchId: int, isShortlisted: bool)
      requires Valid()
      modifies this
      ensures Valid()
      ensures matches == WithShortlist(old(matches), matchId, isShortlisted)
      ensures jobs == old(jobs) && candidates == old(candidates) && clock == old(clock)
      ensures nextJobId == old(nextJobId) && nextCandidateId == old(nextCandidateId) && nextMatchId == old(nextMatchId)
    {
      MatchesChainSameKeys(matches, WithShortlist(matches, matchId, isShortlisted));
      matches := WithShortlist(matches, matchId, isShortlisted);
    }

    /** `schedule_interview`: marks the match with that id as scheduled for
        `date`, whether or not it is shortlisted. */
    method ScheduleInterview(matchId: int, date: string)
      requires Valid()
      modifies this
      ensures Valid()
      ensures matches == WithInterview(old(matches), matchId, date)
      ensures jobs == old(jobs) && candidates == old(candidates) && clock == old(clock)
      ensures nextJobId == old(nextJobId) && nextCandidateId == old(nextCandidateId) && nextMatchId == old(nextMatchId)
    {
      MatchesChainSameKeys(matches, WithInterview(matches, matchId, date));
      matches := WithInterview(matches, matchId, date);
    }

    /** `add_feedback`: replaces the feedback of the match with that id. */
    method AddFeedback(matchId: int, feedback: string)
      requires Valid()
      modifies this
      ensures Valid()
      ensures matches == WithFeedback(old(matches), matchId, feedback)
      ensures jobs == old(jobs) && candidates == old(candidates) && clock == old(clock)
      ensures nextJobId == old(nextJobId) && nextCandidateId == old(nextCandidateId) && nextMatchId == old(nextMatchId)
    {
      MatchesChainSameKeys(matches, WithFeedback(matches, matchId, feedback));
      matches := WithFeedback(matches, matchId, feedback);
    }
  }
}
