/** The three batch jobs of `app.py`: loading the jobs file, processing the
    CV folder and scoring every job against every candidate. Each method is
    tied to a function giving the table it leaves behind and how the batch
    ended; the lemmas state what the source promises about those functions. */
module Batches {
  import opened Wrappers
  import opened Json
  import opened Seqs
  import opened Database
  import opened Agents
  import opened PdfProcessor
  import opened Helpers

  /** How a batch ended: the early return on an empty input, the end of the
      loop, or an exception caught by the batch's single outer `try` while
      handling item `at`, or, in the matching batch, the pair of job `job`
      and candidate `candidate` (positions in the listings it iterates). */
  datatype BatchOutcome =
    | NothingToDo
    | Completed
    | Aborted(at: nat, error: string)
    | PairAborted(job: nat, candidate: nat, error: string)

  /** A table, its two counters and, once the batch has stopped, how it
      ended: the state after one pass of a batch loop. */
  datatype Progress<T> = Progress(rows: seq<T>, nextId: int, clock: nat, stop: Option<BatchOutcome>)

  // ----- load_jobs_from_file -----

  /** One entry of the jobs file. */
  datatype JobEntry = JobEntry(title: string, description: string)

  /** `any(j['title'] == title for j in jobs)`. */
  predicate HasTitle(jobs: seq<Job>, title: string)
  {
    exists i :: 0 <= i < |jobs| && jobs[i].title == title
  }

  /** The jobs table after entries `k..` of the file are handled, starting
      from table `jobs` with counters `nextId` and `clock`; `reply(k)` is the
      summarizer's answer for entry `k`. */
  function LoadFrom(jobs: seq<Job>, nextId: int, clock: nat, file: seq<JobEntry>, reply: nat -> ModelReply, k: nat): seq<Job>
    requires k <= |file|
    decreases |file| - k
  {
    if k == |file| then jobs
    else if HasTitle(jobs, file[k].title) then LoadFrom(jobs, nextId, clock, file, reply, k + 1)
    else
      var job := Job(nextId, file[k].title, file[k].description, StoredForm(ReplyOrNone(reply(k))), clock);
      LoadFrom(jobs + [job], nextId + 1, clock + 1, file, reply, k + 1)
  }

  /** The load only appends, at most one row per entry: the rows stored
      before are kept, in place. */
  lemma {:induction false} LoadKeeps(jobs: seq<Job>, nextId: int, clock: nat, file: seq<JobEntry>, reply: nat -> ModelReply, k: nat)
    requires k <= |file|
    ensures var r := LoadFrom(jobs, nextId, clock, file, reply, k);
      |jobs| <= |r| <= |jobs| + (|file| - k) && r[..|jobs|] == jobs
    decreases |file| - k
  {
    if k < |file| {
      var r := LoadFrom(jobs, nextId, clock, file, reply, k);
      if HasTitle(jobs, file[k].title) {
        LoadKeeps(jobs, nextId, clock, file, reply, k + 1);
      } else {
        var job := Job(nextId, file[k].title, file[k].description, StoredForm(ReplyOrNone(reply(k))), clock);
        var js := jobs + [job];
        assert r == LoadFrom(js, nextId + 1, clock + 1, file, reply, k + 1);
        LoadKeeps(js, nextId + 1, clock + 1, file, reply, k + 1);
        assert r[..|jobs|] == r[..|js|][..|jobs|];
      }
    }
  }

  /** A title is stored afterwards exactly when it was stored before or some
      handled entry has it. */
  lemma {:induction false} LoadTitles(jobs: seq<Job>, nextId: int, clock: nat, file: seq<JobEntry>, reply: nat -> ModelReply, k: nat, t: string)
    requires k <= |file|
    ensures HasTitle(LoadFrom(jobs, nextId, clock, file, reply, k), t) <==>
      HasTitle(jobs, t) || exists q :: k <= q < |file| && file[q].title == t
    decreases |file| - k
  {
    if k < |file| {
      if HasTitle(jobs, file[k].title) {
        LoadTitles(jobs, nextId, clock, file, reply, k + 1, t);
        if file[k].title == t {
          assert HasTitle(jobs, t);
        }
      } else {
        var job := Job(nextId, file[k].title, file[k].description, StoredForm(ReplyOrNone(reply(k))), clock);
        LoadTitles(jobs + [job], nextId + 1, clock + 1, file, reply, k + 1, t);
        if HasTitle(jobs, t) {
          var i :| 0 <= i < |jobs| && jobs[i].title == t;
          assert (jobs + [job])[i].title == t;
        }
        if HasTitle(jobs + [job], t) {
          var i :| 0 <= i < |jobs + [job]| && (jobs + [job])[i].title == t;
          if i < |jobs| {
            assert jobs[i].title == t;
          } else {
            assert file[k].title == t;
          }
        }
        if file[k].title == t {
          assert (jobs + [job])[|jobs|].title == t;
        }
      }
    }
  }

  /** Every row the load adds has a title no earlier row has: titles already
      stored are skipped, and so are repeats within the file. */
  lemma {:induction false} LoadAddsNewTitles(jobs: seq<Job>, nextId: int, clock: nat, file: seq<JobEntry>, reply: nat -> ModelReply, k: nat)
    requires k <= |file|
    ensures var r := LoadFrom(jobs, nextId, clock, file, reply, k);
      forall i, j :: 0 <= i < j < |r| && |jobs| <= j ==> r[i].title != r[j].title
    decreases |file| - k
  {
    var r := LoadFrom(jobs, nextId, clock, file, reply, k);
    if k < |file| {
      if HasTitle(jobs, file[k].title) {
        assert r == LoadFrom(jobs, nextId, clock, file, reply, k + 1);
        LoadAddsNewTitles(jobs, nextId, clock, file, reply, k + 1);
      } else {
        var job := Job(nextId, file[k].title, file[k].description, StoredForm(ReplyOrNone(reply(k))), clock);
        var js := jobs + [job];
        assert r == LoadFrom(js, nextId + 1, clock + 1, file, reply, k + 1);
        LoadAddsNewTitles(js, nextId + 1, clock + 1, file, reply, k + 1);
        LoadKeeps(js, nextId + 1, clock + 1, file, reply, k + 1);
        assert r[..|js|] == js;
        forall i, j | 0 <= i < j < |r| && |jobs| <= j
          ensures r[i].title != r[j].title
        {
          if j == |jobs| {
            assert r[j] == r[..|js|][j] == job;
            assert r[i] == r[..|js|][i] == jobs[i];
          }
        }
      }
    }
  }

  /** The rows the load adds carry the next ids and stamps in order. */
  lemma {:induction false} LoadStamps(jobs: seq<Job>, nextId: int, clock: nat, file: seq<JobEntry>, reply: nat -> ModelReply, k: nat)
    requires k <= |file|
    ensures var r := LoadFrom(jobs, nextId, clock, file, reply, k);
      forall n :: |jobs| <= n < |r| ==> r[n].id == nextId + (n - |jobs|) && r[n].createdAt == clock + (n - |jobs|)
    decreases |file| - k
  {
    var r := LoadFrom(jobs, nextId, clock, file, reply, k);
    if k < |file| {
      if HasTitle(jobs, file[k].title) {
        assert r == LoadFrom(jobs, nextId, clock, file, reply, k + 1);
        LoadStamps(jobs, nextId, clock, file, reply, k + 1);
      } else {
        var job := Job(nextId, file[k].title, file[k].description, StoredForm(ReplyOrNone(reply(k))), clock);
        var js := jobs + [job];
        assert r == LoadFrom(js, nextId + 1, clock + 1, file, reply, k + 1);
        LoadStamps(js, nextId + 1, clock + 1, file, reply, k + 1);
        LoadKeeps(js, nextId + 1, clock + 1, file, reply, k + 1);
        assert r[..|js|] == js;
        if |jobs| < |r| {
          assert r[|jobs|] == r[..|js|][|jobs|] == job;
        }
      }
    }
  }

  /** Entry `q` is the first of entries `k..` with its title, and that title
      is not in `jobs`. */
  ghost predicate FirstNewEntry(jobs: seq<Job>, file: seq<JobEntry>, k: nat, q: nat)
  {
    k <= q < |file| && !HasTitle(jobs, file[q].title) && forall p :: k <= p < q ==> file[p].title != file[q].title
  }

  /** Each added row, here row `n`, carries the title and description of the
      first entry, among those not already stored, with that title, and the
      summarizer's stored answer for that entry. */
  lemma {:induction false} LoadRow(jobs: seq<Job>, nextId: int, clock: nat, file: seq<JobEntry>, reply: nat -> ModelReply, k: nat, n: nat)
    requires k <= |file| && |jobs| <= n < |LoadFrom(jobs, nextId, clock, file, reply, k)|
    ensures var row := LoadFrom(jobs, nextId, clock, file, reply, k)[n];
      exists q: nat :: (FirstNewEntry(jobs, file, k, q) && row.title == file[q].title
        && row.description == file[q].description && row.summary == StoredForm(ReplyOrNone(reply(q))))
    decreases |file| - k
  {
    var r := LoadFrom(jobs, nextId, clock, file, reply, k);
    if HasTitle(jobs, file[k].title) {
      assert r == LoadFrom(jobs, nextId, clock, file, reply, k + 1);
      LoadRow(jobs, nextId, clock, file, reply, k + 1, n);
      var q: nat :| FirstNewEntry(jobs, file, k + 1, q) && r[n].title == file[q].title
        && r[n].description == file[q].description && r[n].summary == StoredForm(ReplyOrNone(reply(q)));
      assert file[k].title != file[q].title;
      assert FirstNewEntry(jobs, file, k, q);
    } else {
      var job := Job(nextId, file[k].title, file[k].description, StoredForm(ReplyOrNone(reply(k))), clock);
      var js := jobs + [job];
      assert r == LoadFrom(js, nextId + 1, clock + 1, file, reply, k + 1);
      LoadKeeps(js, nextId + 1, clock + 1, file, reply, k + 1);
      assert r[..|js|] == js;
      if n == |jobs| {
        assert r[n] == r[..|js|][n] == job;
        assert FirstNewEntry(jobs, file, k, k);
      } else {
        LoadRow(js, nextId + 1, clock + 1, file, reply, k + 1, n);
        var q: nat :| FirstNewEntry(js, file, k + 1, q) && r[n].title == file[q].title
          && r[n].description == file[q].description && r[n].summary == StoredForm(ReplyOrNone(reply(q)));
        assert js[|jobs|].title == file[k].title;
        assert file[k].title != file[q].title;
        assert forall i :: 0 <= i < |jobs| ==> js[i] == jobs[i];
        assert FirstNewEntry(jobs, file, k, q);
      }
    }
  }

  /** Both tables' orderings agree on which titles are present. */
  lemma HasTitleOfSameRows(a: seq<Job>, b: seq<Job>, t: string)
    requires forall j :: j in a <==> j in b
    ensures HasTitle(a, t) <==> HasTitle(b, t)
  {
    if HasTitle(a, t) {
      var i :| 0 <= i < |a| && a[i].title == t;
      assert a[i] in b;
    }
    if HasTitle(b, t) {
      var i :| 0 <= i < |b| && b[i].title == t;
      assert b[i] in a;
    }
  }

  /** One step of the load: an entry whose title is stored is skipped, any
      other is inserted. */
  lemma LoadStep(jobs: seq<Job>, nextId: int, clock: nat, file: seq<JobEntry>, reply: nat -> ModelReply, k: nat)
    requires k < |file|
    ensures HasTitle(jobs, file[k].title) ==>
      LoadFrom(jobs, nextId, clock, file, reply, k) == LoadFrom(jobs, nextId, clock, file, reply, k + 1)
    ensures !HasTitle(jobs, file[k].title) ==>
      LoadFrom(jobs, nextId, clock, file, reply, k) ==
      LoadFrom(jobs + [Job(nextId, file[k].title, file[k].description, StoredForm(ReplyOrNone(reply(k))), clock)],
               nextId + 1, clock + 1, file, reply, k + 1)
  {
  }

  /** `any(j['title'] == title for j in db.get_jobs())`. */
  method TitleStored(store: RecordStore, title: string) returns (stored: bool)
    requires store.Valid()
    ensures stored == HasTitle(store.jobs, title)
  {
    var existing := store.GetJobs();
    HasTitleOfSameRows(existing, store.jobs, title);
    stored := HasTitle(existing, title);
  }

  /** `load_jobs_from_file` on the decoded jobs file; `reply(k)` is the
      summarizer's answer for entry `k`. */
  method LoadJobsFromFile(store: RecordStore, file: seq<JobEntry>, reply: nat -> ModelReply)
    requires store.Valid()
    modifies store
    ensures store.Valid()
    ensures store.jobs == LoadFrom(old(store.jobs), old(store.nextJobId), old(store.clock), file, reply, 0)
    ensures store.nextJobId == old(store.nextJobId) + (|store.jobs| - |old(store.jobs)|)
    ensures store.clock == old(store.clock) + (|store.jobs| - |old(store.jobs)|)
    ensures store.candidates == old(store.candidates) && store.matches == old(store.matches)
    ensures store.nextCandidateId == old(store.nextCandidateId) && store.nextMatchId == old(store.nextMatchId)
  {
    var k := 0;
    while k < |file|
      invariant 0 <= k <= |file|
      invariant store.Valid()
      invariant LoadFrom(store.jobs, store.nextJobId, store.clock, file, reply, k)
        == LoadFrom(old(store.jobs), old(store.nextJobId), old(store.clock), file, reply, 0)
      invariant |old(store.jobs)| <= |store.jobs|
      invariant store.nextJobId == old(store.nextJobId) + (|store.jobs| - |old(store.jobs)|)
      invariant store.clock == old(store.clock) + (|store.jobs| - |old(store.jobs)|)
      invariant store.candidates == old(store.candidates) && store.matches == old(store.matches)
      invariant store.nextCandidateId == old(store.nextCandidateId) && store.nextMatchId == old(store.nextMatchId)
    {
      LoadStep(store.jobs, store.nextJobId, store.clock, file, reply, k);
      var stored := TitleStored(store, file[k].title);
      if !stored {
        var summary := ReplyOrNone(reply(k));
        var _ := store.AddJob(file[k].title, file[k].description, StoredForm(summary));
      }
      k := k + 1;
    }
  }

  // ----- process_candidate_cvs -----

  /** What one CV batch consults: the text of each file (Failure when both
      PDF readers raise), the e-mail and phone regular-expression matches on a
      text, the extractor's answer for each file, and each path's file-name
      stem. */
  datatype CvSource = CvSource(
    text: nat -> Result<string, string>,
    email: string -> Option<string>,
    phone: string -> Option<string>,
    reply: nat -> ModelReply,
    stem: string -> string)

  /** `any(c['cv_path'] == path for c in candidates)`. */
  predicate HasCvPath(cs: seq<Candidate>, path: string)
  {
    exists i :: 0 <= i < |cs| && cs[i].cvPath == path
  }

  /** `d.get(key, default)`. */
  function DictGet(d: map<string, Option<string>>, key: string, default: Option<string>): (v: Option<string>)
    ensures key in d ==> v == d[key]
    ensures key !in d ==> v == default
  {
    if key in d then d[key] else default
  }

  /** `candidate_info.get('name', path.stem)` is always the name
      `_extract_name` found, even when that is None: the info dict always
      has a `name` key, so the file-name stem is never used. */
  lemma StemNeverUsed(text: string, src: CvSource, path: string)
    ensures DictGet(ExtractCandidateInfo(text, src.email(text), src.phone(text)), "name", Some(src.stem(path))) == NameOf(text)
  {
  }

  /** The row `process_candidate_cvs` builds for file `k`, whose text is
      `text` and in which the name `name` was found. */
  function CvRow(id: int, clock: nat, files: seq<string>, src: CvSource, k: nat, text: string, name: string): Candidate
    requires k < |files|
  {
    Candidate(id, name, src.email(text), src.phone(text), files[k], StoredForm(ReplyOrNone(src.reply(k))), clock)
  }

  /** One pass of the loop of `process_candidate_cvs`, for file `k`. */
  function CvStep(cs: seq<Candidate>, nextId: int, clock: nat, files: seq<string>, src: CvSource,
                  names: string -> Option<string>, k: nat): Progress<Candidate>
    requires k < |files|
  {
    if HasCvPath(cs, files[k]) then Progress(cs, nextId, clock, None)
    else match src.text(k)
      case Failure(e) => Progress(cs, nextId, clock, Some(Aborted(k, e)))
      case Success(text) =>
        var name := names(text);
        if name.None? then Progress(cs, nextId, clock, Some(Aborted(k, NameRequired)))
        else Progress(cs + [CvRow(nextId, clock, files, src, k, text, name.value)], nextId + 1, clock + 1, None)
  }

  /** The candidates table and the outcome after files `k..` are handled,
      where `names` finds the name in a text (`NameOf` in the batch itself). */
  function CvsFrom(cs: seq<Candidate>, nextId: int, clock: nat, files: seq<string>, src: CvSource,
                   names: string -> Option<string>, k: nat): (seq<Candidate>, BatchOutcome)
    requires k <= |files|
    decreases |files| - k
  {
    if k == |files| then (cs, Completed)
    else
      var s := CvStep(cs, nextId, clock, files, src, names, k);
      if s.stop.Some? then (s.rows, s.stop.value)
      else CvsFrom(s.rows, s.nextId, s.clock, files, src, names, k + 1)
  }

  /** The batch only appends: the rows stored before are kept, in place, and
      a batch that stops, stops at one of the files it was given. */
  lemma {:induction false} CvsKeeps(cs: seq<Candidate>, nextId: int, clock: nat, files: seq<string>, src: CvSource,
                                    names: string -> Option<string>, k: nat)
    requires k <= |files|
    ensures var r := CvsFrom(cs, nextId, clock, files, src, names, k);
      && |cs| <= |r.0| && r.0[..|cs|] == cs
      && (r.1.Completed? || (r.1.Aborted? && k <= r.1.at < |files|))
    decreases |files| - k
  {
    if k < |files| {
      var r := CvsFrom(cs, nextId, clock, files, src, names, k);
      if HasCvPath(cs, files[k]) {
        CvsKeeps(cs, nextId, clock, files, src, names, k + 1);
      } else if src.text(k).Success? && names(src.text(k).value).Some? {
        var text := src.text(k).value;
        var cs' := cs + [CvRow(nextId, clock, files, src, k, text, names(text).value)];
        assert r == CvsFrom(cs', nextId + 1, clock + 1, files, src, names, k + 1);
        CvsKeeps(cs', nextId + 1, clock + 1, files, src, names, k + 1);
        assert r.0[..|cs|] == r.0[..|cs'|][..|cs|];
      }
    }
  }

  /** Every row the batch adds has a CV path no earlier row has: a path
      already stored is skipped, and so is a repeated path. */
  lemma {:induction false} CvsAddNewPaths(cs: seq<Candidate>, nextId: int, clock: nat, files: seq<string>, src: CvSource,
                                          names: string -> Option<string>, k: nat)
    requires k <= |files|
    ensures var r := CvsFrom(cs, nextId, clock, files, src, names, k).0;
      forall i, j :: 0 <= i < j < |r| && |cs| <= j ==> r[i].cvPath != r[j].cvPath
    decreases |files| - k
  {
    if k < |files| {
      var r := CvsFrom(cs, nextId, clock, files, src, names, k).0;
      if HasCvPath(cs, files[k]) {
        assert CvsFrom(cs, nextId, clock, files, src, names, k) == CvsFrom(cs, nextId, clock, files, src, names, k + 1);
        CvsAddNewPaths(cs, nextId, clock, files, src, names, k + 1);
        var r' := CvsFrom(cs, nextId, clock, files, src, names, k + 1).0;
        assert r == r';
        assert forall i, j :: 0 <= i < j < |r'| && |cs| <= j ==> r'[i].cvPath != r'[j].cvPath;
      } else if src.text(k).Success? && names(src.text(k).value).Some? {
        var text := src.text(k).value;
        var row := CvRow(nextId, clock, files, src, k, text, names(text).value);
        var cs' := cs + [row];
        assert r == CvsFrom(cs', nextId + 1, clock + 1, files, src, names, k + 1).0;
        CvsAddNewPaths(cs', nextId + 1, clock + 1, files, src, names, k + 1);
        CvsKeeps(cs', nextId + 1, clock + 1, files, src, names, k + 1);
        assert r[..|cs'|] == cs';
        forall i, j | 0 <= i < j < |r| && |cs| <= j
          ensures r[i].cvPath != r[j].cvPath
        {
          if j == |cs| {
            assert r[j] == r[..|cs'|][j] == row;
            assert r[i] == r[..|cs'|][i] == cs[i];
          }
        }
      } else {
        assert r == cs;
      }
    }
  }

  /** The rows the batch adds carry the next ids and stamps in order. */
  lemma {:induction false} CvsStamps(cs: seq<Candidate>, nextId: int, clock: nat, files: seq<string>, src: CvSource,
                                     names: string -> Option<string>, k: nat)
    requires k <= |files|
    ensures var r := CvsFrom(cs, nextId, clock, files, src, names, k).0;
      forall n :: |cs| <= n < |r| ==> r[n].id == nextId + (n - |cs|) && r[n].createdAt == clock + (n - |cs|)
    decreases |files| - k
  {
    if k < |files| {
      var r := CvsFrom(cs, nextId, clock, files, src, names, k).0;
      if HasCvPath(cs, files[k]) {
        assert CvsFrom(cs, nextId, clock, files, src, names, k) == CvsFrom(cs, nextId, clock, files, src, names, k + 1);
        CvsStamps(cs, nextId, clock, files, src, names, k + 1);
        var r' := CvsFrom(cs, nextId, clock, files, src, names, k + 1).0;
        assert r == r';
        assert forall n :: |cs| <= n < |r'| ==> r'[n].id == nextId + (n - |cs|) && r'[n].createdAt == clock + (n - |cs|);
      } else if src.text(k).Success? && names(src.text(k).value).Some? {
        var text := src.text(k).value;
        var row := CvRow(nextId, clock, files, src, k, text, names(text).value);
        var cs' := cs + [row];
        assert r == CvsFrom(cs', nextId + 1, clock + 1, files, src, names, k + 1).0;
        CvsStamps(cs', nextId + 1, clock + 1, files, src, names, k + 1);
        CvsKeeps(cs', nextId + 1, clock + 1, files, src, names, k + 1);
        assert r[..|cs'|] == cs';
        forall n | |cs| <= n < |r|
          ensures r[n].id == nextId + (n - |cs|) && r[n].createdAt == clock + (n - |cs|)
        {
          if n == |cs| {
            assert r[n] == r[..|cs'|][n] == row;
          }
        }
      } else {
        assert r == cs;
      }
    }
  }

  /** Row `row` was built from file `q`: its text was read, `names` found the
      row's name in it, and the other columns come from that file. */
  ghost predicate RowFromFile(row: Candidate, files: seq<string>, src: CvSource, names: string -> Option<string>, q: nat)
  {
    && q < |files| && src.text(q).Success?
    && names(src.text(q).value) == Some(row.name)
    && row == CvRow(row.id, row.createdAt, files, src, q, src.text(q).value, row.name)
  }

  /** Each added row, here row `n`, comes from a file handled before the one
      the batch stopped at, if it stopped. */
  lemma {:induction false} CvsRow(cs: seq<Candidate>, nextId: int, clock: nat, files: seq<string>, src: CvSource,
                                  names: string -> Option<string>, k: nat, n: nat)
    requires k <= |files| && |cs| <= n < |CvsFrom(cs, nextId, clock, files, src, names, k).0|
    ensures var r := CvsFrom(cs, nextId, clock, files, src, names, k);
      exists q: nat :: (k <= q && RowFromFile(r.0[n], files, src, names, q) && (r.1.Aborted? ==> q < r.1.at))
    decreases |files| - k
  {
    var r := CvsFrom(cs, nextId, clock, files, src, names, k);
    if HasCvPath(cs, files[k]) {
      CvsRow(cs, nextId, clock, files, src, names, k + 1, n);
    } else {
      var text := src.text(k).value;
      var row := CvRow(nextId, clock, files, src, k, text, names(text).value);
      var cs' := cs + [row];
      assert r == CvsFrom(cs', nextId + 1, clock + 1, files, src, names, k + 1);
      CvsKeeps(cs', nextId + 1, clock + 1, files, src, names, k + 1);
      assert r.0[..|cs'|] == cs';
      if n == |cs| {
        assert r.0[n] == r.0[..|cs'|][n] == row;
        assert RowFromFile(r.0[n], files, src, names, k);
      } else {
        CvsRow(cs', nextId + 1, clock + 1, files, src, names, k + 1, n);
      }
    }
  }

  /** A batch that stops, stops at a file not stored whose text could not be
      read or held no name; one that completes has stored every file. */
  lemma {:induction false} CvsOutcome(cs: seq<Candidate>, nextId: int, clock: nat, files: seq<string>, src: CvSource,
                                      names: string -> Option<string>, k: nat)
    requires k <= |files|
    ensures var r := CvsFrom(cs, nextId, clock, files, src, names, k);
      r.1.Aborted? ==>
        && k <= r.1.at < |files|
        && !HasCvPath(r.0, files[r.1.at])
        && (src.text(r.1.at).Failure? ==> r.1.error == src.text(r.1.at).error)
        && (src.text(r.1.at).Success? ==> names(src.text(r.1.at).value).None? && r.1.error == NameRequired)
    ensures var r := CvsFrom(cs, nextId, clock, files, src, names, k);
      r.1.Completed? ==> forall q :: k <= q < |files| ==> HasCvPath(r.0, files[q])
    decreases |files| - k
  {
    if k < |files| {
      var r := CvsFrom(cs, nextId, clock, files, src, names, k);
      if HasCvPath(cs, files[k]) {
        CvsOutcome(cs, nextId, clock, files, src, names, k + 1);
        if r.1.Completed? {
          CvsKeeps(cs, nextId, clock, files, src, names, k + 1);
          var i :| 0 <= i < |cs| && cs[i].cvPath == files[k];
          assert r.0[i] == r.0[..|cs|][i];
        }
      } else if src.text(k).Success? && names(src.text(k).value).Some? {
        var text := src.text(k).value;
        var row := CvRow(nextId, clock, files, src, k, text, names(text).value);
        var cs' := cs + [row];
        assert r == CvsFrom(cs', nextId + 1, clock + 1, files, src, names, k + 1);
        CvsOutcome(cs', nextId + 1, clock + 1, files, src, names, k + 1);
        if r.1.Completed? {
          CvsKeeps(cs', nextId + 1, clock + 1, files, src, names, k + 1);
          assert r.0[..|cs'|] == cs';
          assert r.0[|cs|] == r.0[..|cs'|][|cs|];
        }
      }
    }
  }

  lemma HasCvPathOfSameRows(a: seq<Candidate>, b: seq<Candidate>, path: string)
    requires forall c :: c in a <==> c in b
    ensures HasCvPath(a, path) <==> HasCvPath(b, path)
  {
    if HasCvPath(a, path) {
      var i :| 0 <= i < |a| && a[i].cvPath == path;
      assert a[i] in b;
    }
    if HasCvPath(b, path) {
      var i :| 0 <= i < |b| && b[i].cvPath == path;
      assert b[i] in a;
    }
  }

  /** `any(c['cv_path'] == path for c in db.get_candidates())`. */
  method CvStored(store: RecordStore, path: string) returns (stored: bool)
    requires store.Valid()
    ensures stored == HasCvPath(store.candidates, path)
  {
    var existing := store.GetCandidates();
    HasCvPathOfSameRows(existing, store.candidates, path);
    stored := HasCvPath(existing, path);
  }

  /** The columns `process_candidate_cvs` takes from `extract_candidate_info`:
      the name `_extract_name` found, whatever the stem, and the regular
      expression matches. */
  method ReadCv(text: string, src: CvSource, path: string) returns (name: Option<string>, email: Option<string>, phone: Option<string>)
    ensures name == NameOf(text) && email == src.email(text) && phone == src.phone(text)
  {
    var info := ExtractCandidateInfo(text, src.email(text), src.phone(text));
    name, email, phone := DictGet(info, "name", Some(src.stem(path))), DictGet(info, "email", None), DictGet(info, "phone", None);
  }

  /** One pass of the loop of `process_candidate_cvs`, for file `k`: `stop`
      is None when the loop goes on, or the outcome the batch ends with. */
  method HandleCv(store: RecordStore, pdfFiles: seq<string>, src: CvSource, k: nat) returns (stop: Option<BatchOutcome>)
    requires store.Valid() && k < |pdfFiles|
    modifies store
    ensures store.Valid()
    ensures Progress(store.candidates, store.nextCandidateId, store.clock, stop) ==
      CvStep(old(store.candidates), old(store.nextCandidateId), old(store.clock), pdfFiles, src, NameOf, k)
    ensures |old(store.candidates)| <= |store.candidates|
    ensures store.nextCandidateId == old(store.nextCandidateId) + (|store.candidates| - |old(store.candidates)|)
    ensures store.clock == old(store.clock) + (|store.candidates| - |old(store.candidates)|)
    ensures store.jobs == old(store.jobs) && store.matches == old(store.matches)
    ensures store.nextJobId == old(store.nextJobId) && store.nextMatchId == old(store.nextMatchId)
  {
    var stored := CvStored(store, pdfFiles[k]);
    if stored {
      return None;
    }
    var text := src.text(k);
    if text.Failure? {
      return Some(Aborted(k, text.error));
    }
    var name, email, phone := ReadCv(text.value, src, pdfFiles[k]);
    var data := ReplyOrNone(src.reply(k));
    var added := store.AddCandidate(name, pdfFiles[k], StoredForm(data), email, phone);
    if added.Failure? {
      return Some(Aborted(k, added.error));
    }
    return None;
  }

  /** `process_candidate_cvs` over the PDF files of the folder. */
  method ProcessCandidateCvs(store: RecordStore, pdfFiles: seq<string>, src: CvSource) returns (outcome: BatchOutcome)
    requires store.Valid()
    modifies store
    ensures store.Valid()
    ensures pdfFiles == [] ==> outcome == NothingToDo && store.candidates == old(store.candidates)
    ensures pdfFiles != [] ==>
      (store.candidates, outcome) == CvsFrom(old(store.candidates), old(store.nextCandidateId), old(store.clock), pdfFiles, src, NameOf, 0)
    ensures store.nextCandidateId == old(store.nextCandidateId) + (|store.candidates| - |old(store.candidates)|)
    ensures store.clock == old(store.clock) + (|store.candidates| - |old(store.candidates)|)
    ensures store.jobs == old(store.jobs) && store.matches == old(store.matches)
    ensures store.nextJobId == old(store.nextJobId) && store.nextMatchId == old(store.nextMatchId)
  {
    if pdfFiles == [] {
      return NothingToDo;
    }
    ghost var names := NameOf;
    ghost var goal := CvsFrom(store.candidates, store.nextCandidateId, store.clock, pdfFiles, src, names, 0);
    var k := 0;
    while k < |pdfFiles|
      invariant 0 <= k <= |pdfFiles|
      invariant store.Valid()
      invariant CvsFrom(store.candidates, store.nextCandidateId, store.clock, pdfFiles, src, names, k) == goal
      invariant |old(store.candidates)| <= |store.candidates|
      invariant store.nextCandidateId == old(store.nextCandidateId) + (|store.candidates| - |old(store.candidates)|)
      invariant store.clock == old(store.clock) + (|store.candidates| - |old(store.candidates)|)
      invariant store.jobs == old(store.jobs) && store.matches == old(store.matches)
      invariant store.nextJobId == old(store.nextJobId) && store.nextMatchId == old(store.nextMatchId)
    {
      var stop := HandleCv(store, pdfFiles, src, k);
      if stop.Some? {
        return stop.value;
      }
      k := k + 1;
    }
    return Completed;
  }

  // ----- match_candidates_to_jobs -----

  /** The row `add_match` stores for job `j` and candidate `c`. */
  function MatchRow(id: int, clock: nat, j: Job, c: Candidate, score: real): Match
  {
    Match(id, j.id, c.id, score, false, false, None, None, clock)
  }

  /** What the batch does with the scoring result for job `j` and candidate
      `c`; `reply(jobId, candidateId)` is the model's answer for that pair. */
  function PairStep(j: Job, c: Candidate, reply: (int, int) -> ModelReply): ScoreStep
  {
    ScoreStepOf(CalculateMatchScore(reply(j.id, c.id)))
  }

  /** Pair `(p, q)` is handled before pair `(a, b)`: jobs in the outer loop,
      candidates in the inner one. */
  predicate Before(p: nat, q: nat, a: nat, b: nat)
  {
    p < a || (p == a && q < b)
  }

  /** The pair at positions `(p, q)` of the listings is scored: the job has a
      truthy summary and the candidate truthy extracted data. */
  predicate Scored(jobs: seq<Job>, cands: seq<Candidate>, p: nat, q: nat)
    requires p < |jobs| && q < |cands|
  {
    Truthy(LoadedForm(jobs[p].summary)) && Truthy(LoadedForm(cands[q].extractedData))
  }

  /** One pass of the inner loop of `match_candidates_to_jobs`, for job `a`
      and candidate `b` of the listings. */
  function MatchStep(ms: seq<Match>, nextId: int, clock: nat, jobs: seq<Job>, cands: seq<Candidate>,
                     reply: (int, int) -> ModelReply, a: nat, b: nat): Progress<Match>
    requires a < |jobs| && b < |cands|
  {
    if HasPair(ms, jobs[a].id, cands[b].id) || !Truthy(LoadedForm(cands[b].extractedData)) then
      Progress(ms, nextId, clock, None)
    else match PairStep(jobs[a], cands[b], reply)
      case Skip => Progress(ms, nextId, clock, None)
      case Abort(e) => Progress(ms, nextId, clock, Some(PairAborted(a, b, e)))
      case Insert(score) => Progress(ms + [MatchRow(nextId, clock, jobs[a], cands[b], score)], nextId + 1, clock + 1, None)
  }

  /** The matches table and the outcome after the pairs from `(a, b)` on are
      handled, for the job and candidate listings read when the batch began. */
  function MatchFrom(ms: seq<Match>, nextId: int, clock: nat, jobs: seq<Job>, cands: seq<Candidate>,
                     reply: (int, int) -> ModelReply, a: nat, b: nat): (seq<Match>, BatchOutcome)
    requires a <= |jobs| && b <= |cands|
    decreases |jobs| - a, |cands| - b
  {
    if a == |jobs| then (ms, Completed)
    else if b == |cands| || !Truthy(LoadedForm(jobs[a].summary)) then
      MatchFrom(ms, nextId, clock, jobs, cands, reply, a + 1, 0)
    else
      var s := MatchStep(ms, nextId, clock, jobs, cands, reply, a, b);
      if s.stop.Some? then (s.rows, s.stop.value)
      else MatchFrom(s.rows, s.nextId, s.clock, jobs, cands, reply, a, b + 1)
  }

  /** The batch only appends: existing matches are kept, unmodified and in
      place, also when it stops; it stops at a pair of the listings. */
  lemma {:induction false} MatchKeeps(ms: seq<Match>, nextId: int, clock: nat, jobs: seq<Job>, cands: seq<Candidate>,
                                      reply: (int, int) -> ModelReply, a: nat, b: nat)
    requires a <= |jobs| && b <= |cands|
    ensures var r := MatchFrom(ms, nextId, clock, jobs, cands, reply, a, b);
      && |ms| <= |r.0| && r.0[..|ms|] == ms
      && (r.1.Completed? || (r.1.PairAborted? && !Before(r.1.job, r.1.candidate, a, b) && r.1.job < |jobs| && r.1.candidate < |cands|))
    decreases |jobs| - a, |cands| - b
  {
    if a < |jobs| {
      if b == |cands| || !Truthy(LoadedForm(jobs[a].summary)) {
        MatchKeeps(ms, nextId, clock, jobs, cands, reply, a + 1, 0);
      } else if HasPair(ms, jobs[a].id, cands[b].id) || !Truthy(LoadedForm(cands[b].extractedData)) {
        MatchKeeps(ms, nextId, clock, jobs, cands, reply, a, b + 1);
      } else if PairStep(jobs[a], cands[b], reply).Skip? {
        MatchKeeps(ms, nextId, clock, jobs, cands, reply, a, b + 1);
      } else if PairStep(jobs[a], cands[b], reply).Insert? {
        var r := MatchFrom(ms, nextId, clock, jobs, cands, reply, a, b);
        var ms' := ms + [MatchRow(nextId, clock, jobs[a], cands[b], PairStep(jobs[a], cands[b], reply).score)];
        assert r == MatchFrom(ms', nextId + 1, clock + 1, jobs, cands, reply, a, b + 1);
        MatchKeeps(ms', nextId + 1, clock + 1, jobs, cands, reply, a, b + 1);
        assert r.0[..|ms|] == r.0[..|ms'|][..|ms|];
      }
    }
  }

  /** A table with at most one match per pair still has at most one after
      the batch: a pair that has a match is skipped. */
  lemma {:induction false} MatchOnePerPair(ms: seq<Match>, nextId: int, clock: nat, jobs: seq<Job>, cands: seq<Candidate>,
                                           reply: (int, int) -> ModelReply, a: nat, b: nat)
    requires a <= |jobs| && b <= |cands| && OneMatchPerPair(ms)
    ensures OneMatchPerPair(MatchFrom(ms, nextId, clock, jobs, cands, reply, a, b).0)
    decreases |jobs| - a, |cands| - b
  {
    if a < |jobs| {
      if b == |cands| || !Truthy(LoadedForm(jobs[a].summary)) {
        MatchOnePerPair(ms, nextId, clock, jobs, cands, reply, a + 1, 0);
      } else if HasPair(ms, jobs[a].id, cands[b].id) || !Truthy(LoadedForm(cands[b].extractedData)) {
        MatchOnePerPair(ms, nextId, clock, jobs, cands, reply, a, b + 1);
      } else if PairStep(jobs[a], cands[b], reply).Skip? {
        MatchOnePerPair(ms, nextId, clock, jobs, cands, reply, a, b + 1);
      } else if PairStep(jobs[a], cands[b], reply).Insert? {
        var row := MatchRow(nextId, clock, jobs[a], cands[b], PairStep(jobs[a], cands[b], reply).score);
        AddNewPair(ms, row);
        MatchOnePerPair(ms + [row], nextId + 1, clock + 1, jobs, cands, reply, a, b + 1);
      }
    }
  }

  lemma HasPairGrows(ms: seq<Match>, m: Match, j: int, c: int)
    ensures HasPair(ms, j, c) ==> HasPair(ms + [m], j, c)
  {
    if HasPair(ms, j, c) {
      var i :| 0 <= i < |ms| && ms[i].jobId == j && ms[i].candidateId == c;
      assert (ms + [m])[i] == ms[i];
    }
  }

  /** Row `row` was added for the pair at `(p, q)`: the pair is scored, had
      no match in `ms`, its scoring result asked for an insert with the row's
      score, and the row is the fresh match `add_match` builds. */
  ghost predicate RowFromPair(row: Match, ms: seq<Match>, jobs: seq<Job>, cands: seq<Candidate>,
                              reply: (int, int) -> ModelReply, p: nat, q: nat)
  {
    && p < |jobs| && q < |cands| && Scored(jobs, cands, p, q)
    && !HasPair(ms, jobs[p].id, cands[q].id)
    && PairStep(jobs[p], cands[q], reply) == Insert(row.matchScore)
    && row == MatchRow(row.id, row.createdAt, jobs[p], cands[q], row.matchScore)
  }

  /** Each added match, here row `n`, comes from a pair handled from `(a, b)`
      on, before the pair the batch stopped at, if it stopped. So nothing is
      inserted for a job without a summary, a candidate without extracted
      data, a pair that already had a match, or a result without a score. */
  lemma {:induction false} MatchRowOrigin(ms: seq<Match>, nextId: int, clock: nat, jobs: seq<Job>, cands: seq<Candidate>,
                                          reply: (int, int) -> ModelReply, a: nat, b: nat, n: nat)
    requires a <= |jobs| && b <= |cands| && |ms| <= n < |MatchFrom(ms, nextId, clock, jobs, cands, reply, a, b).0|
    ensures var r := MatchFrom(ms, nextId, clock, jobs, cands, reply, a, b);
      exists p: nat, q: nat :: (!Before(p, q, a, b) && RowFromPair(r.0[n], ms, jobs, cands, reply, p, q) &&
        (r.1.PairAborted? ==> Before(p, q, r.1.job, r.1.candidate)))
    decreases |jobs| - a, |cands| - b
  {
    var r := MatchFrom(ms, nextId, clock, jobs, cands, reply, a, b);
    if b == |cands| || !Truthy(LoadedForm(jobs[a].summary)) {
      MatchRowOrigin(ms, nextId, clock, jobs, cands, reply, a + 1, 0, n);
    } else if HasPair(ms, jobs[a].id, cands[b].id) || !Truthy(LoadedForm(cands[b].extractedData)) {
      MatchRowOrigin(ms, nextId, clock, jobs, cands, reply, a, b + 1, n);
    } else if PairStep(jobs[a], cands[b], reply).Skip? {
      MatchRowOrigin(ms, nextId, clock, jobs, cands, reply, a, b + 1, n);
    } else {
      var row := MatchRow(nextId, clock, jobs[a], cands[b], PairStep(jobs[a], cands[b], reply).score);
      var ms' := ms + [row];
      assert r == MatchFrom(ms', nextId + 1, clock + 1, jobs, cands, reply, a, b + 1);
      MatchKeeps(ms', nextId + 1, clock + 1, jobs, cands, reply, a, b + 1);
      assert r.0[..|ms'|] == ms';
      if n == |ms| {
        assert r.0[n] == r.0[..|ms'|][n] == row;
        assert RowFromPair(r.0[n], ms, jobs, cands, reply, a, b);
      } else {
        MatchRowOrigin(ms', nextId + 1, clock + 1, jobs, cands, reply, a, b + 1, n);
        var p: nat, q: nat :| !Before(p, q, a, b + 1) && RowFromPair(r.0[n], ms', jobs, cands, reply, p, q) &&
          (r.1.PairAborted? ==> Before(p, q, r.1.job, r.1.candidate));
        HasPairGrows(ms, row, jobs[p].id, cands[q].id);
        assert !Before(p, q, a, b) && RowFromPair(r.0[n], ms, jobs, cands, reply, p, q);
      }
    }
  }

  /** A batch that stops early stops at a scored pair from `(a, b)` on that
      has no match and whose scoring failed with the error it reports. */
  lemma {:induction false} MatchAbortedAt(ms: seq<Match>, nextId: int, clock: nat, jobs: seq<Job>, cands: seq<Candidate>,
                                          reply: (int, int) -> ModelReply, a: nat, b: nat)
    requires a <= |jobs| && b <= |cands|
    ensures var r := MatchFrom(ms, nextId, clock, jobs, cands, reply, a, b);
      r.1.PairAborted? ==>
        && r.1.job < |jobs| && r.1.candidate < |cands| && !Before(r.1.job, r.1.candidate, a, b)
        && Scored(jobs, cands, r.1.job, r.1.candidate)
        && !HasPair(r.0, jobs[r.1.job].id, cands[r.1.candidate].id)
        && PairStep(jobs[r.1.job], cands[r.1.candidate], reply) == Abort(r.1.error)
    decreases |jobs| - a, |cands| - b
  {
    if a < |jobs| {
      var r := MatchFrom(ms, nextId, clock, jobs, cands, reply, a, b);
      if b == |cands| || !Truthy(LoadedForm(jobs[a].summary)) {
        MatchAbortedAt(ms, nextId, clock, jobs, cands, reply, a + 1, 0);
      } else if HasPair(ms, jobs[a].id, cands[b].id) || !Truthy(LoadedForm(cands[b].extractedData)) {
        MatchAbortedAt(ms, nextId, clock, jobs, cands, reply, a, b + 1);
      } else if PairStep(jobs[a], cands[b], reply).Skip? {
        MatchAbortedAt(ms, nextId, clock, jobs, cands, reply, a, b + 1);
      } else if PairStep(jobs[a], cands[b], reply).Insert? {
        var row := MatchRow(nextId, clock, jobs[a], cands[b], PairStep(jobs[a], cands[b], reply).score);
        assert r == MatchFrom(ms + [row], nextId + 1, clock + 1, jobs, cands, reply, a, b + 1);
        MatchAbortedAt(ms + [row], nextId + 1, clock + 1, jobs, cands, reply, a, b + 1);
      } else {
        assert r == (ms, PairAborted(a, b, PairStep(jobs[a], cands[b], reply).error));
      }
    }
  }

  /** A batch that completes leaves a match for every scored pair from `(a, b)`
      on whose scoring gave a score. */
  lemma {:induction false} MatchCompletedCovers(ms: seq<Match>, nextId: int, clock: nat, jobs: seq<Job>, cands: seq<Candidate>,
                                                reply: (int, int) -> ModelReply, a: nat, b: nat)
    requires a <= |jobs| && b <= |cands|
    ensures var r := MatchFrom(ms, nextId, clock, jobs, cands, reply, a, b);
      r.1.Completed? ==> forall p: nat, q: nat ::
        (p < |jobs| && q < |cands| && !Before(p, q, a, b) && Scored(jobs, cands, p, q) &&
         !PairStep(jobs[p], cands[q], reply).Skip?) ==> HasPair(r.0, jobs[p].id, cands[q].id)
    decreases |jobs| - a, |cands| - b
  {
    if a < |jobs| {
      var r := MatchFrom(ms, nextId, clock, jobs, cands, reply, a, b);
      if b == |cands| || !Truthy(LoadedForm(jobs[a].summary)) {
        MatchCompletedCovers(ms, nextId, clock, jobs, cands, reply, a + 1, 0);
      } else if HasPair(ms, jobs[a].id, cands[b].id) || !Truthy(LoadedForm(cands[b].extractedData)) {
        MatchCompletedCovers(ms, nextId, clock, jobs, cands, reply, a, b + 1);
        if r.1.Completed? && HasPair(ms, jobs[a].id, cands[b].id) {
          MatchKeeps(ms, nextId, clock, jobs, cands, reply, a, b + 1);
          var i :| 0 <= i < |ms| && ms[i].jobId == jobs[a].id && ms[i].candidateId == cands[b].id;
          assert r.0[i] == r.0[..|ms|][i];
        }
      } else if PairStep(jobs[a], cands[b], reply).Skip? {
        MatchCompletedCovers(ms, nextId, clock, jobs, cands, reply, a, b + 1);
      } else if PairStep(jobs[a], cands[b], reply).Insert? {
        var row := MatchRow(nextId, clock, jobs[a], cands[b], PairStep(jobs[a], cands[b], reply).score);
        var ms' := ms + [row];
        assert r == MatchFrom(ms', nextId + 1, clock + 1, jobs, cands, reply, a, b + 1);
        MatchCompletedCovers(ms', nextId + 1, clock + 1, jobs, cands, reply, a, b + 1);
        if r.1.Completed? {
          MatchKeeps(ms', nextId + 1, clock + 1, jobs, cands, reply, a, b + 1);
          assert r.0[|ms|] == r.0[..|ms'|][|ms|] == row;
        }
      }
    }
  }

  /** A scoring call that fails stores a match with score 0. */
  lemma FailedScoringStoresZero(j: Job, c: Candidate, reply: (int, int) -> ModelReply)
    requires !reply(j.id, c.id).Decoded?
    ensures PairStep(j, c, reply) == Insert(0.0)
  {
    assert ZeroScore.fields[ScoreKey] == JNumber(0.0);
  }

  /** A job that is done with, or has no summary, moves on to the next job. */
  lemma MatchNextJob(ms: seq<Match>, nextId: int, clock: nat, jobs: seq<Job>, cands: seq<Candidate>,
                     reply: (int, int) -> ModelReply, a: nat, b: nat)
    requires a < |jobs| && b <= |cands| && (b == |cands| || !Truthy(LoadedForm(jobs[a].summary)))
    ensures MatchFrom(ms, nextId, clock, jobs, cands, reply, a, b) == MatchFrom(ms, nextId, clock, jobs, cands, reply, a + 1, 0)
  {
  }

  /** `if db.get_matches(job_id=jobId, candidate_id=candidateId)`, for ids
      that are truthy. */
  method PairMatched(store: RecordStore, jobId: int, candidateId: int) returns (matched: bool)
    requires store.Valid() && jobId != 0 && candidateId != 0
    ensures matched == HasPair(store.matches, jobId, candidateId)
  {
    var existing := store.GetMatches(Some(jobId), Some(candidateId));
    PairListingEmpty(existing, store.matches, jobId, candidateId);
    matched := existing != [];
  }

  /** One pass of the inner loop of `match_candidates_to_jobs`, for job `a`
      and candidate `b` of the listings: `stop` is None when the loop goes on,
      or the outcome the batch ends with. */
  method HandlePair(store: RecordStore, jobs: seq<Job>, cands: seq<Candidate>, reply: (int, int) -> ModelReply, a: nat, b: nat)
    returns (stop: Option<BatchOutcome>)
    requires store.Valid() && a < |jobs| && b < |cands|
    requires jobs[a] in store.jobs && cands[b] in store.candidates
    modifies store
    ensures store.Valid()
    ensures Progress(store.matches, store.nextMatchId, store.clock, stop) ==
      MatchStep(old(store.matches), old(store.nextMatchId), old(store.clock), jobs, cands, reply, a, b)
    ensures |old(store.matches)| <= |store.matches|
    ensures store.nextMatchId == old(store.nextMatchId) + (|store.matches| - |old(store.matches)|)
    ensures store.clock == old(store.clock) + (|store.matches| - |old(store.matches)|)
    ensures store.jobs == old(store.jobs) && store.candidates == old(store.candidates)
    ensures store.nextJobId == old(store.nextJobId) && store.nextCandidateId == old(store.nextCandidateId)
  {
    var job, cand := jobs[a], cands[b];
    store.RowsInRange();
    assert 1 <= job.id && 1 <= cand.id;
    var matched := PairMatched(store, job.id, cand.id);
    if matched {
      return None;
    }
    var data := LoadedForm(cand.extractedData);
    if !Truthy(data) {
      return None;
    }
    var result := CalculateMatchScore(reply(job.id, cand.id));
    match ScoreStepOf(result)
    case Skip =>
      return None;
    case Abort(e) =>
      return Some(PairAborted(a, b, e));
    case Insert(score) =>
      var _ := store.AddMatch(job.id, cand.id, score);
      return None;
  }

  /** The inner loop of `match_candidates_to_jobs` for job `a`, whose summary
      is truthy: every candidate of the listing in turn. */
  method MatchJob(store: RecordStore, jobs: seq<Job>, cands: seq<Candidate>, reply: (int, int) -> ModelReply, a: nat)
    returns (stop: Option<BatchOutcome>)
    requires store.Valid() && a < |jobs| && Truthy(LoadedForm(jobs[a].summary))
    requires jobs[a] in store.jobs && forall c :: c in cands ==> c in store.candidates
    modifies store
    ensures store.Valid()
    ensures stop.None? ==>
      MatchFrom(store.matches, store.nextMatchId, store.clock, jobs, cands, reply, a + 1, 0) ==
      MatchFrom(old(store.matches), old(store.nextMatchId), old(store.clock), jobs, cands, reply, a, 0)
    ensures stop.Some? ==>
      (store.matches, stop.value) == MatchFrom(old(store.matches), old(store.nextMatchId), old(store.clock), jobs, cands, reply, a, 0)
    ensures |old(store.matches)| <= |store.matches|
    ensures store.nextMatchId == old(store.nextMatchId) + (|store.matches| - |old(store.matches)|)
    ensures store.clock == old(store.clock) + (|store.matches| - |old(store.matches)|)
    ensures store.jobs == old(store.jobs) && store.candidates == old(store.candidates)
    ensures store.nextJobId == old(store.nextJobId) && store.nextCandidateId == old(store.nextCandidateId)
  {
    ghost var goal := MatchFrom(store.matches, store.nextMatchId, store.clock, jobs, cands, reply, a, 0);
    var b := 0;
    while b < |cands|
      invariant 0 <= b <= |cands|
      invariant store.Valid()
      invariant MatchFrom(store.matches, store.nextMatchId, store.clock, jobs, cands, reply, a, b) == goal
      invariant |old(store.matches)| <= |store.matches|
      invariant store.nextMatchId == old(store.nextMatchId) + (|store.matches| - |old(store.matches)|)
      invariant store.clock == old(store.clock) + (|store.matches| - |old(store.matches)|)
      invariant store.jobs == old(store.jobs) && store.candidates == old(store.candidates)
      invariant store.nextJobId == old(store.nextJobId) && store.nextCandidateId == old(store.nextCandidateId)
    {
      assert cands[b] in cands;
      stop := HandlePair(store, jobs, cands, reply, a, b);
      if stop.Some? {
        return;
      }
      b := b + 1;
    }
    MatchNextJob(store.matches, store.nextMatchId, store.clock, jobs, cands, reply, a, b);
    return None;
  }

  /** `match_candidates_to_jobs`: every job of `get_jobs()` against every
      candidate of `get_candidates()`, both newest first, as read when the
      batch begins. */
  method MatchCandidatesToJobs(store: RecordStore, reply: (int, int) -> ModelReply) returns (outcome: BatchOutcome)
    requires store.Valid()
    modifies store
    ensures store.Valid()
    ensures old(store.jobs) == [] || old(store.candidates) == [] ==>
      outcome == NothingToDo && store.matches == old(store.matches)
    ensures old(store.jobs) != [] && old(store.candidates) != [] ==>
      (store.matches, outcome) ==
      MatchFrom(old(store.matches), old(store.nextMatchId), old(store.clock), old(store.GetJobs()), old(store.GetCandidates()), reply, 0, 0)
    ensures store.nextMatchId == old(store.nextMatchId) + (|store.matches| - |old(store.matches)|)
    ensures store.clock == old(store.clock) + (|store.matches| - |old(store.matches)|)
    ensures store.jobs == old(store.jobs) && store.candidates == old(store.candidates)
    ensures store.nextJobId == old(store.nextJobId) && store.nextCandidateId == old(store.nextCandidateId)
  {
    var jobs := store.GetJobs();
    var cands := store.GetCandidates();
    if jobs == [] || cands == [] {
      return NothingToDo;
    }
    ghost var goal := MatchFrom(store.matches, store.nextMatchId, store.clock, jobs, cands, reply, 0, 0);
    var a := 0;
    while a < |jobs|
      invariant 0 <= a <= |jobs|
      invariant store.Valid()
      invariant MatchFrom(store.matches, store.nextMatchId, store.clock, jobs, cands, reply, a, 0) == goal
      invariant |old(store.matches)| <= |store.matches|
      invariant store.nextMatchId == old(store.nextMatchId) + (|store.matches| - |old(store.matches)|)
      invariant store.clock == old(store.clock) + (|store.matches| - |old(store.matches)|)
      invariant store.jobs == old(store.jobs) && store.candidates == old(store.candidates)
      invariant store.nextJobId == old(store.nextJobId) && store.nextCandidateId == old(store.nextCandidateId)
    {
      var summary := LoadedForm(jobs[a].summary);
      if Truthy(summary) {
        assert jobs[a] in jobs;
        var stop := MatchJob(store, jobs, cands, reply, a);
        if stop.Some? {
          return stop.value;
        }
      } else {
        MatchNextJob(store.matches, store.nextMatchId, store.clock, jobs, cands, reply, a, 0);
      }
      a := a + 1;
    }
    return Completed;
  }
}
