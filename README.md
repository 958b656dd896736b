# RecruitFlow workflow core in Dafny

RecruitFlow is a Streamlit recruiting tool. It loads job descriptions and CVs
and asks a language model to summarise and extract them. It scores every job
against every candidate, and then drives shortlisting and interview
scheduling, which includes generating and mailing an invitation. This project
models the bookkeeping around the language-model and mail calls, and proves
what that bookkeeping promises:

- **Record store** (`database.dfy`, module `Database`). This is
  `DatabaseManager` as an in-memory class `RecordStore`:
  - The three tables are sequences in insertion order.
  - AUTOINCREMENT ids come from one counter per table.
  - `created_at` comes from a clock that every insert advances.
  - The insert, lookup, listing and single-row update operations are methods
    and functions. The listings are inner joins.
- **Batches** (`batches.dfy`, module `Batches`). These are `load_jobs_from_file`,
  `process_candidate_cvs` and `match_candidates_to_jobs`:
  - Each is a loop on the store.
  - Each loop body is a method tied to a one-step function: `CvStep` or
    `MatchStep`, or a step lemma on `LoadFrom`.
  - Each loop is proved equal to a recursive function, `LoadFrom`, `CvsFrom` or
    `MatchFrom`. That function gives the table the batch leaves behind and how
    the batch ended.
  - The lemmas about those functions state the skipping rules, append-only
    growth, fresh ids and the whole-batch abort.
- **Pure helpers and page actions** (`helpers.dfy`, `pages.dfy`, modules
  `Helpers` and `Pages`):
  - How model output is stored and read back.
  - How a scoring result becomes a match row.
  - Score bands and the list filters.
  - The shortlist and schedule gates.
  - The two scheduling forms, both as written and corrected.
- **Result shaping** (`agents.dfy`, `email_sender.dfy`). This covers the failure
  mapping of the three model calls and the module-level
  `generate_interview_email`, plus the recipient guard of `send_email`.
- **CV heuristics** (`pdf_processor.dfy`, `text.dfy`). These are
  `extract_candidate_info`, `_extract_name` and `_extract_section` over ASCII text.
  `text.dfy` models the Python `str` built-ins they use: `lower`, `strip`,
  `split()`, `split('\n')` and `find`. `lower` is a per-character map, so indices
  into the lowered text are indices into the original text.

The model has no I/O. Parameters stand for what the program reads from the
outside world:

- **The language model** is a `ModelReply`: the call raised, the reply did not
  decode, or it decoded to a JSON `Value`. The batches look replies up by
  position: by entry index for jobs, by file index for CVs, and by
  `(job id, candidate id)` for scoring.
- **PDF text** is a function from file index to `Result<string, string>`.
- **The e-mail and phone regular expressions** are functions on the text.
- **SMTP delivery** is a function `SendRequest -> bool`.
- **Python's `str()` of a JSON value** is a function `Value -> string`.
- **Form inputs and button presses** are plain arguments.

Some behaviour of the code that the model keeps:

- The code does not clamp scores to 0..100.
- It does not retry email generation.
- Each batch has a single `try`, so one failure ends the whole batch.
- It never uses the file-name stem as a fallback name, because the name key
  is always present.
- `schedule_interview` accepts a match that is not shortlisted. Only the
  pages' gates keep "scheduled implies shortlisted".
- It stores a failed scoring call as a score of 0.

## Model

| member | source | states |
|---|---|---|
| Database.RecordStore.constructor | utils/database.py:12-57 | a new store has three empty tables and `Valid()` holds |
| Database.RecordStore.RowsInRange | utils/database.py:19-57 | in a valid store every id is between 1 and its table's next id, and every stamp is before the clock |
| Database.JobsChainAscending | utils/database.py:21-25 | row-by-row ascending ids and stamps give ascending ids and stamps between any two job rows |
| Database.CandidatesChainAscending | utils/database.py:32-38 | the same for candidate rows |
| Database.MatchesChainAscending | utils/database.py:45-53 | the same for match rows |
| Database.JobsInRange | utils/database.py:21-25 | bounds on the first and last job row hold for every row |
| Database.CandidatesInRange | utils/database.py:32-38 | bounds on the first and last candidate row hold for every row |
| Database.MatchesInRange | utils/database.py:45-53 | bounds on the first and last match row hold for every row |
| Database.MatchesChainSameKeys | utils/database.py:149-171 | a table with the same ids and stamps at every position keeps ascending order |
| Database.RecordStore.AddJob | utils/database.py:61-68 | appends exactly one row with the given columns, the next id and the current stamp; the new id differs from every stored job id; the other tables are untouched |
| Database.RecordStore.GetJobs | utils/database.py:70-75 | returns exactly the stored jobs, each once, newest first |
| Database.RecordStore.GetJob | utils/database.py:77-83 | returns a stored job with exactly that id, or None exactly when no job has it |
| Database.RecordStore.AddCandidate | utils/database.py:85-92 | fails with the NOT NULL error and changes nothing exactly when the name is None; otherwise appends one row with a fresh id |
| Database.RecordStore.GetCandidates | utils/database.py:94-99 | returns exactly the stored candidates, each once, newest first |
| Database.RecordStore.GetCandidate | utils/database.py:101-107 | returns a stored candidate with exactly that id, or None exactly when no candidate has it |
| Database.RecordStore.AddMatch | utils/database.py:109-116 | appends one match that is not shortlisted, not scheduled, with no date and no feedback, and a fresh id; job and candidate are not checked |
| Database.RecordStore.GetMatches | utils/database.py:118-147 | picks the query by which ids are truthy; each result is the listing predicate for that query |
| Database.PairRows | utils/database.py:123-126 | exactly the matches of the pair, unjoined, each once |
| Database.JobRows | utils/database.py:127-132 | exactly the job's matches whose candidate exists, with its name and email, each once, best score first |
| Database.CandidateRows | utils/database.py:133-138 | exactly the candidate's matches whose job exists, with its title, each once, best score first |
| Database.AllRows | utils/database.py:139-145 | exactly the matches whose job and candidate both exist, with title and name, each once, newest first |
| Database.Join | utils/database.py:129-145 | an inner join: a match is listed, with the joined columns, exactly when the join finds its rows |
| Database.JoinAscending | utils/database.py:129-145 | the join keeps the table order of ids and stamps |
| Database.InsertByScore | utils/database.py:131 | inserting into a listing ordered by score keeps it ordered and adds exactly that row |
| Database.InsertKeepsDistinct | utils/database.py:131 | inserting a row with a new id keeps the listing free of repeats |
| Database.SortByScore | utils/database.py:131 | `ORDER BY m.match_score DESC`: ordered best first, same rows, same length, repeats not introduced |
| Database.WithShortlist | utils/database.py:149-155 | definition of the UPDATE: only the row with that id changes, and in it only `is_shortlisted` |
| Database.WithInterview | utils/database.py:157-163 | definition of the UPDATE: only the row with that id changes, and in it only the schedule flag (set) and the date |
| Database.WithFeedback | utils/database.py:165-171 | definition of the UPDATE: only the row with that id changes, and in it only the feedback |
| Database.RecordStore.UpdateShortlistStatus | utils/database.py:149-155 | the matches become `WithShortlist` of the old ones; everything else is unchanged |
| Database.RecordStore.ScheduleInterview | utils/database.py:157-163 | the matches become `WithInterview` of the old ones, whatever the shortlist flag; everything else is unchanged |
| Database.RecordStore.AddFeedback | utils/database.py:165-171 | the matches become `WithFeedback` of the old ones; everything else is unchanged |
| Database.UnknownIdIsNoOp | utils/database.py:149-171 | each of the three updates leaves a table without that id exactly as it was |
| Database.FeedbackOverwrites | utils/database.py:165-171 | a second feedback replaces the first rather than adding to it |
| Database.UpdatesKeepKeys | utils/database.py:149-171 | the updates keep ids and stamps ascending and keep at most one match per pair |
| Database.UpdatesKeepWorkflow | utils/database.py:149-171 | shortlisting and feedback keep "scheduled only if shortlisted"; all three keep "date present exactly when scheduled" |
| Database.ScheduleShortlistedKeepsWorkflow | utils/database.py:157-163 | scheduling a shortlisted row keeps "scheduled only if shortlisted" |
| Database.ScheduleIgnoresShortlist | utils/database.py:157-163 | scheduling a row that is not shortlisted breaks "scheduled only if shortlisted" |
| Database.PairListingEmpty | utils/database.py:123-126 | the pair query is empty exactly when the pair has no match |
| Database.AddNewPair | utils/database.py:109-116 | adding a match for a pair that has none keeps one match per pair |
| Batches.LoadStep | app.py:84-88 | proof step, one unfolding of `LoadFrom`: an entry whose title is stored is skipped; any other is appended with its stored summary |
| Batches.TitleStored | app.py:85-86 | the `any(...)` test over `get_jobs()` is exactly "some stored job has this title" |
| Batches.HasTitleOfSameRows | app.py:85-86 | two listings with the same rows agree on which titles are present |
| Batches.LoadJobsFromFile | app.py:77-93 | the jobs table becomes `LoadFrom` of the old table; the counters advance by the rows added; the other tables are untouched |
| Batches.LoadKeeps | app.py:84-88 | the load keeps the old rows in place and adds at most one row per entry |
| Batches.LoadTitles | app.py:84-88 | a title is stored afterwards exactly when it was stored before or some entry has it |
| Batches.LoadAddsNewTitles | app.py:84-88 | no added row repeats the title of any earlier row, stored or added, so repeats within the file are skipped too |
| Batches.LoadStamps | app.py:84-88 | added rows carry consecutive ids and stamps from the counters |
| Batches.LoadRow | app.py:84-88 | each added row holds the title and description of the first unstored entry with that title, and the stored summarizer result for it |
| Batches.DictGet | app.py:127-129 | definition, used by `StemNeverUsed`: `dict.get` returns the value when the key is present, and the default otherwise |
| Batches.StemNeverUsed | app.py:127 | the name column is always what `_extract_name` found, even None; the stem default never applies |
| Batches.CvStored | app.py:116-117 | the `any(...)` test over `get_candidates()` is exactly "some stored candidate has this path" |
| Batches.HasCvPathOfSameRows | app.py:116-117 | two listings with the same rows agree on which paths are present |
| Batches.ReadCv | app.py:121-129 | the name, email and phone put into the row are the extracted name and the two regex matches |
| Batches.HandleCv | app.py:111-132 | one loop pass: the table, counters and stop signal become `CvStep` of the old ones; the other tables are untouched |
| Batches.ProcessCandidateCvs | app.py:95-137 | with no files nothing happens; otherwise the table and outcome are `CvsFrom` of the old table |
| Batches.CvsKeeps | app.py:96-137 | the batch keeps the old rows in place, and an abort names one of the given files |
| Batches.CvsAddNewPaths | app.py:115-118 | no added row repeats the CV path of any earlier row |
| Batches.CvsStamps | app.py:126-132 | added rows carry consecutive ids and stamps from the counters |
| Batches.CvsRow | app.py:120-132 | each added row was built from a readable file before the abort point, with the name found in its text |
| Batches.CvsOutcome | app.py:96-137 | an abort is at an unstored file whose text failed to read (with that error) or held no name (the NOT NULL error); a completed batch has every file's path stored |
| Batches.MatchKeeps | app.py:141-181 | the matching batch keeps every old match unmodified and in place, and stops only at a pair of the listings |
| Batches.MatchOnePerPair | app.py:165-177 | at most one match per pair before means at most one match per pair after |
| Batches.HasPairGrows | app.py:166-167 | appending a row keeps every pair that already has a match |
| Batches.MatchRowOrigin | app.py:155-177 | each added match comes from a pair handled before the abort point; that pair has a summary and candidate data, had no match, and its result asked for an insert with that score |
| Batches.MatchAbortedAt | app.py:141-181 | an abort names a scored pair without a match whose result raised with that error |
| Batches.MatchCompletedCovers | app.py:155-177 | after a completed batch, every scored pair whose result was not skipped has a match |
| Batches.FailedScoringStoresZero | app.py:175-177 | a scoring call that fails stores a match with score 0 |
| Batches.MatchNextJob | app.py:155-158 | proof step, one unfolding of `MatchFrom`: a job without a summary, or one whose candidates are done, moves on to the next job |
| Batches.PairMatched | app.py:166-168 | the pair query is non-empty exactly when the pair has a match |
| Batches.HandlePair | app.py:160-177 | one inner pass: the matches, counters and stop signal become `MatchStep` of the old ones |
| Batches.MatchJob | app.py:160-177 | the inner loop takes the matching from `(a, 0)` to `(a + 1, 0)`, or to the batch's end if it aborts |
| Batches.MatchCandidatesToJobs | app.py:139-181 | with no jobs or no candidates nothing happens; otherwise the matches and outcome are `MatchFrom` over the listings read at the start |
| Helpers.StoredForm | app.py:88 | definition, with `LoadStoredForm` as its round trip: the stored form is present exactly when the value is truthy, and then it is the value |
| Helpers.LoadedForm | app.py:156 | definition, with `LoadStoredForm` as its round trip: a NULL column reads back as None; otherwise as the stored value |
| Helpers.LoadStoredForm | app.py:88 | reading back what was stored preserves truthiness, and a truthy value exactly |
| Helpers.ScoreStepOf | app.py:176-177 | a falsy result or a dict without `match_score` inserts nothing; a numeric score is inserted as is and a boolean as 0 or 1; a None score fails the NOT NULL constraint; any other score kind ends the batch; a truthy number or boolean result fails the `in` test |
| Helpers.GetMatchClass | app.py:183-190 | high exactly at 80 or more, low exactly below 50, medium otherwise |
| Helpers.ColorScore | app.py:401-403 | green exactly at 80 or more, red exactly below 50, orange otherwise |
| Helpers.ClassAgreesWithColour | app.py:185-188 | the class and the colour band every score the same way |
| Helpers.ClassMonotone | app.py:183-190 | a higher score is never in a lower band |
| Helpers.ScoreFilter | app.py:390 | keeps exactly the rows with score at least `min_score` |
| Helpers.ScoreFilterKeepsOrder | app.py:390 | the filter keeps the listing's score order, creation order and distinct rows |
| Helpers.ShortlistedOf | app.py:523 | keeps exactly the shortlisted rows |
| Helpers.ForJob | app.py:533 | keeps exactly the rows of that job |
| Helpers.GatesExclusive | app.py:443-451 | no match is offered both actions, and scheduling is offered only to a shortlisted match |
| Pages.RowOfListedMatch | utils/database.py:45 | in a table with ascending ids, the row with a listed match's id is that match |
| Pages.ShortlistKeepsWorkflow | app.py:443-449 | only an offered and pressed button changes the table, and only that match's flag; success is shown exactly then; both workflow invariants are kept |
| Pages.ShortlistCandidate | app.py:443-449 | the matches and message become `ShortlistOutcome` of the old matches; the rest of the store is unchanged |
| Pages.ReviewAsWrittenKeepsWorkflow | app.py:443-466 | for a listed match, the form as written keeps both workflow invariants |
| Pages.ReviewAsWrittenNeverInvites | app.py:456-513 | as written, a submitted form stores the schedule, writes no feedback and shows only the scheduling error |
| Pages.ReviewInvitationLost | app.py:466-500 | with valid content, a string body, a recipient and a delivered send, the corrected form succeeds where the form as written fails |
| Pages.ReviewScheduleFirst | app.py:456-508 | the schedule is stored whatever the email outcome; feedback changes only on email success, and a success records the invitation (date, time and subject) as the match's feedback; success is shown exactly then, and a failure is a warning with the email error; no other row changes |
| Pages.ReviewKeepsWorkflow | app.py:443-466 | for a listed match, the corrected form keeps both workflow invariants |
| Pages.ScheduleFromReview | app.py:450-513 | the matches and message become `ReviewSchedule` of the old matches; the rest of the store is unchanged |
| Pages.PlannerAsWrittenNeverInvites | app.py:582-598 | as written, a submitted form stores the schedule, writes no feedback and ends in the uncaught AttributeError |
| Pages.PlannerAsWrittenKeepsWorkflow | app.py:555-590 | for a listed match, the planner form as written keeps both workflow invariants |
| Pages.PlannerInvitationLost | app.py:582-608 | with valid content, a string body, a recipient and a delivered send, the corrected form records the invitation where the form as written raises |
| Pages.PlannerScheduleFirst | app.py:582-610 | the schedule is stored whatever the email outcome; the invitation feedback appears exactly on email success (or if it was already there), and a failed email step leaves the feedback as it was; success is shown exactly then, and a refused send is reported with its error text; no other row changes |
| Pages.PlannerLostContentRaises | app.py:600-612 | when the email step fails without content (a raised call, an undecodable reply, an invalid structure, a body that is not a string) the page ends in the uncaught `None.get` error; it shows the failure only when content was kept |
| Pages.PlannerReportedFailures | app.py:609-612 | with the unsent-content display guarded, the table is the same and every email failure is shown with its error text |
| Pages.PlannerKeepsWorkflow | app.py:555-590 | for a listed match, the corrected form keeps both workflow invariants |
| Pages.ScheduleFromPlanner | app.py:568-619 | the matches and message become `PlannerSchedule` of the old matches, including the uncaught error for a failure without content; the rest of the store is unchanged |
| Agents.ReplyOrNone | utils/agents.py:29-40 | the decoded reply, or None on any failure; a truthy result always came from a decoded reply |
| Agents.CalculateMatchScore | utils/agents.py:101-112 | the decoded reply unmodified, or exactly `{"match_score": 0.0}` on any failure |
| Agents.InvitationRequest | utils/agents.py:192-198 | definition of the `send_email` arguments: the send carries the recipient and subject, the HTML body when there is one and the plain body otherwise, and is flagged HTML exactly when `html_body` is present |
| Agents.GenerateInterviewEmail | utils/agents.py:120-217 | sends exactly when the content is valid and there is a recipient; `success` implies valid content and a delivered send of a string body if any; each failure path returns its error text and keeps no content, including a body that is not a string, which makes `send_email` raise into the outer handler; only a refused send keeps the content |
| Agents.RecipientGuardNeverFires | utils/agents.py:192-198 | every send the function attempts passes the recipient check of `send_email`, so that call raises only for a body that is not a string |
| EmailSender.SendEmail | utils/email_sender.py:28-40 | an empty recipient raises `ValueError`, and a body that is not a string makes `MIMEText` raise, both before the SMTP `try`; otherwise the result is the transport's verdict |
| PdfProcessor.NameInFirstAccepted | utils/pdf_processor.py:41-45 | no name exactly when no line is accepted; a name is the first accepted line, stripped |
| PdfProcessor.NameFirstAccepted | utils/pdf_processor.py:38-45 | None exactly when no stripped line qualifies; a found name qualifies and is the first qualifying line, stripped |
| PdfProcessor.ExtractName | utils/pdf_processor.py:38-45 | the line loop with early return computes `NameOf` |
| PdfProcessor.SectionEnd | utils/pdf_processor.py:67-72 | the earliest position, at or after the start, of a different header, or the end of the text |
| PdfProcessor.SectionEndStep | utils/pdf_processor.py:68-72 | proof step: one update of the running minimum |
| PdfProcessor.SectionEndPos | utils/pdf_processor.py:67-72 | the inner loop computes `SectionEnd` over the whole header list |
| PdfProcessor.EndsSectionOf | utils/pdf_processor.py:67-72 | where the section ends is the earliest later occurrence of another header, or the end of the text |
| PdfProcessor.SectionOf | utils/pdf_processor.py:60-76 | None exactly when no header occurs in the lowered text; a section is a contiguous piece of the original text |
| PdfProcessor.SectionShape | utils/pdf_processor.py:62-75 | a section starts after the first header in list order that occurs, even if a later-listed header occurs earlier, ends where the section ends, and is stripped |
| PdfProcessor.ExtractSection | utils/pdf_processor.py:60-76 | the nested loops compute `SectionOf` |
| PdfProcessor.ExtractCandidateInfo | utils/pdf_processor.py:25-35 | exactly the six keys, holding the name, the two regex matches and the three sections |
| Text.Lower | utils/pdf_processor.py:62 | definition of ASCII `lower`: same length, lowered character by character |
| Text.Strip | utils/pdf_processor.py:42 | the slice between leading and trailing whitespace, with no whitespace at either end |
| Text.StripOfSlice | utils/pdf_processor.py:74 | stripping a slice of a text gives a slice of that text |
| Text.Words | utils/pdf_processor.py:43 | the words are non-empty and hold no whitespace |
| Text.WordsOfJoined | utils/pdf_processor.py:43 | splitting words joined by spaces gives the words back |
| Text.SplitLines | utils/pdf_processor.py:40 | at least one piece, none holding a line break |
| Text.JoinSplitLines | utils/pdf_processor.py:40 | joining the pieces of a split gives the text back |
| Text.SplitJoinLines | utils/pdf_processor.py:40 | splitting lines joined by line breaks gives the lines back |
| Text.Find | utils/pdf_processor.py:64 | the least position at or after the start where the substring occurs, or -1 when there is none |
| Seqs.Keep | app.py:390 | keeps exactly the elements satisfying the predicate |
| Seqs.KeepPairwise | app.py:390 | filtering keeps every relation between earlier and later elements |
| Seqs.FindFirst | utils/database.py:81-83 | a found element is in the sequence and matches; None exactly when none matches |
| Seqs.Reverse | utils/database.py:74 | element `i` of the result is element `n - 1 - i` of the input |
| Seqs.FirstIndex | utils/pdf_processor.py:63-65 | the first index from `k` whose element satisfies the predicate, or None when there is none |
| Seqs.FirstIndexAt | utils/pdf_processor.py:63-65 | the first index is where the predicate first holds |

## Left out

- The Streamlit rendering is not modelled: layout, CSS, `session_state` navigation, pandas tables, expanders and `st.rerun`. The pages' actions are modelled as functions from the shown match and the inputs to the new table and one message.
- The `processed` counter and the progress-bar fractions are not modelled. They are floats for display and do not affect the tables.
- The Groq client, the prompts and the sampling temperatures become a `ModelReply` parameter. Each reply is looked up by item index or by `(job id, candidate id)`, so a repeated identical request gets the same answer.
- SMTP, TLS and the MIME message are modelled only up to the SMTP `try`:
  - The recipient guard is modelled.
  - So is the `MIMEText` failure on a body that is not a string.
  - Whatever happens inside the `try` is the verdict `delivered(request)`. That includes a subject that is not a string, which fails only when the message is serialised.
- SQLite, the DDL, connections and `CURRENT_TIMESTAMP` are replaced by sequences, counters and a clock.
  - Database.RecordStore.GetJobs, Database.RecordStore.GetCandidates, Database.AllRows and Batches.MatchCandidatesToJobs: the model's stamps are strictly increasing, so its "newest first" orders have no ties.
    - The source's `CURRENT_TIMESTAMP` has one-second resolution, so rows inserted within the same second tie under `ORDER BY created_at DESC`.
    - SQLite's order among equal stamps is not modelled. The model lists tied rows newest-inserted first.
    - The matching batch iterates the job and candidate listings in that order. So the ids and stamps of the new match rows, and which pairs are scored before an abort, follow the modelled order and not necessarily SQLite's. Two CVs processed within one second show it.
  - Ties in `ORDER BY match_score DESC` are resolved in one admissible order; SQLite's own tie order is not modelled.
  - Foreign keys are not enforced, as in SQLite by default.
- PDF reading with PyPDF2 and pdfminer is a parameter: the text of each file, or the error when both readers raise.
- The e-mail and phone regular expressions are parameters applied to the text.
- JSON text is not modelled. A stored summary or extracted-data column holds the decoded `Value`, and `json.loads(json.dumps(v))` is taken to be `v`.
- `config.py` (environment loading and `validate`) is not part of this model.
- `generate_rejection_email` is not modelled. It is nested inside `generate_interview_email` after that function's final `return`, so it is unreachable.
- The prompt text and the `match_details` default of `generate_interview_email` are not modelled. They only feed the prompt.
- The `interview_notes` text area of the scheduling page is not modelled. It is never used.
- The "View Details" and resend-invitation parts of the scheduling page (after app.py:620) are not modelled. They are outside the gating this model covers.
- Text.IsSpace, Text.IsUpper, Text.Lower, Text.Strip, Text.Words and the PdfProcessor members built on them give every character ASCII meaning. Python's `str` methods are Unicode-aware:
  - `strip` and `split()` also treat `\x85`, `\xa0` and the other Unicode spaces as whitespace.
  - `isupper` and `lower` also apply to letters such as `'É'`.

  Such characters are common in PDF text. On such text the model's names and sections can differ from the source's.
- Batches.LoadJobsFromFile: the file is given as decoded entries with a title and a description. Failures to open or parse the file, entries missing a key, and entries whose title or description is null are not modelled. A null title or description would make `add_job` fail the `TEXT NOT NULL` constraint and end the batch. None of these failures is modelled, so the model's load batch has no abort path.
- Batches.ProcessCandidateCvs: the folder listing `cvs_folder.glob("*.pdf")` is the `pdfFiles` parameter, in the order it gives. The status-text messages are not modelled.
- Helpers.ScoreStepOf: a string `match_score` ends the batch in the model, which has only real scores. The source stores every string score and goes on. The column is `REAL NOT NULL` in a table that is not STRICT, so numeric text is stored as REAL and any other text as TEXT. The abort's message in the model is a stand-in.
- Helpers.ScoreStepOf: a model number is an exact real, so three scores that `json.loads` can produce are not expressible:
  - `NaN`: sqlite3 binds it as NULL, so the NOT NULL constraint ends the batch.
  - `Infinity`: stored as REAL.
  - An integer beyond 64 bits: sqlite3 raises `OverflowError` when binding it, so the batch ends, while the same magnitude written as a float is stored.
- Helpers.ScoreStepOf, EmailSender.SendEmail and Agents.GenerateInterviewEmail: a number's Python type name in the error texts (`Json.PyTypeName`) is `int` for an integral value and `float` otherwise. This misnames an integral number written with a fraction or an exponent. For example, a JSON body `3.0` gives `'int' object has no attribute 'encode'` in the model, where Python says `'float'`.
- Helpers.ColorScore and Helpers.GetMatchClass take a real score. Python's comparison of an int score is the same.
- Pages.ScheduleFromReview and Pages.ReviewSchedule: the date and time inputs are given as optional strings, and Python's `str()` of a `datetime.date` and a `datetime.time` is not modelled.
- Pages.ScheduleFromPlanner and Pages.PlannerSchedule: the page's `st.error` shown before the `None.get` error, and the session keys that stay set because of it, are not modelled. The notice is the uncaught error alone.
- Pages.ScheduleFromPlanner and Pages.PlannerSchedule: the shown match is the one stored in `session_state`, and whether it still satisfies the gate on the later rerun is not modelled. The gate is applied to that match as shown.

## Findings

| source | as written | input that shows it | evidently intended | confidence | as-written member | corrected member |
|---|---|---|---|---|---|---|
| app.py:469-470, app.py:587-588, utils/agents.py:114-120 | both scheduling forms call `InterviewScheduler().generate_interview_email(...)`, but `generate_interview_email` is defined at module level (it still takes `self`, so it was meant as a method of `InterviewScheduler`), so the call raises `AttributeError` after `schedule_interview` has stored the schedule | any shortlisted, unscheduled match whose scheduling form is submitted with a date and a time: the review page shows "Failed to schedule interview: 'InterviewScheduler' object has no attribute 'generate_interview_email'", the scheduling page raises it uncaught, and no invitation is ever generated, sent or recorded | the scheduler's email method is called; on success the invitation is recorded as the match's feedback; on failure the page reports the email error | high (not executed) | Pages.ReviewAsWrittenNeverInvites, Pages.PlannerAsWrittenNeverInvites | Pages.ReviewScheduleFirst, Pages.PlannerScheduleFirst |
| app.py:609-612, utils/agents.py:182-188, utils/agents.py:211-216 | after a failed email step the scheduling page shows the unsent body with `email_result.get('email_content', {}).get('body', ...)`; `generate_interview_email` always sets `email_content`, to None on every failure except a refused send, so `None.get` raises `AttributeError` and the page never clears its session keys | a submitted scheduling form (with the first finding's call corrected) whose model call raises, or whose reply is not JSON, lacks `subject` or `body`, or has an HTML or plain body that is not a string | a missing content is displayed as "No content generated" and the failure message stands | high (not executed) | Pages.PlannerLostContentRaises | Pages.PlannerReportedFailures |
