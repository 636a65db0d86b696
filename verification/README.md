# Verified model of the Mnemo learning engine

Mnemo keeps decks of flashcards, schedules their reviews with SM-2, runs timed
study sessions, imports CSV files in a background worker, limits request rates
and plans study time. This project models that backend in Dafny, component by
component, and proves what its parts promise over whole runs.

| module | models |
|---|---|
| `SpacedRepetition` | the SM-2 memory state of a card, as a class updated in place, and whole review histories |
| `Text`, `CsvRows` | classification and de-duplication of the records of an uploaded file |
| `Storage` | the tables, the invariants of every committed state, and a session with a committed and a working copy |
| `DeckService` | creating, editing and deleting decks and cards, and the memory state an answer leaves |
| `ImportJob` | processing one import job inside a transaction, with its rollback branches |
| `Ledger` | the committed database as a sequence of atomic acts: requests, uploads, finished imports |
| `ImportWorker` | the import protocol: lossy Redis list, polled job table, one worker that can crash between any two steps, and requests that go on beside its transaction |
| `WorkerLoop` | the worker's own functions and loop, shown to be runs of that protocol |
| `Draining`, `WorkerProgress` | which jobs the loop finishes, and when it drains: first on a set of jobs and a list, then for the worker |
| `Progress` | mastery and due counts, and the per-deck summaries |
| `LearningHistory` | memory states and progress figures over whole runs, as the histories of the answers given |
| `StudySession` | sessions ordered by a mutable position, against a plain rotating queue |
| `RateLimit` | expiring Redis counters, against counters that never forget |
| `StudyPlan`, `Streak` | the schedule loop and the streak loop, against closed forms |
| `Idempotency` | the deck-creation route with its 24-hour replay store |
| `ApiKeys` | key parsing, and validation through an index, against a scan of all keys |

How the parts fit: a method of a class changes its fields step by step, as the
service does, and its postcondition equates the result and the new state with a
specification function (`Step`, `Serve`, `Import`, `Turn`, `Handle`). The lemmas
then prove what holds of those functions over all inputs and all runs. The
import worker has three levels: its loop is a run of the protocol
(`WorkerLoop.TurnRuns`), every run of the protocol leaves what its atomic acts
leave (`ImportWorker.ProtocolRefinesLedger`), and every act keeps the
invariants (`Ledger.ActKeepsLaws`). The same levels carry the learning state: in
every run, imports and crashes included, the memory state of a card is what its
answers make of a fresh one (`LearningHistory.ProtocolKeepsHistories`).

Conventions: instants are integers (seconds for reviews and sessions, seconds
and milliseconds for the rate limiter, microseconds for idempotency), the ease
factor is in integer hundredths, identifiers are taken from counters, so a new
identifier is one never used before and a job's identifier orders it by
creation. Stripping white space, lower-casing, splitting into words, hashing
and the conversion of an instant to a local day are parameters. Tables are
maps and a request is one step. Only the row of an import job is locked, and only
its deletion waits for the lock; that requests for the deck being imported into
wait as well is an assumption, which rules out lost updates.

## Findings

- A row longer than the flashcard columns is accepted by the parser, and the
  cards are flushed only by the worker's commit, outside the handlers that mark
  a job as FAILED. The commit raises, the job stays QUEUED for ever, and since
  the database path always claims the oldest queued job, it also blocks every
  younger job that Redis has forgotten. `WorkerProgress.OversizedRowExample` is
  a run from the empty database, whether or not Redis heard of the bad upload.
  So "no job is stranded" is false of the code, and holds exactly as follows.
  A queued job can finish when its reader fails, its deck is not its user's, or
  all distinct rows of its file fit the columns. Without faults the worker drains if and only if every
  queued job can finish (`WorkerProgress.DrainsExactly`), and a single job is
  finished if and only if it can finish and either its identifier is in Redis
  or every older queued job can finish (`WorkerProgress.JobFinishedExactly`).
- PROCESSING is flushed but never committed (`Storage.JobsInv` is an invariant
  of every run), so the reset at start-up finds nothing to do
  (`ImportWorker.ResetFindsNothing`).
- The rollback of a failing import releases the lock on its job. The job is
  reported as retriable exactly when its owner deletes the deck before the job
  is read again (`WorkerLoop.RetriableExactly`). The retry then does nothing:
  the identifier goes back to Redis and is dropped when it is taken again
  (`ImportWorker.RetriedIdentifierIsDropped`).
- A session started with no cards stays ACTIVE until it is ended or expires
  (`StudySession.EmptySessionStaysActive`); `StudySession.SessionEndsExactly`
  says of every session when it is over.
- Once a session has expired, its summary can still change: ending it sets its
  end time and time taken (`StudySession.ClosedSessionFrozen`).
- A rate-limit script that runs after its counter has expired, for a clock read
  in the bucket before, starts that bucket's count again
  (`RateLimit.LateScriptForgets`); when all scripts are late, no bound holds
  (`RateLimit.LateScriptsUnbounded`). A slot admits exactly min(attempts, limit)
  requests if and only if every script for it runs before its first expiry, or
  there are no more attempts than the limit, or the limit is below one;
  otherwise it admits more (`RateLimit.AdmittedExactly`). All responses are
  those of counters that never forget if and only if every script runs in time
  whose limit is at least one (`RateLimit.ExpiryLosesNothing`).
- Six passes in a row do not always reach the mastery threshold, seven always
  do (`SpacedRepetition.SixPassesMayNotMaster`,
  `SpacedRepetition.SevenPassesMaster`).

## Model

| member | source | states |
|---|---|---|
| `SpacedRepetition.CardMemoryState.constructor` | src/mnemo/services/spaced_repetition.py:35-44 | a new memory state is the fresh one: ease 2.50, nothing repeated, interval 0, not due |
| `SpacedRepetition.CardMemoryState.UpdateAfterAnswer` | src/mnemo/services/spaced_repetition.py:49-86 | the field-by-field update in place leaves the state the specification gives for any state, score and clock |
| `SpacedRepetition.NextReview` | src/mnemo/services/spaced_repetition.py:55-84 | from every reachable state a review changes the ease factor by -0.80, -0.54, -0.32, -0.14, 0 or +0.10 for scores 0 to 5, not below 1.30; a failed one starts over with one day, a passed one waits 1 day, then 6, and then the old interval times the new ease factor, rounded up; it is due that many days after it |
| `SpacedRepetition.EaseClosedForm` | src/mnemo/services/spaced_repetition.py:56-57 | after any history the clamped ease factor is the greatest of the unclamped sum and the sums restarted from the floor after each review, and is one of them |
| `SpacedRepetition.EaseBounds` | src/mnemo/services/spaced_repetition.py:56-57 | in every reachable state the ease factor lies between 1.30 and 2.50 + 0.10 n |
| `SpacedRepetition.RepetitionsAreTrailingRun` | src/mnemo/services/spaced_repetition.py:59-79 | repetitions and streak are both the length of the longest run of passing scores at the end of the history, and nothing else is |
| `SpacedRepetition.IntervalAtLeastMinimal` | src/mnemo/services/spaced_repetition.py:64-83 | in every reachable state the interval is at least the minimal one for its repetitions, and the due date is the last review plus the interval |
| `SpacedRepetition.MinimalIntervalAttained` | src/mnemo/services/spaced_repetition.py:56-79 | for every number of repetitions some history has exactly the minimal interval, so the bound is tight |
| `SpacedRepetition.IntervalGrowth` | src/mnemo/services/spaced_repetition.py:64-76 | with r >= 2 repetitions the interval is at least 6 * 1.3^(r - 2) days |
| `SpacedRepetition.SevenPassesMaster` | src/mnemo/services/spaced_repetition.py:59-79 | seven or more passes in a row reach the 21-day mastery threshold (src/mnemo/services/progress.py:20) from every reachable state |
| `SpacedRepetition.SixPassesMayNotMaster` | src/mnemo/services/spaced_repetition.py:59-79 | a card that is passed six times in a row and is not mastered |
| `SpacedRepetition.BetterScoresDominate` | src/mnemo/services/spaced_repetition.py:49-86 | of two histories at the same times, the one with scores at least as good ends with repetitions, streak, ease factor, interval and due date all at least as large |
| `Text.StripTrims` | src/mnemo/services/import_job.py:69-70 | stripping leaves no white space at either end and does not change what is already trimmed |
| `Text.StripRemovesSpace` | src/mnemo/services/import_job.py:69-70 | stripping removes white space at the two ends and nothing else |
| `CsvRows.ParseCsvRows` | src/mnemo/services/import_job.py:41-93 | the special case for the first record plus the loop give the rows and the errors of one uniform classification of every record by its index |
| `CsvRows.RecordsConserved` | src/mnemo/services/import_job.py:60-91 | accepted, reported and ignored records add up to all records |
| `CsvRows.RowsAreClean` | src/mnemo/services/import_job.py:69-74 | accepted rows have two non-blank, trimmed cells |
| `CsvRows.RowsKeepOrder` | src/mnemo/services/import_job.py:77-91 | every accepted record is in the result, at the position counting those accepted before it |
| `CsvRows.RowsExactly` | src/mnemo/services/import_job.py:53-91 | a row is accepted if and only if it is the first two cells, stripped, of a record that is not the title line and has text in both |
| `CsvRows.ErrorsExactly` | src/mnemo/services/import_job.py:77-89 | an error is reported if and only if the record it numbers has text, is not the title line, and lacks a cell or the text in one; a file without records has the one error that it is empty |
| `CsvRows.ErrorsKeepOrder` | src/mnemo/services/import_job.py:77-89 | errors are reported in the order of the records |
| `CsvRows.TitleIsDropped` | src/mnemo/services/import_job.py:28-34 | a file with a title line, in any case and spacing, parses to the rows of the file without it |
| `CsvRows.KeptUnlessDuplicate` | src/mnemo/services/import_job.py:37-38 | a row counts as a duplicate if and only if the deck or an earlier row has the same question and the same answer up to letter case and surrounding white space |
| `CsvRows.FirstKeptInOrder` | src/mnemo/services/import_job.py:160-166 | every first occurrence is kept, at the position counting those before it |
| `CsvRows.DedupeRows` | src/mnemo/services/import_job.py:152-168 | exactly the first occurrences of keys not already present are kept, in order, and kept plus skipped are all rows |
| `CsvRows.KeptKeys` | src/mnemo/services/import_job.py:152-168 | the kept rows bring exactly the keys that were missing |
| `CsvRows.KeptDistinct` | src/mnemo/services/import_job.py:158-166 | no two kept rows have the same normalised key |
| `CsvRows.SecondDedupeKeepsNothing` | src/mnemo/services/import_job.py:152-168 | once the kept keys are present, the same rows are all skipped |
| `Storage.Database.Commit` | src/mnemo/models/flashcard.py:29-30 | a commit stores the working copy when every card fits its columns; otherwise it fails and the committed rows stay |
| `Storage.Database.Rollback` | src/mnemo/services/import_job.py:255 | the working copy is the committed one again |
| `DeckService.CreateDeckRow` | src/mnemo/services/deck.py:39-66 | a name taken up to letter case is refused and nothing changes; otherwise the specified rows, under the next identifier |
| `DeckService.UpdateDeckRow` | src/mnemo/services/deck.py:117-155 | fields that differ are overwritten one by one and the version moves just when one did |
| `DeckService.DeleteDeckRow` | src/mnemo/services/deck.py:158-171 | the deck goes with its cards, their memory states and its import jobs |
| `DeckService.CreateCardRow` | src/mnemo/services/flashcard.py:27-58 | a card in a deck the user owns, counted in the deck's counter and version |
| `DeckService.UpdateCardRow` | src/mnemo/services/flashcard.py:102-149 | fields that differ are overwritten one by one and the deck's version moves just when one did |
| `DeckService.DeleteCardRow` | src/mnemo/services/flashcard.py:152-166 | the card and its memory states go, counter and version follow |
| `DeckService.ClampNeverTaken` | src/mnemo/services/flashcard.py:163 | in every valid state the counter of a card's deck is at least one, so the clamp at zero changes nothing and the new counter is the number of cards left |
| `DeckService.RequestKeepsLaws` | src/mnemo/services/flashcard.py:27-166 | every request keeps counters exact, references closed and deck names distinct, and moves each deck's version by exactly the cards created, deleted and edited and the deck edits an observer sees |
| `DeckService.CreateThenDeleteRestores` | src/mnemo/services/flashcard.py:152-166 | deleting a card just created gives back the same rows, except for the spent identifier and a version two higher |
| `DeckService.EditAgainChangesNothing` | src/mnemo/services/deck.py:126-147 | sending the same deck or card edit twice leaves what sending it once leaves |
| `DeckService.RequestSucceedsExactly` | src/mnemo/services/deck.py:26-36 | requests for one's own decks and cards succeed and others fail, except that a new deck name is refused if and only if another deck of the owner has it up to letter case |
| `DeckService.TakesEffectExactly` | src/mnemo/models/flashcard.py:29-30 | a request takes effect if and only if it succeeds and gives no card a question of more than 1000 or an answer of more than 2000 characters; any other leaves the database alone |
| `DeckService.DeckReads` | src/mnemo/services/deck.py:117-155 | what a reader finds in each field of a deck just created or edited |
| `DeckService.CardReads` | src/mnemo/services/flashcard.py:102-149 | what a reader finds in each field of a card just created or edited |
| `DeckService.RequestOnCards` | src/mnemo/services/flashcard.py:27-166 | a card changes, appears or disappears only by the request made for it, or with its deck |
| `DeckService.RequestKeepsMemories` | src/mnemo/services/deck.py:163-168 | every request leaves the memory states of all users on all cards alone that it neither answers nor removes; removed cards lose theirs and new ones have none |
| `DeckService.RequestsOnJob` | src/mnemo/services/deck.py:158-171 | over a run of requests an import job disappears if and only if its deck is deleted by its owner |
| `ImportJob.WipeDeckCards` | src/mnemo/services/import_job.py:171-187 | the deck's cards and their memory states go, and the number of cards deleted is returned |
| `ImportJob.WipeForReplace` | src/mnemo/services/import_job.py:216-220 | the counter becomes zero and the version grows by the number of cards deleted |
| `ImportJob.AddRows` | src/mnemo/services/import_job.py:228-246 | one new card per row in order, counter and version grow by their number, and the file name is noted unless it is empty |
| `ImportJob.TryImport` | src/mnemo/services/import_job.py:202-250 | raises exactly in the failing cases and with the errors collected so far; otherwise the working copy holds the import |
| `ImportJob.ProcessImportJob` | src/mnemo/services/import_job.py:190-273 | commits nothing itself; a missing or finished job changes nothing; a completed import is in the working copy; after a failure the working copy is what others committed since the rollback, with the job marked FAILED, or there is no result when the job has gone |
| `ImportJob.ImportKeepsLaws` | src/mnemo/services/import_job.py:190-273 | an import that fails leaves the library as it was; one that completes keeps all invariants and moves versions by exactly what changed |
| `ImportJob.ImportIgnoresStatus` | src/mnemo/services/import_job.py:195-198 | the outcome does not depend on whether the job is read as queued or as processing |
| `ImportJob.ImportSeesItsDeck` | src/mnemo/services/import_job.py:203-250 | an import computes the same rows, deck row and record from two states that agree on its deck, whatever else differs |
| `ImportJob.WrittenIsImported` | src/mnemo/services/import_job.py:215-246 | the cards and the one deck row a transaction writes are the whole effect of the import |
| `ImportJob.ImportedKeys` | src/mnemo/services/import_job.py:215-244 | after a completed import the deck's keys are those of the file, plus, when merging, those it had |
| `ImportJob.MergeAgainAddsNothing` | src/mnemo/services/import_job.py:222-226 | merging the same file into the same deck again completes, adds no card, skips every row and leaves the library as it was |
| `ImportJob.ReplaceHoldsFile` | src/mnemo/services/import_job.py:216-244 | replacing leaves exactly the distinct rows of the file, in file order, whatever the deck held, so replacing again gives the same sequence |
| `ImportJob.CompletesExactly` | src/mnemo/services/import_job.py:203-250 | a job completes if and only if nothing unexpected happens, its deck is its user's, the file can be read and has an accepted row; it then records how many rows were added and skipped and the errors of the others |
| `ImportJob.FailureReason` | src/mnemo/services/import_job.py:252-271 | the last error of a failed job says why it failed, each reason exactly when it applies, after the errors collected before |
| `ImportJob.ImportedCardReads` | src/mnemo/services/import_job.py:229-240 | a card made by an import has a row of the file as question and answer, the default difficulty, no tags and no source |
| `ImportJob.ImportNotesFile` | src/mnemo/services/import_job.py:245-246 | the deck notes the file's name if and only if the import completes, adds a row and the name is not empty |
| `ImportJob.ImportOnCards` | src/mnemo/services/import_job.py:171-187 | an import changes no card, and removes exactly those of its own deck when it replaces and completes |
| `ImportJob.ImportKeepsMemories` | src/mnemo/services/import_job.py:179-186 | an import leaves the memory states of all cards alone that it does not remove |
| `Ledger.StorableExactly` | src/mnemo/models/flashcard.py:29-30 | an import can be committed exactly when it fails or every row it would add fits the card columns |
| `Ledger.FittingFileIsStorable` | src/mnemo/models/flashcard.py:29-30 | a file whose accepted rows all fit can always be committed, whatever the deck holds |
| `Ledger.ActKeepsLaws` | src/mnemo/services/import_job.py:96-273 | requests, uploads and finished imports all keep the invariants of committed states and the version law |
| `Ledger.RunKeepsInvariant` | src/mnemo/services/import_job.py:190-273 | in every run the committed state keeps them, so no job is ever committed as PROCESSING |
| `Ledger.LedgerBalances` | src/mnemo/services/flashcard.py:27-166 | after any run from an empty database each deck's counter is its number of cards and its version is one plus everything ever created, deleted or edited in it, imports included |
| `Ledger.FinalRecordStays` | src/mnemo/services/import_job.py:195-196 | over any run the record of a finished job stays as it is |
| `Ledger.FinalStatusExplained` | src/mnemo/services/import_job.py:190-273 | over any run a job is COMPLETED if and only if some act added its rows to the library, FAILED if and only if some act recorded its errors and left the library alone, and at most one act did either |
| `Ledger.UploadMakesJob` | src/mnemo/services/import_job.py:96-120 | an upload to one's own deck makes a queued job that carries user, deck, mode, records and file name, under a new identifier; any other upload makes none |
| `ImportWorker.ResetFindsNothing` | src/mnemo/workers/import_worker.py:25-32 | in every reachable state the reset at start-up changes nothing |
| `ImportWorker.ResetClearsProcessing` | src/mnemo/workers/import_worker.py:25-32 | whatever was committed, no job is left in PROCESSING, and jobs that were not in it are untouched |
| `ImportWorker.StepRefines` | src/mnemo/workers/import_worker.py:65-170 | one step of the protocol commits its atomic act or nothing, and what the worker holds still agrees with what is committed, although requests for other decks go on beside its transaction |
| `ImportWorker.ProtocolRefinesLedger` | src/mnemo/workers/import_worker.py:25-170 | every run with lost and duplicated identifiers, requeues, polls, crashes and restarts leaves the database its atomic acts would leave |
| `ImportWorker.ImportedExactlyOnce` | src/mnemo/workers/import_worker.py:65-131 | over every run of the protocol at most one act finishes a job; the job ends as COMPLETED if and only if that act added its rows, and as FAILED if and only if it recorded its errors and left the library alone |
| `ImportWorker.FinalStatusAbsorbing` | src/mnemo/workers/import_worker.py:75-76 | a committed COMPLETED or FAILED record never changes again |
| `ImportWorker.JobCarriesUpload` | src/mnemo/services/import_job.py:104-117 | over every run of the protocol after an upload its job carries what was uploaded for as long as it exists |
| `ImportWorker.UploadTakesEffect` | src/mnemo/services/import_job.py:215-250 | the step that makes the job COMPLETED leaves the deck, for a replacing upload, with one card for each distinct row of the uploaded file and nothing else, and for a merging one with the cards it had and the keys that were missing |
| `ImportWorker.OnlyCompletionTouchesLibrary` | src/mnemo/workers/import_worker.py:123-131 | apart from requests the library changes only in the step that commits a job as COMPLETED, and then by that job's import |
| `ImportWorker.RemovedJobIsRetried` | src/mnemo/services/import_job.py:255-273 | a job found gone after the rollback leaves the database alone, and on the Redis path its identifier is put back |
| `ImportWorker.RetriedIdentifierIsDropped` | src/mnemo/workers/import_worker.py:75-76 | whatever happens in between, such an identifier is dropped when it is taken again |
| `WorkerLoop.Worker.ResetStuckJobs` | src/mnemo/workers/import_worker.py:25-32 | the reset is committed |
| `WorkerLoop.Worker.DequeueJobId` | src/mnemo/workers/import_worker.py:35-49 | takes the oldest identifier, or none |
| `WorkerLoop.Worker.RequeueJobId` | src/mnemo/workers/import_worker.py:134-141 | puts an identifier behind all others |
| `WorkerLoop.Worker.ProcessJob` | src/mnemo/workers/import_worker.py:65-131 | a job that is not queued is refused; one whose result can be stored is committed; one whose commit fails raises; one that has gone after a rollback is reported as retriable |
| `WorkerLoop.Worker.ProcessRedisJob` | src/mnemo/workers/import_worker.py:144-161 | the specified Redis half of an iteration: refused identifiers are dropped, and those that raise or are to be retried go back |
| `WorkerLoop.Worker.ProcessDbJob` | src/mnemo/workers/import_worker.py:164-170 | the specified database half: one attempt at the oldest queued job |
| `WorkerLoop.Worker.RunWorker` | src/mnemo/workers/import_worker.py:181-197 | reset and loop leave the state that the specified iterations leave |
| `WorkerLoop.RetriableExactly` | src/mnemo/workers/import_worker.py:123-131 | an attempt is reported as retriable if and only if the job is queued, its import fails, and its owner deletes the deck before it is read again |
| `WorkerLoop.TurnRuns` | src/mnemo/workers/import_worker.py:187-194 | an iteration of the loop, gaps after rollbacks included, is a run of the protocol, so all run properties hold of the loop |
| `WorkerLoop.AnyQueue` | src/mnemo/workers/import_worker.py:35-49 | from any state some run leaves Redis with any list of identifiers at all and changes nothing else, so nothing proved of all runs relies on what Redis holds |
| `Draining.FinishedExactly` | src/mnemo/workers/import_worker.py:181-197 | on a set of jobs and a list: after as many iterations as the backlog is large a job is gone if and only if it can be finished and is in the list or no older job is stuck |
| `WorkerProgress.TurnShrinks` | src/mnemo/workers/import_worker.py:144-170 | when every queued job can finish, each iteration lowers the number of queued jobs plus waiting identifiers until it is zero, whatever faults and requests intervene |
| `WorkerProgress.NoJobStranded` | src/mnemo/workers/import_worker.py:181-197 | when every queued job can finish, a restarted worker brings all of them to a final status and empties the list in at most as many iterations as the backlog is large, from any state of the protocol |
| `WorkerProgress.StorableIfCanFinish` | src/mnemo/models/flashcard.py:29-30 | without faults a queued job can be stored if and only if its reader fails, its deck is not its user's, or all distinct rows of its file fit |
| `WorkerProgress.LengthsKeptMeansLongRowsDiffer` | src/mnemo/services/import_job.py:37-38 | when lower-casing keeps lengths, a row too long for the columns never has the key of one that fits, in any valid state |
| `WorkerProgress.LongDuplicateIsSkipped` | src/mnemo/services/import_job.py:152-168 | where lower-casing takes a long question to the same string as a short one, a merged long row is skipped as a duplicate of a card and its job is completed |
| `WorkerProgress.JobFinishedExactly` | src/mnemo/workers/import_worker.py:35-62 | without faults, and from any state of the protocol, a queued job is finished after enough iterations if and only if it can finish and its identifier is in Redis or every older queued job can finish |
| `WorkerProgress.JobStuckForEver` | src/mnemo/workers/import_worker.py:52-62 | a job that cannot finish, or that the worker does not get to, stays queued over any number of iterations, whatever is in Redis |
| `WorkerProgress.DrainsExactly` | src/mnemo/workers/import_worker.py:181-197 | without faults all jobs reach a final status if and only if every queued job can finish |
| `WorkerProgress.ProgressExactly` | src/mnemo/workers/import_worker.py:187-194 | for every locale, an iteration during which nothing is requested changes the database if and only if the job at the head of the list or the oldest queued job can be stored |
| `WorkerProgress.BlockedForEver` | src/mnemo/workers/import_worker.py:123-131 | for every locale, when neither can be stored and the list offers no other, nothing changes over any number of iterations |
| `WorkerProgress.OversizedRowExample` | src/mnemo/models/flashcard.py:29 | a run from the empty database (a deck, a bad upload that Redis hears of or not, a good one that it does not) after which neither job is ever finished |
| `WorkerProgress.OrdinaryLocaleKeepsExample` | src/mnemo/services/import_job.py:69-70 | stripping and lower-casing leave the strings of that run alone whenever its letters are neither white space nor changed by lower-casing |
| `Progress.GetDeckSummaries` | src/mnemo/services/progress.py:225-277 | two grouped queries and a loop give every deck of the user the counts its own queries would give |
| `Progress.SummariesAddUp` | src/mnemo/services/progress.py:164-213 | in every valid state the summaries add up to the user's mastered and due totals, and the stored counters to the user's cards |
| `Progress.MasteryShareInUnit` | src/mnemo/services/progress.py:348-353 | neither mastered nor due cards exceed the stored counter, so the mastery share lies in [0, 1] |
| `Progress.MasteryShareMeaning` | src/mnemo/services/progress.py:348-353 | the mastery share times the number of the deck's cards is the number of those that are mastered |
| `Progress.ForeignDeckCountsNothing` | src/mnemo/services/progress.py:177-213 | a deck of somebody else adds nothing to a user's figures |
| `LearningHistory.ActKeepsMemories` | src/mnemo/services/import_job.py:171-187 | requests, uploads and finished imports all leave the memory states alone that they neither answer nor remove |
| `LearningHistory.MemoryIsHistory` | src/mnemo/services/session.py:201-205 | after any run from an empty database the memory state of every card and user is what the answers given, in order, make of a fresh one, and is stored if and only if there was an answer |
| `LearningHistory.ProtocolKeepsHistories` | src/mnemo/workers/import_worker.py:25-170 | so it is after every run of the import protocol, with imports, crashes and restarts |
| `LearningHistory.MasteredExactly` | src/mnemo/services/progress.py:177-192 | the cards counted as mastered are exactly the user's own cards whose history has reached an interval of 21 days |
| `LearningHistory.DueExactly` | src/mnemo/services/progress.py:195-213 | the cards counted as due are exactly the user's own reviewed cards whose last review lies its interval or more before the cutoff |
| `LearningHistory.SevenPassesCount` | src/mnemo/services/progress.py:177-192 | a user's own card that passed its last seven reviews counts as mastered, whatever happened before |
| `StudySession.ScoreMeaning` | src/mnemo/services/session.py:135-161 | a score is a valid grade; it passes if and only if the texts agree or more than half of the expected words were given, and is 0 if and only if they differ and none was |
| `StudySession.ScoreExactly` | src/mnemo/services/session.py:135-161 | each grade from 5 down to 1 is reached if and only if the texts agree or the share of the expected words given exceeds 0.9, 0.75, 0.5, 0.25 or 0 |
| `StudySession.MoreWordsScoreHigher` | src/mnemo/services/session.py:142-160 | giving more of the expected words never lowers the score |
| `StudySession.SessionService.constructor` | src/mnemo/services/session.py:92-120 | a new session has its cards at positions 0, 1, 2, ... and expires after the time limit, or two hours when there is none |
| `StudySession.SessionService.AnswerCard` | src/mnemo/services/session.py:163-249 | the update in place is the specified step, with its response and its refusals in order |
| `StudySession.SessionService.SkipCard` | src/mnemo/services/session.py:251-307 | the update in place is the specified step |
| `StudySession.SessionService.EndSession` | src/mnemo/services/session.py:309-323 | ending twice is ending once |
| `StudySession.SessionService.GetSession` | src/mnemo/services/session.py:325-369 | reading changes at most the status of an expired session |
| `StudySession.SessionRefinesQueue` | src/mnemo/services/session.py:163-307 | for every sequence of requests the responses are those of a plain rotating queue without positions or rows |
| `StudySession.SessionConserves` | src/mnemo/services/session.py:196-249 | in every run positions stay distinct, correct <= answered <= card limit, a card is pending exactly while fewer are answered, and a session that had cards is over once none is pending |
| `StudySession.SessionEndsExactly` | src/mnemo/services/session.py:171-249 | a session is over if and only if it had cards and none is pending, or it was asked to end, or a noticed expiry was kept |
| `StudySession.RefusedExactly` | src/mnemo/services/session.py:171-178 | at any point of any run, until the session has ended, an answer, skip or look is refused as too late if and only if its clock is past the start plus the time limit, or plus two hours when there is no positive limit, and then changes no card or memory state; too long answers and sessions without pending cards are refused exactly otherwise |
| `StudySession.ScoredMeaning` | src/mnemo/services/session.py:193-249 | an answer that is taken is graded against the pending card, the grade is recorded with the card and becomes its review, and the response tells grade, passing, progress so far and the next card |
| `StudySession.EndTimeExactly` | src/mnemo/services/session.py:234-236 | the end time is the clock of the request that ends the session, unless it only notices the expiry, and no other request changes it |
| `StudySession.SummaryMeaning` | src/mnemo/services/session.py:380-396 | the counts of the summary are the numbers of scored and of passing answers among the responses of the run |
| `StudySession.AccuracyMeaning` | src/mnemo/services/session.py:396 | the accuracy is the share of correct answers, and zero when there is none |
| `StudySession.TimeTakenMeaning` | src/mnemo/services/session.py:398-400 | the time taken runs from the start to the request that ended the session |
| `StudySession.EmptySessionStaysActive` | src/mnemo/services/session.py:234-236 | a session without cards is unchanged by any requests that neither end it nor come after its expiry |
| `StudySession.ClosedSessionFrozen` | src/mnemo/services/session.py:171-176 | once a session has ended nothing in it changes; once it has expired no card, memory state or count does, and its summary changes exactly when a request ends it or a noticed expiry is kept |
| `StudySession.SkipsRotate` | src/mnemo/services/session.py:266-302 | k skips move the first k pending cards, in order, to the back |
| `StudySession.FullTurnRestoresOrder` | src/mnemo/services/session.py:266-302 | as many skips as pending cards restore their order |
| `StudySession.EachCardReviewedOnce` | src/mnemo/services/session.py:193-205 | after any run each answered card has had exactly the one SM-2 review its row records, and all other memory states are as at the start |
| `RateLimit.CategoryFixesPolicy` | src/mnemo/middleware/rate_limit.py:124-145 | the category alone fixes limit and window, so a shared counter is always held to one limit |
| `RateLimit.OneRuleEach` | src/mnemo/middleware/rate_limit.py:124-145 | every request falls under just one of five rules stated on paths and methods: imports per hour, and authentication with provisioning, session writes, other reads and other writes per minute |
| `RateLimit.RuleEnforced` | src/mnemo/middleware/rate_limit.py:124-145 | of a caller's requests under a rule in one window exactly min(their number, the rule's limit) are let through, when their own scripts run promptly |
| `RateLimit.RuleResponse` | src/mnemo/middleware/rate_limit.py:95-122 | the k-th of them is let through if and only if k is within the rule's limit, and is told that limit, what is left of it, the end of the window, and when refused the seconds until then |
| `RateLimit.KeysDoNotCollide` | src/mnemo/middleware/rate_limit.py:70 | two different category, caller and bucket triples never share a Redis key, even for hosts that contain colons |
| `RateLimit.RateLimiter.Dispatch` | src/mnemo/middleware/rate_limit.py:47-122 | bucket, time to live, increment, headers and refusal are the specified step |
| `RateLimit.CurrentExactly` | src/mnemo/middleware/rate_limit.py:72-88 | a slot's counter equals the attempts on the slot if and only if every script for it runs before its first expiry, and is less otherwise |
| `RateLimit.CountedExactlyInTime` | src/mnemo/middleware/rate_limit.py:72-88 | the expiring counters count every request as counters that never forget would, if and only if every script runs before the first expiry of its slot |
| `RateLimit.PromptIsInTime` | src/mnemo/middleware/rate_limit.py:62-68 | that is so when every script runs within the bucket of the clock read before it |
| `RateLimit.ExpiryLosesNothing` | src/mnemo/middleware/rate_limit.py:72-118 | all responses are those of a limiter that never forgets if and only if every script runs in time whose limit is at least one |
| `RateLimit.LateScriptForgets` | src/mnemo/middleware/rate_limit.py:76-83 | a history in which a late script lets limit + 1 requests through one bucket |
| `RateLimit.AdmittedExactly` | src/mnemo/middleware/rate_limit.py:98-118 | per caller, category and bucket at least min(attempts, limit) requests are let through, and exactly so many if and only if every script of that slot runs in time, or there are no more attempts than the limit, or the limit is below one |
| `RateLimit.SlidingWindowBound` | src/mnemo/middleware/rate_limit.py:62-70 | in any stretch of `window` consecutive seconds at most twice the limit gets through, when the two slots it meets admit no more than they should (the condition of `AdmittedExactly`) |
| `RateLimit.BucketBoundExactly` | src/mnemo/middleware/rate_limit.py:62-70 | in the seconds of one bucket no more than the limit gets through, if and only if the condition of `AdmittedExactly` holds |
| `RateLimit.LateScriptsUnbounded` | src/mnemo/middleware/rate_limit.py:76-83 | for every n a history in which n requests get through one slot and one window, because every script runs a second late |
| `RateLimit.TwiceLimitAttained` | src/mnemo/middleware/rate_limit.py:62-70 | for every limit and category there is a history that reaches that bound |
| `RateLimit.RetryAfterIsExact` | src/mnemo/middleware/rate_limit.py:95-116 | after any history, now plus Retry-After is the first second of the next bucket, and a request with that clock is let through if its bucket is unused |
| `StudyPlan.GenerateSchedule` | src/mnemo/services/plan.py:49-103 | the loop over running totals gives the closed form on every day |
| `StudyPlan.CreatePlan` | src/mnemo/services/plan.py:106-175 | the refusals in order, and otherwise the target of the budget and its schedule |
| `StudyPlan.CoverageExactly` | src/mnemo/services/plan.py:132-147 | the plan introduces every card if and only if cards per day, rounded up, are within the time budget |
| `StudyPlan.CapCutsOnlyReviews` | src/mnemo/services/plan.py:78 | the daily cap never cuts a new card, and no day asks for more time than max(2, daily minutes) |
| `StudyPlan.TargetExactly` | src/mnemo/services/plan.py:132-147 | the daily target covers the deck or uses up the budget of a card for two minutes, and a lower one would not cover the deck |
| `StudyPlan.DayMeaning` | src/mnemo/services/plan.py:68-101 | each day brings the target of new cards while there are any, reviews of a quarter of those brought before, no more of both than the cap, its date, and the label for what it brings |
| `Streak.ComputeStreak` | src/mnemo/services/progress.py:29-95 | the walk back ends, and gives the maximal run of days ending at the latest study day, or 0 when that is before yesterday |
| `Streak.StreakUnique` | src/mnemo/services/progress.py:72-86 | the set of local days alone determines the streak |
| `Streak.DaysExactly` | src/mnemo/services/progress.py:57-67 | the study days are the local days of the instants given, and the last study is the latest of these |
| `Streak.StreakMeaning` | src/mnemo/services/progress.py:74-86 | there is a streak if and only if somebody studied yesterday or later, and it counts all days in a row up to the latest |
| `Streak.IncrementalCounterAgrees` | src/mnemo/services/progress.py:76-86 | when days come in order the streak is what a counter updated once per study would hold |
| `Idempotency.DeckRoute.GetIdempotencyRecord` | src/mnemo/services/idempotency.py:21-56 | the record if there is one and it is not expired; an expired one is forgotten |
| `Idempotency.DeckRoute.StoreIdempotencyRecord` | src/mnemo/services/idempotency.py:59-98 | adds the record and keeps the others; when one is there already, that one is looked up instead |
| `Idempotency.DeckRoute.CreateDeck` | src/mnemo/api/v1/routes/decks.py:98-135 | look-up, creation and storing in order are the specified step |
| `Idempotency.RecordStays` | src/mnemo/services/idempotency.py:46-56 | whatever requests follow, the record of a creation stays for as long as it is not older than a day |
| `Idempotency.ReplayedForADay` | src/mnemo/api/v1/routes/decks.py:104-135 | for a day every request with the same user and key gets the first response and changes nothing |
| `Idempotency.CreatedOnceADay` | src/mnemo/services/idempotency.py:18-50 | two creations under one user and key are more than a day apart |
| `Idempotency.CreatesExactly` | src/mnemo/api/v1/routes/decks.py:104-135 | over every run from an empty store a request creates a deck if and only if none under its key has done so within a day and the name is free, and is replayed if and only if one has |
| `Idempotency.ResponseShowsDeck` | src/mnemo/api/v1/routes/decks.py:123-133 | the response that is stored shows the deck made for the request |
| `ApiKeys.ParsesExactly` | src/mnemo/services/api_key.py:271-302 | a key parses to a prefix if and only if it is that prefix and 64 lower-case hexadecimal digits |
| `ApiKeys.GeneratedKeyParses` | src/mnemo/services/api_key.py:99-102 | every generated key parses to its own prefix |
| `ApiKeys.IndexAgreesWithScan` | src/mnemo/services/api_key.py:184-198 | the filter by lookup fragment finds exactly the keys a scan of all active keys finds, and at most one |
| `ApiKeys.KeyStore.CreateApiKey` | src/mnemo/services/api_key.py:76-142 | an unknown user or a repeated hash is refused; otherwise one active record under a new identifier |
| `ApiKeys.KeyStore.ValidateApiKey` | src/mnemo/services/api_key.py:160-207 | the loop over candidates accepts exactly what a full scan accepts, and stamps only the key it returns |
| `ApiKeys.KeyStore.RevokeApiKey` | src/mnemo/services/api_key.py:210-231 | a known key becomes inactive, an unknown one is reported |
| `ApiKeys.ValidUntilRevoked` | src/mnemo/services/api_key.py:160-231 | over any run a key just created validates to its own record exactly until it has been revoked |
| `ApiKeys.CreationExactly` | src/mnemo/services/api_key.py:99-142 | a key is created if and only if its user exists and no key has its hash, and its record is the user's, in force, with the prefix of its kind |
| `ApiKeys.OperationsTouchOneKey` | src/mnemo/services/api_key.py:200-231 | validation stamps and revocation ends the record they name, and no other |

## Left out

- CSV sniffing and reading: a file is the list of its records, or a failure of the reader, which leads to FAILED.
- HTTP routing, schemas, error envelopes, logging, health checks, heartbeats and sleeps.
- SQLAlchemy's identity map and rows shared by reference: tables are maps of values, so aliasing between loaded rows is not captured.
- Lost updates between unlocked transactions, and two workers interleaving: each service call is one step and one worker runs.
- Integrity errors raised by a concurrent insert.
- Widths of columns other than a card's question and answer, and characters the database cannot store.
- Deleting a card or a deck during a live session.
- Which cards start_session selects and their random order: the constructor takes the selected cards.
- Session lookup by identifier and user, and the local-time and text fields of responses.
- Whether the ENDED status written just before an expired session raises survives its transaction: both outcomes are allowed (`kept`).
- The reserve and finalise path of card creation; the deck route's store is modelled.
- The limiter's fail-open branch and its fallback from EVAL.
- Rounding: the ease factor, mastery share and accuracy are exact, where the program uses binary floating point and rounds to four places.
- Accuracy, session counts and last-studied times of the progress pages.
- The goal and storage of a study plan, and its retrieval.
- HMAC, random keys and identifiers, time zones, key scopes, users, pagination, migrations, scripts and the Flutter application.
- ImportWorker.ImportedExactlyOnce: is about one worker process, as deployed (docker-compose.yml:95-116); the rollbacks in the import end the row lock, so nothing is claimed for several workers.
- WorkerProgress.NoJobStranded: is claimed when every queued job can finish, because it is false otherwise (`WorkerProgress.DrainsExactly`).
- WorkerProgress.StorableIfCanFinish: is claimed when no row of a merged file that is too long for the columns has the normalised pair of a row that fits, as with every lower-casing that keeps lengths. U+0130 lower-cases to two characters, and a long row can then be skipped as a duplicate of a short card (`WorkerProgress.LongDuplicateIsSkipped`). For every locale, Ledger.StorableExactly says when a job can be stored, and ProgressExactly and BlockedForEver what follows.
- WorkerProgress.JobFinishedExactly: the same condition on long rows.
- WorkerProgress.JobStuckForEver: the same condition on long rows.
- WorkerProgress.DrainsExactly: the same condition on long rows.
- ImportWorker.ProtocolRefinesLedger: requests for other decks go on beside the import transaction, but those for the deck being imported into are assumed to wait from the reading of the file to the commit. The source selects that deck without a lock (src/mnemo/services/import_job.py:139-142), so they could overlap there and an update of its counter be lost.
- DeckService.DeleteDeckRow: does not model the sessions and study plans that go with a deck.
- RateLimit.SlidingWindowBound: is claimed when its two slots are limited as they should be, because there is no bound otherwise (`RateLimit.LateScriptsUnbounded`).
