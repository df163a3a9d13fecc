# auto-documentation-generator: project ingestion and retention sweep

This project models two parts of the backend of the documentation generator.

The first is the project controller. `createProject` picks the source of a new
project. An uploaded ZIP archive wins over a repository link, and having
neither answers 400. It derives the project's name and source string, creates
`<storage>/<userId>_<uuid>`, and extracts or clones into it. It then inserts a
`pending` project row and starts `generateDocumentation`. That run writes
`analyzing`, runs the analysis phase, writes `generating`, and runs the
generate phase. It then inserts one `analysis` documentation row per entry of
`<repo>/.ai/docs` and the `README` row, and writes `completed`. Any thrown
error writes `failed` instead.

The second is the retention sweep `cleanupOldRepos`. It walks the storage
root in listing order and removes every directory whose mtime is before
`now - daysOld` days; when that cutoff lies outside the range of a `Date`
it is an Invalid Date and nothing is removed. It counts the removals. The first error ends the sweep,
and the error is logged rather than rethrown.

Layout:

- `options.dfy`: the `Option` type.
- `jsstrings.dfy`: the JavaScript string rules the controller uses.
  `RemoveFirst` is `String.prototype.replace` with a string pattern and the
  empty replacement `''`, the only replacement the controller uses; it
  removes only the first occurrence. `LastSegment` is `split('/').pop()`.
  `Join` is `path.join` of two segments, without normalisation.
- `database.dfy`: the `projects` and `documentation_files` rows and the
  requests sent to the database. The class `Store` holds both tables and a
  journal of every request sent. A request changes the tables only when the
  database accepts it.
- `project_controller.dfy`: `createProject` and `generateDocumentation` as
  methods on a `Store`. `Admit` and `RunRequests` are the functions that
  specify them, and the lemmas state the run's properties over those functions.
- `cleanup.dfy`: the storage root as a class `StorageRoot` whose entries the
  sweep removes in place. `SweepSpec` specifies the sweep, and
  `CleanupOldRepos` is the loop proved against it.

Every effect outside the process is an oracle passed in as a parameter:

- whether `mkdir` and the extraction or clone succeed;
- whether the database accepts each request;
- whether each Python phase succeeds;
- what `readdir` lists;
- which files `readFile` can read, and their contents;
- which entries `stat` or `rm` fail on;
- the current time, as an integer;
- the uuid that `uuidv4()` returns;
- the storage root `REPOS_STORAGE_PATH`, absent when the variable is unset.

The code does not re-root an archive whose content sits in a single
top-level folder, does not delete the temporary upload, and does not remove
the local directory after a run. A missing `.ai/docs` directory fails the
run, and the sweep stops at the first `stat` or `rm` error. The model does
the same.

## Model

| member | source | states |
|---|---|---|
| JsStrings.IndexOf | Backend-API/controllers/projectController.js:40 | the result is the first position at or after `from` where the pattern occurs, and `None` means it occurs nowhere from `from` on |
| JsStrings.RemoveFirst | Backend-API/controllers/projectController.js:40 | with no occurrence the string is unchanged; otherwise only the first occurrence is removed (the text before it, then everything after it), so the result is shorter by the pattern's length and holds no character the input lacks |
| JsStrings.LastSegment | Backend-API/controllers/projectController.js:40 | `split('/').pop()`: the result has no `/`, is a suffix of the input, and is preceded by a `/` whenever it is shorter than the input |
| JsStrings.LastSegmentOfPlainName | Backend-API/controllers/projectController.js:40 | a string without `/` is its own last segment |
| JsStrings.LastSegmentAfterSlash | Backend-API/controllers/projectController.js:40 | the last segment of `a + "/" + b` is `b` whenever `b` has no `/`, whatever `a` contains |
| JsStrings.RemoveFirstRemovesOnlyFirst | Backend-API/controllers/projectController.js:119 | removing the first occurrence of a pattern from `u + pat + t`, with no earlier occurrence, gives `u + t`: later occurrences in `t` survive |
| Database.Apply | Backend-API/controllers/projectController.js:53-155 | a project insert appends its row; a documentation insert appends its row and nothing else; a status update of an existing row changes only that row's `status`, and its `completed_at` when the update carries one; every other row stays as it was |
| Database.Store.Send | Backend-API/controllers/projectController.js:114-124 | every request joins the journal; the tables change by the request's effect only when the database accepts it, since the source never inspects the result |
| Database.Store.InsertProject | Backend-API/controllers/projectController.js:53-68 | an accepted insert appends the row and returns its id; a rejected one returns no id and leaves the tables as they were |
| Database.ReplayOfRun | Backend-API/controllers/projectController.js:86-155 | requests that only update project `id` or insert documentation keep the project table's size and every other row; row `id` changes only in `status` and `completed_at`; the documentation table gains exactly the accepted inserts, in order |
| Database.FinalWriteDecidesStatus | Backend-API/controllers/projectController.js:142-155 | when the last request of a run is an accepted status write, the row ends with that status, and with its `completed_at` when it carries one |
| ProjectController.SelectSource | Backend-API/controllers/projectController.js:18-50 | no source exactly when there is no archive and the link is falsy; an uploaded archive is chosen whenever there is one, the link only otherwise |
| ProjectController.RepoTypeOf | Backend-API/controllers/projectController.js:60 | the stored `repo_type` is never empty: the given type whenever that is truthy, `github` otherwise |
| ProjectController.RepoNameFromLink | Backend-API/controllers/projectController.js:40 | a link's name holds no `/`, and is its last segment, or that segment shorter by one `.git` |
| ProjectController.RepoNameFromZip | Backend-API/controllers/projectController.js:20 | an archive's name is its original name, or that name shorter by one `.zip` |
| ProjectController.DocFileName | Backend-API/controllers/projectController.js:119 | a documentation row's name is the file's name, or that name shorter by one `.md` |
| ProjectController.ProjectDir | Backend-API/controllers/projectController.js:22 | the project directory starts with the storage root and a `/`, and the rest is `<userId>_<uuid>` |
| ProjectController.Admit | Backend-API/controllers/projectController.js:18-50 | 400 exactly when there is no archive and the link is falsy; 500 exactly when a source exists but the storage root is unset or `mkdir`, extraction or clone fails; admitted exactly when a source exists and the root, `mkdir` and the extraction or clone all succeed, and then a `pending` row without `completed_at`, with the user, `repoType` defaulting to `github`, the path `<root>/<userId>_<uuid>`, and the name and source of the archive when there is one, else of the link |
| ProjectController.CreateProject | Backend-API/controllers/projectController.js:10-81 | a refused request answers 400 or 500 and sends nothing; a rejected insert answers 500 and starts no run; an accepted insert answers 200 with the new id, then sends exactly the run's requests for that id and path, and the tables are their replay after the new row |
| ProjectController.RunRequests | Backend-API/controllers/projectController.js:83-157 | a run's requests start with `analyzing`; the second is `generating` when the analysis phase succeeds and `failed` otherwise, which ends the run (its full sequences: `RunStatusTrace`, `CompletedRunRequests`, `RunEndsWithOneTerminalWrite`) |
| ProjectController.GenerateRequests | Backend-API/controllers/projectController.js:94-157 | after the analysis phase the run writes `generating`; a failed generate phase or `readdir` is followed by `failed` alone |
| ProjectController.StoreRequests | Backend-API/controllers/projectController.js:110-157 | the documentation part ends with `completed` and the time exactly when every listed file and the `README` can be read, and with `failed` otherwise |
| ProjectController.GenerateDocumentation | Backend-API/controllers/projectController.js:83-157 | the requests sent are exactly `RunRequests`, and the tables are their replay, applying only the accepted ones |
| ProjectController.GeneratePhase | Backend-API/controllers/projectController.js:94-107 | after `analyzing` succeeded: `generating`, then `failed` if the generate phase or `readdir` fails, else the documentation part of the run |
| ProjectController.StoreDocumentation | Backend-API/controllers/projectController.js:109-148 | sends the analysis inserts, then the `README` insert and `completed` with the time, or `failed` when a `readFile` throws |
| ProjectController.InsertAnalysisRows | Backend-API/controllers/projectController.js:110-125 | the loop sends one `analysis` insert per listed file, in order, up to the first unreadable file, and reports whether every file was read |
| ProjectController.AnalysisRows | Backend-API/controllers/projectController.js:110-125 | row `k` is file `k`'s row (its name with the first `.md` removed, its path, type `analysis`, its contents), and the rows stop exactly at the first unreadable file |
| ProjectController.AnalysisRowsComplete | Backend-API/controllers/projectController.js:110-125 | the loop produces a row for every listed file exactly when every listed file can be read |
| ProjectController.AnalysisRowsReadablePrefix | Backend-API/controllers/projectController.js:110-125 | when the first `i` files are readable and file `i` is not, the loop inserts exactly those `i` files' rows |
| ProjectController.ProjectDirsDistinct | Backend-API/controllers/projectController.js:42 | two creations with different uuids get different directories, for the same user or whenever the uuids have equal length |
| ProjectController.ProjectDirIsEntryOfRoot | Backend-API/controllers/projectController.js:42 | the project directory is the storage root, a `/`, and the entry named `<userId>_<uuid>` |
| ProjectController.RepoNameFromLinkDropsFirstGit | Backend-API/controllers/projectController.js:40 | a link's name is its last segment with only the first `.git` removed, wherever it stands |
| ProjectController.RepoNameFromLinkWithoutGit | Backend-API/controllers/projectController.js:40 | a last segment with no `.git` is the name unchanged |
| ProjectController.GithubPagesLinkName | Backend-API/controllers/projectController.js:40 | a `<user>.github.io.git` link is named `<user>hub.io.git`, because the first `.git` is the one inside `.github` |
| ProjectController.RepoNameFromZipDropsFirstZip | Backend-API/controllers/projectController.js:20 | an archive's name is its original name with only the first `.zip` removed |
| ProjectController.DocFileNameDropsFirstMd | Backend-API/controllers/projectController.js:119 | a documentation row's name is the file name with only the first `.md` removed |
| ProjectController.ZipWinsOverLink | Backend-API/controllers/projectController.js:18-38 | with an archive uploaded, any link leaves the admission unchanged |
| ProjectController.RunStatusTrace | Backend-API/controllers/projectController.js:84-156 | the statuses a run writes are `analyzing, failed` when the analysis fails, `analyzing, generating, completed` exactly when every step succeeds, and `analyzing, generating, failed` otherwise |
| ProjectController.StoreStatuses | Backend-API/controllers/projectController.js:107-155 | after `readdir` succeeded, the run writes one status: `completed` exactly when every listed file and the `README` were read, else `failed` |
| ProjectController.RunFollowsStateMachine | Backend-API/controllers/projectController.js:84-156 | starting from `pending`, each status written is a transition of the state machine, and the last one is terminal |
| ProjectController.RunEndsWithOneTerminalWrite | Backend-API/controllers/projectController.js:141-156 | a run's last request is `completed` with the time when every step succeeded and `failed` otherwise, and no earlier request writes a terminal status |
| ProjectController.StoreEndsWithOneTerminalWrite | Backend-API/controllers/projectController.js:127-155 | the documentation part of a run ends with its only terminal write |
| ProjectController.RunTouchesOnlyItsProject | Backend-API/controllers/projectController.js:86-155 | every request of a run updates its own project or inserts a documentation row |
| ProjectController.CompletedRunRequests | Backend-API/controllers/projectController.js:84-148 | a run that succeeds sends `analyzing`, `generating`, one `analysis` insert per listed file in order, the `README` insert, and `completed`, in this order |
| ProjectController.FailedRunRequests | Backend-API/controllers/projectController.js:107-155 | a run that fails inserts no `README` row: each insert it sends is the `analysis` row (name, path, type and contents) of the readable listed file at that position |
| ProjectController.FailedStoreInserts | Backend-API/controllers/projectController.js:107-155 | when some listed file or the `README` cannot be read, the documentation part inserts only `analysis` rows, the `k`-th being the row of the `k`-th listed file, which was readable |
| ProjectController.CompletedStoreRequests | Backend-API/controllers/projectController.js:107-148 | when every listed file and the `README` can be read, the documentation part inserts every listed file's row in order, then the `README` row, then writes `completed` with the time |
| ProjectController.ReaddirFailureFailsRun | Backend-API/controllers/projectController.js:107 | when `readdir` of the docs directory fails, the run sends `analyzing`, `generating`, `failed` and inserts nothing |
| ProjectController.RejectionsDoNotAlterRun | Backend-API/controllers/projectController.js:114-124 | which requests the database rejects does not change which requests the run sends |
| ProjectController.RunOutcome | Backend-API/controllers/projectController.js:83-157 | after a run, other projects and the row's other fields are untouched; the documentation table gains the accepted inserts; an accepted last write leaves the row `completed` (with the time) when every step succeeded and `failed` otherwise; a failed run, or one whose last write is rejected, leaves `completed_at` as it was |
| ProjectController.RunStampsOnlyCompleted | Backend-API/controllers/projectController.js:86-155 | the only status write of a run that carries a `completed_at` time is a `completed` write |
| ProjectController.OnlyLastWriteStamps | Backend-API/controllers/projectController.js:86-155 | no status write before a run's last carries a time, and a failed run's writes carry none |
| ProjectController.RunKeepsCompletedAt | Backend-API/controllers/projectController.js:141-155 | a run that fails, or whose final `completed` write the database rejects, leaves the row's `completed_at` as it was |
| Database.ReplayKeepsCompletedAt | Backend-API/controllers/projectController.js:86-155 | requests of one run whose status writes carry no time leave that row's `completed_at` unchanged, whichever are accepted |
| Database.LastWriteAloneStamps | Backend-API/controllers/projectController.js:141-155 | when only the last write of a run may carry a time, and it carries none or is rejected, the row's `completed_at` is unchanged |
| ProjectController.CompletedRunDocs | Backend-API/controllers/projectController.js:110-139 | with nothing rejected, a successful run stores every listed file's row in listing order and then the `README` row |
| ProjectController.CompletedRunStoresEveryRow | Backend-API/controllers/projectController.js:110-148 | with nothing rejected, a successful run leaves those rows in the documentation table and its project `completed` with `completed_at` set to the time |
| Cleanup.FirstFault | Backend-API/utils/cleanup.js:13-27 | the position of the first listed entry whose `stat` or `rm` throws: no entry before it throws, and the entry at it does |
| Cleanup.StorageRoot.Stat | Backend-API/utils/cleanup.js:15 | `stat` gives the entry's metadata exactly when the entry exists and does not fail |
| Cleanup.StorageRoot.Rm | Backend-API/utils/cleanup.js:19 | `rm` removes exactly the named entry unless it fails, and fails exactly when the oracle says so |
| Cleanup.CleanupOldRepos | Backend-API/utils/cleanup.js:4-28 | a failed `readdir` changes nothing; otherwise the root's entries, the removed names and whether the sweep completed are those of `SweepSpec` at the cutoff `daysOld` days before `now` (`daysOld` 7 by default; an Invalid Date outside the range of a `Date`), and `deletedCount` is the number of names removed |
| Cleanup.SweepSpec | Backend-API/utils/cleanup.js:13-27 | the sweep only removes entries, never adds one, and removes at most one per listed name (which ones, and where it stops: `SweepRemovesOnlyExpired`, `SweepStopsAtFirstFault`) |
| Cleanup.DefaultThresholdIsSevenDays | Backend-API/utils/cleanup.js:4-11 | with no argument, at a valid `now`, an entry is due exactly when it is a directory with mtime before `now` minus seven days, and that cutoff is still a valid date |
| Cleanup.LongerThresholdExpiresLess | Backend-API/utils/cleanup.js:10-17 | for non-negative thresholds, an entry due after the longer one is due after the shorter one |
| Cleanup.InvalidCutoffRemovesNothing | Backend-API/utils/cleanup.js:10-22 | when the cutoff falls outside the range of a `Date` it is an Invalid Date, every `mtime < cutoffDate` is false, and the sweep removes nothing, completing exactly when every listed entry can be stat'ed |
| Cleanup.SweepRemovesOnlyExpired | Backend-API/utils/cleanup.js:13-22 | an entry is gone afterwards exactly when it was removed; the others keep their metadata; every removed entry was listed and is a directory older than the cutoff |
| Cleanup.SweepKeepsUnexpired | Backend-API/utils/cleanup.js:17 | plain files and directories not older than the cutoff survive the sweep unchanged |
| Cleanup.SweepStopsAtFirstFault | Backend-API/utils/cleanup.js:13-27 | the sweep completes exactly when no entry throws, and it has removed exactly the expired directories listed before the first entry that throws, which stay removed |
| Cleanup.ExpiringMembers | Backend-API/utils/cleanup.js:17 | a name is due for removal exactly when it is listed, present, and a directory older than the cutoff |
| Cleanup.SweepCompletesWithoutFaults | Backend-API/utils/cleanup.js:13-24 | when every listed entry exists and nothing throws, the sweep completes and removes every expired listed directory |
| Cleanup.SweepWithoutFaults | Backend-API/utils/cleanup.js:7-24 | when the listing is the root's entries and nothing throws, the sweep completes and leaves exactly the plain files and the directories not older than the cutoff |

## Left out

- `path.join` normalisation: `Join` puts one `/` between two segments; it does not drop empty segments (with `REPOS_STORAGE_PATH` set to the empty string, `path.join` gives `u_x` where the model gives `/u_x`) and does not collapse `..`, `.` or doubled separators.
- Time: `new Date()`, `stats.mtime` and `completed_at` are integers (milliseconds); `toISOString` formatting is not modelled.
- Cleanup.Cutoff: `setDate(getDate() - daysOld)` moves by calendar days, which differ from `daysOld * 86400000` ms across a daylight-saving change; the model uses the fixed length. A cutoff beyond ±8.64e15 ms is an Invalid Date under which nothing expires, as in JavaScript; a non-integer or non-numeric `daysOld` is not modelled.
- JsStrings.RemoveFirst: only the empty replacement is modelled; `replace` with a replacement string containing `$&`, `$$` and the like would expand those patterns.
- Concurrency: the run that `createProject` starts without awaiting it is modelled as a sequential call right after the insert, with no interleaving between runs or requests.
- Project ids: the database's id of a new row is modelled as its position in the project table.
- On-disk effects of `mkdir`, extraction and clone are not modelled; only whether each succeeded.
- The Python phases (`runPythonAnalysis`, `runPythonGenerate`) are succeed-or-fail oracles; the shell commands they build are not modelled.
- Request bodies are strings or absent; non-string JSON values for `repoLink` or `repoType` are not modelled.
- `rm` with `force: true` either removes the whole entry or throws; partial removal of a tree is not modelled.
- Symbolic links and entries that change between `readdir` and `stat` are not modelled beyond `stat` failing for a missing entry.
- Logging (`console.log`, `console.error`) and the response messages' text are not modelled; responses are 200 with the id, 400 or 500.
- `getProjects`, `getProjectById`, the routes and the Supabase client configuration are outside this model.
- The script entry point of `cleanup.js` (`require.main === module`) and its process exit codes are not modelled.
- ProjectController.ProjectDirsDistinct: for different users it needs uuids of equal length, as version-4 uuids are; with different lengths, `a_b` plus `c` and `a` plus `b_c` give the same directory.
