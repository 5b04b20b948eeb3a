# livefeedback-hub: a Dafny model of the submission core

livefeedback-hub is a JupyterHub service for live feedback. A student's notebook is posted to the service. The service finds the assignment the notebook names in a `# LIVE: <guid>` marker line. When a teacher has stored an autograder zip for that assignment, the service schedules a grading job on a thread pool. The grading result is stored once per (user, assignment).

This project models the logic of that path:

- `SetQueues` (`set_queue.dfy`): the deduplicating work queue `SetQueue`. It is a class holding a duplicate-free sequence in insertion order, the ordered set the Python class stores. It has `_init`, `_put`, `_get`, `find` and `find_and_remove`. `find_and_remove` is proved against `Drop`, the sequence of items that do not match, and lemmas give `Drop`'s properties: membership, order, no-op and duplicate-freedom.
- `Executor` (`executor.dfy`): `UniqueActionThreadPoolExecutor`. It replaces its work queue with a fresh `SetQueue` and forwards `find_and_remove` and `find` to it.
- `LiveMarker` (`live_marker.dfy`): the marker pattern and `_check_line` as a scanner. The scanner is proved equivalent to a part-by-part grammar of marker lines (`MarkerLine`). The module also has `str.split("\n")` with its join round trip, and the `live_ids` comprehension with the first-marker selection.
- `Submission` (`submission.dfy`): `_get_autograding_zip` over the stored autograders. The handler class has `post`, the storing step of `process_notebook`, and `add_or_update_results` over a result table whose (user, assignment) pairs are unique.
- `Misc` (`misc.dfy`) holds the helpers of `helper/misc.py`: user hash, zip hash, image tag, `delete_docker_image`, `timeout_injector`, `teachers` with `str.strip`, and `teacher_only`.
- `Core` (`core.dfy`) holds the two helpers found only in `core.py`: the group-based `teacher_only` and `write_error`.
- `Common` (`common.dfy`) holds the shared types and Python's whitespace set.

`livefeedback_hub/core.py` is an older copy of several of these pieces. Its `SetQueue` (lines 19-35) is the helper queue without `find`. Its executor (lines 38-44) is the helper executor without `find`. Its `get_user_hash`, `calcuate_zip_hash`, `delete_docker_image` and `timeout_injector` (lines 57-99) match `helper/misc.py` line for line. One set of members models both copies, and some rows below cite the `core.py` lines.

The code has no per-key scheduler and no build lifecycle. `FeedbackSubmissionHandler` submits to a plain `ThreadPoolExecutor` (`livefeedback_hub/handlers/submission.py:23`). The add and update handlers are `pass` stubs (`livefeedback_hub/handlers/manage.py:39-41,63-65`). The `autograder_zips` table (`livefeedback_hub/db.py:9-14`) has no state column.

The compiled pattern (`livefeedback_hub/handlers/submission.py:27`) anchors `#` at the start of the line, so whitespace before the `#` makes a line fail to match. The pattern's GUID part, `GUID_REGEX`, is imported from `livefeedback_hub/db.py`, but that file does not define it. The model takes the GUID grammar that `livefeedback_hub/handler.py:19` spells out: hex groups of 8-4-4-4-12, a version digit 1-5 and a variant digit 8, 9, a or b. Matching ignores case.

## Model

| member | source | states |
|---|---|---|
| `SetQueues.SetQueue.constructor` | livefeedback_hub/helper/set_queue.py:8-10 | a fresh queue is empty, duplicate-free and records the given `maxsize` |
| `SetQueues.SetQueue.Put` | livefeedback_hub/helper/set_queue.py:12-13 | putting an item already queued leaves the queue unchanged; otherwise the item joins at the end; the queue stays duplicate-free |
| `SetQueues.SetQueue.Get` | livefeedback_hub/helper/set_queue.py:15-16 | on a non-empty queue returns an item that was present and removes exactly that item, leaving the others in their order; the queue shrinks by one and stays duplicate-free |
| `SetQueues.SetQueue.Find` | livefeedback_hub/helper/set_queue.py:18-23 | returns `None` exactly when no queued item satisfies `fn`; otherwise returns the item at the first position whose item satisfies `fn`; it modifies nothing |
| `SetQueues.SetQueue.FindAndRemove` | livefeedback_hub/helper/set_queue.py:25-29 | removing each matching item of a snapshot from the live queue leaves exactly `Drop(old items, fn)`, duplicate-free |
| `SetQueues.RemoveStep` | livefeedback_hub/helper/set_queue.py:27-29 | one iteration of the removal loop: the visited item is the first unvisited one in the live queue, and removing it when it matches keeps "matches dropped so far, rest untouched" |
| `SetQueues.DropMembers` | livefeedback_hub/core.py:31-35 | after `find_and_remove(fn)` an item is in the queue exactly when it was there before and does not satisfy `fn` |
| `SetQueues.DropKeepsOrder` | livefeedback_hub/helper/set_queue.py:25-29 | two surviving items keep their relative order, at positions given by the survivors before them |
| `SetQueues.DropNoMatch` | livefeedback_hub/helper/set_queue.py:25-29 | a predicate that matches no queued item leaves the queue unchanged |
| `SetQueues.DropDistinct` | livefeedback_hub/core.py:19-35 | removing matches keeps the queue duplicate-free |
| `SetQueues.DropAppend` | livefeedback_hub/core.py:33-35 | filtering a concatenation filters each part |
| `SetQueues.DropAt` | livefeedback_hub/core.py:33-35 | a surviving item sits right after the survivors that preceded it |
| `SetQueues.WithoutAt` | livefeedback_hub/core.py:28-29 | in a duplicate-free queue, taking out the item at position `i` leaves the items before and after `i`, in order |
| `SetQueues.WithoutRemovesOne` | livefeedback_hub/helper/set_queue.py:15-16 | removing a present item from a duplicate-free queue removes exactly one element: every other item stays and the queue stays duplicate-free |
| `Executor.UniqueActionThreadPoolExecutor.constructor` | livefeedback_hub/helper/unique_action_thread_pool_executor.py:7-9 | after construction the work queue is a fresh, empty `SetQueue` with `maxsize` 0 |
| `Executor.UniqueActionThreadPoolExecutor.FindAndRemove` | livefeedback_hub/helper/unique_action_thread_pool_executor.py:11-12 | has exactly the effect of the queue's `find_and_remove(fn)` on the work queue |
| `Executor.UniqueActionThreadPoolExecutor.Find` | livefeedback_hub/helper/unique_action_thread_pool_executor.py:14-15 | as written: always returns `None`, and the work queue is not modified |
| `Executor.UniqueActionThreadPoolExecutor.FindQueued` | livefeedback_hub/helper/unique_action_thread_pool_executor.py:14-15 | as intended: returns the first waiting item satisfying `fn`, or `None` exactly when none does |
| `Executor.FindLosesQueuedMatch` | livefeedback_hub/helper/unique_action_thread_pool_executor.py:14-15 | with one waiting item `x` and `fn(x)`, the written `find` gives `None` while the queue's answer is `Some(x)` |
| `LiveMarker.SkipSpaces` | livefeedback_hub/handlers/submission.py:27 | the `\s*` of the pattern: the first position at or after `i` that is not whitespace, with only whitespace skipped |
| `LiveMarker.CheckLine` | livefeedback_hub/handlers/submission.py:30-34 | whatever `_check_line` returns is a GUID of the required shape |
| `LiveMarker.CheckLineAccepts` | livefeedback_hub/handlers/submission.py:26-27 | every line made of `#`, whitespace, `LIVE:` in any case, whitespace, a GUID and trailing whitespace is recognised, and its GUID is returned |
| `LiveMarker.CheckLineParts` | livefeedback_hub/handlers/submission.py:30-34 | every line that is recognised splits into those parts, and the returned text is the GUID part |
| `LiveMarker.CheckLineMatchesGrammar` | livefeedback_hub/handlers/submission.py:26-34 | `_check_line` returns `g` if and only if the line is a well-formed marker line with GUID `g` |
| `LiveMarker.SkipSpacesOver` | livefeedback_hub/handlers/submission.py:27 | skipping stops exactly at the end of a whitespace run |
| `LiveMarker.AllSpaceSlice` | livefeedback_hub/handlers/submission.py:27 | a run of whitespace positions is a whitespace string |
| `LiveMarker.RenderCuts` | livefeedback_hub/handlers/submission.py:27 | the pieces the scanner cuts out of a line put back together give the line |
| `LiveMarker.ExampleGuidIsGuid` | livefeedback_hub/handler.py:19 | `333e2069-612e-4e0c-a4ac-e6ec1eaa44f0` has the GUID shape |
| `LiveMarker.ExampleRender` | livefeedback_hub/handlers/submission.py:27 | the example marker line is `#`, a space, `LIVE:`, a space and the GUID |
| `LiveMarker.CheckLineExample` | livefeedback_hub/handlers/submission.py:26-34 | `# LIVE: 333e2069-612e-4e0c-a4ac-e6ec1eaa44f0` yields exactly that GUID |
| `LiveMarker.SplitLines` | livefeedback_hub/handlers/submission.py:39 | `item.split("\n")`: at least one piece; `JoinSplitLines` and `SplitLinesHaveNoNewline` show the pieces are the newline-free runs between separators, joined back to the source |
| `LiveMarker.JoinSplitLines` | livefeedback_hub/handlers/submission.py:39 | joining the pieces of `split("\n")` with newlines gives back the cell source |
| `LiveMarker.SplitLinesHaveNoNewline` | livefeedback_hub/handlers/submission.py:39 | no piece of `split("\n")` contains a newline |
| `LiveMarker.LineIdsEmpty` | livefeedback_hub/handlers/submission.py:39 | a cell contributes no id exactly when none of its lines is a marker line |
| `LiveMarker.LiveIdsEmpty` | livefeedback_hub/handlers/submission.py:39-43 | `live_ids` is empty exactly when no line of any cell is a marker line |
| `LiveMarker.LineIdsFirst` | livefeedback_hub/handlers/submission.py:39 | within a cell, the first id is that of the first marker line |
| `LiveMarker.SelectLiveIdIsFirstMarker` | livefeedback_hub/handlers/submission.py:39-45 | the selected id is the GUID of the first marker line, scanning cells in order and lines in order within a cell |
| `LiveMarker.LiveIdsAreGuids` | livefeedback_hub/handlers/submission.py:39 | every collected id is a GUID |
| `LiveMarker.LineIdsAreGuids` | livefeedback_hub/handlers/submission.py:39 | every id collected from a cell is a GUID |
| `LiveMarker.LineIds` | livefeedback_hub/handlers/submission.py:39 | the inner loop of the `live_ids` comprehension over one cell's lines; `LineIdsEmpty`, `LineIdsFirst` and `LineIdsAreGuids` state which ids it collects |
| `LiveMarker.LiveIds` | livefeedback_hub/handlers/submission.py:39 | the `live_ids` comprehension over all cells; `LiveIdsEmpty`, `LiveIdsSkip` and `LiveIdsAreGuids` state which ids it collects and in what order |
| `LiveMarker.LiveIdsSkip` | livefeedback_hub/handlers/submission.py:39 | cells in front that hold no marker line contribute no id, so `live_ids` starts with the ids of the first cell that has one |
| `LiveMarker.SelectLiveId` | livefeedback_hub/handlers/submission.py:41-45 | `None` when `live_ids` is empty, else `live_ids[0]`; `SelectLiveIdIsFirstMarker` shows it is the GUID of the first marker line |
| `Submission.GetAutogradingZip` | livefeedback_hub/handlers/submission.py:36-53 | id and zip are both present or both absent; they are present exactly when the first marker's id has a stored autograder, and then they are that id and its stored zip (stored zip data is never NULL; see Left out) |
| `Submission.NoMarkerNoAutograder` | livefeedback_hub/handlers/submission.py:41-43 | a notebook without any marker line gives `(None, None)` |
| `Submission.FeedbackSubmissionHandler.constructor` | livefeedback_hub/handlers/submission.py:103-105 | a handler starts over the given stores with no scheduled job and status 200 |
| `Submission.FeedbackSubmissionHandler.Post` | livefeedback_hub/handlers/submission.py:55-72 | an unparseable body gives status 400 and schedules nothing; otherwise exactly one job, carrying the zip, the body, the id and the user hash, is scheduled when an autograder was found, and none when not; the one-row-per-pair invariant of the result table is kept |
| `Submission.FeedbackSubmissionHandler.ProcessNotebook` | livefeedback_hub/handlers/submission.py:94-98 | a grading run with a result stores it for (user hash, id) and touches no other pair; a run that raised stores nothing |
| `Submission.FeedbackSubmissionHandler.AddOrUpdateResults` | livefeedback_hub/handlers/submission.py:107-114 | afterwards exactly one row exists for (user, assignment) and it holds the new data; an existing row is overwritten, not duplicated; every other pair's result is unchanged |
| `Submission.OneRowPerKey` | livefeedback_hub/db.py:25 | under the (user, assignment) uniqueness constraint a stored result lives in exactly one row |
| `Submission.LookupNone` | livefeedback_hub/handlers/submission.py:109 | the query finds no row exactly when no row has the pair |
| `Submission.UniqueKeysTail` | livefeedback_hub/db.py:25 | the uniqueness constraint holds for the rest of the table, and the first row's pair occurs nowhere else |
| `Submission.LookupAfterUpdate` | livefeedback_hub/handlers/submission.py:110-111 | overwriting the data of the row for a pair changes that pair's result and no other |
| `Submission.LookupAfterAppend` | livefeedback_hub/handlers/submission.py:112-114 | adding a row for a new pair adds that pair's result and changes no other |
| `Misc.UserHashDependsOnlyOnName` | livefeedback_hub/helper/misc.py:30-34 | users with equal names get equal hashes |
| `Misc.GetUserHash` | livefeedback_hub/helper/misc.py:30-34 | the SHA-256 hex digest of the user's name, with the digest a parameter; `UserHashDependsOnlyOnName` shows nothing else about the user enters it |
| `Misc.CalculateZipHash` | livefeedback_hub/helper/misc.py:37-42 | the MD5 hex digest of the zip bytes, with the digest a parameter; `ImageTagsAgreeWithZipHashes` shows it alone decides the image tag |
| `Misc.ImageTag` | livefeedback_hub/helper/misc.py:51-53 | the autograder image tag; `ImageTagCarriesZipHash` shows it is the prefix, a colon and exactly the zip hash |
| `Misc.ImageTagCarriesZipHash` | livefeedback_hub/helper/misc.py:51-53 | the image tag is the prefix, a colon and exactly `calcuate_zip_hash` of the zip |
| `Misc.ImageTagsAgreeWithZipHashes` | livefeedback_hub/core.py:78-80 | two zips get the same tag if and only if they have the same zip hash, so equal data gives equal tags |
| `Misc.DeleteDockerImage` | livefeedback_hub/helper/misc.py:45-58 | the removal targets `prefix:zip hash`; a missing image is logged with exactly one warning and no exception escapes; any other Docker failure escapes |
| `Misc.TimeoutInjector` | livefeedback_hub/helper/misc.py:61-72 | the decorated method always receives `timeout=600`, overriding any caller value; receiver, positional arguments and all other keyword arguments pass through unchanged |
| `Misc.StripStartSkips` | livefeedback_hub/helper/misc.py:17 | leading whitespace before a non-space is removed and nothing more |
| `Misc.StripEndSkips` | livefeedback_hub/helper/misc.py:17 | trailing whitespace after a non-space is removed and nothing more |
| `Misc.StripRemovesPadding` | livefeedback_hub/helper/misc.py:17 | whitespace around a core that starts and ends with non-whitespace strips to exactly that core |
| `Misc.StripStartShape` | livefeedback_hub/helper/misc.py:17 | stripping the start drops a whitespace prefix and leaves a non-space first character |
| `Misc.StripEndShape` | livefeedback_hub/helper/misc.py:17 | stripping the end drops a whitespace suffix and leaves a non-space last character |
| `Misc.StripShape` | livefeedback_hub/helper/misc.py:17 | `strip()` returns an infix that neither begins nor ends with whitespace, and whitespace is all it removes |
| `Misc.StripIdempotent` | livefeedback_hub/helper/misc.py:17 | stripping twice is stripping once |
| `Misc.Strip` | livefeedback_hub/helper/misc.py:17 | `str.strip()`: `StripShape`, `StripRemovesPadding` and `StripIdempotent` show it removes exactly the leading and trailing whitespace |
| `Misc.StripStart` | livefeedback_hub/helper/misc.py:17 | the leading half of `strip()`; `StripStartShape` and `StripStartSkips` show it drops exactly the whitespace prefix |
| `Misc.StripEnd` | livefeedback_hub/helper/misc.py:17 | the trailing half of `strip()`; `StripEndShape` and `StripEndSkips` show it drops exactly the whitespace suffix |
| `Misc.Teachers` | livefeedback_hub/helper/misc.py:15-17 | one entry per line of the teacher file, in order, each stripped |
| `Misc.TeacherOnly` | livefeedback_hub/helper/misc.py:20-27 | HTTP 403 exactly when the user's name equals no stripped teacher line; otherwise the decorated method gets the same call |
| `Core.TeacherOnlyByGroup` | livefeedback_hub/core.py:47-54 | HTTP 403 exactly when `teacher` is not among the user's groups; otherwise the decorated method gets the same call |
| `Core.ErrorMessage` | livefeedback_hub/core.py:113-116 | the message is "Zugriff verweigert!" exactly when the status is 403 and "Interner Serverfehler!" exactly when it is not |
| `Core.CustomRequestHandler.constructor` | livefeedback_hub/core.py:107-109 | the handler keeps the service prefix and starts with status 200 and nothing rendered |
| `Core.CustomRequestHandler.WriteError` | livefeedback_hub/core.py:111-117 | the response takes the given status and renders `error.html` with the service prefix and the message for that status |

## Findings

| source | as written | input that shows it | evidently intended | confidence | as-written member | corrected member |
|---|---|---|---|---|---|---|
| livefeedback_hub/helper/unique_action_thread_pool_executor.py:14-15 | `find` calls the work queue's `find` but drops its result and has no `return`, so it always returns `None` | a work queue holding one item `x`, searched with a predicate `fn` where `fn(x)` holds: `find(fn)` returns `None` | return the work queue's answer, here `x` | high; not executed | `Executor.UniqueActionThreadPoolExecutor.Find`, shown by `Executor.FindLosesQueuedMatch` | `Executor.UniqueActionThreadPoolExecutor.FindQueued` |

## Left out

- `SetQueues.SetQueue.Get`: does not say which item `pop` takes. The ordered set class is not part of this model, so the contract promises only some present item.
- `SetQueues.SetQueue.Put`: an item that is not yet queued is placed at the end. This is insertion order, which an ordered set keeps. The ordered set class itself is not part of this model.
- `SetQueues.SetQueue.FindAndRemove`: iterates over a snapshot. Whether the ordered set tolerates removal during its own iteration depends on that class, which is not part of this model.
- The threads are not modelled. This covers the thread pool's workers, `queue.Queue`'s mutex and condition variables, `maxsize` blocking, `unfinished_tasks` and `ThreadPoolExecutor.submit` (concurrency and library code). Each `with self.mutex` section is treated as one atomic step.
- The executor's constructor arguments (`max_workers`, `thread_name_prefix`, `initializer`, `initargs`) only configure the library base class, so they are not modelled.
- SHA-256 and MD5 are library code, so they are function parameters. The MD5 test vector for the data `Test` is not checked. `OTTER_DOCKER_IMAGE_TAG` is a constant of the otter library and is a parameter too.
- `docker.image.remove` is a foreign call. Its outcome is a parameter: removed, no such image, or another Docker failure.
- Most of `process_notebook` is I/O and foreign code: temporary files, `chdir`, stdio redirection, otter's `generate_hash` and `grade_assignments`, and `to_csv`. Only its final step is modelled: store the result, or log the exception and store nothing. The grading outcome comes in as a parameter.
- UTF-8 decoding and JSON parsing of the body are library code. Their outcome is a parameter. A JSON document without `cells`, or with a cell whose `source` is missing or is a list, raises inside the handler. The framework would answer 500; this is not modelled.
- `Submission.GetAutogradingZip`: assumes that stored zip data is never NULL. The `data` column (`livefeedback_hub/db.py:14`) is nullable, and for a row whose data is NULL the source returns `(id, None)`. The model's map of stored zips cannot hold such a row, so it does not show that result. `post` schedules nothing in that case either way, because it tests `autograder_zip is None` (`livefeedback_hub/handlers/submission.py:65`).
- The database session and SQL queries are replaced by a map of stored autograders and a sequence of result rows, with the (user, assignment) uniqueness constraint as an invariant.
- Tornado's `authenticated` decorator and the hub OAuth mixin are framework code and are not modelled. The same goes for `finish()`, template rendering beyond recording the page, and logging other than in `delete_docker_image`.
- `teachers()` reads the file named by `FEEDBACK_TEACHERS`. That file I/O is not modelled; the file's lines come in as a parameter.
- The Unicode case-insensitive matches of the pattern are modelled: `I` also matches U+0130 and U+0131, and the hex classes match only ASCII. Whitespace follows Python's `str.isspace()` set.
- Not modelled: `livefeedback_hub/handlers/results.py` (pandas and floats), `livefeedback_hub/handlers/manage.py` (empty stubs), `livefeedback_hub/server.py` (routing, sessions) and `livefeedback_hub/handler.py` (a superseded handler). From `handler.py` only the GUID grammar of line 19 is used.
