# Download queue of the YouTube music downloader, in Dafny

`YouTubeMusicDownloader` (`youtube_music_downloader.py`) is a Tk desktop
application that searches YouTube and downloads audio with yt-dlp. The part
with real logic is its download queue:

- a FIFO of queued records (`download_queue`);
- a treeview (`queue_tree`) with one row per record: id, title, status and progress;
- a pause switch (`queue_active`);
- a concurrency cap (`max_concurrent_downloads`, default 2, set by a spinbox from 1 to 5);
- a counter of running downloads (`active_downloads`).

A processor loop pops records while the queue is active and below the cap,
and starts one download thread per record. Each download thread reports
progress through a hook and, when it ends, schedules "Completed" or an error text for its row. The
user can add, pause, resume, clear, remove and reorder.

The project has these modules:

- `Optional` (`option.dfy`): the `Option` datatype.
- `Decimal` (`decimal.dfy`): the decimal text of integers, as `str(n)` and
  `f"{n:02d}"` write it. Also `str.split` on one character, and a reader
  that inverts both.
- `Duration` (`duration.dfy`): `_format_duration`, plus a clock-text
  reader proved to be its inverse.
- `ProgressHook` (`progress_hook.dfy`): the decision of
  `update_queue_progress_hook`. The extractor's progress dictionary is
  modelled with Python's `d.get(k, 0)`, `or` and truthiness.
- `QueueRows` (`queue_rows.dfy`): the treeview rows and their column
  updates. Also the Tk `delete`, `index` and `move` operations, the item id
  format, and the error status text.
- `QueueSpec` (`queue_spec.dfy`): the whole queue state as a value, with one
  function per operation. Events and runs stand for every interleaving of
  the user, the processor thread and the download threads. It also holds
  the lemmas about single steps and about runs.
- `QueueManager` (`queue_manager.dfy`): class `Downloader`, with the
  source's fields updated in place. Each method is proved to take the
  object to the state the matching `QueueSpec` function gives. The
  treeview updates and `clear_queue` keep the source's loops.

Things the environment supplies are parameters:

- `int(time.time())` is `stamp`.
- `datetime.now()` formatted is `added`.
- What the extractor does is the `Outcome` of a finish event, or the
  `HookRecord` of a report event.
- The exception text is the `message` of a failure.

Three behaviours of the code matter for the model:

- Ids are not unique for the process lifetime. An id is made of the
  current second and the current number of rows. After a remove or a
  clear, a new item can get an id that is already in use.
  `QueueSpec.RemoveThenAddCollides` and `QueueSpec.ClearThenAddHijacksRow`
  show this. In the second, the reused id lets a running task mark a
  new row "Completed", and the next dispatch sets that finished row back
  to "Downloading". Uniqueness is proved only for runs without removal
  (`QueueSpec.IdsUniqueWithoutRemoval`). So is the forward order of a row's
  status, from "Queued" to "Downloading" to a finished status
  (`QueueSpec.StatusesMoveForward`).
- Removing an entry deletes its row only. The record stays on the FIFO and
  is still downloaded.
- Moving an entry up or down reorders the rows only. The dispatch order of
  the FIFO does not change.

## Model

| member | source | states |
|---|---|---|
| Decimal.NatToText | youtube_music_downloader.py:492 | `str(n)` is a digit string with no leading zero, of length 1 exactly when n < 10, starting with '0' only for 0 |
| Decimal.PadTwo | youtube_music_downloader.py:1128-1130 | `f"{n:02d}"` for n < 100 is two digits whose value is n |
| Decimal.TextInjective | youtube_music_downloader.py:492 | different numbers never print the same, so the counts in two ids print differently |
| Decimal.ParseText | youtube_music_downloader.py:492 | reading back the decimal text of n gives n |
| Decimal.TextOfValue | youtube_music_downloader.py:492 | a digit string without a leading zero is the decimal text of its own value |
| Decimal.PadTwoOfValue | youtube_music_downloader.py:1128-1130 | every two-digit string is the zero-padded text of its value |
| Duration.FormatDuration | youtube_music_downloader.py:1119-1130 | the result is "Unknown" exactly when the duration is `None` or 0 |
| Duration.FormatThenParse | youtube_music_downloader.py:1124-1130 | a positive duration prints as M:SS below an hour and as H:MM:SS from an hour on, and its fields recombine to the input |
| Duration.ParseThenFormat | youtube_music_downloader.py:1124-1130 | every clock text the reader accepts is exactly what the formatter prints for the value read |
| Duration.ParseClock | youtube_music_downloader.py:1124-1130 | the reference reader of clock texts yields only positive durations |
| Duration.NegativeWraps | youtube_music_downloader.py:1124-1126 | a negative duration prints the minutes and seconds of its value mod 3600 (floor division), or "0:00" |
| ProgressHook.Classify | youtube_music_downloader.py:396-408 | "finished" gives "Converting..."; "downloading" with a positive known size and a count that is not `None` (a missing count reads as 0) gives the percentage `downloaded * 100 / total`; a `None` size after the fallback, or a `None` count with a positive size, gives a `TypeError`; all else, a size of 0 included, gives no update |
| ProgressHook.ExactTotalWins | youtube_music_downloader.py:399-404 | a positive `total_bytes` is the divisor, whatever the estimate says |
| ProgressHook.EstimateFallback | youtube_music_downloader.py:401 | a missing, `None` or zero `total_bytes` falls back to `total_bytes_estimate` |
| ProgressHook.NoTotalNoUpdate | youtube_music_downloader.py:401-403 | with no size known, nothing is scheduled |
| ProgressHook.PercentInRange | youtube_music_downloader.py:403-404 | a downloaded count between 0 and the size gives a percentage between 0 and 100 |
| QueueRows.WithStatus | youtube_music_downloader.py:410-415 | the status column of the rows with that id becomes the new status; every other column and row stays |
| QueueRows.WithProgress | youtube_music_downloader.py:417-422 | the progress column of the rows with that id becomes the new value; every other column and row stays |
| QueueRows.UpdateOfAbsentId | youtube_music_downloader.py:410-422 | an update for an id with no row changes nothing |
| QueueRows.WithStatusAt | youtube_music_downloader.py:410-415 | with distinct ids, a status update changes the one row the search loop stops at |
| QueueRows.WithProgressAt | youtube_music_downloader.py:417-422 | with distinct ids, a progress update changes the one row the search loop stops at |
| QueueRows.UpdatesKeepIds | youtube_music_downloader.py:410-422 | column updates keep the ids and their distinctness |
| QueueRows.IndexOf | youtube_music_downloader.py:482 | `index(id)` is the position of the first row with that id |
| QueueRows.Without | youtube_music_downloader.py:456 | the reference result of a delete: a row is in it exactly when it is one of the rows and its id differs; with distinct ids it is the rows with that id's one position cut out (`QueueRows.WithoutAt`) |
| QueueRows.WithoutAt | youtube_music_downloader.py:456 | with distinct ids, leaving out one id cuts out exactly its one position |
| QueueRows.DeleteRow | youtube_music_downloader.py:456 | with distinct ids (which Tk enforces), `delete(id)` leaves exactly the rows with other ids, columns and order unchanged |
| QueueRows.DeleteFirst | youtube_music_downloader.py:455-456 | deleting the first child's id takes that row off the front, as each pass of the `clear_queue` loop does |
| QueueRows.DeleteRowSpec | youtube_music_downloader.py:473 | deleting leaves exactly the other rows with their columns, in order, one fewer, with distinct ids and without that id |
| QueueRows.MoveRow | youtube_music_downloader.py:485-487 | `move(item, "", target)` is a permutation that puts the item at the target, clamped to the last position |
| QueueRows.MoveUpSwaps | youtube_music_downloader.py:484-485 | moving a row up one place swaps it with its predecessor |
| QueueRows.MoveDownSwaps | youtube_music_downloader.py:486-487 | moving a row down one place swaps it with its successor, and does nothing to the last row |
| QueueRows.SwapKeepsIds | youtube_music_downloader.py:475-487 | a swap keeps the set of ids and their distinctness |
| QueueRows.ItemIdRoundTrip | youtube_music_downloader.py:492 | the id `item_<stamp>_<count>` gives back its stamp and count |
| QueueRows.ItemIdInjective | youtube_music_downloader.py:492 | two ids are equal exactly when their stamps and counts are |
| QueueRows.ErrorStatus | youtube_music_downloader.py:389 | the error status is "Error: ", then the first min(30, length) characters of the message, then "..."; its length is 10 to 40 |
| QueueSpec.Add | youtube_music_downloader.py:489-516 | the record is appended to the FIFO; the call returns the id when no row has it and appends a "Queued"/"Waiting..." row; otherwise it fails with the rows unchanged; nothing else changes and the invariant is kept |
| QueueSpec.Dispatch | youtube_music_downloader.py:311-331 | when active, below the cap and not empty: pop the head, mark it "Downloading", count it and start it, ending at or below the cap; otherwise nothing changes |
| QueueSpec.Finish | youtube_music_downloader.py:379-394 | corrected failure branch (see Findings): the task's row gets "Completed" or the error text, the counter drops by one, the task leaves the running set, and nothing else changes |
| QueueSpec.FinishAsWritten | youtube_music_downloader.py:387-389 | as written: a failure whose callback runs after the except clause ends leaves the rows untouched; otherwise it is the corrected finish; the invariant is kept either way |
| QueueSpec.FinishAsWrittenKeepsFresh | youtube_music_downloader.py:379-394 | the as-written finish keeps the id freshness invariant, like the corrected one |
| QueueSpec.Report | youtube_music_downloader.py:396-408 | a progress report changes only the rows' progress column and keeps the ids |
| QueueSpec.Clear | youtube_music_downloader.py:444-458 | the FIFO and the rows are emptied; running tasks and the counter stay |
| QueueSpec.Remove | youtube_music_downloader.py:467-473 | with a selection and distinct ids, the rows become exactly the rows without the first selected id, columns and order kept, one fewer; without one nothing changes; the FIFO and the counter stay |
| QueueSpec.Move | youtube_music_downloader.py:475-487 | a move changes only the rows, keeps their number and their id set |
| QueueSpec.MoveSpec | youtube_music_downloader.py:475-487 | "up" on the first row and "down" on the last do nothing; otherwise the row is swapped with its neighbour |
| QueueSpec.StepKeepsInv | youtube_music_downloader.py:311-320 | every event keeps the ids distinct and the counter equal to the number of running tasks |
| QueueSpec.RunKeepsInv | youtube_music_downloader.py:320 | the same holds after any interleaving of events |
| QueueSpec.AllFinishedMeansIdle | youtube_music_downloader.py:391-393 | once every launched task has finished, the counter is 0 |
| QueueSpec.ClaimThenFinish | youtube_music_downloader.py:320 | a launch followed by the launched task's finish leaves the counter and the running set as before |
| QueueSpec.PausedLaunchesNothing | youtube_music_downloader.py:311 | a paused queue launches nothing |
| QueueSpec.PauseStopsLaunches | youtube_music_downloader.py:439-442 | after pausing the processor launches nothing, and the running tasks, the counter, the FIFO and the rows stay |
| QueueSpec.FinishWritesTerminalStatus | youtube_music_downloader.py:379-389 | finishing writes the terminal status into the task's row and no other |
| QueueSpec.ReportTouchesOnlyProgress | youtube_music_downloader.py:396-422 | a report changes only the progress of the task's row: to the percentage, to "Converting...", or not at all |
| QueueSpec.StepKeepsUnderCap | youtube_music_downloader.py:311-320 | no event raises the counter above the cap unless the cap is lowered below it |
| QueueSpec.RunStaysUnderCap | youtube_music_downloader.py:311-320 | across any run whose cap changes leave room for the running tasks, the counter stays at or below the cap |
| QueueSpec.LoweredCapWaits | youtube_music_downloader.py:253 | a cap lowered below the counter stops nothing, and the processor launches nothing |
| QueueSpec.AddKeepsFresh | youtube_music_downloader.py:492-508 | without removals an add always succeeds with the id of the current row count |
| QueueSpec.StepKeepsFresh | youtube_music_downloader.py:489-508 | without removals every step keeps the row ordinals 0..n-1, every record with a row, and the records' ids distinct |
| QueueSpec.RunKeepsFresh | youtube_music_downloader.py:489-508 | the same holds after any run without removals |
| QueueSpec.IdsUniqueWithoutRemoval | youtube_music_downloader.py:489-508 | after any run without removals, an add succeeds with a new id and a "Queued" row, and queued or running records never share an id |
| QueueSpec.RemoveThenAddCollides | youtube_music_downloader.py:467-508 | after a remove, a third add in the same second reuses the second id: Tk refuses the row, but the record is already queued twice under one id |
| QueueSpec.ClearThenAddHijacksRow | youtube_music_downloader.py:444-508 | after a clear, a new add gets a running task's id, and that task's finish marks the new, never-started row "Completed"; the next dispatch sets that finished row back to "Downloading" |
| QueueSpec.StepKeepsStatuses | youtube_music_downloader.py:311-394 | without removals every step keeps each row's status matching its record's place ("Queued" on the FIFO, "Downloading" while running, finished after), and no record moves back |
| QueueSpec.RunKeepsStatuses | youtube_music_downloader.py:311-394 | the same holds across any run without removals |
| QueueSpec.StatusesMoveForward | youtube_music_downloader.py:311-394 | after any run without removals, a row's status only moves forward, from "Queued" to "Downloading" to a finished status |
| QueueSpec.ErrorStatusLost | youtube_music_downloader.py:385-394 | under the as-written finish, a failed download's row keeps "Downloading"; the corrected finish writes the error text |
| QueueManager.Downloader.constructor | youtube_music_downloader.py:41-46 | the fields start as the queue's initial state: empty, active (the processor starts at line 100), cap 2, no downloads |
| QueueManager.Downloader.AddToQueue | youtube_music_downloader.py:489-516 | the object's new state and result are those of `QueueSpec.Add` |
| QueueManager.Downloader.ProcessQueueStep | youtube_music_downloader.py:311-331 | the new state is `QueueSpec.Dispatch`'s; a record is launched exactly when the guard holds, and it is the FIFO head |
| QueueManager.Downloader.DownloadFinished | youtube_music_downloader.py:379-394 | the new state is `QueueSpec.Finish`'s, the corrected failure branch |
| QueueManager.Downloader.ProgressReported | youtube_music_downloader.py:396-408 | the new state is `QueueSpec.Report`'s |
| QueueManager.Downloader.UpdateQueueItemStatus | youtube_music_downloader.py:410-415 | the search loop leaves the rows as `WithStatus` gives them and no other field changes |
| QueueManager.Downloader.UpdateQueueItemProgress | youtube_music_downloader.py:417-422 | the search loop leaves the rows as `WithProgress` gives them and no other field changes |
| QueueManager.Downloader.StartQueue | youtube_music_downloader.py:434-437 | only the pause switch changes, to active |
| QueueManager.Downloader.PauseQueue | youtube_music_downloader.py:439-442 | only the pause switch changes, to paused |
| QueueManager.Downloader.ClearQueue | youtube_music_downloader.py:444-458 | the drain loop and the delete loop end in `QueueSpec.Clear`'s state |
| QueueManager.Downloader.RemoveFromQueue | youtube_music_downloader.py:467-473 | the new state is `QueueSpec.Remove`'s |
| QueueManager.Downloader.MoveInQueue | youtube_music_downloader.py:475-487 | the new state is `QueueSpec.Move`'s |
| QueueManager.Downloader.SetMaxConcurrent | youtube_music_downloader.py:253 | only the cap changes |

## Left out

- Threads: each operation is one atomic step. The unsynchronised `+=` and `-=` on `active_downloads`, run from different threads, could lose an update; that is not modelled. Runs of events stand for every interleaving of whole steps.
- QueueSpec.Finish: models the corrected failure branch, which writes the error text. As written, that write is usually lost to a `NameError` (see Findings). `QueueSpec.Step`'s finish event and every run lemma built on it use this corrected finish. `QueueSpec.FinishAsWritten` keeps the same invariants (its own contract and `QueueSpec.FinishAsWrittenKeepsFresh`), but the run lemmas are not restated for it.
- QueueManager.Downloader.DownloadFinished: follows `QueueSpec.Finish`, so it writes the error text that the code as written usually loses.
- QueueManager.Downloader.ProcessQueueStep: writes "Downloading" at once; the source defers it through `root.after`. The other deferred updates are also applied at once. The one race that matters, in the failure branch, is modelled under Findings.
- The 0.5-second sleep and the endless `while True` of `process_queue`: one method call is one pass of the loop.
- yt-dlp: download options, cookie authentication, the output template and the downloaded file. The extractor's result is the outcome of a finish event and the progress records of report events.
- ProgressHook.Classify: the `TypeError` it detects is not linked to the failure of that download. A hook exception aborts the extraction, which the model covers only because a finish event may carry any outcome.
- The percentage is an exact real; `f"{percent:.1f}%"` float formatting is not modelled.
- `os.makedirs`, `update_song_list`, `update_queue_status` (a label), `notebook.select` and the right-click menu: filesystem and UI only.
- `download_queue.task_done()`: nothing in the program calls `join`, so the count it keeps has no effect.
- The pruning of `download_threads` with `is_alive()`: the model's list of running records drops an entry when its task finishes.
- Duration.FormatDuration: takes an integer or `None`. The truncation of a float duration by `int()`, and other falsy inputs, are not modelled.
- The cap spinbox: an empty or non-numeric entry (while the user retypes the value, say) makes `max_concurrent_downloads.get()` raise `TclError` at line 311. That call is outside the `try`, which only catches `queue.Empty`, so the exception ends the `process_queue` thread. From then on no record is dispatched, and `start_queue` only sets the flag. The model has no stopped processor: its cap is always an integer, and a processor step is always possible.
- Search, preview, playback with pygame, and downloads outside the queue: not part of this model.

## Findings

| source | as written | input that shows it | evidently intended | confidence | as-written member | corrected member |
|---|---|---|---|---|---|---|
| youtube_music_downloader.py:387-389 | the failure branch schedules a lambda that reads the exception variable `e` when Tk runs it; Python unbinds `e` at the end of the `except` clause, so the callback raises `NameError` | any download whose extractor raises, when the Tk thread runs the callback after the worker thread has left the `except` clause (the usual order, since `after(0, …)` only queues it) | the row shows "Error: " followed by the first 30 characters of the message and "..." | not executed; high | QueueSpec.FinishAsWritten, QueueSpec.ErrorStatusLost | QueueSpec.Finish |
