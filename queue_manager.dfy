/** The queue part of `YouTubeMusicDownloader` as an object whose methods
    update its fields in place. Each method is proved to take the object
    from a state to the state the matching function of `QueueSpec` gives,
    so everything proved there about the functions holds of the object. */
module QueueManager {
  import opened Optional
  import opened Decimal
  import opened QueueRows
  import opened QueueSpec
  import ProgressHook

  class Downloader {
    /** `download_queue`: the records waiting to be dispatched, oldest first. */
    var downloadQueue: seq<Item>
    /** The children of `queue_tree`, in display order. */
    var queueTree: seq<Row>
    var queueActive: bool
    /** The value of the `max_concurrent_downloads` variable. */
    var maxConcurrentDownloads: int
    var activeDownloads: int
    /** One entry per download thread not yet finished: the record it downloads. */
    var downloadThreads: seq<Item>

    function State(): QueueSpec.State
      reads this
    {
      QueueSpec.State(downloadQueue, queueTree, queueActive, maxConcurrentDownloads, activeDownloads, downloadThreads)
    }

    ghost predicate Valid()
      reads this
    {
      Inv(State())
    }

    /** The queue fields after `__init__`, which ends by starting the
        processor and so leaves the queue active. */
    constructor ()
      ensures State() == Initial() && Valid()
    {
      downloadQueue := [];
      queueTree := [];
      queueActive := false;
      maxConcurrentDownloads := DefaultMaxConcurrent;
      activeDownloads := 0;
      downloadThreads := [];
      queueActive := true;
    }

    /** `add_to_queue(url, title)` with `int(time.time())` as `stamp`, the
        download tab's settings and the formatted local time as `added`. */
    method AddToQueue(stamp: nat, url: string, title: string, settings: Settings, added: string)
      returns (r: AddResult)
      requires Valid()
      modifies this
      ensures (State(), r) == Add(old(State()), stamp, url, title, settings, added)
      ensures Valid()
    {
      var id := ItemId(stamp, |queueTree|);
      var item := Item(id, url, title, settings.format, settings.quality, settings.outputDir, added);
      downloadQueue := downloadQueue + [item];
      if id in Ids(queueTree) {
        r := DuplicateId(id);
      } else {
        queueTree := queueTree + [Row(id, title, QueuedStatus, Text(WaitingText))];
        r := Added(id);
      }
    }

    /** One pass of the `process_queue` loop: returns the record whose
        download thread it starts, if any. */
    method ProcessQueueStep() returns (launched: Option<Item>)
      requires Valid()
      modifies this
      ensures State() == Dispatch(old(State()))
      ensures launched.Some? <==> CanDispatch(old(State()))
      ensures launched.Some? ==> launched.value == old(downloadQueue)[0]
      ensures Valid()
    {
      launched := None;
      if queueActive && activeDownloads < maxConcurrentDownloads {
        if |downloadQueue| > 0 {
          var item := downloadQueue[0];
          downloadQueue := downloadQueue[1..];
          UpdateQueueItemStatus(item.id, DownloadingStatus);
          activeDownloads := activeDownloads + 1;
          downloadThreads := downloadThreads + [item];
          launched := Some(item);
        }
      }
    }

    /** The end of `download_queued_item` for thread k, with the status
        text computed from the exception the failure branch catches. */
    method DownloadFinished(k: nat, outcome: Outcome)
      requires Valid() && k < |downloadThreads|
      modifies this
      ensures State() == Finish(old(State()), k, outcome)
      ensures Valid()
    {
      var item := downloadThreads[k];
      UpdateQueueItemStatus(item.id, TerminalStatus(outcome));
      activeDownloads := activeDownloads - 1;
      downloadThreads := downloadThreads[..k] + downloadThreads[k + 1..];
    }

    /** `update_queue_progress_hook(d, id)` for thread k, followed by the
        progress update it schedules. */
    method ProgressReported(k: nat, record: ProgressHook.HookRecord)
      requires Valid() && k < |downloadThreads|
      modifies this
      ensures State() == Report(old(State()), k, record)
      ensures Valid()
    {
      var cell := HookCell(ProgressHook.Classify(record));
      if cell.Some? {
        UpdateQueueItemProgress(downloadThreads[k].id, cell.value);
      }
    }

    /** `update_queue_item_status`: walks the rows until it meets the id and
        sets that row's status; an id with no row changes nothing. */
    method UpdateQueueItemStatus(id: string, status: string)
      requires DistinctIds(queueTree)
      modifies this
      ensures queueTree == WithStatus(old(queueTree), id, status)
      ensures downloadQueue == old(downloadQueue) && queueActive == old(queueActive)
      ensures maxConcurrentDownloads == old(maxConcurrentDownloads)
      ensures activeDownloads == old(activeDownloads) && downloadThreads == old(downloadThreads)
    {
      var i := 0;
      while i < |queueTree|
        invariant 0 <= i <= |queueTree| && queueTree == old(queueTree)
        invariant forall j :: 0 <= j < i ==> queueTree[j].id != id
      {
        if queueTree[i].id == id {
          WithStatusAt(queueTree, i, status);
          queueTree := queueTree[i := queueTree[i].(status := status)];
          return;
        }
        i := i + 1;
      }
      UpdateOfAbsentId(queueTree, id, status, Text(""));
    }

    /** `update_queue_item_progress`: the same walk, for the progress column. */
    method UpdateQueueItemProgress(id: string, progress: ProgressCell)
      requires DistinctIds(queueTree)
      modifies this
      ensures queueTree == WithProgress(old(queueTree), id, progress)
      ensures downloadQueue == old(downloadQueue) && queueActive == old(queueActive)
      ensures maxConcurrentDownloads == old(maxConcurrentDownloads)
      ensures activeDownloads == old(activeDownloads) && downloadThreads == old(downloadThreads)
    {
      var i := 0;
      while i < |queueTree|
        invariant 0 <= i <= |queueTree| && queueTree == old(queueTree)
        invariant forall j :: 0 <= j < i ==> queueTree[j].id != id
      {
        if queueTree[i].id == id {
          WithProgressAt(queueTree, i, progress);
          queueTree := queueTree[i := queueTree[i].(progress := progress)];
          return;
        }
        i := i + 1;
      }
      UpdateOfAbsentId(queueTree, id, "", progress);
    }

    method StartQueue()
      requires Valid()
      modifies this
      ensures State() == old(State()).(queueActive := true)
      ensures Valid()
    {
      queueActive := true;
    }

    method PauseQueue()
      requires Valid()
      modifies this
      ensures State() == old(State()).(queueActive := false)
      ensures Valid()
    {
      queueActive := false;
    }

    /** `clear_queue`: takes records off the FIFO until it is empty, then
        deletes every child of the treeview, one at a time. */
    method ClearQueue()
      requires Valid()
      modifies this
      ensures State() == Clear(old(State()))
      ensures Valid()
    {
      while |downloadQueue| > 0
        invariant State() == old(State()).(fifo := downloadQueue)
        decreases |downloadQueue|
      {
        downloadQueue := downloadQueue[1..];
      }
      var children := queueTree;
      var i := 0;
      while i < |children|
        invariant 0 <= i <= |children| && queueTree == children[i..]
        invariant State() == old(State()).(fifo := [], rows := queueTree)
      {
        DeleteFirst(queueTree);
        queueTree := DeleteRow(queueTree, children[i].id);
        assert queueTree == children[i + 1..];
        i := i + 1;
      }
    }

    /** `remove_from_queue` with the treeview's current selection. */
    method RemoveFromQueue(selection: seq<string>)
      requires Valid() && SelectionOf(selection, queueTree)
      modifies this
      ensures State() == Remove(old(State()), selection)
      ensures Valid()
    {
      if |selection| > 0 {
        assert selection[0] in selection;
        queueTree := DeleteRow(queueTree, selection[0]);
      }
    }

    /** `move_in_queue(direction)` with the treeview's current selection. */
    method MoveInQueue(selection: seq<string>, direction: Direction)
      requires Valid() && SelectionOf(selection, queueTree)
      modifies this
      ensures State() == Move(old(State()), selection, direction)
      ensures Valid()
    {
      if |selection| == 0 {
        return;
      }
      assert selection[0] in selection;
      var item := selection[0];
      var index := IndexOf(queueTree, item);
      if direction == Up && index > 0 {
        queueTree := MoveRow(queueTree, index, index - 1);
      } else if direction == Down {
        queueTree := MoveRow(queueTree, index, index + 1);
      }
    }

    /** The concurrency spinbox writing `cap` into its variable. */
    method SetMaxConcurrent(cap: int)
      requires Valid()
      modifies this
      ensures State() == old(State()).(maxConcurrent := cap)
      ensures Valid()
    {
      maxConcurrentDownloads := cap;
    }
  }
}
