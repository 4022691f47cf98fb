/** The rows of the queue's Tk treeview (`queue_tree`): one row per item,
    keyed by the item id, with title, status and progress columns, and the
    text the download queue writes into them. */
module QueueRows {
  import opened Optional
  import opened Decimal

  /** The progress column: a text ("Waiting...", "Converting...") or the
      percentage computed by the progress hook. */
  datatype ProgressCell = Text(text: string) | Percentage(percent: real)

  datatype Row = Row(id: string, title: string, status: string, progress: ProgressCell)

  const QueuedStatus := "Queued"
  const DownloadingStatus := "Downloading"
  const CompletedStatus := "Completed"
  const WaitingText := "Waiting..."
  const ConvertingText := "Converting..."

  function Ids(rows: seq<Row>): (ids: seq<string>)
    ensures |ids| == |rows|
    ensures forall i :: 0 <= i < |rows| ==> ids[i] == rows[i].id
  {
    seq(|rows|, i requires 0 <= i < |rows| => rows[i].id)
  }

  /** Tk refuses a second item with an existing id, so the ids of the rows
      are pairwise different. */
  predicate DistinctIds(rows: seq<Row>)
  {
    forall i, j :: 0 <= i < j < |rows| ==> rows[i].id != rows[j].id
  }

  /** The rows after `queue_tree.set(id, "status", status)` on every row
      with that id. */
  function WithStatus(rows: seq<Row>, id: string, status: string): (r: seq<Row>)
    ensures |r| == |rows|
    ensures forall i :: 0 <= i < |rows| ==>
              r[i].id == rows[i].id && r[i].title == rows[i].title && r[i].progress == rows[i].progress
    ensures forall i :: 0 <= i < |rows| ==>
              r[i].status == if rows[i].id == id then status else rows[i].status
  {
    if |rows| == 0 then []
    else [if rows[0].id == id then rows[0].(status := status) else rows[0]] + WithStatus(rows[1..], id, status)
  }

  /** The rows after `queue_tree.set(id, "progress", progress)` on every row
      with that id. */
  function WithProgress(rows: seq<Row>, id: string, progress: ProgressCell): (r: seq<Row>)
    ensures |r| == |rows|
    ensures forall i :: 0 <= i < |rows| ==>
              r[i].id == rows[i].id && r[i].title == rows[i].title && r[i].status == rows[i].status
    ensures forall i :: 0 <= i < |rows| ==>
              r[i].progress == if rows[i].id == id then progress else rows[i].progress
  {
    if |rows| == 0 then []
    else [if rows[0].id == id then rows[0].(progress := progress) else rows[0]] + WithProgress(rows[1..], id, progress)
  }

  /** An update addressed to an id that has no row changes nothing: the row
      may have been removed or cleared while its download was running. */
  lemma {:induction false} UpdateOfAbsentId(rows: seq<Row>, id: string, status: string, progress: ProgressCell)
    requires id !in Ids(rows)
    ensures WithStatus(rows, id, status) == rows
    ensures WithProgress(rows, id, progress) == rows
  {
    var a, b := WithStatus(rows, id, status), WithProgress(rows, id, progress);
    forall i | 0 <= i < |rows| ensures a[i] == rows[i] && b[i] == rows[i] {
      assert Ids(rows)[i] == rows[i].id;
    }
  }

  /** With distinct ids, setting the status of an id changes one row: the
      one the source's search loop stops at. */
  lemma WithStatusAt(rows: seq<Row>, k: nat, status: string)
    requires DistinctIds(rows) && k < |rows|
    ensures WithStatus(rows, rows[k].id, status) == rows[k := rows[k].(status := status)]
  {
    var r, e := WithStatus(rows, rows[k].id, status), rows[k := rows[k].(status := status)];
    forall i | 0 <= i < |rows| ensures r[i] == e[i] {
      if i != k {
        assert rows[i].id != rows[k].id by {
          if i < k { assert rows[i].id != rows[k].id; } else { assert rows[k].id != rows[i].id; }
        }
      }
      assert r[i] == Row(r[i].id, r[i].title, r[i].status, r[i].progress);
    }
  }

  lemma WithProgressAt(rows: seq<Row>, k: nat, progress: ProgressCell)
    requires DistinctIds(rows) && k < |rows|
    ensures WithProgress(rows, rows[k].id, progress) == rows[k := rows[k].(progress := progress)]
  {
    var r, e := WithProgress(rows, rows[k].id, progress), rows[k := rows[k].(progress := progress)];
    forall i | 0 <= i < |rows| ensures r[i] == e[i] {
      if i != k {
        assert rows[i].id != rows[k].id by {
          if i < k { assert rows[i].id != rows[k].id; } else { assert rows[k].id != rows[i].id; }
        }
      }
      assert r[i] == Row(r[i].id, r[i].title, r[i].status, r[i].progress);
    }
  }

  /** Column updates keep the ids, so they keep them distinct. */
  lemma UpdatesKeepIds(rows: seq<Row>, id: string, status: string, progress: ProgressCell)
    ensures Ids(WithStatus(rows, id, status)) == Ids(rows)
    ensures Ids(WithProgress(rows, id, progress)) == Ids(rows)
    ensures DistinctIds(rows) ==> DistinctIds(WithStatus(rows, id, status)) && DistinctIds(WithProgress(rows, id, progress))
  {
  }

  /** `queue_tree.index(id)` for an id that has a row. */
  function IndexOf(rows: seq<Row>, id: string): (k: nat)
    requires id in Ids(rows)
    ensures k < |rows| && rows[k].id == id
    ensures forall j :: 0 <= j < k ==> rows[j].id != id
  {
    if rows[0].id == id then 0
    else
      assert id in Ids(rows[1..]) by {
        var j :| 0 <= j < |rows| && Ids(rows)[j] == id;
        assert Ids(rows[1..])[j - 1] == id;
      }
      1 + IndexOf(rows[1..], id)
  }

  /** The rows whose id differs from `id`, in their order. */
  function Without(rows: seq<Row>, id: string): (r: seq<Row>)
    ensures |r| <= |rows|
    ensures forall x :: x in r <==> x in rows && x.id != id
  {
    if |rows| == 0 then []
    else
      var rest := Without(rows[1..], id);
      assert forall x :: x in rows <==> x == rows[0] || x in rows[1..];
      if rows[0].id == id then rest else [rows[0]] + rest
  }

  /** With distinct ids, the rows without one id are the rows with its one
      position cut out. */
  lemma {:induction false} WithoutAt(rows: seq<Row>, k: nat)
    requires DistinctIds(rows) && k < |rows|
    ensures Without(rows, rows[k].id) == rows[..k] + rows[k + 1..]
    decreases |rows|
  {
    var id := rows[k].id;
    var tail := rows[1..];
    assert DistinctIds(tail) by {
      forall i, j | 0 <= i < j < |tail| ensures tail[i].id != tail[j].id {
        assert tail[i] == rows[i + 1] && tail[j] == rows[j + 1];
      }
    }
    if k == 0 {
      assert id !in Ids(tail) by {
        forall i | 0 <= i < |tail| ensures Ids(tail)[i] != id {
          assert tail[i] == rows[i + 1];
        }
      }
      WithoutAbsent(tail, id);
    } else {
      assert rows[0].id != id;
      WithoutAt(tail, k - 1);
      assert tail[k - 1] == rows[k];
      assert rows[..k] + rows[k + 1..] == [rows[0]] + (tail[..k - 1] + tail[k..]);
    }
  }

  /** Leaving out an id that has no row leaves every row. */
  lemma {:induction false} WithoutAbsent(rows: seq<Row>, id: string)
    requires id !in Ids(rows)
    ensures Without(rows, id) == rows
    decreases |rows|
  {
    if |rows| > 0 {
      assert Ids(rows)[0] == rows[0].id;
      assert id !in Ids(rows[1..]) by {
        forall i | 0 <= i < |rows| - 1 ensures Ids(rows[1..])[i] != id {
          assert Ids(rows[1..])[i] == Ids(rows)[i + 1];
        }
      }
      WithoutAbsent(rows[1..], id);
      assert [rows[0]] + rows[1..] == rows;
    }
  }

  /** `queue_tree.delete(id)` for an id that has a row: Tk refuses a second
      row with one id, so this leaves exactly the other rows, in order. */
  function DeleteRow(rows: seq<Row>, id: string): (r: seq<Row>)
    requires id in Ids(rows)
    ensures DistinctIds(rows) ==> r == Without(rows, id)
  {
    var k := IndexOf(rows, id);
    assert DistinctIds(rows) ==> Without(rows, id) == rows[..k] + rows[k + 1..] by {
      if DistinctIds(rows) { WithoutAt(rows, k); }
    }
    rows[..k] + rows[k + 1..]
  }

  /** Deleting the id of the first row takes that row off the front. */
  lemma DeleteFirst(rows: seq<Row>)
    requires |rows| > 0
    ensures rows[0].id in Ids(rows) && DeleteRow(rows, rows[0].id) == rows[1..]
  {
    assert Ids(rows)[0] == rows[0].id;
    assert IndexOf(rows, rows[0].id) == 0;
  }

  /** Deleting a row removes exactly that id and keeps every other row, with
      its columns, in order. */
  lemma DeleteRowSpec(rows: seq<Row>, id: string)
    requires DistinctIds(rows) && id in Ids(rows)
    ensures var r := DeleteRow(rows, id);
            r == Without(rows, id) &&
            |r| == |rows| - 1 && DistinctIds(r) && id !in Ids(r) &&
            (forall x :: x in r <==> x in rows && x.id != id) &&
            forall x :: x in Ids(r) <==> x in Ids(rows) && x != id
  {
    var r := DeleteRow(rows, id);
    forall x | x in Ids(r) ensures x in Ids(rows) && x != id {
      DeletedIdsWereThere(rows, id, x);
    }
    forall x | x in Ids(rows) && x != id ensures x in Ids(r) {
      DeleteKeepsOtherIds(rows, id, x);
    }
  }

  lemma DeletedIdsWereThere(rows: seq<Row>, id: string, x: string)
    requires DistinctIds(rows) && id in Ids(rows) && x in Ids(DeleteRow(rows, id))
    ensures x in Ids(rows) && x != id
  {
    var r := DeleteRow(rows, id);
    var i :| 0 <= i < |r| && Ids(r)[i] == x;
    assert r[i] in Without(rows, id);
    var j :| 0 <= j < |rows| && rows[j] == r[i];
    assert Ids(rows)[j] == x;
  }

  lemma DeleteKeepsOtherIds(rows: seq<Row>, id: string, x: string)
    requires DistinctIds(rows) && id in Ids(rows) && x in Ids(rows) && x != id
    ensures x in Ids(DeleteRow(rows, id))
  {
    var r := DeleteRow(rows, id);
    var j :| 0 <= j < |rows| && Ids(rows)[j] == x;
    assert rows[j] in rows && rows[j] in Without(rows, id);
    var i :| 0 <= i < |r| && r[i] == rows[j];
    assert Ids(r)[i] == x;
  }

  /** `queue_tree.move(rows[k].id, "", target)`: Tk takes the row out and
      puts it back so that it ends at position `target`, clamped to the last
      position. */
  function MoveRow(rows: seq<Row>, k: nat, target: nat): (r: seq<Row>)
    requires k < |rows|
    ensures |r| == |rows| && multiset(r) == multiset(rows)
    ensures r[if target < |rows| then target else |rows| - 1] == rows[k]
  {
    var rest := rows[..k] + rows[k + 1..];
    var p := if target < |rest| then target else |rest|;
    assert rows == rows[..k] + [rows[k]] + rows[k + 1..];
    assert rest == rest[..p] + rest[p..];
    assert multiset(rows) == multiset(rows[..k]) + multiset([rows[k]]) + multiset(rows[k + 1..]);
    assert multiset(rest) == multiset(rest[..p]) + multiset(rest[p..]);
    assert multiset(rest) == multiset(rows[..k]) + multiset(rows[k + 1..]);
    var moved := rest[..p] + [rows[k]] + rest[p..];
    assert multiset(moved) == multiset(rest[..p]) + multiset([rows[k]]) + multiset(rest[p..]);
    assert multiset(moved) == multiset(rest) + multiset([rows[k]]);
    moved
  }

  /** Rows k and k + 1 exchanged. */
  function SwapNext(rows: seq<Row>, k: nat): (r: seq<Row>)
    requires k + 1 < |rows|
  {
    rows[k := rows[k + 1]][k + 1 := rows[k]]
  }

  /** Moving a row to the position before it exchanges it with its predecessor. */
  lemma MoveUpSwaps(rows: seq<Row>, k: nat)
    requires 0 < k < |rows|
    ensures MoveRow(rows, k, k - 1) == SwapNext(rows, k - 1)
  {
    var r, s := MoveRow(rows, k, k - 1), SwapNext(rows, k - 1);
    var rest := rows[..k] + rows[k + 1..];
    assert r == rest[..k - 1] + [rows[k]] + rest[k - 1..];
    assert forall i :: 0 <= i < |rows| ==> r[i] == s[i];
  }

  /** Moving a row to the position after it exchanges it with its successor;
      for the last row that position does not exist and nothing changes. */
  lemma MoveDownSwaps(rows: seq<Row>, k: nat)
    requires k < |rows|
    ensures MoveRow(rows, k, k + 1) == if k + 1 < |rows| then SwapNext(rows, k) else rows
  {
    var r := MoveRow(rows, k, k + 1);
    var rest := rows[..k] + rows[k + 1..];
    if k + 1 < |rows| {
      var s := SwapNext(rows, k);
      assert r == rest[..k + 1] + [rows[k]] + rest[k + 1..];
      assert forall i :: 0 <= i < |rows| ==> r[i] == s[i];
    } else {
      assert rest == rows[..k];
      assert rows == rows[..k] + [rows[k]];
    }
  }

  /** Exchanging neighbours keeps the set of ids and their distinctness. */
  lemma SwapKeepsIds(rows: seq<Row>, k: nat)
    requires k + 1 < |rows|
    ensures forall x :: x in Ids(SwapNext(rows, k)) <==> x in Ids(rows)
    ensures DistinctIds(rows) ==> DistinctIds(SwapNext(rows, k))
  {
    var s := SwapNext(rows, k);
    forall x ensures x in Ids(s) <==> x in Ids(rows) {
      if x in Ids(s) {
        var i :| 0 <= i < |s| && Ids(s)[i] == x;
        assert Ids(rows)[if i == k then k + 1 else if i == k + 1 then k else i] == x;
      }
      if x in Ids(rows) {
        var i :| 0 <= i < |rows| && Ids(rows)[i] == x;
        assert Ids(s)[if i == k then k + 1 else if i == k + 1 then k else i] == x;
      }
    }
    if DistinctIds(rows) {
      forall i, j | 0 <= i < j < |s| ensures s[i].id != s[j].id {
        var i', j' := (if i == k then k + 1 else if i == k + 1 then k else i),
                      (if j == k then k + 1 else if j == k + 1 then k else j);
        assert s[i] == rows[i'] && s[j] == rows[j'] && i' != j';
      }
    }
  }

  /** `f"item_{int(time.time())}_{len(children)}"` */
  function ItemId(stamp: nat, ordinal: nat): string
  {
    "item_" + NatToText(stamp) + "_" + NatToText(ordinal)
  }

  datatype IdParts = IdParts(stamp: nat, ordinal: nat)

  /** Reads the time stamp and the ordinal back out of an item id. */
  function ParseItemId(id: string): Option<IdParts>
  {
    var f := Split(id, '_');
    if |f| == 3 && f[0] == "item" && ParseNat(f[1]).Some? && ParseNat(f[2]).Some?
    then Some(IdParts(ParseNat(f[1]).value, ParseNat(f[2]).value))
    else None
  }

  /** An item id gives back the time stamp and the row count it was made from. */
  lemma ItemIdRoundTrip(stamp: nat, ordinal: nat)
    ensures ParseItemId(ItemId(stamp, ordinal)) == Some(IdParts(stamp, ordinal))
  {
    var a, b := NatToText(stamp), NatToText(ordinal);
    DigitsHaveNo(a, '_');
    DigitsHaveNo(b, '_');
    assert ItemId(stamp, ordinal) == "item" + ['_'] + (a + ['_'] + b);
    SplitAt("item", '_', a + ['_'] + b);
    SplitAt(a, '_', b);
    ParseText(stamp);
    ParseText(ordinal);
  }

  /** So two ids are equal exactly when both their time stamp and their
      ordinal are. */
  lemma ItemIdInjective(s1: nat, n1: nat, s2: nat, n2: nat)
    ensures ItemId(s1, n1) == ItemId(s2, n2) <==> s1 == s2 && n1 == n2
  {
    ItemIdRoundTrip(s1, n1);
    ItemIdRoundTrip(s2, n2);
  }

  /** `f"Error: {str(e)[:30]}..."` */
  function ErrorStatus(message: string): (r: string)
    ensures 10 <= |r| <= 40
    ensures r[..7] == "Error: " && r[|r| - 3..] == "..."
    ensures var shown := r[7..|r| - 3];
            |shown| == (if |message| < 30 then |message| else 30) && shown <= message
  {
    var shown := if |message| < 30 then message else message[..30];
    var r := "Error: " + shown + "...";
    assert r[7..|r| - 3] == shown;
    r
  }
}
