/**
 * The status table's keyed insert-or-overwrite:
 * INSERT INTO status (order_id, status) VALUES (k, s)
 * ON CONFLICT (order_id) DO UPDATE SET status = EXCLUDED.status.
 */
module StatusUpsert {
  import opened Common
  import opened Tables

  /** Position of the first status row for an order id. */
  function StatusIndex(rows: seq<StatusRow>, orderId: string): (r: Option<nat>)
    ensures r.Some? ==> r.value < |rows| && rows[r.value].orderId == orderId
    ensures r.Some? ==> forall i :: 0 <= i < r.value ==> rows[i].orderId != orderId
    ensures r.None? <==> forall i :: 0 <= i < |rows| ==> rows[i].orderId != orderId
  {
    if rows == [] then None
    else if rows[0].orderId == orderId then Some(0)
    else match StatusIndex(rows[1..], orderId)
      case None => None
      case Some(i) => Some(i + 1)
  }

  /** The status row of an order id (the LEFT side of the join's ON clause). */
  function FindStatus(rows: seq<StatusRow>, orderId: string): (r: Option<StatusRow>)
    ensures r.Some? ==> r.value in rows && r.value.orderId == orderId
    ensures r.None? <==> forall i :: 0 <= i < |rows| ==> rows[i].orderId != orderId
  {
    match StatusIndex(rows, orderId)
    case None => None
    case Some(i) => Some(rows[i])
  }

  /**
   * The upsert: overwrite the status of the row whose order_id conflicts, keeping
   * its id; otherwise append a row whose id is the sequence's next value.
   */
  function Upsert(rows: seq<StatusRow>, orderId: string, newStatus: string, freshId: nat): (r: seq<StatusRow>)
    ensures |rows| <= |r| <= |rows| + 1
    ensures forall i :: 0 <= i < |rows| ==>
      && r[i].id == rows[i].id && r[i].orderId == rows[i].orderId
      && (rows[i].orderId != orderId ==> r[i] == rows[i])
    ensures |r| == |rows| + 1 <==> forall i :: 0 <= i < |rows| ==> rows[i].orderId != orderId
    ensures |r| == |rows| + 1 ==> r[|rows|] == StatusRow(freshId, orderId, newStatus)
    ensures exists i :: 0 <= i < |r| && r[i].orderId == orderId && r[i].status == newStatus
  {
    match StatusIndex(rows, orderId)
    case Some(i) => rows[i := rows[i].(status := newStatus)]
    case None => rows + [StatusRow(freshId, orderId, newStatus)]
  }

  /** Two tables with the same order ids position by position find the same first index. */
  lemma StatusIndexFollowsKeys(a: seq<StatusRow>, b: seq<StatusRow>, orderId: string)
    requires |a| == |b|
    requires forall i :: 0 <= i < |a| ==> a[i].orderId == b[i].orderId
    ensures StatusIndex(a, orderId) == StatusIndex(b, orderId)
  {
  }

  /** Appending a row keeps the first index of a key already present, and of a key it does not carry. */
  lemma StatusIndexAppend(rows: seq<StatusRow>, row: StatusRow, orderId: string)
    ensures var r := StatusIndex(rows + [row], orderId);
      && (StatusIndex(rows, orderId).Some? ==> r == StatusIndex(rows, orderId))
      && (StatusIndex(rows, orderId).None? && row.orderId == orderId ==> r == Some(|rows|))
      && (StatusIndex(rows, orderId).None? && row.orderId != orderId ==> r.None?)
  {
    var after := rows + [row];
    var r, before := StatusIndex(after, orderId), StatusIndex(rows, orderId);
    if before.Some? {
      assert after[before.value] == rows[before.value];
    } else if row.orderId == orderId {
      assert after[|rows|].orderId == orderId;
    } else {
      forall i | 0 <= i < |after| ensures after[i].orderId != orderId {
        if i < |rows| { assert after[i] == rows[i]; }
      }
    }
  }

  /**
   * After the upsert exactly one row carries the order id, its status is the new
   * status, and the table still satisfies its constraints.
   */
  lemma UpsertLeavesExactlyOneRow(rows: seq<StatusRow>, nextId: nat, orderId: string, newStatus: string)
    requires StatusValid(rows, nextId) && |orderId| <= OrderIdWidth
    ensures var r := Upsert(rows, orderId, newStatus, nextId);
      && StatusValid(r, nextId + 1)
      && (exists i :: 0 <= i < |r| && r[i].orderId == orderId)
      && (forall i :: 0 <= i < |r| && r[i].orderId == orderId ==> r[i].status == newStatus)
      && FindStatus(r, orderId).Some? && FindStatus(r, orderId).value.status == newStatus
  {
    var r := Upsert(rows, orderId, newStatus, nextId);
    match StatusIndex(rows, orderId)
    case Some(k) =>
      StatusIndexFollowsKeys(r, rows, orderId);
      assert r[k].orderId == orderId;
    case None =>
      StatusIndexAppend(rows, StatusRow(nextId, orderId, newStatus), orderId);
      assert r[|rows|].orderId == orderId;
  }

  /**
   * Nothing else changes: every other order id finds the same status row as
   * before, and the row of the updated order id keeps its id when it existed.
   */
  lemma UpsertKeepsOtherRows(rows: seq<StatusRow>, orderId: string, newStatus: string, freshId: nat)
    ensures var r := Upsert(rows, orderId, newStatus, freshId);
      && (forall other :: other != orderId ==> FindStatus(r, other) == FindStatus(rows, other))
      && |r| == |rows| + (if FindStatus(rows, orderId).Some? then 0 else 1)
      && FindStatus(r, orderId).Some?
      && FindStatus(r, orderId).value.id
           == (if FindStatus(rows, orderId).Some? then FindStatus(rows, orderId).value.id else freshId)
  {
    var r := Upsert(rows, orderId, newStatus, freshId);
    match StatusIndex(rows, orderId)
    case Some(k) =>
      forall other | other != orderId ensures FindStatus(r, other) == FindStatus(rows, other) {
        StatusIndexFollowsKeys(r, rows, other);
      }
      StatusIndexFollowsKeys(r, rows, orderId);
    case None =>
      forall other | other != orderId ensures FindStatus(r, other) == FindStatus(rows, other) {
        StatusIndexAppend(rows, StatusRow(freshId, orderId, newStatus), other);
        var idx := StatusIndex(rows, other);
        if idx.Some? { assert r[idx.value] == rows[idx.value]; }
      }
      StatusIndexAppend(rows, StatusRow(freshId, orderId, newStatus), orderId);
  }

  /** Last write wins: a second upsert of the same order id replaces the first status. */
  lemma UpsertLastWriteWins(rows: seq<StatusRow>, orderId: string, first: string, second: string,
                            id1: nat, id2: nat)
    ensures Upsert(Upsert(rows, orderId, first, id1), orderId, second, id2)
         == Upsert(rows, orderId, second, id1)
  {
    var r1 := Upsert(rows, orderId, first, id1);
    match StatusIndex(rows, orderId)
    case Some(k) =>
      StatusIndexFollowsKeys(r1, rows, orderId);
    case None =>
      StatusIndexAppend(rows, StatusRow(id1, orderId, first), orderId);
      assert r1[|rows| := r1[|rows|].(status := second)] == rows + [StatusRow(id1, orderId, second)];
  }

  /** Applying the same upsert twice leaves the table as applying it once. */
  lemma UpsertIdempotent(rows: seq<StatusRow>, orderId: string, newStatus: string, id1: nat, id2: nat)
    ensures Upsert(Upsert(rows, orderId, newStatus, id1), orderId, newStatus, id2)
         == Upsert(rows, orderId, newStatus, id1)
  {
    UpsertLastWriteWins(rows, orderId, newStatus, newStatus, id1, id2);
  }
}
