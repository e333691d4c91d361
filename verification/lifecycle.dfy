/**
 * Properties that connect the writing operations with the read views: what an
 * intake or a status update makes visible afterwards.
 */
module Lifecycle {
  import opened Common
  import opened OrderIds
  import opened Tables
  import opened StatusUpsert
  import opened ReadViews

  /**
   * A status update for an order id no users row carries still creates its row:
   * it shows in the full listing as an orphan with NULL order columns, and never
   * in the per-order view.
   */
  lemma {:induction false} StatusOnUnknownOrderIsOrphan(users: seq<UserRow>, rows: seq<StatusRow>,
                                                       nextUser: nat, nextStatus: nat,
                                                       orderId: string, newStatus: string)
    requires UsersValid(users, nextUser) && StatusValid(rows, nextStatus)
    requires |orderId| <= OrderIdWidth && !HasOrder(users, orderId)
    ensures var after := Upsert(rows, orderId, newStatus, nextStatus);
      var j := FullOuterJoin(users, after);
      && (exists p :: 0 <= p < |j| && j[p].user.None? && j[p].status.Some?
                      && j[p].status.value.orderId == orderId && j[p].status.value.status == newStatus)
      && CompleteInfoView(users, after, orderId) == []
  {
    var after := Upsert(rows, orderId, newStatus, nextStatus);
    UpsertLeavesExactlyOneRow(rows, nextStatus, orderId, newStatus);
    var i :| 0 <= i < |after| && after[i].orderId == orderId;
    JoinListsOrphans(users, after);
    var j := FullOuterJoin(users, after);
    assert Joined(None, Some(after[i])) in j;
    CompleteInfoAtMostOneRow(users, after, nextUser, nextStatus + 1, orderId);
  }

  /** After a status update for an existing order, the per-order view shows that order with the new status. */
  lemma {:induction false} StatusUpdateShowsInCompleteInfo(users: seq<UserRow>, rows: seq<StatusRow>,
                                                           nextUser: nat, nextStatus: nat,
                                                           orderId: string, newStatus: string, i: nat)
    requires UsersValid(users, nextUser) && StatusValid(rows, nextStatus)
    requires i < |users| && users[i].orderId == orderId
    ensures CompleteInfoView(users, Upsert(rows, orderId, newStatus, nextStatus), orderId)
         == [InfoRow(Columns(users[i]), Some(newStatus))]
  {
    assert UserFits(users[i]);
    UpsertLeavesExactlyOneRow(rows, nextStatus, orderId, newStatus);
    CompleteInfoAtMostOneRow(users, Upsert(rows, orderId, newStatus, nextStatus), nextUser, nextStatus + 1, orderId);
  }

  /**
   * After a successful intake the new order is found by its primary key and by
   * its order id; it has no status unless a status row already carried that id.
   */
  lemma {:induction false} SubmittedOrderIsVisible(users: seq<UserRow>, rows: seq<StatusRow>,
                                                   nextUser: nat, nextStatus: nat,
                                                   req: OrderRequest, random: seq<Byte>, today: string)
    requires UsersValid(users, nextUser) && StatusValid(rows, nextStatus)
    requires |random| == RandomByteCount
    requires Insertable(users, req, GenerateOrderId(OrderPrefix, random))
    ensures var id := GenerateOrderId(OrderPrefix, random);
      var row := NewUserRow(nextUser, req, id, today);
      var after := users + [row];
      && UsersValid(after, nextUser + 1)
      && FindUserById(after, nextUser) == Some(row)
      && CompleteInfoView(after, rows, id) == [InfoRow(Columns(row), StatusText(FindStatus(rows, id)))]
      && ((forall k :: 0 <= k < |rows| ==> rows[k].orderId != id) ==>
            CompleteInfoView(after, rows, id) == [InfoRow(Columns(row), None)])
  {
    var id := GenerateOrderId(OrderPrefix, random);
    var row := NewUserRow(nextUser, req, id, today);
    var after := users + [row];
    InsertableIffConstraintsHold(users, nextUser, req, id, today);
    assert after[|users|] == row;
    CompleteInfoAtMostOneRow(after, rows, nextUser + 1, nextStatus, id);
  }
}
