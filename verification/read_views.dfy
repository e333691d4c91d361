/**
 * The read queries: lookup of an order by primary key, the full outer join of
 * users and status ordered by users.id descending (NULLs first), and that join
 * filtered on the users side's order id.
 */
module ReadViews {
  import opened Common
  import opened Tables
  import opened StatusUpsert

  /** One row of `users FULL OUTER JOIN status ON users.order_id = status.order_id`. */
  datatype Joined = Joined(user: Option<UserRow>, status: Option<StatusRow>)

  /** The users columns both join views select. */
  datatype OrderColumns = OrderColumns(
    name: string, email: string, phone: string, pickupDate: string, pickupTime: string,
    pickupAddress: string, dropAddress: string, orderId: string, purpose: string)

  /** A row of the full listing: entry date, order columns and status, each possibly NULL. */
  datatype ListRow = ListRow(entryDate: Option<string>, order: Option<OrderColumns>, status: Option<string>)

  /** A row of the per-order view: the WHERE clause keeps only rows with an order. */
  datatype InfoRow = InfoRow(order: OrderColumns, status: Option<string>)

  predicate NoDuplicates<T(==)>(s: seq<T>) {
    forall p, q :: 0 <= p < q < |s| ==> s[p] != s[q]
  }

  /** SELECT * FROM users WHERE id = $1. */
  function FindUserById(users: seq<UserRow>, id: int): (r: Option<UserRow>)
    ensures r.Some? ==> r.value in users && r.value.id == id
    ensures r.None? <==> forall i :: 0 <= i < |users| ==> users[i].id != id
  {
    if users == [] then None
    else if users[0].id == id then Some(users[0])
    else FindUserById(users[1..], id)
  }

  /** Status rows whose order id matches no users row, NULL-extended on the users side. */
  function OrphanRows(users: seq<UserRow>, rows: seq<StatusRow>): (r: seq<Joined>)
    ensures |r| <= |rows|
    ensures forall j :: j in r <==>
      j.user.None? && j.status.Some? && j.status.value in rows && !HasOrder(users, j.status.value.orderId)
  {
    if rows == [] then []
    else (if HasOrder(users, rows[0].orderId) then [] else [Joined(None, Some(rows[0]))])
         + OrphanRows(users, rows[1..])
  }

  /** Every users row with its status row (or NULL), the highest id first. */
  function UserRowsDescending(users: seq<UserRow>, rows: seq<StatusRow>): (r: seq<Joined>)
    ensures |r| == |users|
    ensures forall m :: 0 <= m < |r| ==>
      r[m] == Joined(Some(users[|users| - 1 - m]), FindStatus(rows, users[|users| - 1 - m].orderId))
  {
    if users == [] then []
    else [Joined(Some(users[|users| - 1]), FindStatus(rows, users[|users| - 1].orderId))]
         + UserRowsDescending(users[..|users| - 1], rows)
  }

  /**
   * The full outer join in its ORDER BY users.id DESC order: the rows whose
   * users.id is NULL come first (PostgreSQL puts NULLs first in descending
   * order), then the users rows from the newest down.
   */
  function FullOuterJoin(users: seq<UserRow>, rows: seq<StatusRow>): (r: seq<Joined>)
    ensures |users| <= |r| <= |users| + |rows|
    ensures forall p :: 0 <= p < |r| ==> r[p].user.Some? || r[p].status.Some?
  {
    OrphanRows(users, rows) + UserRowsDescending(users, rows)
  }

  function Columns(u: UserRow): OrderColumns {
    OrderColumns(u.name, u.email, u.phone, u.pickupDate, u.pickupTime,
                 u.pickupAddress, u.dropAddress, u.orderId, u.purpose)
  }

  function StatusText(s: Option<StatusRow>): Option<string> {
    match s
    case None => None
    case Some(row) => Some(row.status)
  }

  /** The listing's projection; note that order_id is taken from the users side. */
  function ListRowOf(j: Joined): (r: ListRow)
    ensures r.order.Some? <==> j.user.Some?
    ensures r.entryDate.Some? <==> j.user.Some?
    ensures j.user.Some? ==> r.order.value.orderId == j.user.value.orderId
    ensures r.status.Some? <==> j.status.Some?
  {
    match j.user
    case None => ListRow(None, None, StatusText(j.status))
    case Some(u) => ListRow(Some(u.entryDate), Some(Columns(u)), StatusText(j.status))
  }

  /** The rows of the full listing. */
  function ListView(users: seq<UserRow>, rows: seq<StatusRow>): (r: seq<ListRow>)
    ensures |r| == |FullOuterJoin(users, rows)|
    ensures forall p :: 0 <= p < |r| && r[p].order.None? ==> r[p].entryDate.None? && r[p].status.Some?
  {
    var joined := FullOuterJoin(users, rows);
    seq(|joined|, p requires 0 <= p < |joined| => ListRowOf(joined[p]))
  }

  /** WHERE users.order_id = $1, which drops every row whose users side is NULL. */
  function WhereOrderId(js: seq<Joined>, orderId: string): (r: seq<Joined>)
    ensures forall p :: 0 <= p < |r| ==> r[p].user.Some? && r[p].user.value.orderId == orderId
    ensures forall j :: j in r <==> j in js && j.user.Some? && j.user.value.orderId == orderId
  {
    if js == [] then []
    else (if js[0].user.Some? && js[0].user.value.orderId == orderId then [js[0]] else [])
         + WhereOrderId(js[1..], orderId)
  }

  function InfoRowOf(j: Joined): (r: InfoRow)
    requires j.user.Some?
    ensures r.order.orderId == j.user.value.orderId && r.order.email == j.user.value.email
    ensures r.status.Some? <==> j.status.Some?
  {
    InfoRow(Columns(j.user.value), StatusText(j.status))
  }

  /** The rows of the per-order view. */
  function CompleteInfoView(users: seq<UserRow>, rows: seq<StatusRow>, orderId: string): (r: seq<InfoRow>)
    ensures forall p :: 0 <= p < |r| ==> r[p].order.orderId == orderId
  {
    var matched := WhereOrderId(FullOuterJoin(users, rows), orderId);
    seq(|matched|, p requires 0 <= p < |matched| => InfoRowOf(matched[p]))
  }

  // ---------------------------------------------------------------- helpers

  lemma {:induction false} OrphanRowsDistinct(users: seq<UserRow>, rows: seq<StatusRow>)
    requires NoDuplicates(rows)
    ensures NoDuplicates(OrphanRows(users, rows))
  {
    if rows != [] {
      var tail := rows[1..];
      assert NoDuplicates(tail) by {
        forall p, q | 0 <= p < q < |tail| ensures tail[p] != tail[q] {
          assert tail[p] == rows[p + 1] && tail[q] == rows[q + 1];
        }
      }
      OrphanRowsDistinct(users, tail);
      var rest := OrphanRows(users, tail);
      var head := if HasOrder(users, rows[0].orderId) then [] else [Joined(None, Some(rows[0]))];
      assert rows[0] !in tail by {
        forall q | 0 <= q < |tail| ensures tail[q] != rows[0] {
          assert tail[q] == rows[q + 1];
        }
      }
      var r := head + rest;
      forall p, q | 0 <= p < q < |r| ensures r[p] != r[q] {
        if p < |head| {
          assert r[q] == rest[q - |head|] && r[q] in rest;
        } else {
          assert r[p] == rest[p - |head|] && r[q] == rest[q - |head|];
        }
      }
    }
  }

  lemma {:induction false} WhereOrderIdDistinct(js: seq<Joined>, orderId: string)
    requires NoDuplicates(js)
    ensures NoDuplicates(WhereOrderId(js, orderId))
  {
    if js != [] {
      var tail := js[1..];
      assert NoDuplicates(tail) by {
        forall p, q | 0 <= p < q < |tail| ensures tail[p] != tail[q] {
          assert tail[p] == js[p + 1] && tail[q] == js[q + 1];
        }
      }
      WhereOrderIdDistinct(tail, orderId);
      var rest := WhereOrderId(tail, orderId);
      var head := if js[0].user.Some? && js[0].user.value.orderId == orderId then [js[0]] else [];
      assert js[0] !in tail by {
        forall q | 0 <= q < |tail| ensures tail[q] != js[0] {
          assert tail[q] == js[q + 1];
        }
      }
      var r := head + rest;
      forall p, q | 0 <= p < q < |r| ensures r[p] != r[q] {
        if p < |head| {
          assert r[q] == rest[q - |head|] && r[q] in rest;
        } else {
          assert r[p] == rest[p - |head|] && r[q] == rest[q - |head|];
        }
      }
    }
  }

  /** Where each part of the join sits. */
  lemma {:induction false} JoinShape(users: seq<UserRow>, rows: seq<StatusRow>)
    ensures var o, j := OrphanRows(users, rows), FullOuterJoin(users, rows);
      && |j| == |o| + |users|
      && (forall p :: 0 <= p < |o| ==>
            && j[p] == o[p] && j[p].user.None? && j[p].status.Some?
            && j[p].status.value in rows && !HasOrder(users, j[p].status.value.orderId))
      && (forall p :: |o| <= p < |j| ==>
            j[p] == Joined(Some(users[|j| - 1 - p]), FindStatus(rows, users[|j| - 1 - p].orderId)))
  {
    var o, u, j := OrphanRows(users, rows), UserRowsDescending(users, rows), FullOuterJoin(users, rows);
    forall p | 0 <= p < |o|
      ensures && j[p] == o[p] && j[p].user.None? && j[p].status.Some?
              && j[p].status.value in rows && !HasOrder(users, j[p].status.value.orderId)
    {
      assert o[p] in o;
    }
    forall p | |o| <= p < |j|
      ensures j[p] == Joined(Some(users[|j| - 1 - p]), FindStatus(rows, users[|j| - 1 - p].orderId))
    {
      assert j[p] == u[p - |o|];
    }
  }

  lemma {:induction false} StatusRowsDistinct(rows: seq<StatusRow>, nextStatus: nat)
    requires StatusValid(rows, nextStatus)
    ensures NoDuplicates(rows)
  {
    forall p, q | 0 <= p < q < |rows| ensures rows[p] != rows[q] {
      assert rows[p].id < rows[q].id;
    }
  }

  /** With unique order ids, the status row found for a row's own order id is that row. */
  lemma {:induction false} FindStatusOfOwnKey(rows: seq<StatusRow>, nextStatus: nat, i: nat)
    requires StatusValid(rows, nextStatus) && i < |rows|
    ensures FindStatus(rows, rows[i].orderId) == Some(rows[i])
  {
    var found := FindStatus(rows, rows[i].orderId);
    var x :| 0 <= x < |rows| && rows[x] == found.value;
    assert rows[x].orderId == rows[i].orderId;
  }

  lemma {:induction false} UserRowsDistinct(users: seq<UserRow>, nextUser: nat)
    requires UsersValid(users, nextUser)
    ensures forall a, b :: 0 <= a < |users| && 0 <= b < |users| && users[a] == users[b] ==> a == b
  {
  }

  lemma FirstTwoDiffer<T>(s: seq<T>)
    requires NoDuplicates(s) && |s| >= 2
    ensures s[0] != s[1] && s[0] in s && s[1] in s
  {
  }

  /** A duplicate-free sequence whose every element is x, and that holds x, is [x]. */
  lemma {:induction false} SingleDistinctValue<T>(s: seq<T>, x: T)
    requires NoDuplicates(s) && x in s
    requires forall y :: y in s ==> y == x
    ensures s == [x]
  {
    assert s[0] in s;
    if |s| >= 2 {
      FirstTwoDiffer(s);
      assert false;
    }
  }

  /** The join holds no row twice. */
  lemma {:induction false} JoinDistinct(users: seq<UserRow>, rows: seq<StatusRow>, nextUser: nat, nextStatus: nat)
    requires UsersValid(users, nextUser) && StatusValid(rows, nextStatus)
    ensures NoDuplicates(FullOuterJoin(users, rows))
  {
    JoinShape(users, rows);
    StatusRowsDistinct(rows, nextStatus);
    OrphanRowsDistinct(users, rows);
    var o, j := OrphanRows(users, rows), FullOuterJoin(users, rows);
    forall p, q | 0 <= p < q < |j| ensures j[p] != j[q] {
      if |o| <= p {
        assert users[|j| - 1 - q].id < users[|j| - 1 - p].id;
      }
    }
  }

  // ---------------------------------------------------------------- the listing

  /**
   * Every users row appears in the join exactly once, paired with the status row
   * carrying its order id, or with NULL when there is none.
   */
  lemma {:induction false} JoinListsEveryUserOnce(users: seq<UserRow>, rows: seq<StatusRow>, nextUser: nat)
    requires UsersValid(users, nextUser)
    ensures var j := FullOuterJoin(users, rows);
      && (forall i :: 0 <= i < |users| ==>
            Joined(Some(users[i]), FindStatus(rows, users[i].orderId)) in j)
      && (forall p, q :: 0 <= p < |j| && 0 <= q < |j| && j[p].user.Some? && j[q].user == j[p].user ==> p == q)
      && (forall p :: 0 <= p < |j| && j[p].user.Some? && j[p].status.Some? ==>
            j[p].status.value.orderId == j[p].user.value.orderId)
  {
    JoinShape(users, rows);
    var o, j := OrphanRows(users, rows), FullOuterJoin(users, rows);
    forall i | 0 <= i < |users|
      ensures Joined(Some(users[i]), FindStatus(rows, users[i].orderId)) in j
    {
      assert j[|j| - 1 - i] == Joined(Some(users[i]), FindStatus(rows, users[i].orderId));
    }
    UserRowsDistinct(users, nextUser);
    forall p, q | 0 <= p < |j| && 0 <= q < |j| && j[p].user.Some? && j[q].user == j[p].user
      ensures p == q
    {
      assert |o| <= p && |o| <= q;
      assert users[|j| - 1 - p] == users[|j| - 1 - q];
    }
  }

  /**
   * Status rows whose order id no users row carries appear as orphan rows with
   * NULL order columns, and every row without an order is such an orphan.
   */
  lemma {:induction false} JoinListsOrphans(users: seq<UserRow>, rows: seq<StatusRow>)
    ensures var j := FullOuterJoin(users, rows);
      && (forall i :: 0 <= i < |rows| && !HasOrder(users, rows[i].orderId) ==> Joined(None, Some(rows[i])) in j)
      && (forall p :: 0 <= p < |j| && j[p].user.None? ==>
            j[p].status.Some? && j[p].status.value in rows && !HasOrder(users, j[p].status.value.orderId))
  {
    JoinShape(users, rows);
    var o := OrphanRows(users, rows);
    forall i | 0 <= i < |rows| && !HasOrder(users, rows[i].orderId)
      ensures Joined(None, Some(rows[i])) in FullOuterJoin(users, rows)
    {
      assert Joined(None, Some(rows[i])) in o;
    }
  }

  /** Every status row appears in some row of the join, with its order or as an orphan. */
  lemma {:induction false} JoinListsEveryStatus(users: seq<UserRow>, rows: seq<StatusRow>, nextStatus: nat)
    requires StatusValid(rows, nextStatus)
    ensures var j := FullOuterJoin(users, rows);
      forall i :: 0 <= i < |rows| ==> exists p :: 0 <= p < |j| && j[p].status == Some(rows[i])
  {
    var j := FullOuterJoin(users, rows);
    forall i | 0 <= i < |rows| ensures exists p :: 0 <= p < |j| && j[p].status == Some(rows[i]) {
      if HasOrder(users, rows[i].orderId) {
        var k :| 0 <= k < |users| && users[k].orderId == rows[i].orderId;
        FindStatusOfOwnKey(rows, nextStatus, i);
        JoinShape(users, rows);
        assert j[|j| - 1 - k].status == Some(rows[i]);
      } else {
        JoinListsOrphans(users, rows);
        assert Joined(None, Some(rows[i])) in j;
      }
    }
  }

  /** No status row appears in two rows of the join. */
  lemma {:induction false} JoinListsEveryStatusOnce(users: seq<UserRow>, rows: seq<StatusRow>,
                                                    nextUser: nat, nextStatus: nat)
    requires UsersValid(users, nextUser) && StatusValid(rows, nextStatus)
    ensures var j := FullOuterJoin(users, rows);
      forall p, q :: 0 <= p < |j| && 0 <= q < |j| && j[p].status.Some? && j[q].status == j[p].status ==> p == q
  {
    JoinShape(users, rows);
    JoinDistinct(users, rows, nextUser, nextStatus);
    var o, j := OrphanRows(users, rows), FullOuterJoin(users, rows);
    forall p, q | 0 <= p < |j| && 0 <= q < |j| && j[p].status.Some? && j[q].status == j[p].status
      ensures p == q
    {
      UserPartHasOwnKey(users, rows, p);
      UserPartHasOwnKey(users, rows, q);
      if |o| <= p && |o| <= q {
        var a, b := |j| - 1 - p, |j| - 1 - q;
        assert users[a].orderId == users[b].orderId;
      }
    }
  }

  /** A row of the users part carries its users row's order id, and so has an order. */
  lemma {:induction false} UserPartHasOwnKey(users: seq<UserRow>, rows: seq<StatusRow>, p: int)
    ensures var o, j := OrphanRows(users, rows), FullOuterJoin(users, rows);
      |o| <= p < |j| ==>
        && j[p].user.Some? && HasOrder(users, j[p].user.value.orderId)
        && (j[p].status.Some? ==> j[p].status.value.orderId == j[p].user.value.orderId)
  {
    JoinShape(users, rows);
    var o, j := OrphanRows(users, rows), FullOuterJoin(users, rows);
    if |o| <= p < |j| {
      assert users[|j| - 1 - p].orderId == j[p].user.value.orderId;
    }
  }

  /**
   * ORDER BY users.id DESC with NULLs first: rows without an order precede all
   * others, and order rows come in strictly decreasing id.
   */
  lemma {:induction false} JoinOrderedByIdDescending(users: seq<UserRow>, rows: seq<StatusRow>, nextUser: nat)
    requires UsersValid(users, nextUser)
    ensures var j := FullOuterJoin(users, rows);
      && (forall p, q :: 0 <= p < q < |j| && j[q].user.None? ==> j[p].user.None?)
      && (forall p, q :: 0 <= p < q < |j| && j[p].user.Some? && j[q].user.Some? ==>
            j[p].user.value.id > j[q].user.value.id)
  {
    JoinShape(users, rows);
    var o, j := OrphanRows(users, rows), FullOuterJoin(users, rows);
    forall p, q | 0 <= p < q < |j| && j[p].user.Some? && j[q].user.Some?
      ensures j[p].user.value.id > j[q].user.value.id
    {
      assert users[|j| - 1 - q].id < users[|j| - 1 - p].id;
    }
  }

  /** The listing is empty (the 404 case) exactly when both tables are empty. */
  lemma {:induction false} ListViewEmptyIff(users: seq<UserRow>, rows: seq<StatusRow>)
    ensures |ListView(users, rows)| == 0 <==> users == [] && rows == []
  {
    JoinShape(users, rows);
    if users == [] && rows != [] {
      assert !HasOrder(users, rows[0].orderId);
      assert Joined(None, Some(rows[0])) in OrphanRows(users, rows);
    }
  }

  // ---------------------------------------------------------------- the per-order view

  /** Every row the WHERE clause keeps is the users row carrying that order id. */
  lemma {:induction false} MatchedRowsAreTheOrder(users: seq<UserRow>, rows: seq<StatusRow>, orderId: string, x: Joined)
    requires x in WhereOrderId(FullOuterJoin(users, rows), orderId)
    ensures exists i :: 0 <= i < |users| && users[i].orderId == orderId
              && x == Joined(Some(users[i]), FindStatus(rows, orderId))
  {
    JoinShape(users, rows);
    var j := FullOuterJoin(users, rows);
    var p :| 0 <= p < |j| && j[p] == x;
    var i := |j| - 1 - p;
    assert x == Joined(Some(users[i]), FindStatus(rows, orderId));
  }

  /**
   * The per-order view has at most one row: none when no order carries the id
   * (orphan status rows never show), otherwise that order with its status.
   */
  lemma {:induction false} CompleteInfoAtMostOneRow(users: seq<UserRow>, rows: seq<StatusRow>, nextUser: nat, nextStatus: nat,
                                 orderId: string)
    requires UsersValid(users, nextUser) && StatusValid(rows, nextStatus)
    ensures !HasOrder(users, orderId) ==> CompleteInfoView(users, rows, orderId) == []
    ensures forall i :: 0 <= i < |users| && users[i].orderId == orderId ==>
      CompleteInfoView(users, rows, orderId) == [InfoRow(Columns(users[i]), StatusText(FindStatus(rows, orderId)))]
  {
    var j := FullOuterJoin(users, rows);
    var m := WhereOrderId(j, orderId);
    if !HasOrder(users, orderId) && m != [] {
      MatchedRowsAreTheOrder(users, rows, orderId, m[0]);
    }
    forall i | 0 <= i < |users| && users[i].orderId == orderId
      ensures CompleteInfoView(users, rows, orderId) == [InfoRow(Columns(users[i]), StatusText(FindStatus(rows, orderId)))]
    {
      var target := Joined(Some(users[i]), FindStatus(rows, orderId));
      JoinListsEveryUserOnce(users, rows, nextUser);
      assert target in m;
      forall x | x in m ensures x == target {
        MatchedRowsAreTheOrder(users, rows, orderId, x);
        var k :| 0 <= k < |users| && users[k].orderId == orderId
                 && x == Joined(Some(users[k]), FindStatus(rows, orderId));
        assert users[k].orderId == users[i].orderId;
      }
      JoinDistinct(users, rows, nextUser, nextStatus);
      WhereOrderIdDistinct(j, orderId);
      SingleDistinctValue(m, target);
    }
  }
}
