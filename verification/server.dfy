/**
 * The request handlers, as methods on the store that holds the three tables.
 * Each handler returns the HTTP status code it sends. `dbError` stands for any
 * failure inside a handler's try block that the model does not decide itself:
 * a lost connection or aborted query, a value PostgreSQL cannot convert, a
 * rejected password comparison, a throwing token signer. Constraint violations
 * and VARCHAR assignment are decided by the model.
 */
module Server {
  import opened Common
  import opened OrderIds
  import opened Tables
  import opened AdminAuth
  import opened StatusUpsert
  import opened ReadViews
  import opened Lifecycle

  /** One notification dispatched by the intake handler: recipient and subject. */
  datatype Email = Email(to: string, subject: string)

  const ConfirmationSubject: string := "Your Pickup Request Received"
  const CompanySubject: string := "New Pickup Request"

  class Store {
    var admins: seq<AdminRow>
    var nextAdminId: nat
    var users: seq<UserRow>
    var nextUserId: nat
    /** The `status` table. */
    var statuses: seq<StatusRow>
    var nextStatusId: nat

    /** The declared constraints of the three tables. */
    ghost predicate Valid()
      reads this
    {
      && AdminsValid(admins, nextAdminId)
      && UsersValid(users, nextUserId)
      && StatusValid(statuses, nextStatusId)
    }

    /** Freshly created tables; every SERIAL sequence starts at 1. */
    constructor ()
      ensures Valid()
      ensures admins == [] && users == [] && statuses == []
      ensures nextAdminId == 1 && nextUserId == 1 && nextStatusId == 1
    {
      admins, users, statuses := [], [], [];
      nextAdminId, nextUserId, nextStatusId := 1, 1, 1;
    }

    /**
     * POST /admin/register: insert the username with the hash of the password;
     * 201 on success, 400 when the insert fails.
     */
    method RegisterAdmin(username: Option<string>, password: string,
                         hashPassword: string -> string, dbError: bool) returns (code: int)
      requires Valid()
      modifies this
      ensures Valid()
      ensures users == old(users) && statuses == old(statuses)
      ensures nextUserId == old(nextUserId) && nextStatusId == old(nextStatusId)
      ensures nextAdminId == old(nextAdminId)
                             + (if !dbError && AdminVarcharsAccepted(username, hashPassword(password)) then 1 else 0)
      ensures var ok := !dbError && Registrable(old(admins), username, hashPassword(password));
        && (ok ==> code == 201
                   && admins == old(admins) + [NewAdminRow(old(nextAdminId), username.value, hashPassword(password))])
        && (!ok ==> code == 400 && admins == old(admins))
    {
      var hashed := hashPassword(password);
      if dbError {
        return 400;
      }
      if !AdminVarcharsAccepted(username, hashed) {
        return 400;
      }
      // Past planning, the sequence value is drawn even when the row is then rejected.
      var id := nextAdminId;
      nextAdminId := nextAdminId + 1;
      if Registrable(admins, username, hashed) {
        RegistrableIffConstraintsHold(admins, id, username.value, hashed);
        admins := admins + [NewAdminRow(id, username.value, hashed)];
        code := 201;
      } else {
        code := 400;
      }
    }

    /**
     * POST /admin/login: 500 when anything inside the handler's try block fails
     * (the query, a rejected password comparison, a throwing token signer), all
     * of which `dbError` stands for; otherwise the login decision.
     */
    method Login(username: Option<string>, password: string,
                 comparePassword: (string, string) -> bool, sign: Claims -> string,
                 dbError: bool) returns (reply: LoginReply)
      requires Valid()
      ensures dbError ==> reply == LoginReply(500, Message(LoginErrorMessage), None)
      ensures !dbError ==> reply == Authenticate(admins, username, password, comparePassword, sign)
    {
      if dbError {
        reply := LoginReply(500, Message(LoginErrorMessage), None);
      } else {
        reply := Authenticate(admins, username, password, comparePassword, sign);
      }
    }

    /** GET /users/:id: 200 with the row, 404 when no row has that id, 400 on failure. */
    method GetUserById(id: int, dbError: bool) returns (code: int, row: Option<UserRow>)
      ensures dbError ==> code == 400 && row == None
      ensures !dbError ==> (code == 200 <==> exists i :: 0 <= i < |users| && users[i].id == id)
      ensures !dbError && code != 200 ==> code == 404 && row == None
      ensures code == 200 ==> row.Some? && row.value in users && row.value.id == id
    {
      if dbError {
        return 400, None;
      }
      row := FindUserById(users, id);
      code := if row.Some? then 200 else 404;
    }

    /**
     * GET /users: the full listing; 404 exactly when both tables are empty,
     * 400 on failure.
     */
    method GetUsers(dbError: bool) returns (code: int, rows: seq<ListRow>)
      ensures dbError ==> code == 400 && rows == []
      ensures !dbError ==> rows == ListView(users, statuses)
      ensures !dbError ==> (code == 404 <==> users == [] && statuses == [])
      ensures !dbError && code != 404 ==> code == 200
    {
      if dbError {
        return 400, [];
      }
      rows := ListView(users, statuses);
      ListViewEmptyIff(users, statuses);
      code := if |rows| == 0 then 404 else 200;
    }

    /**
     * POST /completeInfo: the order with that order id and its status; 404 when
     * no order carries it (even if a status row does), 400 on failure.
     */
    method CompleteInfo(orderId: string, dbError: bool) returns (code: int, rows: seq<InfoRow>)
      requires Valid()
      ensures dbError ==> code == 400 && rows == []
      ensures !dbError ==> rows == CompleteInfoView(users, statuses, orderId)
      ensures !dbError ==> (code == 404 <==> !HasOrder(users, orderId))
      ensures !dbError && code != 404 ==> code == 200
      ensures code == 200 ==>
        exists i :: 0 <= i < |users| && users[i].orderId == orderId
          && rows == [InfoRow(Columns(users[i]), StatusText(FindStatus(statuses, orderId)))]
    {
      if dbError {
        return 400, [];
      }
      rows := CompleteInfoView(users, statuses, orderId);
      CompleteInfoAtMostOneRow(users, statuses, nextUserId, nextStatusId, orderId);
      code := if |rows| == 0 then 404 else 200;
    }

    /**
     * POST /status: upsert the status of an order id; 200 whether or not an
     * order carries that id, 400 when the statement fails (missing status,
     * order id that its VARCHAR(20) column refuses, database failure). An
     * order id longer than 20 characters whose excess is all spaces is cut to
     * 20 characters and upserted under that key.
     */
    method SetStatus(orderId: string, newStatus: Option<string>, dbError: bool) returns (code: int)
      requires Valid()
      modifies this
      ensures Valid()
      ensures admins == old(admins) && users == old(users)
      ensures nextAdminId == old(nextAdminId) && nextUserId == old(nextUserId)
      ensures nextStatusId == old(nextStatusId)
                              + (if !dbError && StoreVarchar(orderId, OrderIdWidth).Some? then 1 else 0)
      ensures var key := StoreVarchar(orderId, OrderIdWidth);
        var ok := !dbError && key.Some? && newStatus.Some?;
        && (ok ==> code == 200 && statuses == Upsert(old(statuses), key.value, newStatus.value, old(nextStatusId)))
        && (!ok ==> code == 400 && statuses == old(statuses))
    {
      if dbError {
        return 400;
      }
      var key := StoreVarchar(orderId, OrderIdWidth);
      if key.None? {
        return 400;
      }
      // ON CONFLICT, and a NULL status, still draw the sequence value of the proposed row.
      var id := nextStatusId;
      nextStatusId := nextStatusId + 1;
      if newStatus.Some? {
        UpsertLeavesExactlyOneRow(statuses, id, key.value, newStatus.value);
        statuses := Upsert(statuses, key.value, newStatus.value, id);
        code := 200;
      } else {
        code := 400;
      }
    }

    /**
     * POST /user: generate an order id with the "SSON" prefix and insert the
     * order. A rejected insert gives 400 and sends nothing; otherwise the two
     * notifications go out and the reply is 201 when both were delivered, 500
     * when either failed, the row staying in both cases.
     */
    method SubmitOrder(req: OrderRequest, random: seq<Byte>, today: string, companyEmail: string,
                       dbError: bool, emailsDelivered: bool)
      returns (code: int, orderId: string, outbox: seq<Email>)
      requires Valid() && |random| == RandomByteCount
      modifies this
      ensures Valid()
      ensures orderId == GenerateOrderId(OrderPrefix, random)
      ensures admins == old(admins) && statuses == old(statuses)
      ensures nextAdminId == old(nextAdminId) && nextStatusId == old(nextStatusId)
      ensures nextUserId == old(nextUserId)
                            + (if !dbError && VarcharsAccepted(req, orderId) then 1 else 0)
      ensures var ok := !dbError && Insertable(old(users), req, orderId);
        && (ok ==> && users == old(users) + [NewUserRow(old(nextUserId), req, orderId, today)]
                   && outbox == [Email(req.email.value, ConfirmationSubject), Email(companyEmail, CompanySubject)]
                   && code == (if emailsDelivered then 201 else 500))
        && (!ok ==> code == 400 && users == old(users) && outbox == [])
    {
      orderId := GenerateOrderId(OrderPrefix, random);
      outbox := [];
      if dbError {
        return 400, orderId, outbox;
      }
      if !VarcharsAccepted(req, orderId) {
        return 400, orderId, outbox;
      }
      // Past planning, the sequence value is drawn even when the row is then rejected.
      var id := nextUserId;
      nextUserId := nextUserId + 1;
      if !Insertable(users, req, orderId) {
        return 400, orderId, outbox;
      }
      InsertableIffConstraintsHold(users, id, req, orderId, today);
      users := users + [NewUserRow(id, req, orderId, today)];
      outbox := [Email(req.email.value, ConfirmationSubject), Email(companyEmail, CompanySubject)];
      code := if emailsDelivered then 201 else 500;
    }
  }

  /**
   * A client of the handlers: an order is taken on an empty store, its status is
   * set to "In Transit" and then to "Delivered"; the per-order view then shows
   * the order once, with the last status, and one status row carries its id.
   */
  method IntakeThenTwoStatusUpdates(random: seq<Byte>)
    requires |random| == RandomByteCount
  {
    var store := new Store();
    var req := OrderRequest(Some("A"), Some("a@x.com"), Some("555"), Some("2024-01-01"), Some("09:00"),
                            Some("P"), Some("D"), Some("move"));
    assert Insertable([], req, GenerateOrderId(OrderPrefix, random));
    var code, id, outbox := store.SubmitOrder(req, random, "2024-01-01", "ops@example.com", false, true);
    assert code == 201 && |id| == OrderIdLength && |outbox| == 2;
    SsonOrderIdUsesEightBytes(random, random);
    assert id[..4] == "SSON";
    assert store.users[0].orderId == id;

    ghost var before, beforeId := store.statuses, store.nextStatusId;
    var c1 := store.SetStatus(id, Some("In Transit"), false);
    StatusUpdateShowsInCompleteInfo(store.users, before, store.nextUserId, beforeId, id, "In Transit", 0);
    var c2, info := store.CompleteInfo(id, false);
    assert c1 == 200 && c2 == 200;
    assert info == [InfoRow(Columns(store.users[0]), Some("In Transit"))];

    before, beforeId := store.statuses, store.nextStatusId;
    var c3 := store.SetStatus(id, Some("Delivered"), false);
    StatusUpdateShowsInCompleteInfo(store.users, before, store.nextUserId, beforeId, id, "Delivered", 0);
    UpsertLeavesExactlyOneRow(before, beforeId, id, "Delivered");
    var c4, info2 := store.CompleteInfo(id, false);
    assert c3 == 200 && c4 == 200;
    assert info2 == [InfoRow(Columns(store.users[0]), Some("Delivered"))];
    assert forall i :: 0 <= i < |store.statuses| && store.statuses[i].orderId == id ==>
      store.statuses[i].status == "Delivered";
  }
}
