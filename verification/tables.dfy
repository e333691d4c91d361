/**
 * The three tables of the store (admins, users, status) and the constraints
 * their declarations carry: SERIAL primary keys, UNIQUE columns, NOT NULL
 * columns (non-optional fields here) and VARCHAR widths.
 */
module Tables {
  import opened Common

  datatype AdminRow = AdminRow(id: nat, username: string, password: string)

  datatype UserRow = UserRow(
    id: nat, name: string, email: string, phone: string,
    pickupDate: string, pickupTime: string, pickupAddress: string, dropAddress: string,
    orderId: string, entryDate: string, purpose: string)

  datatype StatusRow = StatusRow(id: nat, orderId: string, status: string)

  /** The body of an order-intake request; a field left out of the JSON arrives as NULL. */
  datatype OrderRequest = OrderRequest(
    name: Option<string>, email: Option<string>, phone: Option<string>,
    pickupDate: Option<string>, pickupTime: Option<string>,
    pickupAddress: Option<string>, dropAddress: Option<string>, purpose: Option<string>)

  predicate UsernamesUnique(admins: seq<AdminRow>) {
    forall i, j :: 0 <= i < j < |admins| ==> admins[i].username != admins[j].username
  }

  /** admins: ascending SERIAL ids below the next sequence value, unique usernames, widths. */
  predicate AdminsValid(admins: seq<AdminRow>, nextId: nat) {
    && UsernamesUnique(admins)
    && (forall i, j :: 0 <= i < j < |admins| ==> admins[i].id < admins[j].id)
    && (forall i :: 0 <= i < |admins| ==>
          admins[i].id < nextId && |admins[i].username| <= UsernameWidth
          && |admins[i].password| <= PasswordWidth)
  }

  predicate UserFits(u: UserRow) {
    |u.name| <= NameWidth && |u.email| <= EmailWidth && |u.phone| <= PhoneWidth
    && |u.orderId| <= OrderIdWidth
  }

  /** users: ascending SERIAL ids, unique email, unique order_id, widths. */
  predicate UsersValid(users: seq<UserRow>, nextId: nat) {
    && (forall i, j :: 0 <= i < j < |users| ==>
          users[i].id < users[j].id && users[i].email != users[j].email
          && users[i].orderId != users[j].orderId)
    && (forall i :: 0 <= i < |users| ==> users[i].id < nextId && UserFits(users[i]))
  }

  /** status: ascending SERIAL ids, unique order_id, width of order_id. */
  predicate StatusValid(rows: seq<StatusRow>, nextId: nat) {
    && (forall i, j :: 0 <= i < j < |rows| ==>
          rows[i].id < rows[j].id && rows[i].orderId != rows[j].orderId)
    && (forall i :: 0 <= i < |rows| ==> rows[i].id < nextId && |rows[i].orderId| <= OrderIdWidth)
  }

  predicate HasOrder(users: seq<UserRow>, orderId: string) {
    exists i :: 0 <= i < |users| && users[i].orderId == orderId
  }

  predicate HasEmail(users: seq<UserRow>, email: string) {
    exists i :: 0 <= i < |users| && users[i].email == email
  }

  predicate AllPresent(req: OrderRequest) {
    && req.name.Some? && req.email.Some? && req.phone.Some?
    && req.pickupDate.Some? && req.pickupTime.Some?
    && req.pickupAddress.Some? && req.dropAddress.Some? && req.purpose.Some?
  }

  /**
   * Every VARCHAR value that is given can be assigned to its column. PostgreSQL
   * checks this while planning the INSERT, before the SERIAL default is drawn.
   */
  predicate VarcharsAccepted(req: OrderRequest, orderId: string) {
    && (req.name.None? || StoreVarchar(req.name.value, NameWidth).Some?)
    && (req.email.None? || StoreVarchar(req.email.value, EmailWidth).Some?)
    && (req.phone.None? || StoreVarchar(req.phone.value, PhoneWidth).Some?)
    && StoreVarchar(orderId, OrderIdWidth).Some?
  }

  /** Every NOT NULL field is present and every VARCHAR value can be assigned to its column. */
  predicate Assignable(req: OrderRequest, orderId: string) {
    && AllPresent(req)
    && StoreVarchar(req.name.value, NameWidth).Some?
    && StoreVarchar(req.email.value, EmailWidth).Some?
    && StoreVarchar(req.phone.value, PhoneWidth).Some?
    && StoreVarchar(orderId, OrderIdWidth).Some?
  }

  /**
   * The users row an intake INSERT builds: VARCHAR values as their columns store
   * them; entry_date takes its default, the current date.
   */
  function NewUserRow(id: nat, req: OrderRequest, orderId: string, today: string): (u: UserRow)
    requires Assignable(req, orderId)
    ensures UserFits(u) && u.id == id && u.entryDate == today
    ensures u.pickupAddress == req.pickupAddress.value && u.dropAddress == req.dropAddress.value
    ensures u.purpose == req.purpose.value
    ensures u.pickupDate == req.pickupDate.value && u.pickupTime == req.pickupTime.value
    ensures var s := req.name.value; u.name == s[..if |s| <= NameWidth then |s| else NameWidth]
    ensures var s := req.email.value; u.email == s[..if |s| <= EmailWidth then |s| else EmailWidth]
    ensures var s := req.phone.value; u.phone == s[..if |s| <= PhoneWidth then |s| else PhoneWidth]
    ensures u.orderId == orderId[..if |orderId| <= OrderIdWidth then |orderId| else OrderIdWidth]
  {
    UserRow(id, StoreVarchar(req.name.value, NameWidth).value,
            StoreVarchar(req.email.value, EmailWidth).value,
            StoreVarchar(req.phone.value, PhoneWidth).value,
            req.pickupDate.value, req.pickupTime.value,
            req.pickupAddress.value, req.dropAddress.value,
            StoreVarchar(orderId, OrderIdWidth).value, today, req.purpose.value)
  }

  /** The intake INSERT passes every NOT NULL, VARCHAR and UNIQUE check of users. */
  predicate Insertable(users: seq<UserRow>, req: OrderRequest, orderId: string)
    ensures Insertable(users, req, orderId) ==>
      && Assignable(req, orderId)
      && forall i :: 0 <= i < |users| ==>
           users[i].email != NewUserRow(0, req, orderId, "").email
           && users[i].orderId != NewUserRow(0, req, orderId, "").orderId
  {
    && Assignable(req, orderId)
    && !HasEmail(users, StoreVarchar(req.email.value, EmailWidth).value)
    && !HasOrder(users, StoreVarchar(orderId, OrderIdWidth).value)
  }

  /**
   * The intake INSERT is accepted exactly when the table with the new row
   * (id taken from the sequence) still satisfies the declared constraints.
   */
  lemma InsertableIffConstraintsHold(users: seq<UserRow>, nextId: nat, req: OrderRequest,
                                     orderId: string, today: string)
    requires UsersValid(users, nextId)
    ensures Insertable(users, req, orderId)
        <==> Assignable(req, orderId) && UsersValid(users + [NewUserRow(nextId, req, orderId, today)], nextId + 1)
  {
    if !Assignable(req, orderId) { return; }
    var row := NewUserRow(nextId, req, orderId, today);
    var after := users + [row];
    if UsersValid(after, nextId + 1) {
      assert UserFits(after[|users|]);
      forall i | 0 <= i < |users|
        ensures users[i].email != row.email && users[i].orderId != row.orderId
      {
        assert after[i] == users[i] && after[|users|] == row;
      }
    }
  }
}
