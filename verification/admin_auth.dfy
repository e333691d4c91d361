/**
 * Admin registration and the login decision. Password hashing, password
 * comparison and token signing belong to code outside the model and enter as
 * function parameters with no properties assumed.
 */
module AdminAuth {
  import opened Common
  import opened Tables

  /** The lifetime the login handler asks the signer to put in every token. */
  const TokenLifetime: string := "1h"

  /** The payload a session token is signed over: the admin id and the expiry setting. */
  datatype Claims = Claims(id: nat, expiresIn: string)

  datatype LoginBody = TokenBody(token: string) | Message(text: string)

  /** Status code, body, and the Authorization response header when one is set. */
  datatype LoginReply = LoginReply(code: int, body: LoginBody, authorization: Option<string>)

  const UnknownUserMessage: string := "Username or password is incorrect"
  const BadPasswordMessage: string := "Invalid password"
  const LoginErrorMessage: string := "Error logging in"

  predicate UsernameTaken(admins: seq<AdminRow>, username: string) {
    exists i :: 0 <= i < |admins| && admins[i].username == username
  }

  /** SELECT * FROM admins WHERE username = $1, first row. */
  function FindAdmin(admins: seq<AdminRow>, username: string): (r: Option<AdminRow>)
    ensures r.Some? ==> r.value in admins && r.value.username == username
    ensures r.None? <==> !UsernameTaken(admins, username)
  {
    if admins == [] then None
    else if admins[0].username == username then Some(admins[0])
    else FindAdmin(admins[1..], username)
  }

  /** The admins row a registration INSERT builds, VARCHAR values as their columns store them. */
  function NewAdminRow(id: nat, username: string, hashed: string): (a: AdminRow)
    requires StoreVarchar(username, UsernameWidth).Some? && StoreVarchar(hashed, PasswordWidth).Some?
    ensures a.id == id && |a.username| <= UsernameWidth && |a.password| <= PasswordWidth
    ensures |username| <= UsernameWidth ==> a.username == username
    ensures |hashed| <= PasswordWidth ==> a.password == hashed
    ensures a.username == username[..if |username| <= UsernameWidth then |username| else UsernameWidth]
    ensures a.password == hashed[..if |hashed| <= PasswordWidth then |hashed| else PasswordWidth]
  {
    AdminRow(id, StoreVarchar(username, UsernameWidth).value, StoreVarchar(hashed, PasswordWidth).value)
  }

  /**
   * The values given for the VARCHAR columns can be assigned; a NULL username
   * passes this check and fails NOT NULL later, after the SERIAL default is drawn.
   */
  predicate AdminVarcharsAccepted(username: Option<string>, hashed: string) {
    && (username.None? || StoreVarchar(username.value, UsernameWidth).Some?)
    && StoreVarchar(hashed, PasswordWidth).Some?
  }

  /** The register INSERT passes the NOT NULL, VARCHAR and UNIQUE checks of admins. */
  predicate Registrable(admins: seq<AdminRow>, username: Option<string>, hashed: string)
    ensures Registrable(admins, username, hashed) ==>
      && username.Some?
      && StoreVarchar(username.value, UsernameWidth).Some? && StoreVarchar(hashed, PasswordWidth).Some?
      && forall i :: 0 <= i < |admins| ==> admins[i].username != NewAdminRow(0, username.value, hashed).username
  {
    && username.Some?
    && StoreVarchar(username.value, UsernameWidth).Some?
    && StoreVarchar(hashed, PasswordWidth).Some?
    && !UsernameTaken(admins, StoreVarchar(username.value, UsernameWidth).value)
  }

  /**
   * Registration is accepted exactly when the values can be assigned to their
   * columns and the table with the new row (id from the sequence, the hash in
   * the password column) still satisfies its constraints.
   */
  lemma {:induction false} RegistrableIffConstraintsHold(admins: seq<AdminRow>, nextId: nat,
                                                         username: string, hashed: string)
    requires AdminsValid(admins, nextId)
    ensures Registrable(admins, Some(username), hashed)
        <==> && StoreVarchar(username, UsernameWidth).Some? && StoreVarchar(hashed, PasswordWidth).Some?
             && AdminsValid(admins + [NewAdminRow(nextId, username, hashed)], nextId + 1)
  {
    if StoreVarchar(username, UsernameWidth).None? || StoreVarchar(hashed, PasswordWidth).None? { return; }
    var row := NewAdminRow(nextId, username, hashed);
    var after := admins + [row];
    if AdminsValid(after, nextId + 1) {
      assert after[|admins|] == row;
      forall i | 0 <= i < |admins| ensures admins[i].username != row.username {
        assert after[i] == admins[i];
      }
    }
  }

  /**
   * The login decision once the admins query has run: an unknown username and a
   * wrong password both give 400 (with different messages); otherwise 200 with a
   * token signed over the admin's id and a one-hour expiry, echoed in the
   * Authorization header as a bearer credential.
   */
  function Authenticate(admins: seq<AdminRow>, username: Option<string>, password: string,
                        comparePassword: (string, string) -> bool, sign: Claims -> string): (r: LoginReply)
    requires UsernamesUnique(admins)
    ensures r.code == 200 || r.code == 400
    ensures r.code == 200 <==>
      username.Some? && exists i :: 0 <= i < |admins| && admins[i].username == username.value
                                    && comparePassword(password, admins[i].password)
    ensures r.code == 200 ==>
      exists i :: 0 <= i < |admins| && admins[i].username == username.value
        && r.body == TokenBody(sign(Claims(admins[i].id, TokenLifetime)))
        && r.authorization == Some("Bearer " + sign(Claims(admins[i].id, TokenLifetime)))
    ensures r.code == 400 ==>
      && r.authorization == None
      && r.body == Message(if username.Some? && UsernameTaken(admins, username.value)
                           then BadPasswordMessage else UnknownUserMessage)
  {
    // A missing username compares with NULL and selects no row.
    var found := if username.None? then None else FindAdmin(admins, username.value);
    if found.None? then LoginReply(400, Message(UnknownUserMessage), None)
    else if !comparePassword(password, found.value.password) then
      assert forall i :: 0 <= i < |admins| && admins[i].username == username.value ==> admins[i] == found.value;
      LoginReply(400, Message(BadPasswordMessage), None)
    else
      var token := sign(Claims(found.value.id, TokenLifetime));
      LoginReply(200, TokenBody(token), Some("Bearer " + token))
  }

  /**
   * Register then login: after a successful registration, logging in under the
   * username as stored (the username itself whenever it fits its column) with the
   * same password, when the comparison accepts the stored hash, yields a token
   * for the new admin's id.
   */
  lemma {:induction false} RegisterThenLogin(admins: seq<AdminRow>, nextId: nat, username: string,
                                             password: string, hashPassword: string -> string,
                                             comparePassword: (string, string) -> bool, sign: Claims -> string)
    requires AdminsValid(admins, nextId)
    requires Registrable(admins, Some(username), hashPassword(password))
    requires comparePassword(password, NewAdminRow(nextId, username, hashPassword(password)).password)
    ensures var row := NewAdminRow(nextId, username, hashPassword(password));
      var after := admins + [row];
      && UsernamesUnique(after)
      && (|username| <= UsernameWidth ==> row.username == username)
      && Authenticate(after, Some(row.username), password, comparePassword, sign)
         == LoginReply(200, TokenBody(sign(Claims(nextId, TokenLifetime))),
                       Some("Bearer " + sign(Claims(nextId, TokenLifetime))))
  {
    var row := NewAdminRow(nextId, username, hashPassword(password));
    var after := admins + [row];
    RegistrableIffConstraintsHold(admins, nextId, username, hashPassword(password));
    assert after[|admins|] == row;
    var r := Authenticate(after, Some(row.username), password, comparePassword, sign);
    var i :| 0 <= i < |after| && after[i].username == row.username
             && r.body == TokenBody(sign(Claims(after[i].id, TokenLifetime)));
    if i < |admins| {
      assert after[i] == admins[i];
    }
  }
}
