/** Values shared by every table and request handler of the pickup-order service. */
module Common {

  /** A column value that may be SQL NULL, or a request-body field that may be absent. */
  datatype Option<+T> = None | Some(value: T)

  // Declared widths of the VARCHAR columns of the three tables.
  const UsernameWidth: nat := 50
  const PasswordWidth: nat := 255
  const NameWidth: nat := 100
  const EmailWidth: nat := 100
  const PhoneWidth: nat := 15
  const OrderIdWidth: nat := 20

  /**
   * Assigning a string to a VARCHAR(width) column. A value that fits is stored
   * as it is. A longer one is accepted only when every character past the width
   * is a space, and is then cut to the width. Any other longer value is rejected.
   */
  function StoreVarchar(s: string, width: nat): (r: Option<string>)
    ensures r.Some? <==> forall k :: width <= k < |s| ==> s[k] == ' '
    ensures |s| <= width ==> r == Some(s)
    ensures r.Some? ==> && r.value <= s
                        && |r.value| == (if |s| <= width then |s| else width)
                        && forall k :: |r.value| <= k < |s| ==> s[k] == ' '
  {
    if |s| <= width then Some(s)
    else if forall k :: width <= k < |s| ==> s[k] == ' ' then Some(s[..width])
    else None
  }

}
