/**
 * The user records the list works on, as the remote user service delivers
 * them (index.js:13, index.js:20). The list reads only the first and last
 * name; everything else travels with the record to the detail popup.
 */
module Users {

  /** The fields shown in the detail popup and otherwise passed through untouched. */
  datatype Payload = Payload(email: string, phone: string, picture: string, city: string, state: string)

  datatype User = User(first: string, last: string, payload: Payload)

  /** The name as the list displays and compares it: first name, one space, last name. */
  function FullName(u: User): (r: string)
    ensures |r| == |u.first| + 1 + |u.last|
  {
    u.first + " " + u.last
  }
}
