/** The `users` table: account type, row shape, and lookups by email and id. */
module UserModel {
  import opened Wrappers
  import opened Scalars

  /** The two account kinds; no other value can be stored. */
  datatype UserType = Residential | Commercial

  /** Every column a client supplies; all of them are non-null. */
  datatype UserData = UserData(
    email: string,
    hashedPassword: string,
    name: string,
    userType: UserType,
    address: string,
    phone: string,
    document: string)

  /** A stored row: the serial primary key and server-set creation time around the data. */
  datatype User = User(id: int, data: UserData, createdAt: Timestamp)

  /** Some stored user has this email (exact, case-sensitive comparison). */
  predicate EmailTaken(users: seq<User>, email: string) {
    exists i :: 0 <= i < |users| && users[i].data.email == email
  }

  /** Some stored user has this primary key. */
  predicate UserIdTaken(users: seq<User>, id: int) {
    exists i :: 0 <= i < |users| && users[i].id == id
  }

  /** The unique constraint on the `email` column. */
  ghost predicate UniqueEmails(users: seq<User>) {
    forall i, j :: 0 <= i < j < |users| ==> users[i].data.email != users[j].data.email
  }

  /**
   * `SELECT ... WHERE email = ? LIMIT 1` over the table in insertion order:
   * the first user with that email, or None when there is none.
   */
  function FirstWithEmail(users: seq<User>, email: string): (r: Option<User>)
    ensures r.Some? ==> r.value in users && r.value.data.email == email
    ensures r.None? <==> !EmailTaken(users, email)
    ensures r.Some? ==> exists i :: 0 <= i < |users| && users[i] == r.value
                                    && forall j :: 0 <= j < i ==> users[j].data.email != email
    decreases |users|
  {
    if |users| == 0 then None
    else if users[0].data.email == email then Some(users[0])
    else
      var r := FirstWithEmail(users[1..], email);
      assert forall i :: 0 < i < |users| ==> users[i] == users[1..][i - 1];
      r
  }

  /** With unique emails, the user found by email is the only one holding it. */
  lemma FirstWithEmailIsTheHolder(users: seq<User>, k: int)
    requires UniqueEmails(users)
    requires 0 <= k < |users|
    ensures FirstWithEmail(users, users[k].data.email) == Some(users[k])
  {
    var r := FirstWithEmail(users, users[k].data.email);
    var i :| 0 <= i < |users| && users[i] == r.value
             && forall j :: 0 <= j < i ==> users[j].data.email != users[k].data.email;
  }
}
