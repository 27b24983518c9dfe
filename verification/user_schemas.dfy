/** Request and response shapes for users. */
module UserSchemas {
  import opened Scalars
  import opened UserModel

  /** A registration body: the public fields plus the plaintext password. */
  datatype UserCreate = UserCreate(
    email: string,
    name: string,
    userType: UserType,
    address: string,
    phone: string,
    document: string,
    password: string)

  /** The registration response: the public fields, the key and the creation time; no password or hash. */
  datatype UserOut = UserOut(
    id: int,
    email: string,
    name: string,
    userType: UserType,
    address: string,
    phone: string,
    document: string,
    createdAt: Timestamp)

  /** Every public field of `d` is the one the request carried. */
  predicate CopiedFrom(d: UserData, userIn: UserCreate) {
    && d.email == userIn.email
    && d.name == userIn.name
    && d.userType == userIn.userType
    && d.address == userIn.address
    && d.phone == userIn.phone
    && d.document == userIn.document
  }

  /** The response built from a stored user. */
  function ToUserOut(u: User): (r: UserOut)
    ensures r.id == u.id && r.createdAt == u.createdAt
    ensures r.email == u.data.email && r.name == u.data.name && r.userType == u.data.userType
    ensures r.address == u.data.address && r.phone == u.data.phone && r.document == u.data.document
  {
    UserOut(u.id, u.data.email, u.data.name, u.data.userType, u.data.address, u.data.phone, u.data.document,
            u.createdAt)
  }

  /** The response reveals nothing about the stored hash: changing it leaves the response the same. */
  lemma UserOutHidesHash(u: User, otherHash: string)
    ensures ToUserOut(u.(data := u.data.(hashedPassword := otherHash))) == ToUserOut(u)
  {
  }
}
