/**
 * The relational store: the three tables in insertion order, their serial
 * key counters, and the constraints the table declarations ask the database
 * to enforce on insert.
 */
module Database {
  import opened Wrappers
  import opened Scalars
  import opened UserModel
  import opened CollectionModel
  import opened CooperativeModel

  /**
   * The tables in insertion order (the listing queries have no ORDER BY; the
   * model fixes insertion order) and the next value of each key sequence.
   */
  datatype Store = Store(
    users: seq<User>,
    collections: seq<Collection>,
    cooperatives: seq<Cooperative>,
    nextUserId: int,
    nextCollectionId: int,
    nextCooperativeId: int)

  /** Errors the database raises; the handlers catch none of them. */
  datatype DbError = UniqueViolation | ForeignKeyViolation | NegativeOffset | NegativeLimit

  /** A row as the database stored it, and the store after the insert. */
  datatype Inserted<+T> = Inserted(store: Store, row: T)

  /** A fresh database: empty tables, every sequence starting at 1. */
  const Empty := Store([], [], [], 1, 1, 1)

  ghost predicate UserKeysValid(users: seq<User>, next: int) {
    && (forall i :: 0 <= i < |users| ==> users[i].id < next)
    && (forall i, j :: 0 <= i < j < |users| ==> users[i].id != users[j].id)
  }

  ghost predicate CollectionKeysValid(cs: seq<Collection>, next: int) {
    && (forall i :: 0 <= i < |cs| ==> cs[i].id < next)
    && CollectionModel.DistinctIds(cs)
  }

  ghost predicate CooperativeKeysValid(cs: seq<Cooperative>, next: int) {
    && (forall i :: 0 <= i < |cs| ==> cs[i].id < next)
    && CooperativeModel.DistinctIds(cs)
  }

  /** Every owner key of a collection names a stored user. */
  ghost predicate OwnersExist(s: Store) {
    forall i :: 0 <= i < |s.collections| ==> UserIdTaken(s.users, s.collections[i].userId)
  }

  /** The store invariant: unique emails, unique keys below their sequences, foreign keys resolved. */
  ghost predicate Valid(s: Store) {
    && UniqueEmails(s.users)
    && UserKeysValid(s.users, s.nextUserId)
    && CollectionKeysValid(s.collections, s.nextCollectionId)
    && CooperativeKeysValid(s.cooperatives, s.nextCooperativeId)
    && OwnersExist(s)
  }

  lemma EmptyIsValid()
    ensures Valid(Empty)
  {
  }

  /** `INSERT INTO users`: refused when the email is already stored. */
  function InsertUser(s: Store, d: UserData, now: Timestamp): (r: Result<Inserted<User>, DbError>)
    ensures r.Err? <==> EmailTaken(s.users, d.email)
    ensures r.Err? ==> r.error == UniqueViolation
    ensures r.Ok? ==> r.value.row.id == s.nextUserId && r.value.row.data == d && r.value.row.createdAt == now
    ensures r.Ok? ==> r.value.store == s.(users := s.users + [r.value.row], nextUserId := s.nextUserId + 1)
  {
    if EmailTaken(s.users, d.email) then Err(UniqueViolation)
    else
      var u := User(s.nextUserId, d, now);
      Ok(Inserted(s.(users := s.users + [u], nextUserId := s.nextUserId + 1), u))
  }

  /** `INSERT INTO collections`: refused when the owner key names no user. */
  function InsertCollection(s: Store, userId: int, d: CollectionData, now: Timestamp)
    : (r: Result<Inserted<Collection>, DbError>)
    ensures r.Err? <==> !UserIdTaken(s.users, userId)
    ensures r.Err? ==> r.error == ForeignKeyViolation
    ensures r.Ok? ==> r.value.row == Collection(s.nextCollectionId, userId, d, now)
    ensures r.Ok? ==> r.value.store
                      == s.(collections := s.collections + [r.value.row], nextCollectionId := s.nextCollectionId + 1)
  {
    if !UserIdTaken(s.users, userId) then Err(ForeignKeyViolation)
    else
      var c := Collection(s.nextCollectionId, userId, d, now);
      Ok(Inserted(s.(collections := s.collections + [c], nextCollectionId := s.nextCollectionId + 1), c))
  }

  /** `INSERT INTO cooperative`: no constraint beyond non-null columns, so it always succeeds. */
  function InsertCooperative(s: Store, d: CooperativeData, now: Timestamp): (r: Inserted<Cooperative>)
    ensures r.row == Cooperative(s.nextCooperativeId, d, now)
    ensures r.store
            == s.(cooperatives := s.cooperatives + [r.row], nextCooperativeId := s.nextCooperativeId + 1)
  {
    var c := Cooperative(s.nextCooperativeId, d, now);
    Inserted(s.(cooperatives := s.cooperatives + [c], nextCooperativeId := s.nextCooperativeId + 1), c)
  }

  lemma InsertUserPreservesValid(s: Store, d: UserData, now: Timestamp)
    requires Valid(s)
    requires InsertUser(s, d, now).Ok?
    ensures Valid(InsertUser(s, d, now).value.store)
  {
    var s' := InsertUser(s, d, now).value.store;
    assert forall i :: 0 <= i < |s.users| ==> s'.users[i] == s.users[i];
    forall i | 0 <= i < |s'.collections|
      ensures UserIdTaken(s'.users, s'.collections[i].userId)
    {
      var k :| 0 <= k < |s.users| && s.users[k].id == s.collections[i].userId;
      assert s'.users[k].id == s'.collections[i].userId;
    }
  }

  lemma InsertCollectionPreservesValid(s: Store, userId: int, d: CollectionData, now: Timestamp)
    requires Valid(s)
    requires InsertCollection(s, userId, d, now).Ok?
    ensures Valid(InsertCollection(s, userId, d, now).value.store)
  {
    var s' := InsertCollection(s, userId, d, now).value.store;
    assert forall i :: 0 <= i < |s.collections| ==> s'.collections[i] == s.collections[i];
  }

  lemma InsertCooperativePreservesValid(s: Store, d: CooperativeData, now: Timestamp)
    requires Valid(s)
    ensures Valid(InsertCooperative(s, d, now).store)
  {
    var s' := InsertCooperative(s, d, now).store;
    assert forall i :: 0 <= i < |s.cooperatives| ==> s'.cooperatives[i] == s.cooperatives[i];
  }
}
