/**
 * `/collections/`: owner-stamped creation, owner-filtered paginated listing,
 * and an ownership-guarded status patch.
 */
module CollectionsEndpoint {
  import opened Wrappers
  import opened Scalars
  import opened Http
  import opened UserModel
  import opened CollectionModel
  import opened Database
  import opened Paging
  import opened CollectionSchemas

  const CollectionNotFound := HttpError(StatusNotFound, "Collection not found", [])

  /** The rows whose owner key is `owner`, in table order (`WHERE user_id = owner`). */
  function OwnedBy(cs: seq<Collection>, owner: int): (r: seq<Collection>)
    ensures |r| <= |cs|
    ensures forall k :: 0 <= k < |r| ==> r[k].userId == owner
    ensures forall c :: c in r ==> c in cs
    ensures forall c :: c in cs && c.userId == owner ==> c in r
    decreases |cs|
  {
    if |cs| == 0 then []
    else if cs[0].userId == owner then [cs[0]] + OwnedBy(cs[1..], owner)
    else OwnedBy(cs[1..], owner)
  }

  /** Filtering keeps primary keys distinct. */
  lemma {:induction false} OwnedByKeepsDistinctIds(cs: seq<Collection>, owner: int)
    requires DistinctIds(cs)
    ensures DistinctIds(OwnedBy(cs, owner))
    decreases |cs|
  {
    if |cs| > 0 {
      var rest := cs[1..];
      assert DistinctIds(rest) by {
        forall i, j | 0 <= i < j < |rest| ensures rest[i].id != rest[j].id {
          assert rest[i] == cs[i + 1] && rest[j] == cs[j + 1];
        }
      }
      OwnedByKeepsDistinctIds(rest, owner);
      if cs[0].userId == owner {
        var r := OwnedBy(cs, owner);
        var tail := OwnedBy(rest, owner);
        forall i, j | 0 <= i < j < |r| ensures r[i].id != r[j].id {
          if i == 0 {
            assert r[j] == tail[j - 1];
            assert tail[j - 1] in rest;
            var m :| 0 <= m < |rest| && rest[m] == tail[j - 1];
            assert rest[m] == cs[m + 1];
          } else {
            assert r[i] == tail[i - 1] && r[j] == tail[j - 1];
          }
        }
      }
    }
  }

  /** The caller owns a row with this key. */
  predicate OwnsCollection(cs: seq<Collection>, collectionId: int, owner: int) {
    exists k :: 0 <= k < |cs| && cs[k].id == collectionId && cs[k].userId == owner
  }

  /** Position of the first row with key `collectionId` owned by `owner` (`WHERE id = ? AND user_id = ?`). */
  function FindOwned(cs: seq<Collection>, collectionId: int, owner: int): (r: Option<nat>)
    ensures r.None? <==> !OwnsCollection(cs, collectionId, owner)
    ensures r.Some? ==> r.value < |cs| && cs[r.value].id == collectionId && cs[r.value].userId == owner
    decreases |cs|
  {
    if |cs| == 0 then None
    else if cs[0].id == collectionId && cs[0].userId == owner then Some(0)
    else
      match FindOwned(cs[1..], collectionId, owner)
      case None =>
        assert forall k :: 1 <= k < |cs| ==> cs[k] == cs[1..][k - 1];
        None
      case Some(k) => Some(k + 1)
  }

  /**
   * Stores a collection owned by the caller with the request's fields and no
   * coordinates. The insert fails only if the caller's key names no user.
   */
  function CreateCollection(db: Store, currentUser: User, collectionIn: CollectionCreate, now: Timestamp)
    : (r: Reply<Store, CollectionOut>)
    ensures r.response.Success? <==> UserIdTaken(db.users, currentUser.id)
    ensures r.response.Failure? ==> r == Reply(db, Failure(InternalServerError))
    ensures r.response.Success? ==>
              && r.response.statusCode == StatusOk
              && |r.state.collections| == |db.collections| + 1
              && r.state.collections[..|db.collections|] == db.collections
              && var c := r.state.collections[|db.collections|];
              && c.userId == currentUser.id
              && c.id == db.nextCollectionId
              && c.data.date == collectionIn.date && c.data.time == collectionIn.time
              && c.data.address == collectionIn.address && c.data.materials == collectionIn.materials
              && c.data.status == collectionIn.status
              && c.data.latitude.None? && c.data.longitude.None?
              && r.response.body == ToCollectionOut(c)
              && r.state.users == db.users
              && r.state.cooperatives == db.cooperatives
  {
    match InsertCollection(db, currentUser.id, ToCollectionData(collectionIn), now)
    case Ok(ins) => Reply(ins.store, Success(StatusOk, ToCollectionOut(ins.row)))
    case Err(_) => Reply(db, Failure(InternalServerError))
  }

  /** The caller is always a stored user, so in a valid store creation succeeds and keeps the store valid. */
  lemma CreateCollectionPreservesValid(db: Store, currentUser: User, collectionIn: CollectionCreate,
                                       now: Timestamp)
    requires Valid(db)
    requires currentUser in db.users
    ensures CreateCollection(db, currentUser, collectionIn, now).response.Success?
    ensures Valid(CreateCollection(db, currentUser, collectionIn, now).state)
  {
    var k :| 0 <= k < |db.users| && db.users[k] == currentUser;
    assert db.users[k].id == currentUser.id;
    InsertCollectionPreservesValid(db, currentUser.id, ToCollectionData(collectionIn), now);
  }

  /** Filtering a table with one more row at the end: the row joins the end of its owner's rows only. */
  lemma {:induction false} OwnedByAppend(cs: seq<Collection>, c: Collection, owner: int)
    ensures OwnedBy(cs + [c], owner) == OwnedBy(cs, owner) + (if c.userId == owner then [c] else [])
    decreases |cs|
  {
    if |cs| == 0 {
      assert cs + [c] == [c];
      assert [c][1..] == [];
    } else {
      assert (cs + [c])[0] == cs[0];
      assert (cs + [c])[1..] == cs[1..] + [c];
      OwnedByAppend(cs[1..], c, owner);
    }
  }

  /**
   * A created collection is the last of its owner's rows, so it is listed
   * after every earlier one; every other user's rows are unchanged.
   */
  lemma CreatedCollectionIsListedLast(db: Store, currentUser: User, collectionIn: CollectionCreate,
                                      now: Timestamp, owner: int)
    requires UserIdTaken(db.users, currentUser.id)
    ensures var r := CreateCollection(db, currentUser, collectionIn, now);
            var c := r.state.collections[|db.collections|];
            OwnedBy(r.state.collections, owner)
            == OwnedBy(db.collections, owner) + (if owner == currentUser.id then [c] else [])
  {
    var r := CreateCollection(db, currentUser, collectionIn, now);
    var c := r.state.collections[|db.collections|];
    assert r.state.collections == db.collections + [c];
    OwnedByAppend(db.collections, c, owner);
  }

  /**
   * The caller's collections from position `skip` on, at most `limit` of
   * them; a negative `skip` or `limit` is a database error.
   */
  function ListCollections(db: Store, currentUser: User, skip: int, limit: int)
    : (r: Reply<Store, seq<CollectionOut>>)
    ensures r.state == db
    ensures r.response.Failure? <==> skip < 0 || limit < 0
    ensures r.response.Failure? ==> r.response.error == InternalServerError
    ensures r.response.Success? ==>
              && r.response.statusCode == StatusOk
              && |r.response.body| <= limit
              && IsPage(r.response.body, OwnedBy(db.collections, currentUser.id), skip, limit, ToCollectionOut)
  {
    var owned := OwnedBy(db.collections, currentUser.id);
    match Page(owned, skip, limit)
    case Ok(rows) =>
      var body := MapSeq(rows, ToCollectionOut);
      assert IsPage(body, owned, skip, limit, ToCollectionOut);
      Reply(db, Success(StatusOk, body))
    case Err(_) => Reply(db, Failure(InternalServerError))
  }

  /** Users are isolated in listings: every collection listed belongs to the caller. */
  lemma ListedCollectionsAreCallers(db: Store, currentUser: User, skip: int, limit: int)
    ensures var r := ListCollections(db, currentUser, skip, limit);
            r.response.Success? ==> forall k :: 0 <= k < |r.response.body| ==> r.response.body[k].userId == currentUser.id
  {
    var r := ListCollections(db, currentUser, skip, limit);
    var owned := OwnedBy(db.collections, currentUser.id);
    if r.response.Success? {
      forall k | 0 <= k < |r.response.body| ensures r.response.body[k].userId == currentUser.id {
        assert r.response.body[k] == ToCollectionOut(owned[skip + k]);
      }
    }
  }

  /** With the default `skip` and `limit`, the listing is the caller's first 100 collections. */
  lemma DefaultListingIsFirstHundred(db: Store, currentUser: User)
    ensures var r := ListCollections(db, currentUser, DefaultSkip, DefaultLimit);
            && r.response.Success?
            && |r.response.body| == Min(100, |OwnedBy(db.collections, currentUser.id)|)
  {
  }

  /** In a valid store, the page `[0, n)` and the page `[n, 2n)` share no collection key. */
  lemma ConsecutivePagesShareNoId(db: Store, currentUser: User, n: nat)
    requires Valid(db)
    ensures var p := ListCollections(db, currentUser, 0, n).response.body;
            var q := ListCollections(db, currentUser, n, n).response.body;
            forall a, b :: 0 <= a < |p| && 0 <= b < |q| ==> p[a].id != q[b].id
  {
    var owned := OwnedBy(db.collections, currentUser.id);
    OwnedByKeepsDistinctIds(db.collections, currentUser.id);
    var p := ListCollections(db, currentUser, 0, n).response.body;
    var q := ListCollections(db, currentUser, n, n).response.body;
    forall a, b | 0 <= a < |p| && 0 <= b < |q| ensures p[a].id != q[b].id {
      assert p[a].id == owned[a].id && q[b].id == owned[n + b].id;
    }
  }

  /**
   * Sets the patch's fields on the caller's collection with key
   * `collectionId`; 404 when the caller owns no such collection, whether
   * or not another user does.
   */
  function UpdateCollection(db: Store, currentUser: User, collectionId: int, patch: CollectionUpdate)
    : (r: Reply<Store, CollectionOut>)
    ensures !OwnsCollection(db.collections, collectionId, currentUser.id)
            ==> r == Reply(db, Failure(CollectionNotFound))
    ensures OwnsCollection(db.collections, collectionId, currentUser.id) ==>
              && r.response.Success?
              && r.response.statusCode == StatusOk
              && r.response.body.id == collectionId
              && r.response.body.userId == currentUser.id
              && r.response.body.status == patch.status
    ensures r.state.users == db.users && r.state.cooperatives == db.cooperatives
    ensures r.state.nextUserId == db.nextUserId && r.state.nextCollectionId == db.nextCollectionId
    ensures r.state.nextCooperativeId == db.nextCooperativeId
    ensures |r.state.collections| == |db.collections|
    ensures forall k :: 0 <= k < |db.collections|
                        && !(db.collections[k].id == collectionId && db.collections[k].userId == currentUser.id)
                        ==> r.state.collections[k] == db.collections[k]
    ensures forall k :: 0 <= k < |db.collections| ==>
                        || r.state.collections[k] == db.collections[k]
                        || r.state.collections[k] == ApplyUpdate(db.collections[k], patch)
  {
    match FindOwned(db.collections, collectionId, currentUser.id)
    case None => Reply(db, Failure(CollectionNotFound))
    case Some(k) =>
      var updated := ApplyUpdate(db.collections[k], patch);
      Reply(db.(collections := db.collections[k := updated]), Success(StatusOk, ToCollectionOut(updated)))
  }

  /**
   * In a valid store, updating the caller's collection at position `k`
   * replaces its status and nothing else in the store.
   */
  lemma UpdateChangesOnlyStatus(db: Store, currentUser: User, k: int, patch: CollectionUpdate)
    requires Valid(db)
    requires 0 <= k < |db.collections| && db.collections[k].userId == currentUser.id
    ensures var r := UpdateCollection(db, currentUser, db.collections[k].id, patch);
            && r.state == db.(collections := db.collections[k := ApplyUpdate(db.collections[k], patch)])
            && r.response == Success(StatusOk, ToCollectionOut(ApplyUpdate(db.collections[k], patch)))
  {
    var found := FindOwned(db.collections, db.collections[k].id, currentUser.id);
    assert found.Some?;
    assert found.value == k;
  }

  /** Nobody can update another user's collection: the reply is 404 and the store is untouched. */
  lemma CrossUserUpdateIsNotFound(db: Store, intruder: User, k: int, patch: CollectionUpdate)
    requires Valid(db)
    requires 0 <= k < |db.collections| && db.collections[k].userId != intruder.id
    ensures UpdateCollection(db, intruder, db.collections[k].id, patch) == Reply(db, Failure(CollectionNotFound))
  {
  }

  /** No transition guard: a collected request can be set back to pending by its owner. */
  lemma CollectedCanReturnToPending(db: Store, currentUser: User, k: int)
    requires Valid(db)
    requires 0 <= k < |db.collections| && db.collections[k].userId == currentUser.id
    requires db.collections[k].data.status == Collected
    ensures var r := UpdateCollection(db, currentUser, db.collections[k].id, CollectionUpdate(Pending));
            r.response.Success? && r.state.collections[k].data.status == Pending
  {
    UpdateChangesOnlyStatus(db, currentUser, k, CollectionUpdate(Pending));
  }

  /** Updating keeps the store invariant. */
  lemma UpdateCollectionPreservesValid(db: Store, currentUser: User, collectionId: int, patch: CollectionUpdate)
    requires Valid(db)
    ensures Valid(UpdateCollection(db, currentUser, collectionId, patch).state)
  {
    var s' := UpdateCollection(db, currentUser, collectionId, patch).state;
    assert forall k :: 0 <= k < |db.collections| ==>
             s'.collections[k].id == db.collections[k].id && s'.collections[k].userId == db.collections[k].userId;
  }

  // The handlers as written. The table declares its last column `updated_t`
  // while the response schema requires `updated_at`, so reading a stored row
  // back as a response fails, and the framework turns that into a 500. The
  // write has been committed by then.

  /** A read response becomes the reply body; a failed read is an unhandled error, answered with 500. */
  function Respond<T>(read: Result<T, set<string>>): (r: Response<T>)
    ensures r.Success? <==> read.Ok?
    ensures r.Success? ==> r.statusCode == StatusOk && r.body == read.value
    ensures r.Failure? ==> r.error == InternalServerError
  {
    match read
    case Ok(v) => Success(StatusOk, v)
    case Err(_) => Failure(InternalServerError)
  }

  /** Reads every row of a page; the read fails as soon as one row lacks a required attribute. */
  function ReadAll(attributes: set<string>, rows: seq<Collection>): (r: Result<seq<CollectionOut>, set<string>>)
    ensures r.Ok? <==> |rows| == 0 || ResponseFields <= attributes
    ensures r.Ok? ==> |r.value| == |rows|
    ensures r.Ok? ==> forall k :: 0 <= k < |rows| ==> ReadResponse(attributes, rows[k]) == Ok(r.value[k])
    decreases |rows|
  {
    if |rows| == 0 then Ok([])
    else
      match ReadResponse(attributes, rows[0])
      case Err(missing) => Err(missing)
      case Ok(out) =>
        match ReadAll(attributes, rows[1..])
        case Err(missing) => Err(missing)
        case Ok(outs) => Ok([out] + outs)
  }

  /**
   * Creation as written: the caller always gets a 500, yet the store is the
   * one the corrected handler leaves, so for a stored caller the row is kept.
   */
  function CreateCollectionAsWritten(db: Store, currentUser: User, collectionIn: CollectionCreate, now: Timestamp)
    : (r: Reply<Store, CollectionOut>)
    ensures r.response == Failure(InternalServerError)
    ensures r.state == CreateCollection(db, currentUser, collectionIn, now).state
    ensures UserIdTaken(db.users, currentUser.id) ==> |r.state.collections| == |db.collections| + 1
  {
    match InsertCollection(db, currentUser.id, ToCollectionData(collectionIn), now)
    case Ok(ins) =>
      AsWrittenResponseFails(ins.row);
      Reply(ins.store, Respond(ReadResponse(RowAttributesAsWritten, ins.row)))
    case Err(_) => Reply(db, Failure(InternalServerError))
  }

  /**
   * Listing as written: the store is untouched; the reply is 200 only for an
   * empty page, and every non-empty page is answered with 500.
   */
  function ListCollectionsAsWritten(db: Store, currentUser: User, skip: int, limit: int)
    : (r: Reply<Store, seq<CollectionOut>>)
    ensures r.state == db
    ensures r.response.Success? <==>
              var listed := ListCollections(db, currentUser, skip, limit).response;
              listed.Success? && |listed.body| == 0
    ensures r.response.Success? ==> r.response.statusCode == StatusOk && r.response.body == []
    ensures r.response.Failure? ==> r.response.error == InternalServerError
  {
    assert "updated_at" in ResponseFields && "updated_at" !in RowAttributesAsWritten;
    match Page(OwnedBy(db.collections, currentUser.id), skip, limit)
    case Ok(rows) => Reply(db, Respond(ReadAll(RowAttributesAsWritten, rows)))
    case Err(_) => Reply(db, Failure(InternalServerError))
  }

  /**
   * Updating as written: 404 exactly as in the corrected handler; for the
   * caller's own collection the patched store is committed and the reply is 500.
   */
  function UpdateCollectionAsWritten(db: Store, currentUser: User, collectionId: int, patch: CollectionUpdate)
    : (r: Reply<Store, CollectionOut>)
    ensures r.state == UpdateCollection(db, currentUser, collectionId, patch).state
    ensures !OwnsCollection(db.collections, collectionId, currentUser.id)
            ==> r.response == Failure(CollectionNotFound)
    ensures OwnsCollection(db.collections, collectionId, currentUser.id)
            ==> r.response == Failure(InternalServerError)
  {
    match FindOwned(db.collections, collectionId, currentUser.id)
    case None => Reply(db, Failure(CollectionNotFound))
    case Some(k) =>
      var updated := ApplyUpdate(db.collections[k], patch);
      AsWrittenResponseFails(updated);
      Reply(db.(collections := db.collections[k := updated]), Respond(ReadResponse(RowAttributesAsWritten, updated)))
  }

  /** As written, the owner's status change is stored even though the reply is 500. */
  lemma UpdateAsWrittenCommitsThenFails(db: Store, currentUser: User, k: int, patch: CollectionUpdate)
    requires Valid(db)
    requires 0 <= k < |db.collections| && db.collections[k].userId == currentUser.id
    ensures var r := UpdateCollectionAsWritten(db, currentUser, db.collections[k].id, patch);
            && r.response == Failure(InternalServerError)
            && r.state.collections[k].data.status == patch.status
  {
    UpdateChangesOnlyStatus(db, currentUser, k, patch);
    assert OwnsCollection(db.collections, db.collections[k].id, currentUser.id);
  }
}
