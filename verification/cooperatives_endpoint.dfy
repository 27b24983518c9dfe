/** `/cooperatives/`: an unfiltered paginated listing and verbatim creation. */
module CooperativesEndpoint {
  import opened Scalars
  import opened Http
  import opened Database
  import opened Paging
  import opened CooperativeSchemas

  /**
   * All cooperatives from position `skip` on, at most `limit` of them, with
   * no filter; a negative `skip` or `limit` is a database error.
   */
  function ListCooperatives(db: Store, skip: int, limit: int): (r: Reply<Store, seq<CooperativeOut>>)
    ensures r.state == db
    ensures r.response.Failure? <==> skip < 0 || limit < 0
    ensures r.response.Failure? ==> r.response.error == InternalServerError
    ensures r.response.Success? ==>
              && r.response.statusCode == StatusOk
              && |r.response.body| <= limit
              && IsPage(r.response.body, db.cooperatives, skip, limit, ToCooperativeOut)
  {
    match Page(db.cooperatives, skip, limit)
    case Ok(rows) =>
      var body := MapSeq(rows, ToCooperativeOut);
      assert IsPage(body, db.cooperatives, skip, limit, ToCooperativeOut);
      Reply(db, Success(StatusOk, body))
    case Err(_) => Reply(db, Failure(InternalServerError))
  }

  /** With the default `skip` and `limit`, the listing is the first 100 cooperatives. */
  lemma DefaultListingIsFirstHundred(db: Store)
    ensures var r := ListCooperatives(db, DefaultSkip, DefaultLimit);
            && r.response.Success?
            && |r.response.body| == Min(100, |db.cooperatives|)
  {
  }

  /** In a valid store, the page `[0, n)` and the page `[n, 2n)` share no cooperative key. */
  lemma ConsecutivePagesShareNoId(db: Store, n: nat)
    requires Valid(db)
    ensures var p := ListCooperatives(db, 0, n).response.body;
            var q := ListCooperatives(db, n, n).response.body;
            forall a, b :: 0 <= a < |p| && 0 <= b < |q| ==> p[a].id != q[b].id
  {
    var p := ListCooperatives(db, 0, n).response.body;
    var q := ListCooperatives(db, n, n).response.body;
    forall a, b | 0 <= a < |p| && 0 <= b < |q| ensures p[a].id != q[b].id {
      assert p[a].id == db.cooperatives[a].id && q[b].id == db.cooperatives[n + b].id;
    }
  }

  /**
   * Stores the request exactly as given, coordinates included (possibly
   * None), and returns it; nothing else in the store changes.
   */
  function CreateCooperative(db: Store, cooperativeIn: CooperativeCreate, now: Timestamp)
    : (r: Reply<Store, CooperativeOut>)
    ensures r.response.Success? && r.response.statusCode == StatusOk
    ensures |r.state.cooperatives| == |db.cooperatives| + 1
    ensures r.state.cooperatives[..|db.cooperatives|] == db.cooperatives
    ensures StoredVerbatim(r.state.cooperatives[|db.cooperatives|].data, cooperativeIn)
    ensures r.state.cooperatives[|db.cooperatives|].id == db.nextCooperativeId
    ensures r.response.body == ToCooperativeOut(r.state.cooperatives[|db.cooperatives|])
    ensures r.state.users == db.users && r.state.collections == db.collections
  {
    var ins := InsertCooperative(db, ToCooperativeData(cooperativeIn), now);
    Reply(ins.store, Success(StatusOk, ToCooperativeOut(ins.row)))
  }

  /** Creation keeps the store invariant. */
  lemma CreateCooperativePreservesValid(db: Store, cooperativeIn: CooperativeCreate, now: Timestamp)
    requires Valid(db)
    ensures Valid(CreateCooperative(db, cooperativeIn, now).state)
  {
    InsertCooperativePreservesValid(db, ToCooperativeData(cooperativeIn), now);
  }
}
