/** Request and response shapes for collections, and how a patch is applied. */
module CollectionSchemas {
  import opened Wrappers
  import opened Scalars
  import opened CollectionModel

  /** A creation body as sent: `status` may be left out. */
  datatype CollectionCreateBody = CollectionCreateBody(
    date: Timestamp,
    time: string,
    address: string,
    materials: seq<Material>,
    status: Option<CollectionStatus>)

  /** A validated creation request; it has no latitude or longitude field. */
  datatype CollectionCreate = CollectionCreate(
    date: Timestamp,
    time: string,
    address: string,
    materials: seq<Material>,
    status: CollectionStatus)

  /** A validated patch: exactly one field, `status`, and it is required. */
  datatype CollectionUpdate = CollectionUpdate(status: CollectionStatus)

  /** Why a body was refused before the handler ran. */
  datatype ValidationError = MissingField(field: string)

  /** The response: base fields, key, owner key and both timestamps; no coordinates. */
  datatype CollectionOut = CollectionOut(
    id: int,
    userId: int,
    date: Timestamp,
    time: string,
    address: string,
    materials: seq<Material>,
    status: CollectionStatus,
    createdAt: Timestamp,
    updatedAt: Option<Timestamp>)

  /** Validating a creation body: an omitted status becomes the default. */
  function ParseCollectionCreate(body: CollectionCreateBody): (r: CollectionCreate)
    ensures body.status.None? ==> r.status == Pending
    ensures body.status.Some? ==> r.status == body.status.value
    ensures r.date == body.date && r.time == body.time && r.address == body.address
    ensures r.materials == body.materials
  {
    CollectionCreate(body.date, body.time, body.address, body.materials, body.status.GetOr(DefaultStatus))
  }

  /** Validating a patch body: without a status it is refused, since the field is required. */
  function ParseCollectionUpdate(status: Option<CollectionStatus>): (r: Result<CollectionUpdate, ValidationError>)
    ensures r.Err? <==> status.None?
    ensures r.Err? ==> r.error == MissingField("status")
    ensures r.Ok? ==> r.value.status == status.value
  {
    match status
    case None => Err(MissingField("status"))
    case Some(st) => Ok(CollectionUpdate(st))
  }

  /** The row data the ORM builds from a request: its fields, and no coordinates. */
  function ToCollectionData(input: CollectionCreate): (d: CollectionData)
    ensures d.date == input.date && d.time == input.time && d.address == input.address
    ensures d.materials == input.materials && d.status == input.status
    ensures d.latitude.None? && d.longitude.None?
  {
    CollectionData(input.date, input.time, input.address, input.materials, input.status, None, None)
  }

  /**
   * Setting every field the patch carries on the row. The patch carries only
   * `status`, and nothing checks the old value against the new one.
   */
  function ApplyUpdate(c: Collection, patch: CollectionUpdate): (r: Collection)
    ensures r.data.status == patch.status
    ensures r.id == c.id && r.userId == c.userId && r.createdAt == c.createdAt
    ensures r.data.(status := c.data.status) == c.data
  {
    c.(data := c.data.(status := patch.status))
  }

  /** Applying a second patch overrides the first: the last write wins, and repeating a patch changes nothing. */
  lemma ApplyUpdateLastWins(c: Collection, p: CollectionUpdate, q: CollectionUpdate)
    ensures ApplyUpdate(ApplyUpdate(c, p), q) == ApplyUpdate(c, q)
    ensures ApplyUpdate(ApplyUpdate(c, q), q) == ApplyUpdate(c, q)
  {
  }

  /** The response built from a stored collection; update times are not tracked, so `updatedAt` is None. */
  function ToCollectionOut(c: Collection): (r: CollectionOut)
    ensures r.id == c.id && r.userId == c.userId && r.createdAt == c.createdAt
    ensures r.date == c.data.date && r.time == c.data.time && r.address == c.data.address
    ensures r.materials == c.data.materials && r.status == c.data.status
  {
    CollectionOut(c.id, c.userId, c.data.date, c.data.time, c.data.address, c.data.materials, c.data.status,
                  c.createdAt, None)
  }

  /**
   * Attribute names the response schema requires of a row: the fields without a
   * default. `status` is read too, but its default `pending` stands in when absent.
   */
  const ResponseFields: set<string> :=
    {"date", "time", "address", "materials", "id", "user_id", "created_at", "updated_at"}

  /** Attribute names a row exposes as the table is declared: the last column is spelled `updated_t`. */
  const RowAttributesAsWritten: set<string> :=
    {"id", "user_id", "date", "time", "address", "materials", "status", "latitude", "longitude",
     "created_at", "updated_t"}

  /** Attribute names a row exposes once the last column is spelled `updated_at`. */
  const RowAttributes: set<string> :=
    {"id", "user_id", "date", "time", "address", "materials", "status", "latitude", "longitude",
     "created_at", "updated_at"}

  /**
   * Reading the response from a row's attributes: every field the schema
   * requires must be an attribute, otherwise validation reports the missing ones;
   * a row without a `status` attribute reads as `pending`.
   */
  function ReadResponse(attributes: set<string>, c: Collection): (r: Result<CollectionOut, set<string>>)
    ensures r.Ok? <==> ResponseFields <= attributes
    ensures r.Err? ==> r.error != {}
    ensures r.Err? ==> forall f :: f in r.error <==> f in ResponseFields && f !in attributes
    ensures r.Ok? && "status" in attributes ==> r.value == ToCollectionOut(c)
    ensures r.Ok? && "status" !in attributes ==> r.value.status == DefaultStatus
    ensures r.Ok? ==> r.value.(status := c.data.status) == ToCollectionOut(c)
  {
    var missing := ResponseFields - attributes;
    EmptyDifferenceIsSubset(ResponseFields, attributes);
    if missing != {} then Err(missing)
    else if "status" in attributes then Ok(ToCollectionOut(c))
    else Ok(ToCollectionOut(c).(status := DefaultStatus))
  }

  /** A set difference is empty exactly when the first set lies inside the second. */
  lemma EmptyDifferenceIsSubset<T>(a: set<T>, b: set<T>)
    ensures a - b == {} <==> a <= b
  {
    if a - b == {} {
      forall x | x in a ensures x in b {
        assert x !in a - b;
      }
    }
  }

  /** As declared, every collection response fails: `updated_at` is not an attribute of the row. */
  lemma AsWrittenResponseFails(c: Collection)
    ensures ReadResponse(RowAttributesAsWritten, c).Err?
    ensures ReadResponse(RowAttributesAsWritten, c).error == {"updated_at"}
  {
    assert "updated_at" !in RowAttributesAsWritten;
    assert ResponseFields - RowAttributesAsWritten == {"updated_at"};
  }

  /** With the column spelled `updated_at`, every collection reads back as its response. */
  lemma CorrectedResponseSucceeds(c: Collection)
    ensures ReadResponse(RowAttributes, c).Ok?
    ensures ReadResponse(RowAttributes, c).value == ToCollectionOut(c)
  {
  }
}
