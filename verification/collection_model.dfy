/** The `collections` table: a pickup request owned by one user. */
module CollectionModel {
  import opened Wrappers
  import opened Scalars

  /** The two request states; no other value can be stored. */
  datatype CollectionStatus = Pending | Collected

  /** The status both the column and the create schema fall back to. */
  const DefaultStatus := Pending

  /** One value of a material entry: a string or an integer. */
  datatype MaterialValue = Text(text: string) | Number(number: int)

  /** One material entry, a JSON object from string keys to string-or-int values. */
  type Material = map<string, MaterialValue>

  /** The columns a request supplies; latitude and longitude are nullable. */
  datatype CollectionData = CollectionData(
    date: Timestamp,
    time: string,
    address: string,
    materials: seq<Material>,
    status: CollectionStatus,
    latitude: Option<Coordinate>,
    longitude: Option<Coordinate>)

  /** A stored row: serial key, the owning user's key (never null), data, creation time. */
  datatype Collection = Collection(id: int, userId: int, data: CollectionData, createdAt: Timestamp)

  /** No two rows share a primary key. */
  ghost predicate DistinctIds(cs: seq<Collection>) {
    forall i, j :: 0 <= i < j < |cs| ==> cs[i].id != cs[j].id
  }
}
