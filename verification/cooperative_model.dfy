/** The `cooperative` table: a shared directory entry with no owner. */
module CooperativeModel {
  import opened Wrappers
  import opened Scalars

  /** The columns a request supplies; latitude and longitude are nullable. */
  datatype CooperativeData = CooperativeData(
    corporateName: string,
    address: string,
    cnpj: string,
    materials: seq<string>,
    phone: string,
    openTime: TimeOfDay,
    closeTime: TimeOfDay,
    latitude: Option<Coordinate>,
    longitude: Option<Coordinate>)

  /** A stored row: serial key, data, creation time. */
  datatype Cooperative = Cooperative(id: int, data: CooperativeData, createdAt: Timestamp)

  /** No two rows share a primary key. */
  ghost predicate DistinctIds(cs: seq<Cooperative>) {
    forall i, j :: 0 <= i < j < |cs| ==> cs[i].id != cs[j].id
  }
}
