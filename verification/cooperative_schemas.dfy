/** Request and response shapes for cooperatives. */
module CooperativeSchemas {
  import opened Wrappers
  import opened Scalars
  import opened CooperativeModel

  /** A creation body; latitude and longitude may be omitted (None). */
  datatype CooperativeCreate = CooperativeCreate(
    corporateName: string,
    address: string,
    cnpj: string,
    materials: seq<string>,
    phone: string,
    openTime: TimeOfDay,
    closeTime: TimeOfDay,
    latitude: Option<Coordinate>,
    longitude: Option<Coordinate>)

  /** The response: every base field, plus the key and the creation time. */
  datatype CooperativeOut = CooperativeOut(
    id: int,
    corporateName: string,
    address: string,
    cnpj: string,
    materials: seq<string>,
    phone: string,
    openTime: TimeOfDay,
    closeTime: TimeOfDay,
    latitude: Option<Coordinate>,
    longitude: Option<Coordinate>,
    createdAt: Timestamp)

  /** Every column of `d` is the field of the same name in the request, coordinates included. */
  predicate StoredVerbatim(d: CooperativeData, input: CooperativeCreate) {
    && d.corporateName == input.corporateName
    && d.address == input.address
    && d.cnpj == input.cnpj
    && d.materials == input.materials
    && d.phone == input.phone
    && d.openTime == input.openTime
    && d.closeTime == input.closeTime
    && d.latitude == input.latitude
    && d.longitude == input.longitude
  }

  /** The row data the ORM builds from every field of the request. */
  function ToCooperativeData(input: CooperativeCreate): (d: CooperativeData)
    ensures StoredVerbatim(d, input)
  {
    CooperativeData(input.corporateName, input.address, input.cnpj, input.materials, input.phone,
                    input.openTime, input.closeTime, input.latitude, input.longitude)
  }

  /** The response built from a stored cooperative. */
  function ToCooperativeOut(c: Cooperative): (r: CooperativeOut)
    ensures r.id == c.id && r.createdAt == c.createdAt
    ensures r.corporateName == c.data.corporateName && r.address == c.data.address && r.cnpj == c.data.cnpj
    ensures r.materials == c.data.materials && r.phone == c.data.phone
    ensures r.openTime == c.data.openTime && r.closeTime == c.data.closeTime
    ensures r.latitude == c.data.latitude && r.longitude == c.data.longitude
  {
    CooperativeOut(c.id, c.data.corporateName, c.data.address, c.data.cnpj, c.data.materials, c.data.phone,
                   c.data.openTime, c.data.closeTime, c.data.latitude, c.data.longitude, c.createdAt)
  }
}
