/** The `User` entity (one row of the users table) and the whole-record
    overwrite that the update endpoint applies to it. */
module UserRecord {

  datatype Option<+T> = None | Some(value: T)

  /** A C# `double`, carried as its IEEE-754 bit pattern: the service stores
      and returns coordinates but never computes with them. */
  datatype Double = Double(bits: bv64)

  /** A C# `DateTime`, as its tick count. */
  datatype DateTime = DateTime(ticks: int)

  /** A user row. Every column but the key is nullable. */
  datatype User = User(
    id: int,
    firstName: Option<string>,
    lastName: Option<string>,
    email: Option<string>,
    age: Option<int>,
    gender: Option<string>,
    state: Option<string>,
    streetAddress: Option<string>,
    postalCode: Option<string>,
    city: Option<string>,
    country: Option<string>,
    latitude: Option<Double>,
    longitude: Option<Double>,
    trafficSource: Option<string>,
    createdAt: Option<DateTime>)

  /** The two records agree on the thirteen columns a client may change,
      that is every column except `id` and `createdAt`. */
  predicate SameEditableFields(a: User, b: User)
  {
    && a.firstName == b.firstName
    && a.lastName == b.lastName
    && a.email == b.email
    && a.age == b.age
    && a.gender == b.gender
    && a.state == b.state
    && a.streetAddress == b.streetAddress
    && a.postalCode == b.postalCode
    && a.city == b.city
    && a.country == b.country
    && a.latitude == b.latitude
    && a.longitude == b.longitude
    && a.trafficSource == b.trafficSource
  }

  /** The stored record after an update with body `input`: every editable
      column comes from `input` (a null included), the key and the creation
      time stay those of `existing`. */
  function Overwritten(existing: User, input: User): (r: User)
    ensures r.id == existing.id && r.createdAt == existing.createdAt
    ensures SameEditableFields(r, input)
  {
    input.(id := existing.id, createdAt := existing.createdAt)
  }
}
