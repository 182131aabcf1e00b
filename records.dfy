/** The records the handlers read and write: the JSON request body, the
    `contact` and `phone` table rows, the contact object a reply carries,
    and the handlers' outcomes. */
module Records {

  import opened Wrappers

  /** One member of a JSON request body: missing, `null`, or a value. */
  datatype Field<T> = Absent | Null | Value(v: T)

  /** `data.get(key)`: a missing member and `null` both read as `None`. */
  function Get<T>(f: Field<T>): (r: Option<T>)
    ensures r.Some? <==> f.Value?
    ensures r.Some? ==> r.value == f.v
  {
    if f.Value? then Some(f.v) else None
  }

  /** The body of a create or update request. */
  datatype ContactBody = ContactBody(
    name: Field<string>,
    email: Field<string>,
    address: Field<string>,
    birthDate: Field<string>,
    group: Field<string>,
    phones: Field<seq<string>>)

  /** The literal `'默认分组'` ("default group"). */
  const DefaultGroup: string := "\U{9ed8}\U{8ba4}\U{5206}\U{7ec4}"

  /** The required-field check: both `data.get('name')` and
      `data.get('phones')` must be truthy, that is present, not `null`,
      and not empty. */
  predicate HasRequiredFields(b: ContactBody) {
    && b.name.Value? && b.name.v != []
    && b.phones.Value? && b.phones.v != []
  }

  /** A row of the `contact` table, without its id. */
  datatype ContactRow = ContactRow(
    name: string,
    email: Option<string>,
    address: Option<string>,
    birthDate: Option<string>,
    group: Option<string>)

  /** The scalar columns an update assigns to a stored contact: `name` as
      given, the optional columns as `data.get` reads them, and `group`
      defaulted only when the member is missing (an explicit `null` is
      assigned as null). */
  function RowFromBody(b: ContactBody): (row: ContactRow)
    requires HasRequiredFields(b)
    ensures row.name == b.name.v && row.name != []
    ensures row.email == Get(b.email) && row.address == Get(b.address) && row.birthDate == Get(b.birthDate)
    ensures b.group.Absent? ==> row.group == Some(DefaultGroup)
    ensures b.group.Null? ==> row.group == None
    ensures b.group.Value? ==> row.group == Some(b.group.v)
  {
    ContactRow(
      b.name.v, Get(b.email), Get(b.address), Get(b.birthDate),
      match b.group
      case Absent => Some(DefaultGroup)
      case Null => None
      case Value(g) => Some(g))
  }

  /** The row a create inserts. The constructor receives the same values
      as an update assigns, but the ORM leaves a column whose value is
      `None` out of the INSERT when the column has a default, so an explicit
      `null` group also takes the default: a created contact always has a
      group. */
  function InsertedRow(b: ContactBody): (row: ContactRow)
    requires HasRequiredFields(b)
    ensures row.group.Some?
    ensures b.group.Null? ==> row == RowFromBody(b).(group := Some(DefaultGroup))
    ensures !b.group.Null? ==> row == RowFromBody(b)
  {
    var fields := RowFromBody(b);
    if fields.group.None? then fields.(group := Some(DefaultGroup)) else fields
  }

  /** A row of the `phone` table; `owner` is its `contact_id` foreign key.
      The phone's own id is not modelled: no handler reads it. */
  datatype PhoneRow = PhoneRow(number: string, owner: nat)

  /** The contact object the read handlers return. */
  datatype Contact = Contact(
    id: nat,
    name: string,
    email: Option<string>,
    address: Option<string>,
    birthDate: Option<string>,
    group: Option<string>,
    phones: seq<string>)

  /** A handler's response in place of its JSON body and status code:
      201 with the new id, 200 with a payload, 400, or 500. */
  datatype Reply<T> = Created(id: nat) | Ok(value: T) | BadRequest | ServerError
}
