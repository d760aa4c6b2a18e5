/**
  The shape every persisted entity shares (an integer `id` plus the two
  timestamps), entity descriptors, the typed input with its explicit-field
  set, and equality filters.
 */
module Entity {

  /** One column value. Timestamps are ticks of an abstract monotonic clock. */
  datatype Value =
    | VNull
    | VInt(i: int)
    | VStr(s: string)
    | VTime(t: nat)
    | VEnum(member: string)  // an enum compares by member identity, not display text

  /** One row: column name to value. */
  type Row = map<string, Value>

  const IdField := "id"
  const CreatedAt := "created_at"
  const UpdatedAt := "updated_at"

  /** The columns every entity type inherits from the common base. */
  const ServerFields: set<string> := {IdField, CreatedAt, UpdatedAt}

  /** An entity type: its own mapped columns and the ones declared NOT NULL. */
  datatype Descriptor = Descriptor(columns: set<string>, required: set<string>) {

    /** Every column of the entity type, the inherited ones included. */
    function Fields(): set<string> {
      columns + ServerFields
    }

    /** A row of this entity type carries exactly its columns. */
    predicate Shaped(row: Row) {
      row.Keys == Fields()
    }
  }

  /**
    What a caller hands to create or update: either a plain dictionary, or a
    validated schema value that holds a value for every declared field and
    remembers which of them the caller set explicitly.
   */
  datatype Input =
    | Dict(data: map<string, Value>)
    | Schema(values: map<string, Value>, explicit: set<string>)

  /** The fields a create materialises: the whole dictionary, or every schema field (set or defaulted). */
  function CreateData(input: Input): map<string, Value> {
    match input
    case Dict(data) => data
    case Schema(values, _) => values
  }

  /** The value a materialised row gets for column `f`: the data's value, or NULL when the data omits it. */
  function ColumnOf(data: map<string, Value>, f: string): Value {
    if f in data then data[f] else VNull
  }

  /** The fields an update may write: the whole dictionary, or only the explicitly set schema fields. */
  function UpdateData(input: Input): (u: map<string, Value>)
    ensures input.Dict? ==> u == input.data
    ensures input.Schema? ==> u.Keys == input.values.Keys * input.explicit
    ensures forall f :: f in u ==> u[f] == CreateData(input)[f]
  {
    match input
    case Dict(data) => data
    case Schema(values, explicit) => map f | f in values && f in explicit :: values[f]
  }

  /** An equality filter: field name to the value that field must hold. */
  type Filter = map<string, Value>

  /**
    A row satisfies a filter when it holds every constrained field with the
    required value; the empty filter constrains nothing.
   */
  function Matches(row: Row, filter: Filter): (b: bool)
    ensures filter == map[] ==> b
    ensures b ==> filter.Keys <= row.Keys
  {
    forall f :: f in filter ==> f in row && row[f] == filter[f]
  }
}
