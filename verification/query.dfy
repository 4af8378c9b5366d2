/** The query builder as an immutable trace: each builder call the repository
    makes appends one constraint, and the trace is the whole chain in call
    order. Executing the query is outside the model. */
module Query {
  import opened Wrappers

  /** A value passed through to the query layer or stored in a record. */
  datatype Value =
    | NullValue
    | Int(i: int)
    | Str(s: string)
    | List(items: seq<Value>)

  datatype Constraint =
    | With(relations: seq<string>)
    | Where(field: string, operator: string, value: Value)
    | WhereIn(field: string, values: Value)
    | OrderBy(field: string, direction: string)
    | Paginate(perPage: Option<int>)   // None: the model's default page size
    | Get

  type Trace = seq<Constraint>

  /** Constraints that restrict or order rows by a named field. */
  predicate NamesField(c: Constraint) {
    c.Where? || c.WhereIn? || c.OrderBy?
  }
}
