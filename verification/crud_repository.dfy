/** The generic CRUD repository: how its operations chain constraints onto the
    query builder, which filter and sort clauses survive, and what reaches the
    model's `create` call.

    The bound model is reduced to what the repository asks of it: the
    `isFillable` test on field names. The framework's `str_is(operator, 'in')`
    test is the parameter `matchesIn`; the `wepo.uuid` flag read at
    construction is `useUuid`. */
module CrudRepository {
  import opened Wrappers
  import opened Query
  import Wildcard

  datatype Repository = Repository(
    isFillable: string -> bool,
    matchesIn: string -> bool,
    useUuid: bool)

  /** One section of a filter: `['field' => …, 'operator' => …, 'value' => …]`. */
  datatype Clause = Clause(field: string, operator: string, value: Value)

  /** The sort parameter: `['field' => …, 'direction' => …]`. Either key may be
      missing from the array (`None`). */
  datatype Sort = Sort(field: Option<string>, direction: Option<string>)

  /** The parameter array of list operations. Each of the three keys the
      repository reads may be absent, `null` or set; `extraKeys` records
      whether the array holds any other key. */
  datatype Params = Params(
    filter: Slot<seq<Clause>>,
    sort: Slot<Sort>,
    limit: Slot<int>,
    extraKeys: bool)
  {
    /** PHP's `empty()` on the array: it has no key at all. */
    predicate IsEmpty() {
      filter.Absent? && sort.Absent? && limit.Absent? && !extraKeys
    }
  }

  /** `UndefinedKey`: reading a key the parameter array lacks, which the
      framework's error handler turns into an exception. `NotFound`: the
      `ModelNotFoundException` of `findOrFail`. */
  datatype Error = UndefinedKey(key: string) | NotFound

  /** A stored record, by attribute name. */
  type Row = map<string, Value>

  /** Reading an attribute a record does not have yields `null`. */
  function Attribute(row: Row, name: string): Value {
    if name in row then row[name] else NullValue
  }

  // ---------------------------------------------------------------------
  // Filters

  /** The constraint one fillable clause stands for. */
  function ClauseConstraint(repo: Repository, c: Clause): (k: Constraint)
    ensures k.Where? || k.WhereIn?
    ensures k.field == c.field
    ensures k.WhereIn? <==> repo.matchesIn(c.operator)
  {
    if repo.matchesIn(c.operator) then WhereIn(c.field, c.value)
    else Where(c.field, c.operator, c.value)
  }

  /** One iteration of the filter loop: a clause on a field that is not
      fillable is skipped. */
  function ApplyClause(repo: Repository, b: Trace, c: Clause): (r: Trace)
    ensures repo.isFillable(c.field) ==> r == b + [ClauseConstraint(repo, c)]
    ensures !repo.isFillable(c.field) ==> r == b
  {
    if !repo.isFillable(c.field) then b
    else if repo.matchesIn(c.operator) then b + [WhereIn(c.field, c.value)]
    else b + [Where(c.field, c.operator, c.value)]
  }

  /** The filter loop, clause by clause in input order. It only ever appends,
      and everything it appends is a `Where` or `WhereIn` on a fillable field. */
  function ApplyClauses(repo: Repository, b: Trace, cs: seq<Clause>): (r: Trace)
    ensures |b| <= |r| <= |b| + |cs|
    ensures r[..|b|] == b
    ensures forall i :: |b| <= i < |r| ==>
      (r[i].Where? || r[i].WhereIn?) && repo.isFillable(r[i].field)
    decreases |cs|
  {
    if |cs| == 0 then b
    else
      var b' := ApplyClause(repo, b, cs[0]);
      var r := ApplyClauses(repo, b', cs[1..]);
      assert r[..|b|] == r[..|b'|][..|b|];
      r
  }

  /** `applyWhere`: a `null` filter leaves the builder alone. */
  function ApplyWhere(repo: Repository, b: Trace, filter: Option<seq<Clause>>): (r: Trace)
    ensures filter.None? ==> r == b
    ensures |b| <= |r| && r[..|b|] == b
    ensures forall i :: |b| <= i < |r| ==>
      (r[i].Where? || r[i].WhereIn?) && repo.isFillable(r[i].field)
  {
    match filter
    case None => b
    case Some(cs) => ApplyClauses(repo, b, cs)
  }

  /** Reference definition of the filter: keep the clauses on fillable fields ... */
  function FillableClauses(repo: Repository, cs: seq<Clause>): (r: seq<Clause>)
    ensures |r| <= |cs|
    ensures forall i :: 0 <= i < |r| ==> repo.isFillable(r[i].field) && r[i] in cs
    ensures forall c :: c in cs && repo.isFillable(c.field) ==> c in r
  {
    if |cs| == 0 then []
    else if repo.isFillable(cs[0].field) then [cs[0]] + FillableClauses(repo, cs[1..])
    else FillableClauses(repo, cs[1..])
  }

  /** ... and translate each, position by position. */
  function Translate(repo: Repository, cs: seq<Clause>): (r: Trace)
    ensures |r| == |cs|
    ensures forall i :: 0 <= i < |r| ==> r[i] == ClauseConstraint(repo, cs[i])
  {
    if |cs| == 0 then [] else [ClauseConstraint(repo, cs[0])] + Translate(repo, cs[1..])
  }

  /** What one clause contributes to the reference translation. */
  function Contribution(repo: Repository, c: Clause): Trace {
    if repo.isFillable(c.field) then [ClauseConstraint(repo, c)] else []
  }

  lemma ReferenceStep(repo: Repository, cs: seq<Clause>)
    requires |cs| > 0
    ensures Translate(repo, FillableClauses(repo, cs))
      == Contribution(repo, cs[0]) + Translate(repo, FillableClauses(repo, cs[1..]))
  {
    var kept := FillableClauses(repo, cs[1..]);
    if repo.isFillable(cs[0].field) {
      assert ([cs[0]] + kept)[1..] == kept;
    }
  }

  lemma LoopStep(repo: Repository, b: Trace, cs: seq<Clause>)
    requires |cs| > 0
    ensures ApplyClauses(repo, b, cs)
      == ApplyClauses(repo, b + Contribution(repo, cs[0]), cs[1..])
  {
    if !repo.isFillable(cs[0].field) {
      assert b + [] == b;
    }
  }

  /** The filter loop appends exactly one constraint per fillable clause, in
      input order, and nothing else. */
  lemma {:induction false} ApplyClausesIsFilterThenTranslate(repo: Repository, b: Trace, cs: seq<Clause>)
    ensures ApplyClauses(repo, b, cs) == b + Translate(repo, FillableClauses(repo, cs))
    decreases |cs|
  {
    if |cs| > 0 {
      var e := Contribution(repo, cs[0]);
      LoopStep(repo, b, cs);
      ApplyClausesIsFilterThenTranslate(repo, b + e, cs[1..]);
      ReferenceStep(repo, cs);
    }
  }

  /** Clauses on fields that are not fillable are dropped silently: removing
      them beforehand changes nothing. */
  lemma {:induction false} DroppedClausesAreIrrelevant(repo: Repository, b: Trace, cs: seq<Clause>)
    ensures ApplyWhere(repo, b, Some(cs)) == ApplyWhere(repo, b, Some(FillableClauses(repo, cs)))
  {
    FillableClausesIdempotent(repo, cs);
    ApplyClausesIsFilterThenTranslate(repo, b, cs);
    ApplyClausesIsFilterThenTranslate(repo, b, FillableClauses(repo, cs));
  }

  lemma {:induction false} FillableClausesIdempotent(repo: Repository, cs: seq<Clause>)
    ensures FillableClauses(repo, FillableClauses(repo, cs)) == FillableClauses(repo, cs)
    decreases |cs|
  {
    if |cs| > 0 {
      FillableClausesIdempotent(repo, cs[1..]);
      var rest := FillableClauses(repo, cs[1..]);
      if repo.isFillable(cs[0].field) {
        assert ([cs[0]] + rest)[1..] == rest;
      }
    }
  }

  /** The number of constraints a filter adds is the number of its clauses on
      fillable fields. */
  lemma CountOfAddedConstraints(repo: Repository, b: Trace, cs: seq<Clause>)
    ensures |ApplyWhere(repo, b, Some(cs))| == |b| + |FillableClauses(repo, cs)|
  {
    ApplyClausesIsFilterThenTranslate(repo, b, cs);
  }

  /** A clause whose operator is `in` on a fillable field becomes a membership
      constraint with the clause's value as the candidate set. */
  lemma InClauseBecomesWhereIn(repo: Repository, b: Trace, field: string, v: Value)
    requires repo.matchesIn("in") && repo.isFillable(field)
    ensures ApplyWhere(repo, b, Some([Clause(field, "in", v)])) == b + [WhereIn(field, v)]
  {
  }

  /** A filter whose only clause is on a field that is not fillable leaves the
      query unfiltered. */
  lemma NonFillableClauseIsDropped(repo: Repository, b: Trace, c: Clause)
    requires !repo.isFillable(c.field)
    ensures ApplyWhere(repo, b, Some([c])) == b
  {
  }

  /** Under the case-sensitive wildcard reading of `str_is`, an operator
      spelled `In` is not the membership test: the clause is forwarded as a
      comparison with operator `In`. */
  lemma CapitalisedInIsComparison(isFillable: string -> bool, useUuid: bool, b: Trace, field: string, v: Value)
    requires isFillable(field)
    ensures var repo := Repository(isFillable, op => Wildcard.Matches(op, "in"), useUuid);
      && repo.matchesIn("in")
      && ApplyWhere(repo, b, Some([Clause(field, "In", v)])) == b + [Where(field, "In", v)]
  {
    Wildcard.InOperatorSpellings();
  }

  /** Under the wildcard reading of `str_is`, an operator without `*` selects
      the membership test exactly when it is `in`; any other spelling is
      forwarded as a comparison. */
  lemma LiteralOperatorIsMembershipOnlyWhenIn(isFillable: string -> bool, useUuid: bool, b: Trace, c: Clause)
    requires isFillable(c.field) && '*' !in c.operator
    ensures var repo := Repository(isFillable, op => Wildcard.Matches(op, "in"), useUuid);
      ApplyWhere(repo, b, Some([c]))
        == b + [if c.operator == "in" then WhereIn(c.field, c.value) else Where(c.field, c.operator, c.value)]
  {
    Wildcard.LiteralPatternMatchesOnlyItself(c.operator, "in");
  }

  // ---------------------------------------------------------------------
  // Ordering and result retrieval

  /** Whether `applyOrderBy` can read what it needs of a sort: no sort at all,
      or a `field` key and, when that field is fillable, a `direction` key. */
  predicate SortReadable(repo: Repository, order: Option<Sort>) {
    order.None? ||
    (order.value.field.Some? &&
     (!repo.isFillable(order.value.field.value) || order.value.direction.Some?))
  }

  /** `applyOrderBy`: one ordering constraint when a sort is given on a
      fillable field, none otherwise. The sort's `field` key is read first and
      its `direction` key only for a fillable field; a missing key read fails. */
  function ApplyOrderBy(repo: Repository, b: Trace, order: Option<Sort>): (r: Result<Trace, Error>)
    ensures order.None? ==> r == Success(b)
    ensures r.Success? <==> SortReadable(repo, order)
    ensures order.Some? && order.value.field.None? ==> r == Failure(UndefinedKey("field"))
    ensures (order.Some? && order.value.field.Some? && repo.isFillable(order.value.field.value)
             && order.value.direction.None?) ==> r == Failure(UndefinedKey("direction"))
    ensures r.Success? ==> |b| <= |r.value| <= |b| + 1 && r.value[..|b|] == b
    ensures r.Success? ==>
      (|r.value| == |b| + 1 <==> order.Some? && repo.isFillable(order.value.field.value))
    ensures r.Success? && |r.value| == |b| + 1 ==>
      r.value[|b|] == OrderBy(order.value.field.value, order.value.direction.value)
  {
    match order
    case None => Success(b)
    case Some(Sort(field, direction)) =>
      if field.None? then
        Failure(UndefinedKey("field"))
      else if !repo.isFillable(field.value) then
        Success(b)
      else if direction.None? then
        Failure(UndefinedKey("direction"))
      else
        Success(b + [OrderBy(field.value, direction.value)])
  }

  /** `getResults`. Empty parameters: paginate with the default page size and
      nothing else. Otherwise read `filter` and `sort`, failing on the first
      one missing; filter, then order (which may itself fail on the sort's
      keys); then read `limit` and paginate with it. */
  function GetResults(repo: Repository, b: Trace, params: Params): (r: Result<Trace, Error>)
    ensures params.IsEmpty() ==> r == Success(b + [Paginate(None)])
    ensures !params.IsEmpty() && params.filter.Absent? ==> r == Failure(UndefinedKey("filter"))
    ensures !params.IsEmpty() && !params.filter.Absent? && params.sort.Absent? ==>
      r == Failure(UndefinedKey("sort"))
    ensures !params.IsEmpty() && !params.filter.Absent? && !params.sort.Absent? ==>
      var o := ApplyOrderBy(repo, ApplyWhere(repo, b, params.filter.Read()), params.sort.Read());
      && (o.Failure? ==> r == Failure(o.error))
      && (o.Success? && params.limit.Absent? ==> r == Failure(UndefinedKey("limit")))
      && (o.Success? && !params.limit.Absent? ==> r == Success(o.value + [Paginate(params.limit.Read())]))
    ensures r.Success? ==> WellFormedResult(repo, b, r.value)
  {
    if params.IsEmpty() then
      Success(b + [Paginate(None)])
    else if params.filter.Absent? then
      Failure(UndefinedKey("filter"))
    else
      var w := ApplyWhere(repo, b, params.filter.Read());
      if params.sort.Absent? then
        Failure(UndefinedKey("sort"))
      else
        var o := ApplyOrderBy(repo, w, params.sort.Read());
        if o.Failure? then
          Failure(o.error)
        else if params.limit.Absent? then
          Failure(UndefinedKey("limit"))
        else
          var r := o.value + [Paginate(params.limit.Read())];
          assert r[..|b|] == o.value[..|b|] == w[..|b|];
          Success(r)
  }

  /** The shape of every successful `getResults` chain: the caller's prefix,
      then filters on fillable fields, then at most one ordering on a fillable
      field, then a single pagination. */
  predicate WellFormedResult(repo: Repository, b: Trace, r: Trace) {
    && |r| > |b|
    && r[..|b|] == b
    && r[|r| - 1].Paginate?
    && (forall i :: |b| <= i < |r| - 1 ==> NamesField(r[i]) && repo.isFillable(r[i].field))
    && (forall i :: |b| <= i < |r| - 2 ==> !r[i].OrderBy?)
  }

  /** `all`: eager-load the relations, then retrieve. */
  function All(repo: Repository, relations: seq<string>, params: Params): (r: Result<Trace, Error>)
    ensures r == GetResults(repo, [With(relations)], params)
    ensures r.Success? ==> WellFormedResult(repo, [With(relations)], r.value)
    ensures r.Success? ==> r.value[0] == With(relations) && r.value[|r.value| - 1].Paginate?
    ensures params.IsEmpty() ==> r == Success([With(relations), Paginate(None)])
  {
    var r := GetResults(repo, [With(relations)], params);
    assert r.Success? ==> r.value[..1] == [With(relations)];
    assert [With(relations)] + [Paginate(None)] == [With(relations), Paginate(None)];
    r
  }

  /** `findEquals`: an equality constraint on the given field, then retrieve. */
  function FindEquals(repo: Repository, field: string, value: Value, params: Params): (r: Result<Trace, Error>)
    ensures r == GetResults(repo, [Where(field, "=", value)], params)
    ensures r.Success? ==> WellFormedResult(repo, [Where(field, "=", value)], r.value)
    ensures r.Success? ==> r.value[0] == Where(field, "=", value) && r.value[|r.value| - 1].Paginate?
    ensures params.IsEmpty() ==> r == Success([Where(field, "=", value), Paginate(None)])
  {
    var r := GetResults(repo, [Where(field, "=", value)], params);
    assert r.Success? ==> r.value[..1] == [Where(field, "=", value)];
    assert [Where(field, "=", value)] + [Paginate(None)] == [Where(field, "=", value), Paginate(None)];
    r
  }

  /** `all` with a filter, no sort and a limit: the eager load, one constraint
      per fillable clause in order, then pagination at the limit. */
  lemma AllAppliesFilterAndLimit(repo: Repository, relations: seq<string>, cs: seq<Clause>, limit: int)
    ensures All(repo, relations, Params(Given(cs), Null, Given(limit), false))
      == Success([With(relations)] + Translate(repo, FillableClauses(repo, cs)) + [Paginate(Some(limit))])
  {
    ApplyClausesIsFilterThenTranslate(repo, [With(relations)], cs);
  }

  /** `findEquals` with a filter, a sort on a fillable field and a limit: the
      equality, the fillable filters in order, the ordering, then pagination
      at the limit. */
  lemma FindEqualsAppliesParams(repo: Repository, field: string, value: Value, cs: seq<Clause>,
                                sortField: string, direction: string, limit: int)
    requires repo.isFillable(sortField)
    ensures FindEquals(repo, field, value,
                       Params(Given(cs), Given(Sort(Some(sortField), Some(direction))), Given(limit), false))
      == Success([Where(field, "=", value)] + Translate(repo, FillableClauses(repo, cs))
                 + [OrderBy(sortField, direction)] + [Paginate(Some(limit))])
  {
    var b := [Where(field, "=", value)];
    var t := Translate(repo, FillableClauses(repo, cs));
    ApplyClausesIsFilterThenTranslate(repo, b, cs);
    assert ApplyWhere(repo, b, Some(cs)) == b + t;
    assert ApplyOrderBy(repo, b + t, Some(Sort(Some(sortField), Some(direction))))
      == Success(b + t + [OrderBy(sortField, direction)]);
  }

  /** The equality field of `findEquals` is not subject to the fillable test
      that filter clauses are: the constraint is emitted for any field. */
  lemma FindEqualsIgnoresFillable(repo: Repository, field: string, value: Value, params: Params)
    requires !repo.isFillable(field)
    requires params.IsEmpty() || (!params.filter.Absent? && !params.sort.Absent? && !params.limit.Absent?
                                  && SortReadable(repo, params.sort.Read()))
    ensures FindEquals(repo, field, value, params).Success?
    ensures FindEquals(repo, field, value, params).value[0] == Where(field, "=", value)
  {
  }

  /** Retrieval succeeds exactly when the parameters are empty, or carry all
      three keys and a sort whose keys can be read. */
  lemma GetResultsSucceedsIff(repo: Repository, b: Trace, params: Params)
    ensures GetResults(repo, b, params).Success? <==>
      params.IsEmpty() ||
      (!params.filter.Absent? && !params.sort.Absent? && !params.limit.Absent?
       && SortReadable(repo, params.sort.Read()))
  {
  }

  /** `findBy` as written: a substring match, then either fetch everything
      (no `perPage`) or paginate at the default size whatever `perPage` says. */
  function FindBy(field: string, value: string, perPage: Option<int>): (r: Trace)
    ensures |r| == 2 && r[0] == Where(field, "LIKE", Str("%" + value + "%"))
    ensures r[1] == Get <==> perPage.None?
    ensures perPage.Some? ==> r[1] == Paginate(None)
  {
    var like := Where(field, "LIKE", Str("%" + value + "%"));
    if perPage.None? then [like, Get] else [like, Paginate(None)]
  }

  /** `findBy` as its interface documents it: `perPage` is the page size. */
  function FindByIntended(field: string, value: string, perPage: Option<int>): (r: Trace)
    ensures |r| == 2 && r[0] == Where(field, "LIKE", Str("%" + value + "%"))
    ensures r[1] == Get <==> perPage.None?
    ensures perPage.Some? ==> r[1] == Paginate(perPage)
  {
    var like := Where(field, "LIKE", Str("%" + value + "%"));
    if perPage.None? then [like, Get] else [like, Paginate(perPage)]
  }

  /** As written, the value of `perPage` never reaches the query: two page
      sizes give the same chain, and `findBy('name', 'ann', 5)` pages at the
      default size rather than 5. */
  lemma FindByIgnoresPerPage(field: string, value: string, a: int, b: int)
    ensures FindBy(field, value, Some(a)) == FindBy(field, value, Some(b))
    ensures FindBy("name", "ann", Some(5)) != FindByIntended("name", "ann", Some(5))
  {
  }

  /** The corrected `findBy` distinguishes page sizes and agrees with the
      written one whenever no page size is given. */
  lemma FindByIntendedHonoursPerPage(field: string, value: string, a: int, b: int)
    ensures a != b ==> FindByIntended(field, value, Some(a)) != FindByIntended(field, value, Some(b))
    ensures FindByIntended(field, value, None) == FindBy(field, value, None)
  {
  }

  // ---------------------------------------------------------------------
  // Lookup by id

  /** `findOrFail` over the model's `find`: the found record, or `NotFound`. */
  function FindOrFail(find: Value -> Option<Row>, id: Value): (r: Result<Row, Error>)
    ensures r.Success? <==> find(id).Some?
    ensures r.Success? ==> r.value == find(id).value
    ensures r.Failure? ==> r.error == NotFound
  {
    match find(id)
    case Some(record) => Success(record)
    case None => Failure(NotFound)
  }

  /** `findOrFail` and `find` agree except that a missing record is an error
      rather than `null`. */
  lemma FindOrFailRefinesFind(find: Value -> Option<Row>, id: Value)
    ensures find(id).None? <==> FindOrFail(find, id) == Failure(NotFound)
    ensures forall row :: find(id) == Some(row) <==> FindOrFail(find, id) == Success(row)
  {
  }

  // ---------------------------------------------------------------------
  // Creation

  /** The attributes `create` hands to the model. With UUID keys on, `id` is
      set to the freshly generated `uuid` (overwriting any given `id`) and every
      other attribute is kept; otherwise the attributes pass through as given. */
  function Create(repo: Repository, params: Row, uuid: Value): (r: Row)
    ensures repo.useUuid ==> r.Keys == params.Keys + {"id"} && r["id"] == uuid
    ensures repo.useUuid ==> forall k :: k in params && k != "id" ==> r[k] == params[k]
    ensures !repo.useUuid ==> r == params
  {
    if repo.useUuid then params["id" := uuid] else params
  }

  /** The rows `insert` hands to the model: passed through unchanged. */
  function Insert(rows: seq<Row>): (r: seq<Row>)
    ensures |r| == |rows|
    ensures forall i :: 0 <= i < |r| ==> r[i] == rows[i]
  {
    rows
  }

  /** With UUID keys on, `create` of a record without an id gives it one,
      while `insert` of the same record does not. */
  lemma CreateInsertAsymmetry(repo: Repository, row: Row, uuid: Value)
    requires repo.useUuid && "id" !in row
    ensures "id" in Create(repo, row, uuid)
    ensures "id" !in Insert([row])[0]
  {
  }

  // ---------------------------------------------------------------------
  // Selection lists

  /** `getSelectableField`: every value the field takes across the selected
      records, each mapped to itself, duplicates collapsed. */
  method GetSelectableField(rows: seq<Row>, fieldName: string) returns (m: map<Value, Value>)
    ensures m.Keys == set i | 0 <= i < |rows| :: Attribute(rows[i], fieldName)
    ensures forall k :: k in m ==> m[k] == k
    ensures |m| <= |rows|
  {
    m := map[];
    for n := 0 to |rows|
      invariant m.Keys == set i | 0 <= i < n :: Attribute(rows[i], fieldName)
      invariant forall k :: k in m ==> m[k] == k
      invariant |m| <= n
    {
      var v := Attribute(rows[n], fieldName);
      m := m[v := v];
    }
  }
}
