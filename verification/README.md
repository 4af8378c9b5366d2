# wepo repository layer, modelled in Dafny

This project models the two pieces of logic in wepo, a thin repository layer
over Laravel's Eloquent ORM:

- **Repository name resolution** (`RepositoryFactory`). A short name such as
  `user` is normalised with `studly_case`. It is then resolved to a repository
  class and an optional model class, using the configured namespaces and the
  repository suffix (default `Repository`). Configuration values are a
  `Config` record. `studly_case` is a function parameter `studly`.
- **Query-constraint construction** (`CrudRepository`). The Eloquent builder
  is an immutable trace (`Query.Trace`): a sequence of `With`, `Where`,
  `WhereIn`, `OrderBy`, `Paginate` and `Get` constraints in call order. Each
  list operation is a function from its arguments to the trace it builds.
  The model's `isFillable` test and the framework's `str_is(operator, 'in')`
  test are fields of the `Repository` value. So is the `wepo.uuid` flag.
  The parameter array of list operations is a `Params` record. Each of its
  keys `filter`, `sort` and `limit` may be absent, `null` or set.

Modules:

- `Wrappers`: `Option`, `Result`, and `Slot`, the three states of a key.
- `Strings`: prefix and suffix tests on `seq<char>`.
- `Query`: values and constraints.
- `Wildcard`: one concrete case-sensitive `*`-wildcard matcher standing for
  `str_is`.
- `RepositoryFactory` and `CrudRepository`: one module per source class.

The model follows the code in two places where it is easy to assume otherwise:

- The operator `in` is easily read as matched case-insensitively. The
  code uses `str_is(operator, 'in')`, which compares case-sensitively, with
  `*` as a wildcard. `CrudRepository.CapitalisedInIsComparison` shows that,
  under that reading, a clause with operator `In` is forwarded as a comparison
  `Where(field, "In", value)` and not as `WhereIn`.
- A non-empty parameter array without one of the keys `filter`, `sort`,
  `limit` is read anyway. Laravel's error handler turns that undefined-index
  notice into an exception. The model returns `Failure(UndefinedKey(key))`
  for the first missing key, in the order the code reads them. The same holds
  for a sort array without `field`, or without `direction` when its field is
  fillable.

## Model

| member | source | states |
|---|---|---|
| RepositoryFactory.NewFactory | src/Factories/RepositoryFactory.php:9-12 | the suffix is the configured one, and `Repository` when none is configured |
| RepositoryFactory.DefaultSuffixResolution | src/Factories/RepositoryFactory.php:11-43 | with no configured suffix, an unqualified unsuffixed name `N` resolves to `<repositories ns>NRepository` and model `<models ns>N` |
| RepositoryFactory.SetRepoName | src/Factories/RepositoryFactory.php:46-53 | the result always ends with the suffix and extends the name by at most the suffix; it equals the name exactly when the name already ends with the suffix |
| RepositoryFactory.SetRepoNameIdempotent | src/Factories/RepositoryFactory.php:48-52 | suffixing twice gives the same name as suffixing once |
| RepositoryFactory.SetRepoNameStrips | src/Factories/RepositoryFactory.php:48-50 | for a name without the suffix, removing the suffix from the repository name gives the name back |
| RepositoryFactory.GetModel | src/Factories/RepositoryFactory.php:28-35 | no model exactly when the name contains a backslash or ends with the suffix; otherwise the models namespace followed by the name |
| RepositoryFactory.GetRepository | src/Factories/RepositoryFactory.php:37-44 | always ends with the suffix; a qualified name is only suffixed, an unqualified one is also prefixed with the repositories namespace |
| RepositoryFactory.Get | src/Factories/RepositoryFactory.php:19-26 | repository and model are resolved from the same `studly`-normalised name; when a model is resolved, both classes carry that name |
| RepositoryFactory.MagicGet | src/Factories/RepositoryFactory.php:14-17 | property access gives the same resolution as `get` |
| RepositoryFactory.GetFactorsThroughStudly | src/Factories/RepositoryFactory.php:19-25 | two names with the same normal form resolve to the same classes |
| RepositoryFactory.SuffixedAliasSharesRepository | src/Factories/RepositoryFactory.php:28-53 | `N` and `N<suffix>` resolve to the same repository class, but only `N` gets a model class |
| CrudRepository.ApplyClauses | src/Eloquent/CrudRepository.php:211-227 | the filter loop keeps the builder as a prefix, appends at most one constraint per clause, and every appended constraint is a `Where` or `WhereIn` on a fillable field |
| CrudRepository.ApplyWhere | src/Eloquent/CrudRepository.php:205-230 | a `null` filter leaves the builder unchanged; otherwise it only appends `Where`/`WhereIn` constraints on fillable fields |
| CrudRepository.ApplyClausesIsFilterThenTranslate | src/Eloquent/CrudRepository.php:211-227 | the loop equals the reference "keep fillable clauses, translate each in order": one constraint per fillable clause, in input order, `WhereIn` when the operator matches `in` and `Where` otherwise |
| CrudRepository.DroppedClausesAreIrrelevant | src/Eloquent/CrudRepository.php:211-214 | removing the clauses on non-fillable fields beforehand does not change the result |
| CrudRepository.CountOfAddedConstraints | src/Eloquent/CrudRepository.php:211-227 | the number of constraints added is the number of clauses on fillable fields |
| CrudRepository.InClauseBecomesWhereIn | src/Eloquent/CrudRepository.php:216-220 | a fillable clause with operator `in` becomes `WhereIn(field, value)` |
| CrudRepository.NonFillableClauseIsDropped | src/Eloquent/CrudRepository.php:212-214 | a filter whose only clause is on a non-fillable field leaves the query unfiltered |
| CrudRepository.LiteralOperatorIsMembershipOnlyWhenIn | src/Eloquent/CrudRepository.php:216-226 | under the wildcard reading of `str_is`, an operator without `*` gives `WhereIn` exactly when it is `in`, and `Where` with that operator otherwise |
| CrudRepository.CapitalisedInIsComparison | src/Eloquent/CrudRepository.php:216-226 | under the wildcard reading of `str_is`, the operator `In` yields `Where(field, "In", value)`, not a membership test |
| CrudRepository.ApplyOrderBy | src/Eloquent/CrudRepository.php:240-247 | no sort leaves the builder unchanged; a sort without `field`, or with a fillable `field` but no `direction`, fails on that key; otherwise exactly one `OrderBy(field, direction)` is appended iff the field is fillable, and nothing otherwise |
| CrudRepository.GetResults | src/Eloquent/CrudRepository.php:257-265 | empty params append only `Paginate(default)`; otherwise a missing `filter` or `sort` fails, then the ordering's own failure propagates, then a missing `limit` fails, else filters, then the optional order, then `Paginate(limit)`; every success is prefix, fillable filters, at most one order, one pagination |
| CrudRepository.GetResultsSucceedsIff | src/Eloquent/CrudRepository.php:259-262 | retrieval succeeds exactly when params are empty, or carry all three keys and a sort whose keys can be read |
| CrudRepository.All | src/Eloquent/CrudRepository.php:72-77 | `getResults` over a chain that starts with the eager load, so its successes and failures are those of `getResults` |
| CrudRepository.AllAppliesFilterAndLimit | src/Eloquent/CrudRepository.php:72-77 | with a filter, a null sort and a limit: the eager load, one constraint per fillable clause in order, then `Paginate(limit)` |
| CrudRepository.FindEquals | src/Eloquent/CrudRepository.php:112-117 | `getResults` over a chain that starts with the equality constraint on the field, so its successes and failures are those of `getResults` |
| CrudRepository.FindEqualsAppliesParams | src/Eloquent/CrudRepository.php:112-117 | with a filter, a sort on a fillable field and a limit: the equality, the fillable filters in order, the ordering, then `Paginate(limit)` |
| CrudRepository.FindEqualsIgnoresFillable | src/Eloquent/CrudRepository.php:112-117 | the equality field is emitted even when it is not fillable |
| CrudRepository.FindBy | src/Eloquent/CrudRepository.php:100-107 | a `LIKE %value%` constraint, then `Get` exactly when `perPage` is null, else `Paginate(default)` |
| CrudRepository.FindByIgnoresPerPage | src/Eloquent/CrudRepository.php:102-106 | any two page sizes give the same chain; page size 5 does not give the documented result |
| CrudRepository.FindByIntended | src/Contracts/CrudRepository.php:50-60 | corrected `findBy`: a non-null `perPage` is the page size |
| CrudRepository.FindByIntendedHonoursPerPage | src/Contracts/CrudRepository.php:50-60 | distinct page sizes give distinct chains; with no page size it agrees with `findBy` as written |
| CrudRepository.FindOrFail | src/Eloquent/CrudRepository.php:90-95 | succeeds exactly when `find` yields a record, with that record; otherwise `NotFound` |
| CrudRepository.FindOrFailRefinesFind | src/Eloquent/CrudRepository.php:82-95 | `findOrFail` agrees with `find` record for record, and a missing record is `NotFound` |
| CrudRepository.Create | src/Eloquent/CrudRepository.php:122-129 | with UUID mode on, key `id` holds the fresh value, it is the only key added, and every other key keeps its value; with it off, params pass unchanged |
| CrudRepository.Insert | src/Eloquent/CrudRepository.php:134-137 | the rows reach the model unchanged |
| CrudRepository.CreateInsertAsymmetry | src/Eloquent/CrudRepository.php:122-137 | with UUID mode on, `create` of a record without `id` adds one, `insert` of it does not |
| CrudRepository.GetSelectableField | src/Eloquent/CrudRepository.php:177-185 | the keys are exactly the field's values across the rows, each mapped to itself, so duplicates collapse |
| Wildcard.LiteralPatternMatchesOnlyItself | src/Eloquent/CrudRepository.php:216 | a pattern without `*` matches exactly the equal string |
| Wildcard.MatchesItself | src/Eloquent/CrudRepository.php:216 | every pattern matches itself |
| Wildcard.InOperatorSpellings | src/Eloquent/CrudRepository.php:216 | `in`, `*` and `i*` select the membership test; `In`, `IN` and `=` do not |

## Left out

- `setModel` and the instantiation `new $repositoryClass(...)`. Both rely on runtime class lookup and `instanceof` checks, so `Get` returns the class names and stops there.
- Reading configuration through `config(...)`. Namespaces, the suffix and the UUID flag are explicit inputs. An unset namespace is written as "".
- `studly_case` is the parameter `studly`, since its definition is framework code.
- `str_is`. The repository's `matchesIn` field stands for it. `Wildcard.Matches` is one concrete reading, used only to exhibit the `In` case.
- Strings.EndsWith: this is the mathematical suffix test. The framework's `ends_with` with an empty needle returns false for a non-empty haystack. So with an empty configured suffix, the code resolves a model where the model resolves none.
- `find`, `count`, `update`, `delete` and `getFields`. These pass straight through to Eloquent. `find` appears only as the oracle given to `FindOrFail`. `GetSelectableField` takes the rows that `getFields` returns.
- Executing queries and pagination internals. The model describes which constraints are built, not which rows come back.
- UUID generation. The fresh UUID is a parameter of `Create`, so "distinct across calls" is not stated.
- CrudRepository.GetSelectableField: PHP array-key coercion is not modelled. PHP turns `null` into "", numeric strings into integers and booleans into integers. The model keys the map by the value itself. An array-valued attribute is an illegal array key in PHP, and `getSelectableField` then throws. The model instead keys the map by the `List` value.
- CrudRepository.Create: PHP arrays are ordered maps, but attribute maps here are unordered `map`s, so key order is not stated.
- Filter sections are typed `Clause` records. A section missing `field`, `operator` or `value` is not represented. The sort's `field` and `direction` keys, by contrast, may be missing, and reading a missing one fails.
- `findOrFail` with an array of ids. Eloquent then returns a collection, which is truthy even when empty. Ids are single values here.
- `WepoServiceProvider`: service registration and route loading are framework glue.

## Findings

| source | as written | input that shows it | evidently intended | confidence | as-written member | corrected member |
|---|---|---|---|---|---|---|
| src/Eloquent/CrudRepository.php:106 | with a non-null `perPage`, `paginate()` is called without arguments, so the default page size is used | `findBy('name', 'ann', 5)` builds `[Where(name, LIKE, %ann%), Paginate(default)]` | `perPage` is the page size, as the interface documents at src/Contracts/CrudRepository.php:56 | not executed; medium | CrudRepository.FindByIgnoresPerPage | CrudRepository.FindByIntendedHonoursPerPage |
