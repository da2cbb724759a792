# Professor rating service — a Dafny model

This project models the rating service of a small web application where
students rate professors for the module instances they taught (a module
offered in one year and semester by one or more professors). It covers:

- the four tables (Module, Professor, ModuleInstance, Rating), the primary-key
  lookups the views perform, and the constraints the schema declares
  (`models.dfy`);
- `Professor.get_average_rating` and `Professor.get_module_average_rating`:
  filter, sum, divide, and Python's `round` (half to even). Both are computed
  exactly on the pair (total, count) (`averages.dfy`);
- the output records of the serializers, `get_module_rating` and the user
  stamping in `RatingSerializer.create` (`serializers.dfy`);
- the module-instance listing order, `professorModuleRating` and the
  `rateProfessor` transaction. The transaction is specified as a function from
  the old Rating table to the response and the new table (`views.dfy`);
- the Rating table as a class whose methods change it in place: `RateProfessor`
  (the view's check chain, then `update_or_create`) and `CreateRating`
  (`RatingSerializer.create`) (`store.dfy`);
- concrete runs on a one-module catalog (`scenarios.dfy`).

The coercions the framework applies to request values are in `text.dfy`.
Character keys are compared with `str(value)`. Integer fields receive
`int(value)`. Module codes are ordered by code point.

Three points where the model follows the code rather than the declared
constraints:

- `rateProfessor` has no range check, and `update_or_create` does not run field
  validators. A rating of 6 or -3 is stored (`Scenarios.SixIsStored`).
- A falsy value (`None`, `False`, `0`, `""`) counts as a missing field and gets
  400. The text `"0"` is truthy, so it is stored as 0.
- A non-numeric year, semester or rating makes `int()` raise. The generic
  handler turns that into 400 (`Rejected`). A semester outside 1..2 is looked
  up like any other value. It gets 404 when no stored instance has that
  semester, which holds as long as stored semesters respect the validator
  (`Views.SemesterOutsideDeclaredRange`). The database does not enforce that
  validator, so an instance stored with semester 3 is found like any other.

The bound of 1..5 on averages is proved only under the assumption that every
stored rating already lies in 1..5 (`RatingsDeclared`). The invariant the
database enforces is `Valid()`: primary keys, foreign keys and both
`unique_together` constraints. Every write keeps it.

## Model

| member | source | states |
|---|---|---|
| `Text.ShowNat` | university/rating/views.py:61-62 | `str()` of a non-negative integer is a non-empty run of digits without a leading zero |
| `Text.ParseShowRoundTrip` | university/rating/views.py:63-65 | `int(str(n)) == n` for every integer, so a number sent as text reaches the same row |
| `Text.ShowIntInjective` | university/rating/views.py:61-62 | distinct integers have distinct `str()` forms, so numeric keys do not collide as text |
| `Text.LexTransitive` | university/rating/views.py:24-26 | the code-point order on module codes is transitive |
| `Text.LexTotal` | university/rating/views.py:24-26 | any two distinct module codes are ordered one way or the other |
| `Text.LexAsymmetric` | university/rating/views.py:24-26 | no two module codes are each before the other |
| `Text.LexIrreflexive` | university/rating/views.py:24-26 | no module code sorts before itself |
| `Models.FindProfessor` | university/rating/views.py:61 | the professor with that primary key, or None exactly when no row has it (DoesNotExist) |
| `Models.FindModule` | university/rating/views.py:62 | the module with that code, or None exactly when no row has it |
| `Models.FindInstance` | university/rating/views.py:63-65 | an instance with that (module, year, semester), or None exactly when none has it |
| `Models.InstanceById` | university/rating/models.py:69 | the instance a rating's foreign key points at, or None exactly when no row has that id |
| `Models.FindInstanceUnique` | university/rating/models.py:61-62 | under `unique_together` the lookup by (module, year, semester) returns the one row holding that key |
| `Models.InstanceByIdUnique` | university/rating/models.py:49-62 | with unique primary keys the lookup by id returns the row that has it |
| `Averages.Select` | university/rating/models.py:22 | the filtered ratings are exactly the stored ratings in scope, and no more of them than stored |
| `Averages.SelectCounts` | university/rating/models.py:22-28 | the filter keeps each in-scope row exactly as often as the table holds it and drops every other, so `ratings.count()` is pinned |
| `Averages.RoundHalfEven` | university/rating/models.py:29-31 | `round(total/count)`: within half a unit of the mean, and even on an exact half |
| `Averages.RoundsToUnique` | university/rating/models.py:31 | at most one integer is the nearest to a quotient with ties to even |
| `Averages.RoundHalfEvenUnique` | university/rating/models.py:31 | any integer that rounds the quotient half-to-even is `RoundHalfEven`'s result |
| `Averages.HalvesRoundToEven` | university/rating/models.py:31 | (2+3)/2 rounds to 2 and (3+4)/2 rounds to 4 |
| `Averages.RoundHalfEvenWithin` | university/rating/models.py:27-31 | a mean between lo and hi rounds to an integer between lo and hi |
| `Averages.Average` | university/rating/models.py:24-31 | 0 for no ratings; otherwise the half-to-even rounding of sum/count |
| `Averages.AverageRating` | university/rating/models.py:21-31 | 0 when the professor has no rating; otherwise the half-to-even rounding of the mean of that professor's ratings, over a non-empty selection |
| `Averages.ModuleAverageRating` | university/rating/models.py:33-46 | fails exactly when the module code is unknown, before any rating is read; otherwise 0 when the professor has no rating in that module, else the half-to-even rounding of the mean of the professor's ratings on any instance of the module, across all years and semesters |
| `Averages.SumWithin` | university/rating/models.py:27 | the sum of ratings in lo..hi lies between lo·count and hi·count |
| `Averages.AverageDeclared` | university/rating/models.py:21-46 | with stored ratings in 1..5, an average is 0 exactly when its scope is empty, and in 1..5 otherwise |
| `Averages.AverageRatingDeclared` | university/rating/models.py:21-31 | `get_average_rating` is 0 exactly for a professor without ratings, and in 1..5 otherwise (given valid values) |
| `Averages.SelectAppend` | university/rating/models.py:22 | filtering distributes over concatenation of tables |
| `Averages.SelectUpdateOutside` | university/rating/models.py:22 | overwriting an out-of-scope row with an out-of-scope row leaves the selection unchanged |
| `Averages.AverageIgnoresAppendOutside` | university/rating/models.py:22 | a new rating of another professor or module does not change an average |
| `Averages.AverageIgnoresUpdateOutside` | university/rating/models.py:22 | an overwritten rating outside the scope does not change its average |
| `Averages.SelectNarrowing` | university/rating/models.py:36-37 | when all of a professor's ratings are in one module, the module filter selects the same rows as the professor filter |
| `Averages.ModuleAverageOfSingleModule` | university/rating/models.py:36-46 | the module average pools all years and semesters: it equals the overall average when every rating is in that module |
| `Serializers.ProfessorProjection` | university/rating/serializers.py:10-13 | a professor record is exactly (id, name) and determines the professor |
| `Serializers.ProfessorsOf` | university/rating/serializers.py:23 | the nested professor list has one (id, name) per related professor, in relation order, resolved by primary key |
| `Serializers.InstanceRecord` | university/rating/serializers.py:20-31 | moduleCode and moduleName come from the instance's module; year and semester are copied; the professor list is complete |
| `Serializers.RatingProjection` | university/rating/serializers.py:33-41 | a rating record exposes id, user, moduleInstance, professor, rating and dateCreated, and determines the row |
| `Serializers.ProfessorRatings` | university/rating/serializers.py:63-71 | one record per professor, whose `average_rating` is that professor's `get_average_rating()` |
| `Serializers.ProfessorRatingsDeclared` | university/rating/serializers.py:70-71 | every listed `average_rating` is 0 exactly for an unrated professor and in 1..5 otherwise (given valid values) |
| `Serializers.GetModuleRating` | university/rating/serializers.py:80-84 | the module average when the context holds a non-empty code, 0 otherwise |
| `Serializers.StampUser` | university/rating/serializers.py:44-45 | the requesting user replaces any supplied user; nothing else changes |
| `Views.KeyLessTransitive` | university/rating/views.py:24-26 | the (module code, year, semester) order is transitive |
| `Views.KeyLessTotal` | university/rating/views.py:24-26 | any two distinct listing keys are ordered |
| `Views.KeyLessAsymmetric` | university/rating/views.py:24-26 | the listing order is a strict order |
| `Views.InsertPermutes` | university/rating/views.py:24-26 | inserting into the sorted listing adds exactly that instance |
| `Views.InsertOrdered` | university/rating/views.py:24-26 | inserting into an ordered listing keeps it ordered |
| `Views.SortInstancesCorrect` | university/rating/views.py:24-26 | the sorted instances are ordered and a permutation of the table |
| `Views.OrderedUnique` | university/rating/views.py:24-26 | two ordered arrangements of the same instances with distinct keys are equal |
| `Views.CatalogKeysDistinct` | university/rating/models.py:61-62 | `unique_together` gives every catalog instance a distinct listing key |
| `Views.SortedListingStrict` | university/rating/views.py:24-26 | the sorted table holds every instance once, strictly ascending by key |
| `Views.ListModuleInstances` | university/rating/views.py:23-32 | the listing holds one record per instance, strictly ascending by (module code, year, semester), and no record lists a professor twice |
| `Views.ListingIgnoresInsertionOrder` | university/rating/views.py:24-26 | the listing is the same whatever order the instances were inserted in |
| `Views.ProfessorModuleRating` | university/rating/views.py:38-45 | 404 for an unknown professor first, then for an unknown module; a response exactly when both exist, carrying (id, name, module rating) |
| `Views.UnknownModuleIsNotZero` | university/rating/views.py:41 | an unknown module is answered 404, even with no ratings at all |
| `Views.IndexOfKey` | university/rating/views.py:71-74 | the first row with the (user, instance, professor) key, or None exactly when no row has it |
| `Views.SubmitCheckOrder` | university/rating/views.py:56-69 | each failure status holds exactly when the earlier checks pass and its own fails; 400 `Rejected` exactly when `int()` fails on year or semester after both lookups, or on the rating after the teaching check; 201/200 exactly when every check passes; a failure writes nothing |
| `Views.SubmitResolves` | university/rating/views.py:61-75 | a success stores the submitted value for the caller, the named professor and the named instance, which the professor teaches |
| `Views.SubmitTargetsTaughtInstance` | university/rating/views.py:63-69 | the written row's instance is the requested one, and the rated professor teaches it |
| `Views.SubmitUpserts` | university/rating/views.py:71-81 | 201 exactly when no row had the key, with one appended row stamped now; else 200 and only that row's rating changes, so its dateCreated stays |
| `Views.UpsertPreservesValid` | university/rating/models.py:77-78 | `update_or_create` keeps keys unique and foreign keys valid, and leaves a row with the key |
| `Views.SubmitPreservesValid` | university/rating/views.py:47-89 | every call keeps the table's primary key, foreign keys and `unique_together` |
| `Views.SubmitKeyUnique` | university/rating/views.py:71-81 | after a success exactly the returned row holds the submitted key |
| `Views.SubmitPreservesTaughtBy` | university/rating/views.py:67-69 | every stored rating stays for a professor who teaches its instance |
| `Views.SubmitKeepsDeclaredRange` | university/rating/views.py:71-75 | stored values stay in 1..5 if the submitted value is in 1..5; the view itself does not check |
| `Views.SubmitOutOfRangeBreaksDeclared` | university/rating/views.py:71-81 | a success with a value outside 1..5 leaves a stored row outside 1..5 |
| `Views.SubmitLeavesOtherAverages` | university/rating/views.py:71-75 | no other professor's average changes, and a failed call changes no average |
| `Views.ResubmitOverwrites` | university/rating/views.py:71-81 | a second submission for the same key gets 200, adds no row and keeps id and dateCreated, with the new value |
| `Views.TextualAgrees` | university/rating/views.py:56-65 | a non-zero number and its numeral text are equally truthy and give the same text and integer |
| `Views.SubmitReadsNumeralsAsNumbers` | university/rating/views.py:50-75 | sending any field as a numeral string instead of a non-zero number gives the same outcome |
| `Views.SemesterOutsideDeclaredRange` | university/rating/views.py:63-65 | a semester outside 1..2 gets 404, not 400, when stored semesters respect the validator |
| `Store.RatingStore.constructor` | university/rating/models.py:67-78 | an empty Rating table over a valid catalog satisfies the invariant |
| `Store.RatingStore.Lookup` | university/rating/views.py:71-74 | the loop finds the same row as `IndexOfKey` |
| `Store.RatingStore.RateProfessor` | university/rating/views.py:47-89 | the response and the new table are those of `Submit`, and the invariant is kept |
| `Store.RatingStore.UpdateOrCreate` | university/rating/views.py:71-75 | the response and the new table are those of `Upsert` on the old table, and the invariant is kept for keys whose foreign keys resolve |
| `Store.RatingStore.CreateRating` | university/rating/serializers.py:44-46 | stamps the requesting user and inserts one row, or writes nothing when the key is taken; keeps the invariant and the 1..5 range |
| `Scenarios.TwoStudentsAverageThree` | university/rating/models.py:21-46 | ratings 4 and 2 for one professor are both created, and both averages are 3 |
| `Scenarios.ThreeThenFive` | university/rating/views.py:71-81 | ratings 3 then 5 by one user leave one row holding 5, answered 201 then 200 |
| `Scenarios.SixIsStored` | university/rating/views.py:71-75 | a rating of 6 is created and breaks the declared 1..5 validator |
| `Scenarios.ZeroIsMissingButTextZeroIsStored` | university/rating/views.py:56-58 | 0 gets 400 as a missing field, while the text "0" is stored |
| `Scenarios.WrongProfessorWritesNothing` | university/rating/views.py:67-69 | a professor who does not teach the instance gets 400 and nothing is written |

## Left out

- Registration (`RegistrationSerializer.create`, `UserRegistrationView`) and login: user creation and password hashing belong to the framework's user library. The user is an opaque identity here.
- `IsAuthenticated` on `rateProfessor`: unauthenticated requests never reach the view, so the model always receives an authenticated user.
- The framework's default `retrieve` actions of the two read-only viewsets (one row by primary key) are not modelled. Only their `list` actions are.
- Routing (`urls.py`) is not part of this model. The route passes `professor_id` and `module_code` as keyword arguments, but `professorModuleRating` takes `professorID` and `moduleCode`. The model calls the view function directly.
- Float division: averages are computed exactly. Python's rounded float quotient can differ only when |total| ≥ 2^52. For example, total = 3·2^51+2 and count = 3 give 2^51 in floats and 2^51+1 exactly.
- `Views.AsInt`: models `int()` on text as an optional sign followed by ASCII digits. Surrounding whitespace, underscores and non-ASCII digits (accepted by Python) are not modelled. Neither are JSON floats (`int(4.7) == 4`) or JSON arrays and objects as request values.
- Ordering of module codes: binary (code-point) collation is modelled. A database with another collation could order codes differently.
- `ProfessorRatingViewset` has no `order_by`. Its listing is modelled in table order. The order of the professors inside a module instance is modelled as stored.
- `Views.SubmitUpserts`: integer columns are unbounded in the model, so any integer rating is stored. The database's out-of-range error for an `IntegerField` is not modelled. A 32-bit column (PostgreSQL, MySQL) or a value beyond 64 bits (SQLite) raises there, and the view answers 400 without writing.
- Transactions and concurrency: `update_or_create` is one atomic step. Rollback and races between concurrent submissions are not modelled.
- Error payload texts (for example the literal `str{e}` in the 404 and 400 bodies) are not modelled. Only the outcome and status are.
- `dateCreated` is a timestamp supplied by the caller (`now`), not wall-clock time.
- `Store.RatingStore.CreateRating`: the serializer's validation before `create` is not modelled. That covers the foreign keys, the 1..5 validator and the unique-together validator. Validated input is its precondition.
- `RatingSerializer` declares `readOnlyFields`, an option the framework does not read, so `user` stays a writable input field. `create` overrides it anyway, which is what the model states.
- `Views.Submit` has no range check on the rating and no check that the semester is 1 or 2. `Views.ProfessorModuleRating` answers with `id`, `name` and `module_rating`. Both follow `views.py` and `serializers.py` as written.
