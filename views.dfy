/**
 * The read views (`ModuleInstanceViewset` listing order, `professorModuleRating`)
 * and the specification of the `rateProfessor` transaction as a function from
 * the old Rating table to the response and the new table. The transaction
 * itself, which updates the table in place, is `Store.RatingStore.RateProfessor`.
 */
module Views {
  import opened Wrappers
  import opened Text
  import opened Models
  import opened Averages
  import opened Serializers

  // ---------------------------------------------------------------------------
  // Module-instance listing, `order_by('module__code', 'year', 'semester')`.

  type ListingKey = (ModuleCode, int, int)

  /** Ascending by module code (binary collation), then year, then semester. */
  predicate KeyLess(a: ListingKey, b: ListingKey)
  {
    LexLess(a.0, b.0) || (a.0 == b.0 && (a.1 < b.1 || (a.1 == b.1 && a.2 < b.2)))
  }

  lemma KeyLessTransitive(a: ListingKey, b: ListingKey, c: ListingKey)
    requires KeyLess(a, b) && KeyLess(b, c)
    ensures KeyLess(a, c)
  {
    if LexLess(a.0, b.0) && LexLess(b.0, c.0) {
      LexTransitive(a.0, b.0, c.0);
    }
  }

  lemma KeyLessTotal(a: ListingKey, b: ListingKey)
    ensures a == b || KeyLess(a, b) || KeyLess(b, a)
  {
    LexTotal(a.0, b.0);
  }

  lemma KeyLessAsymmetric(a: ListingKey, b: ListingKey)
    requires KeyLess(a, b)
    ensures !KeyLess(b, a)
  {
    if LexLess(a.0, b.0) {
      LexAsymmetric(a.0, b.0);
    } else {
      LexIrreflexive(a.0);
    }
  }

  /** No later element sorts strictly before an earlier one. */
  ghost predicate Ordered(s: seq<ModuleInstance>)
  {
    forall i, j :: 0 <= i < j < |s| ==> !KeyLess(InstanceKey(s[j]), InstanceKey(s[i]))
  }

  /** Distinct instances have distinct listing keys (the `unique_together` constraint). */
  ghost predicate KeysDistinct(s: seq<ModuleInstance>)
  {
    forall a, b :: a in s && b in s && InstanceKey(a) == InstanceKey(b) ==> a == b
  }

  function Insert(x: ModuleInstance, s: seq<ModuleInstance>): seq<ModuleInstance>
  {
    if s == [] || !KeyLess(InstanceKey(s[0]), InstanceKey(x)) then [x] + s
    else [s[0]] + Insert(x, s[1..])
  }

  /** The database's sort of the instance table, as an insertion sort. */
  function SortInstances(s: seq<ModuleInstance>): seq<ModuleInstance>
  {
    if s == [] then [] else Insert(s[0], SortInstances(s[1..]))
  }

  lemma {:induction false} InsertPermutes(x: ModuleInstance, s: seq<ModuleInstance>)
    ensures multiset(Insert(x, s)) == multiset(s) + multiset{x}
  {
    if s != [] && KeyLess(InstanceKey(s[0]), InstanceKey(x)) {
      InsertPermutes(x, s[1..]);
      assert s == [s[0]] + s[1..];
    }
  }

  lemma {:induction false} InsertOrdered(x: ModuleInstance, s: seq<ModuleInstance>)
    requires Ordered(s)
    ensures Ordered(Insert(x, s))
  {
    var r := Insert(x, s);
    if s == [] {
    } else if !KeyLess(InstanceKey(s[0]), InstanceKey(x)) {
      forall j | 0 < j < |r| ensures !KeyLess(InstanceKey(r[j]), InstanceKey(x)) {
        var a, b, c := InstanceKey(x), InstanceKey(s[0]), InstanceKey(r[j]);
        if j > 1 {
          assert r[j] == s[j - 1];
          assert !KeyLess(c, b);
        }
        if KeyLess(c, a) {
          KeyLessTotal(a, b);
          if KeyLess(a, b) { KeyLessTransitive(c, a, b); }
          assert false;
        }
      }
    } else {
      var t := Insert(x, s[1..]);
      InsertOrdered(x, s[1..]);
      InsertPermutes(x, s[1..]);
      forall j | 0 <= j < |t| ensures !KeyLess(InstanceKey(t[j]), InstanceKey(s[0])) {
        assert t[j] in multiset(t);
        if t[j] == x {
          KeyLessAsymmetric(InstanceKey(s[0]), InstanceKey(x));
        } else {
          assert t[j] in multiset(s[1..]);
          var k :| 0 <= k < |s[1..]| && s[1..][k] == t[j];
          assert s[k + 1] == t[j];
        }
      }
      assert r == [s[0]] + t;
    }
  }

  /** The sorted listing is in ascending key order and holds exactly the stored instances. */
  lemma {:induction false} SortInstancesCorrect(s: seq<ModuleInstance>)
    ensures Ordered(SortInstances(s))
    ensures multiset(SortInstances(s)) == multiset(s)
  {
    if s != [] {
      SortInstancesCorrect(s[1..]);
      InsertOrdered(s[0], SortInstances(s[1..]));
      InsertPermutes(s[0], SortInstances(s[1..]));
      assert s == [s[0]] + s[1..];
    }
  }

  lemma OrderedTail(x: seq<ModuleInstance>)
    requires x != [] && Ordered(x) && KeysDistinct(x)
    ensures Ordered(x[1..]) && KeysDistinct(x[1..])
  {
    forall i, j | 0 <= i < j < |x[1..]| ensures !KeyLess(InstanceKey(x[1..][j]), InstanceKey(x[1..][i])) {
      assert x[1..][i] == x[i + 1] && x[1..][j] == x[j + 1];
    }
    forall a | a in x[1..] ensures a in x { }
  }

  /** The first elements of two ordered arrangements of the same instances coincide. */
  lemma OrderedHeads(x: seq<ModuleInstance>, y: seq<ModuleInstance>)
    requires x != [] && Ordered(x) && Ordered(y) && multiset(x) == multiset(y) && KeysDistinct(x)
    ensures y != [] && x[0] == y[0]
  {
    assert x[0] in multiset(y);
    var a, b := x[0], y[0];
    assert b in multiset(x);
    var i :| 0 <= i < |x| && x[i] == b;
    var j :| 0 <= j < |y| && y[j] == a;
    if i > 0 { assert !KeyLess(InstanceKey(b), InstanceKey(a)); }
    if j > 0 { assert !KeyLess(InstanceKey(a), InstanceKey(b)); }
    KeyLessTotal(InstanceKey(a), InstanceKey(b));
  }

  /** Two ordered arrangements of the same instances with distinct keys are identical. */
  lemma {:induction false} OrderedUnique(x: seq<ModuleInstance>, y: seq<ModuleInstance>)
    requires Ordered(x) && Ordered(y) && multiset(x) == multiset(y) && KeysDistinct(x)
    ensures x == y
  {
    if x == [] {
      assert |y| == |multiset(y)| == 0;
    } else {
      OrderedHeads(x, y);
      OrderedTail(x);
      assert multiset(y) == multiset(x) && KeysDistinct(y) by {
        forall a | a in y ensures a in x { assert a in multiset(y); }
      }
      OrderedTail(y);
      assert x == [x[0]] + x[1..] && y == [x[0]] + y[1..];
      assert multiset(x[1..]) == multiset(y[1..]) by {
        var head := multiset([x[0]]);
        assert multiset(x) == head + multiset(x[1..]);
        assert multiset(y) == head + multiset(y[1..]);
        assert multiset(x[1..]) == multiset(x) - head;
        assert multiset(y[1..]) == multiset(y) - head;
      }
      OrderedUnique(x[1..], y[1..]);
    }
  }

  lemma CatalogKeysDistinct(c: Catalog)
    requires CatalogValid(c)
    ensures KeysDistinct(c.instances)
  {
    forall a, b | a in c.instances && b in c.instances && InstanceKey(a) == InstanceKey(b) ensures a == b {
      var i :| 0 <= i < |c.instances| && c.instances[i] == a;
      var j :| 0 <= j < |c.instances| && c.instances[j] == b;
      assert i == j;
    }
  }

  function RecordKey(r: ModuleInstanceRecord): ListingKey
  {
    (r.moduleCode, r.year, r.semester)
  }

  /** Each catalog instance is stored once, so an ordered arrangement of them is strictly ascending. */
  lemma {:induction false} SortedListingStrict(c: Catalog)
    requires CatalogValid(c)
    ensures forall m :: m in SortInstances(c.instances) <==> m in c.instances
    ensures |SortInstances(c.instances)| == |c.instances|
    ensures forall i, j :: 0 <= i < j < |SortInstances(c.instances)| ==>
              KeyLess(InstanceKey(SortInstances(c.instances)[i]), InstanceKey(SortInstances(c.instances)[j]))
  {
    var sorted := SortInstances(c.instances);
    SortInstancesCorrect(c.instances);
    CatalogKeysDistinct(c);
    forall m ensures m in sorted <==> m in c.instances {
      assert m in sorted <==> m in multiset(sorted);
    }
    assert |sorted| == |multiset(sorted)| == |c.instances|;
    forall i, j | 0 <= i < j < |sorted| ensures KeyLess(InstanceKey(sorted[i]), InstanceKey(sorted[j])) {
      assert sorted[i] in c.instances && sorted[j] in c.instances;
      if sorted[i] == sorted[j] {
        TwoOccurrences(sorted, i, j);
        InstanceOccursOnce(c, sorted[i]);
        assert false;
      }
      KeyLessTotal(InstanceKey(sorted[i]), InstanceKey(sorted[j]));
    }
  }

  lemma TwoOccurrences(s: seq<ModuleInstance>, i: nat, j: nat)
    requires i < j < |s| && s[i] == s[j]
    ensures multiset(s)[s[i]] >= 2
  {
    assert s == s[..i] + [s[i]] + s[i + 1..j] + [s[j]] + s[j + 1..];
  }

  /**
   * `ModuleInstanceViewset.list`: every instance of the catalog once, projected by
   * `ModuleInstanceSerializer`, strictly ascending by (module code, year, semester).
   */
  function ListModuleInstances(c: Catalog): (r: seq<ModuleInstanceRecord>)
    requires CatalogValid(c)
    ensures |r| == |c.instances|
    ensures forall i, j :: 0 <= i < j < |r| ==> KeyLess(RecordKey(r[i]), RecordKey(r[j]))
    ensures forall m :: m in c.instances ==> InstanceRecord(c, m) in r
    ensures forall i :: 0 <= i < |r| ==> exists m :: m in c.instances && r[i] == InstanceRecord(c, m)
    ensures forall i, a, b :: 0 <= i < |r| && 0 <= a < b < |r[i].professors| ==>
              r[i].professors[a].id != r[i].professors[b].id
  {
    var sorted := SortInstances(c.instances);
    SortedListingStrict(c);
    var r := seq(|sorted|, i requires 0 <= i < |sorted| => InstanceRecord(c, sorted[i]));
    assert forall i :: 0 <= i < |r| ==> RecordKey(r[i]) == InstanceKey(sorted[i]) && sorted[i] in c.instances;
    assert forall m :: m in c.instances ==> InstanceRecord(c, m) in r by {
      forall m | m in c.instances ensures InstanceRecord(c, m) in r {
        var k :| 0 <= k < |sorted| && sorted[k] == m;
        assert r[k] == InstanceRecord(c, m);
      }
    }
    r
  }

  lemma {:induction false} InstanceOccursOnce(c: Catalog, m: ModuleInstance)
    requires CatalogValid(c)
    ensures multiset(c.instances)[m] <= 1
  {
    DistinctOccursOnce(c.instances, m);
  }

  lemma {:induction false} DistinctOccursOnce(s: seq<ModuleInstance>, m: ModuleInstance)
    requires forall i, j :: 0 <= i < j < |s| ==> s[i].id != s[j].id
    ensures multiset(s)[m] <= 1
  {
    if s != [] {
      DistinctOccursOnce(s[1..], m);
      assert s == [s[0]] + s[1..];
      if s[0] == m {
        forall k | 0 <= k < |s[1..]| ensures s[1..][k] != m {
          assert s[1..][k] == s[k + 1] && s[k + 1].id != s[0].id;
        }
        assert m !in s[1..];
      }
    }
  }

  /**
   * The listing does not depend on the order in which instances were inserted:
   * two catalogs holding the same rows give the same response.
   */
  lemma ListingIgnoresInsertionOrder(c: Catalog, instances: seq<ModuleInstance>)
    requires CatalogValid(c) && CatalogValid(c.(instances := instances))
    requires multiset(instances) == multiset(c.instances)
    ensures ListModuleInstances(c.(instances := instances)) == ListModuleInstances(c)
  {
    var d := c.(instances := instances);
    SortInstancesCorrect(c.instances);
    SortInstancesCorrect(instances);
    CatalogKeysDistinct(c);
    var x, y := SortInstances(c.instances), SortInstances(instances);
    assert KeysDistinct(x) by {
      forall a | a in x ensures a in c.instances { assert a in multiset(x); }
    }
    OrderedUnique(x, y);
    forall m | m in c.instances ensures InstanceRecord(c, m) == InstanceRecord(d, m) { }
  }

  // ---------------------------------------------------------------------------
  // `professorModuleRating`: two `get_object_or_404` lookups, then the serializer.

  /** Which lookup of a view failed (each is answered with status 404). */
  datatype Unknown = UnknownProfessor | UnknownModule | UnknownInstance

  datatype ModuleRatingResponse = Found(record: ProfessorModuleRatingRecord) | Absent(what: Unknown)

  function ModuleRatingStatus(r: ModuleRatingResponse): int
  {
    if r.Found? then 200 else 404
  }

  /**
   * The professor is looked up first, then the module; only when both exist is
   * the module rating computed, with the module code as serializer context.
   */
  function ProfessorModuleRating(c: Catalog, rs: seq<Rating>, professor: ProfessorId, code: ModuleCode): (r: ModuleRatingResponse)
    ensures r == Absent(UnknownProfessor) <==> FindProfessor(c.professors, professor).None?
    ensures r == Absent(UnknownModule) <==>
              FindProfessor(c.professors, professor).Some? && FindModule(c.modules, code).None?
    ensures r.Found? <==>
              FindProfessor(c.professors, professor).Some? && FindModule(c.modules, code).Some?
    ensures r.Found? ==>
              FindProfessor(c.professors, professor) == Some(Professor(r.record.id, r.record.name))
              && Some(r.record.moduleRating) == GetModuleRating(c, rs, professor, Some(code))
              && (code != "" ==> Some(r.record.moduleRating) == ModuleAverageRating(c, rs, professor, code))
  {
    match FindProfessor(c.professors, professor)
    case None => Absent(UnknownProfessor)
    case Some(p) =>
      match FindModule(c.modules, code)
      case None => Absent(UnknownModule)
      case Some(_) =>
        var rating := GetModuleRating(c, rs, p.id, Some(code));
        Found(ProfessorModuleRatingRecord(p.id, p.name, rating.value))
  }

  /**
   * An unknown module is answered with 404 whatever the ratings are, so a caller
   * can tell "no such module" apart from the 0 that means "no ratings yet".
   */
  lemma UnknownModuleIsNotZero(c: Catalog, rs: seq<Rating>, professor: ProfessorId, code: ModuleCode)
    requires FindProfessor(c.professors, professor).Some? && FindModule(c.modules, code).None?
    ensures ModuleRatingStatus(ProfessorModuleRating(c, rs, professor, code)) == 404
    ensures ModuleRatingStatus(ProfessorModuleRating(c, [], professor, code)) == 404
  {
  }

  // ---------------------------------------------------------------------------
  // `rateProfessor`: the request, its checks in order, and the upsert.

  /** A value of the parsed request body. */
  datatype JsonValue = JNull | JBool(b: bool) | JInt(i: int) | JStr(s: string)

  /** `request.data`; an absent key reads as None. */
  type Request = map<string, JsonValue>

  function Field(req: Request, key: string): JsonValue
  {
    if key in req then req[key] else JNull
  }

  /** Python truthiness: None, False, 0 and "" are falsy. */
  predicate Truthy(v: JsonValue)
  {
    match v
    case JNull => false
    case JBool(b) => b
    case JInt(i) => i != 0
    case JStr(s) => s != ""
  }

  /** `not all([professorID, moduleCode, year, semester, rating])` is false. */
  predicate AllPresent(req: Request)
  {
    Truthy(Field(req, "professorID")) && Truthy(Field(req, "moduleCode")) && Truthy(Field(req, "year"))
    && Truthy(Field(req, "semester")) && Truthy(Field(req, "rating"))
  }

  /** The text a character primary key is compared with: the value itself, or `str(value)`. */
  function AsText(v: JsonValue): string
  {
    match v
    case JNull => "None"
    case JBool(b) => if b then "True" else "False"
    case JInt(i) => ShowInt(i)
    case JStr(s) => s
  }

  /** The integer an integer field receives, `int(value)`; None where that raises. */
  function AsInt(v: JsonValue): Option<int>
  {
    match v
    case JNull => None
    case JBool(b) => Some(if b then 1 else 0)
    case JInt(i) => Some(i)
    case JStr(s) => ParseInt(s)
  }

  /** The outcome of `rateProfessor`; `Rejected` is any other exception (a value `int` cannot read). */
  datatype RateResult =
    | Created(record: RatingRecord)
    | Updated(record: RatingRecord)
    | MissingFields
    | NotFound(what: Unknown)
    | WrongProfessor
    | Rejected

  function StatusCode(r: RateResult): int
  {
    match r
    case Created(_) => 201
    case Updated(_) => 200
    case NotFound(_) => 404
    case MissingFields => 400
    case WrongProfessor => 400
    case Rejected => 400
  }

  predicate Succeeded(r: RateResult) { r.Created? || r.Updated? }

  /** The response together with the Rating table and the next row id after the call. */
  datatype Submission = Submission(result: RateResult, ratings: seq<Rating>, nextId: nat)

  /** The first row carrying a `unique_together` key, if any. */
  function IndexOfKey(rs: seq<Rating>, key: (UserId, nat, ProfessorId)): (r: Option<nat>)
    ensures r.Some? ==> r.value < |rs| && RatingKey(rs[r.value]) == key
    ensures r.Some? ==> forall i :: 0 <= i < r.value ==> RatingKey(rs[i]) != key
    ensures r.None? <==> forall i :: 0 <= i < |rs| ==> RatingKey(rs[i]) != key
  {
    if rs == [] then None
    else if RatingKey(rs[0]) == key then Some(0)
    else match IndexOfKey(rs[1..], key)
      case Some(i) => Some(i + 1)
      case None => None
  }

  /**
   * `update_or_create(user, moduleInstance, professor, defaults={'rating': value})`:
   * overwrite the rating of the row with that key, or insert a new row stamped `now`.
   */
  function Upsert(rs: seq<Rating>, next: nat, user: UserId, instance: nat, professor: ProfessorId, value: int, now: Timestamp): Submission
  {
    match IndexOfKey(rs, (user, instance, professor))
    case Some(i) =>
      var row := rs[i].(value := value);
      Submission(Updated(RatingProjection(row)), rs[i := row], next)
    case None =>
      var row := Rating(next, user, instance, professor, value, now);
      Submission(Created(RatingProjection(row)), rs + [row], next + 1)
  }

  /** `rateProfessor` as a function of the tables before the call. */
  function Submit(c: Catalog, rs: seq<Rating>, next: nat, user: UserId, req: Request, now: Timestamp): Submission
  {
    if !AllPresent(req) then Submission(MissingFields, rs, next)
    else match FindProfessor(c.professors, AsText(Field(req, "professorID")))
    case None => Submission(NotFound(UnknownProfessor), rs, next)
    case Some(p) =>
      match FindModule(c.modules, AsText(Field(req, "moduleCode")))
      case None => Submission(NotFound(UnknownModule), rs, next)
      case Some(m) =>
        var year, semester := AsInt(Field(req, "year")), AsInt(Field(req, "semester"));
        if year.None? || semester.None? then Submission(Rejected, rs, next)
        else match FindInstance(c.instances, m.code, year.value, semester.value)
        case None => Submission(NotFound(UnknownInstance), rs, next)
        case Some(inst) =>
          if p.id !in inst.professors then Submission(WrongProfessor, rs, next)
          else match AsInt(Field(req, "rating"))
          case None => Submission(Rejected, rs, next)
          case Some(v) => Upsert(rs, next, user, inst.id, p.id, v, now)
  }

  /** The instance a well-formed request names, when its module code, year and semester resolve. */
  function RequestedInstance(c: Catalog, req: Request): Option<ModuleInstance>
  {
    var year, semester := AsInt(Field(req, "year")), AsInt(Field(req, "semester"));
    if year.None? || semester.None? then None
    else FindInstance(c.instances, AsText(Field(req, "moduleCode")), year.value, semester.value)
  }

  /** The value that failed a check decides the response; every failure leaves the table as it was. */
  lemma SubmitCheckOrder(c: Catalog, rs: seq<Rating>, next: nat, user: UserId, req: Request, now: Timestamp)
    ensures var s := Submit(c, rs, next, user, req, now);
            var professor := FindProfessor(c.professors, AsText(Field(req, "professorID")));
            var course := FindModule(c.modules, AsText(Field(req, "moduleCode")));
            var years := AsInt(Field(req, "year")).Some? && AsInt(Field(req, "semester")).Some?;
            var instance := RequestedInstance(c, req);
            (s.result == MissingFields <==> !AllPresent(req))
            && (s.result == NotFound(UnknownProfessor) <==> AllPresent(req) && professor.None?)
            && (s.result == NotFound(UnknownModule) <==> AllPresent(req) && professor.Some? && course.None?)
            && (s.result == NotFound(UnknownInstance) <==>
                  AllPresent(req) && professor.Some? && course.Some? && years && instance.None?)
            && (s.result == WrongProfessor <==>
                  AllPresent(req) && professor.Some? && course.Some? && instance.Some?
                  && professor.value.id !in instance.value.professors)
            && (s.result == Rejected <==>
                  AllPresent(req) && professor.Some? && course.Some?
                  && (!years
                      || (instance.Some? && professor.value.id in instance.value.professors
                          && AsInt(Field(req, "rating")).None?)))
            && (Succeeded(s.result) <==>
                  AllPresent(req) && professor.Some? && course.Some? && instance.Some?
                  && professor.value.id in instance.value.professors
                  && AsInt(Field(req, "rating")).Some?)
            && (!Succeeded(s.result) ==> s.ratings == rs && s.nextId == next)
  {
  }

  /** A successful call stores the submitted value for the authenticated user and the named professor. */
  lemma SubmitResolves(c: Catalog, rs: seq<Rating>, next: nat, user: UserId, req: Request, now: Timestamp)
    ensures var s := Submit(c, rs, next, user, req, now);
            Succeeded(s.result) ==>
              var rec := s.result.record;
              AllPresent(req)
              && rec.user == user
              && FindProfessor(c.professors, AsText(Field(req, "professorID"))).Some?
              && rec.professor == AsText(Field(req, "professorID"))
              && Some(rec.rating) == AsInt(Field(req, "rating"))
              && RequestedInstance(c, req).Some?
              && rec.moduleInstance == RequestedInstance(c, req).value.id
              && rec.professor in RequestedInstance(c, req).value.professors
  {
  }

  /** The row a successful call writes points at the named instance, which the professor teaches. */
  lemma SubmitTargetsTaughtInstance(c: Catalog, rs: seq<Rating>, next: nat, user: UserId, req: Request, now: Timestamp)
    requires CatalogValid(c)
    ensures var s := Submit(c, rs, next, user, req, now);
            Succeeded(s.result) ==>
              InstanceById(c.instances, s.result.record.moduleInstance) == RequestedInstance(c, req)
              && Teaches(c, s.result.record.moduleInstance, s.result.record.professor)
  {
    var s := Submit(c, rs, next, user, req, now);
    SubmitResolves(c, rs, next, user, req, now);
    if Succeeded(s.result) {
      var inst := RequestedInstance(c, req).value;
      var k :| 0 <= k < |c.instances| && c.instances[k] == inst;
      InstanceByIdUnique(c, k);
    }
  }

  /**
   * The upsert: 201 exactly when no row had the key, and then one row is appended
   * with the next id and `dateCreated` = now; otherwise 200 and only the `rating`
   * field of the row with the key changes, so every other row and that row's
   * `dateCreated` are kept.
   */
  lemma SubmitUpserts(c: Catalog, rs: seq<Rating>, next: nat, user: UserId, req: Request, now: Timestamp)
    ensures var s := Submit(c, rs, next, user, req, now);
            Succeeded(s.result) ==>
              var rec := s.result.record;
              var key := (user, rec.moduleInstance, rec.professor);
              (s.result.Created? <==> IndexOfKey(rs, key).None?)
              && (s.result.Created? ==>
                    s.ratings == rs + [Rating(next, user, rec.moduleInstance, rec.professor, rec.rating, now)]
                    && rec.id == next && s.nextId == next + 1)
              && (s.result.Updated? ==>
                    var i := IndexOfKey(rs, key).value;
                    s.ratings == rs[i := rs[i].(value := rec.rating)]
                    && RatingProjection(s.ratings[i]) == rec
                    && rec.dateCreated == rs[i].dateCreated && rec.id == rs[i].id
                    && s.nextId == next)
  {
  }

  lemma UpsertPreservesValid(c: Catalog, rs: seq<Rating>, next: nat, user: UserId, instance: nat,
                             professor: ProfessorId, value: int, now: Timestamp)
    requires TableValid(c, rs, next)
    requires instance in InstanceIds(c) && professor in ProfessorIds(c)
    ensures var s := Upsert(rs, next, user, instance, professor, value, now);
            TableValid(c, s.ratings, s.nextId)
            && IndexOfKey(s.ratings, (user, instance, professor)).Some?
  {
    var s := Upsert(rs, next, user, instance, professor, value, now);
    match IndexOfKey(rs, (user, instance, professor))
    case Some(i) =>
      assert forall j :: 0 <= j < |rs| ==> RatingKey(s.ratings[j]) == RatingKey(rs[j]) && s.ratings[j].id == rs[j].id;
      assert forall r :: r in s.ratings ==> r in rs || r == s.ratings[i];
    case None =>
      assert forall j :: 0 <= j < |rs| ==> s.ratings[j] == rs[j];
      assert forall r :: r in s.ratings ==> r in rs || r == s.ratings[|rs|];
      assert RatingKey(s.ratings[|rs|]) == (user, instance, professor);
  }

  /**
   * Every call keeps the table's primary key, foreign keys and `unique_together`
   * constraint, so after a successful call exactly one row has the submitted key.
   */
  lemma SubmitPreservesValid(c: Catalog, rs: seq<Rating>, next: nat, user: UserId, req: Request, now: Timestamp)
    requires CatalogValid(c) && TableValid(c, rs, next)
    ensures var s := Submit(c, rs, next, user, req, now);
            TableValid(c, s.ratings, s.nextId)
            && (Succeeded(s.result) ==>
                  IndexOfKey(s.ratings, (user, s.result.record.moduleInstance, s.result.record.professor)).Some?)
  {
    if AllPresent(req) {
      match FindProfessor(c.professors, AsText(Field(req, "professorID")))
      case None =>
      case Some(p) =>
        match FindModule(c.modules, AsText(Field(req, "moduleCode")))
        case None =>
        case Some(m) =>
          var year, semester := AsInt(Field(req, "year")), AsInt(Field(req, "semester"));
          if year.Some? && semester.Some? {
            match FindInstance(c.instances, m.code, year.value, semester.value)
            case None =>
            case Some(inst) =>
              if p.id in inst.professors {
                match AsInt(Field(req, "rating"))
                case None =>
                case Some(v) =>
                  assert inst.id in InstanceIds(c) && p.id in ProfessorIds(c);
                  UpsertPreservesValid(c, rs, next, user, inst.id, p.id, v, now);
              }
          }
    }
  }

  /** After a successful call the submitted key is held by one row, which is the one returned. */
  lemma SubmitKeyUnique(c: Catalog, rs: seq<Rating>, next: nat, user: UserId, req: Request, now: Timestamp)
    requires CatalogValid(c) && TableValid(c, rs, next)
    ensures var s := Submit(c, rs, next, user, req, now);
            Succeeded(s.result) ==>
              var key := (user, s.result.record.moduleInstance, s.result.record.professor);
              forall i :: 0 <= i < |s.ratings| && RatingKey(s.ratings[i]) == key ==>
                RatingProjection(s.ratings[i]) == s.result.record
  {
    var s := Submit(c, rs, next, user, req, now);
    SubmitPreservesValid(c, rs, next, user, req, now);
    SubmitUpserts(c, rs, next, user, req, now);
    if Succeeded(s.result) {
      var key := (user, s.result.record.moduleInstance, s.result.record.professor);
      var k := IndexOfKey(s.ratings, key).value;
      assert RatingProjection(s.ratings[k]) == s.result.record by {
        if s.result.Created? {
          assert IndexOfKey(rs, key).None?;
        }
      }
      forall i | 0 <= i < |s.ratings| && RatingKey(s.ratings[i]) == key
        ensures RatingProjection(s.ratings[i]) == s.result.record
      {
        assert i == k;
      }
    }
  }

  /** Every call keeps "the rated professor teaches the rated instance". */
  lemma SubmitPreservesTaughtBy(c: Catalog, rs: seq<Rating>, next: nat, user: UserId, req: Request, now: Timestamp)
    requires CatalogValid(c) && TaughtBy(c, rs)
    ensures TaughtBy(c, Submit(c, rs, next, user, req, now).ratings)
  {
    var s := Submit(c, rs, next, user, req, now);
    SubmitTargetsTaughtInstance(c, rs, next, user, req, now);
    SubmitUpserts(c, rs, next, user, req, now);
    if s.result.Created? {
      assert forall r :: r in s.ratings ==> r in rs || r == s.ratings[|rs|];
    } else if s.result.Updated? {
      var i := IndexOfKey(rs, (user, s.result.record.moduleInstance, s.result.record.professor)).value;
      assert forall r :: r in s.ratings ==> r in rs || r == s.ratings[i];
    }
  }

  /**
   * The view runs no range check: the declared 1..5 bound survives a call only
   * because the submitted value was already within it.
   */
  lemma SubmitKeepsDeclaredRange(c: Catalog, rs: seq<Rating>, next: nat, user: UserId, req: Request, now: Timestamp)
    requires RatingsDeclared(rs)
    requires AsInt(Field(req, "rating")).Some? ==> 1 <= AsInt(Field(req, "rating")).value <= 5
    ensures RatingsDeclared(Submit(c, rs, next, user, req, now).ratings)
  {
    var s := Submit(c, rs, next, user, req, now);
    SubmitResolves(c, rs, next, user, req, now);
    SubmitUpserts(c, rs, next, user, req, now);
    if s.result.Created? {
      assert forall r :: r in s.ratings ==> r in rs || r == s.ratings[|rs|];
    } else if s.result.Updated? {
      var i := IndexOfKey(rs, (user, s.result.record.moduleInstance, s.result.record.professor)).value;
      assert forall r :: r in s.ratings ==> r in rs || r == s.ratings[i];
    }
  }

  /** Conversely, a successful call with a value outside 1..5 stores it, and the table leaves the declared range. */
  lemma SubmitOutOfRangeBreaksDeclared(c: Catalog, rs: seq<Rating>, next: nat, user: UserId, req: Request, now: Timestamp)
    ensures var s := Submit(c, rs, next, user, req, now);
            Succeeded(s.result) && !(1 <= s.result.record.rating <= 5) ==> !RatingsDeclared(s.ratings)
  {
    var s := Submit(c, rs, next, user, req, now);
    SubmitUpserts(c, rs, next, user, req, now);
    if s.result.Created? {
      assert s.ratings[|rs|].value == s.result.record.rating;
    } else if s.result.Updated? {
      var i := IndexOfKey(rs, (user, s.result.record.moduleInstance, s.result.record.professor)).value;
      assert s.ratings[i].value == s.result.record.rating;
    }
  }

  /** A call changes no average of any other professor, and a failed call changes none at all. */
  lemma SubmitLeavesOtherAverages(c: Catalog, rs: seq<Rating>, next: nat, user: UserId, req: Request, now: Timestamp, scope: Scope)
    ensures var s := Submit(c, rs, next, user, req, now);
            (!Succeeded(s.result) || scope.professor != s.result.record.professor) ==>
              Average(Select(c, s.ratings, scope)) == Average(Select(c, rs, scope))
  {
    var s := Submit(c, rs, next, user, req, now);
    SubmitUpserts(c, rs, next, user, req, now);
    if Succeeded(s.result) && scope.professor != s.result.record.professor {
      var rec := s.result.record;
      if s.result.Created? {
        AverageIgnoresAppendOutside(c, rs, s.ratings[|rs|], scope);
      } else {
        var i := IndexOfKey(rs, (user, rec.moduleInstance, rec.professor)).value;
        AverageIgnoresUpdateOutside(c, rs, i, s.ratings[i], scope);
      }
    }
  }

  /**
   * Submitting again for the same user, professor and instance overwrites the row
   * the first call wrote: 200, no new row, same id and `dateCreated`, the new value.
   */
  lemma ResubmitOverwrites(c: Catalog, rs: seq<Rating>, next: nat, user: UserId, req: Request,
                           now: Timestamp, later: Timestamp, value: JsonValue)
    requires CatalogValid(c) && TableValid(c, rs, next)
    requires Succeeded(Submit(c, rs, next, user, req, now).result)
    requires Truthy(value) && AsInt(value).Some?
    ensures var first := Submit(c, rs, next, user, req, now);
            var second := Submit(c, first.ratings, first.nextId, user, req["rating" := value], later);
            second.result.Updated?
            && |second.ratings| == |first.ratings|
            && second.result.record == first.result.record.(rating := AsInt(value).value)
  {
    var first := Submit(c, rs, next, user, req, now);
    var req2 := req["rating" := value];
    SubmitPreservesValid(c, rs, next, user, req, now);
    SubmitKeyUnique(c, rs, next, user, req, now);
    SubmitResolves(c, rs, next, user, req, now);
    assert Field(req2, "professorID") == Field(req, "professorID");
    assert Field(req2, "moduleCode") == Field(req, "moduleCode");
    assert Field(req2, "year") == Field(req, "year");
    assert Field(req2, "semester") == Field(req, "semester");
    assert RequestedInstance(c, req2) == RequestedInstance(c, req);
    var second := Submit(c, first.ratings, first.nextId, user, req2, later);
    SubmitResolves(c, first.ratings, first.nextId, user, req2, later);
    SubmitUpserts(c, first.ratings, first.nextId, user, req2, later);
    var rec := first.result.record;
    var key := (user, rec.moduleInstance, rec.professor);
    var i := IndexOfKey(first.ratings, key).value;
    assert RatingProjection(first.ratings[i]) == rec;
  }

  /** A number sent as JSON text and as a JSON number mean the same, except that 0 is falsy and "0" is not. */
  function Textual(n: int): JsonValue
  {
    JStr(ShowInt(n))
  }

  lemma TextualAgrees(n: int)
    requires n != 0
    ensures Truthy(Textual(n)) && Truthy(JInt(n))
    ensures AsText(Textual(n)) == AsText(JInt(n))
    ensures AsInt(Textual(n)) == AsInt(JInt(n))
  {
    ParseShowRoundTrip(n);
  }

  /** Any one field may be sent as a numeral string instead of a non-zero number without changing the outcome. */
  lemma SubmitReadsNumeralsAsNumbers(c: Catalog, rs: seq<Rating>, next: nat, user: UserId, req: Request,
                                     now: Timestamp, key: string, n: int)
    requires n != 0
    ensures Submit(c, rs, next, user, req[key := Textual(n)], now) == Submit(c, rs, next, user, req[key := JInt(n)], now)
  {
    var asText, asNumber := req[key := Textual(n)], req[key := JInt(n)];
    TextualAgrees(n);
    forall f: string
      ensures Truthy(Field(asText, f)) == Truthy(Field(asNumber, f))
      ensures AsText(Field(asText, f)) == AsText(Field(asNumber, f))
      ensures AsInt(Field(asText, f)) == AsInt(Field(asNumber, f))
    {
    }
    assert AllPresent(asText) == AllPresent(asNumber);
    assert RequestedInstance(c, asText) == RequestedInstance(c, asNumber);
  }

  /**
   * The view has no semester check of its own: a semester outside 1..2 reaches the
   * instance lookup and, when every stored instance respects the declared
   * validator, is answered 404 rather than 400.
   */
  lemma SemesterOutsideDeclaredRange(c: Catalog, rs: seq<Rating>, next: nat, user: UserId, req: Request, now: Timestamp)
    requires SemestersDeclared(c)
    requires AllPresent(req)
    requires FindProfessor(c.professors, AsText(Field(req, "professorID"))).Some?
    requires FindModule(c.modules, AsText(Field(req, "moduleCode"))).Some?
    requires AsInt(Field(req, "year")).Some? && AsInt(Field(req, "semester")).Some?
    requires !(1 <= AsInt(Field(req, "semester")).value <= 2)
    ensures Submit(c, rs, next, user, req, now).result == NotFound(UnknownInstance)
  {
    var code := FindModule(c.modules, AsText(Field(req, "moduleCode"))).value.code;
    var year, semester := AsInt(Field(req, "year")).value, AsInt(Field(req, "semester")).value;
    forall i | 0 <= i < |c.instances| ensures InstanceKey(c.instances[i]) != (code, year, semester) {
      assert c.instances[i] in c.instances;
    }
  }
}
