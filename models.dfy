/**
 * The rating service's tables: Module, Professor, ModuleInstance and Rating,
 * the primary-key lookups the views perform on them, and the constraints the
 * schema declares. Constraints the database enforces (primary keys, foreign keys,
 * `unique_together`) form `CatalogValid` and `TableValid`; the field validators
 * (semester in 1..2, rating in 1..5) are only run by form validation, so they are
 * kept apart as `SemestersDeclared` and `RatingsDeclared`.
 */
module Models {
  import opened Wrappers

  type ModuleCode = string
  type ProfessorId = string
  /** The authenticated user, known to the core only by its identity. */
  type UserId = nat
  /** `dateCreated`: an opaque instant supplied by the caller, not wall-clock time. */
  type Timestamp = int

  datatype Module = Module(code: ModuleCode, name: string)

  datatype Professor = Professor(id: ProfessorId, name: string)

  /** One offering of a module; `professors` is the many-to-many relation, in stored order. */
  datatype ModuleInstance = ModuleInstance(
    id: nat, moduleCode: ModuleCode, year: int, semester: int, professors: seq<ProfessorId>)

  /** One user's rating of one professor in one module instance (`instance` is its primary key). */
  datatype Rating = Rating(
    id: nat, user: UserId, instance: nat, professor: ProfessorId, value: int, dateCreated: Timestamp)

  /** The reference data, maintained outside the core and only read by it. */
  datatype Catalog = Catalog(modules: seq<Module>, professors: seq<Professor>, instances: seq<ModuleInstance>)

  /** `Module.objects.get(code=code)`: the row with that primary key, or None for DoesNotExist. */
  function FindModule(ms: seq<Module>, code: ModuleCode): (r: Option<Module>)
    ensures r.Some? ==> r.value in ms && r.value.code == code
    ensures r.None? <==> forall i :: 0 <= i < |ms| ==> ms[i].code != code
  {
    if ms == [] then None
    else if ms[0].code == code then Some(ms[0])
    else FindModule(ms[1..], code)
  }

  /** `Professor.objects.get(id=id)`. */
  function FindProfessor(ps: seq<Professor>, id: ProfessorId): (r: Option<Professor>)
    ensures r.Some? ==> r.value in ps && r.value.id == id
    ensures r.None? <==> forall i :: 0 <= i < |ps| ==> ps[i].id != id
  {
    if ps == [] then None
    else if ps[0].id == id then Some(ps[0])
    else FindProfessor(ps[1..], id)
  }

  /** `ModuleInstance.objects.get(module=code, year=year, semester=semester)`. */
  function FindInstance(ms: seq<ModuleInstance>, code: ModuleCode, year: int, semester: int): (r: Option<ModuleInstance>)
    ensures r.Some? ==> r.value in ms && InstanceKey(r.value) == (code, year, semester)
    ensures r.None? <==> forall i :: 0 <= i < |ms| ==> InstanceKey(ms[i]) != (code, year, semester)
  {
    if ms == [] then None
    else if InstanceKey(ms[0]) == (code, year, semester) then Some(ms[0])
    else FindInstance(ms[1..], code, year, semester)
  }

  /** The instance a rating's foreign key points at. */
  function InstanceById(ms: seq<ModuleInstance>, id: nat): (r: Option<ModuleInstance>)
    ensures r.Some? ==> r.value in ms && r.value.id == id
    ensures r.None? <==> forall i :: 0 <= i < |ms| ==> ms[i].id != id
  {
    if ms == [] then None
    else if ms[0].id == id then Some(ms[0])
    else InstanceById(ms[1..], id)
  }

  /** The `unique_together` key of a module instance. */
  function InstanceKey(m: ModuleInstance): (ModuleCode, int, int)
  {
    (m.moduleCode, m.year, m.semester)
  }

  /** The `unique_together` key of a rating. */
  function RatingKey(r: Rating): (UserId, nat, ProfessorId)
  {
    (r.user, r.instance, r.professor)
  }

  function ModuleCodes(c: Catalog): set<ModuleCode> { set m | m in c.modules :: m.code }

  function ProfessorIds(c: Catalog): set<ProfessorId> { set p | p in c.professors :: p.id }

  function InstanceIds(c: Catalog): set<nat> { set m | m in c.instances :: m.id }

  /** Primary keys, foreign keys and `unique_together` on the three catalog tables. */
  ghost predicate CatalogValid(c: Catalog)
  {
    (forall i, j :: 0 <= i < j < |c.modules| ==> c.modules[i].code != c.modules[j].code)
    && (forall i, j :: 0 <= i < j < |c.professors| ==> c.professors[i].id != c.professors[j].id)
    && (forall i, j :: 0 <= i < j < |c.instances| ==> c.instances[i].id != c.instances[j].id)
    && (forall i, j :: 0 <= i < j < |c.instances| ==> InstanceKey(c.instances[i]) != InstanceKey(c.instances[j]))
    && (forall m :: m in c.instances ==> m.moduleCode in ModuleCodes(c))
    && (forall m, p :: m in c.instances && p in m.professors ==> p in ProfessorIds(c))
    && (forall m :: m in c.instances ==> ProfessorsDistinct(m))
  }

  /** The join table of `professors` is unique on (instance, professor): no professor is related twice. */
  predicate ProfessorsDistinct(m: ModuleInstance)
  {
    forall i, j :: 0 <= i < j < |m.professors| ==> m.professors[i] != m.professors[j]
  }

  /** Primary key, foreign keys and `unique_together` on the Rating table; `next` is the next row id. */
  ghost predicate TableValid(c: Catalog, rs: seq<Rating>, next: nat)
  {
    (forall i :: 0 <= i < |rs| ==> rs[i].id < next)
    && (forall i, j :: 0 <= i < j < |rs| ==> rs[i].id != rs[j].id)
    && (forall i, j :: 0 <= i < j < |rs| ==> RatingKey(rs[i]) != RatingKey(rs[j]))
    && (forall r :: r in rs ==> r.instance in InstanceIds(c) && r.professor in ProfessorIds(c))
  }

  /** The semester validator declared on ModuleInstance. */
  predicate SemestersDeclared(c: Catalog)
  {
    forall m :: m in c.instances ==> 1 <= m.semester <= 2
  }

  /** The rating validator declared on Rating. */
  predicate RatingsDeclared(rs: seq<Rating>)
  {
    forall r :: r in rs ==> 1 <= r.value <= 5
  }

  /** The rated professor teaches the rated instance (kept by the submission view, not by the schema). */
  predicate Teaches(c: Catalog, instance: nat, professor: ProfessorId)
  {
    match InstanceById(c.instances, instance)
    case Some(m) => professor in m.professors
    case None => false
  }

  predicate TaughtBy(c: Catalog, rs: seq<Rating>)
  {
    forall r :: r in rs ==> Teaches(c, r.instance, r.professor)
  }

  /**
   * `unique_together` on (module, year, semester) makes the instance lookup
   * well defined: whichever row carries the key is the one returned.
   */
  lemma {:induction false} FindInstanceUnique(c: Catalog, k: nat)
    requires CatalogValid(c)
    requires 0 <= k < |c.instances|
    ensures FindInstance(c.instances, c.instances[k].moduleCode, c.instances[k].year, c.instances[k].semester)
            == Some(c.instances[k])
  {
    var m := c.instances[k];
    var r := FindInstance(c.instances, m.moduleCode, m.year, m.semester);
    var i :| 0 <= i < |c.instances| && c.instances[i] == r.value;
    assert InstanceKey(c.instances[i]) == InstanceKey(m);
    assert i == k;
  }

  /** Primary keys make the lookup by id return the one row that has it. */
  lemma {:induction false} InstanceByIdUnique(c: Catalog, k: nat)
    requires CatalogValid(c)
    requires 0 <= k < |c.instances|
    ensures InstanceById(c.instances, c.instances[k].id) == Some(c.instances[k])
  {
    var r := InstanceById(c.instances, c.instances[k].id);
    var i :| 0 <= i < |c.instances| && c.instances[i] == r.value;
    assert i == k;
  }
}
