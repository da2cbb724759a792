/**
 * The output records of the rating API and how each is projected from the
 * tables, plus the user stamping done by `RatingSerializer.create`.
 */
module Serializers {
  import opened Wrappers
  import opened Models
  import opened Averages

  /** `ProfessorSerializer`: fields id and name. */
  datatype ProfessorRecord = ProfessorRecord(id: ProfessorId, name: string)

  /** `ModuleInstanceSerializer`: module code and name resolved through the foreign key. */
  datatype ModuleInstanceRecord = ModuleInstanceRecord(
    moduleCode: ModuleCode, moduleName: string, year: int, semester: int, professors: seq<ProfessorRecord>)

  /** `RatingSerializer`: foreign keys are rendered as primary keys. */
  datatype RatingRecord = RatingRecord(
    id: nat, user: UserId, moduleInstance: nat, professor: ProfessorId, rating: int, dateCreated: Timestamp)

  /** `ProfessorRatingSerializer`. */
  datatype ProfessorRatingRecord = ProfessorRatingRecord(id: ProfessorId, name: string, averageRating: int)

  /** `ProfessorModuleRatingSerializer`. */
  datatype ProfessorModuleRatingRecord = ProfessorModuleRatingRecord(id: ProfessorId, name: string, moduleRating: int)

  /** The validated input of `RatingSerializer.create`; `user` is whatever the client supplied. */
  datatype RatingData = RatingData(user: Option<UserId>, moduleInstance: nat, professor: ProfessorId, rating: int)

  function ProfessorProjection(p: Professor): (r: ProfessorRecord)
    ensures Professor(r.id, r.name) == p
  {
    ProfessorRecord(p.id, p.name)
  }

  /** The nested `professors` list: each id resolved to its (id, name) record, in relation order. */
  function ProfessorsOf(ps: seq<Professor>, ids: seq<ProfessorId>): (r: seq<ProfessorRecord>)
    requires forall p :: p in ids ==> FindProfessor(ps, p).Some?
    ensures |r| == |ids|
    ensures forall k :: 0 <= k < |ids| ==>
              r[k].id == ids[k] && FindProfessor(ps, ids[k]) == Some(Professor(r[k].id, r[k].name))
  {
    if ids == [] then []
    else
      assert ids[0] in ids;
      [ProfessorProjection(FindProfessor(ps, ids[0]).value)] + ProfessorsOf(ps, ids[1..])
  }

  /** `ModuleInstanceSerializer` applied to one instance whose foreign keys resolve. */
  function InstanceRecord(c: Catalog, m: ModuleInstance): (r: ModuleInstanceRecord)
    requires m.moduleCode in ModuleCodes(c)
    requires forall p :: p in m.professors ==> p in ProfessorIds(c)
    ensures FindModule(c.modules, m.moduleCode) == Some(Module(r.moduleCode, r.moduleName))
    ensures r.year == m.year && r.semester == m.semester
    ensures |r.professors| == |m.professors|
    ensures forall k :: 0 <= k < |m.professors| ==>
              r.professors[k].id == m.professors[k]
              && FindProfessor(c.professors, m.professors[k]) == Some(Professor(r.professors[k].id, r.professors[k].name))
  {
    var x :| x in c.modules && x.code == m.moduleCode;
    var found := FindModule(c.modules, m.moduleCode).value;
    assert forall p :: p in m.professors ==> FindProfessor(c.professors, p).Some? by {
      forall p | p in m.professors ensures FindProfessor(c.professors, p).Some? {
        assert p in ProfessorIds(c);
        var q :| q in c.professors && q.id == p;
      }
    }
    ModuleInstanceRecord(found.code, found.name, m.year, m.semester, ProfessorsOf(c.professors, m.professors))
  }

  function RatingProjection(x: Rating): (r: RatingRecord)
    ensures Rating(r.id, r.user, r.moduleInstance, r.professor, r.rating, r.dateCreated) == x
  {
    RatingRecord(x.id, x.user, x.instance, x.professor, x.value, x.dateCreated)
  }

  /** The professor-ratings listing: every professor, in table order, with `get_average_rating()`. */
  function ProfessorRatings(c: Catalog, rs: seq<Rating>): (r: seq<ProfessorRatingRecord>)
    ensures |r| == |c.professors|
    ensures forall i :: 0 <= i < |r| ==>
              Professor(r[i].id, r[i].name) == c.professors[i]
              && r[i].averageRating == AverageRating(c, rs, c.professors[i].id)
  {
    seq(|c.professors|, i requires 0 <= i < |c.professors| =>
      ProfessorRatingRecord(c.professors[i].id, c.professors[i].name, AverageRating(c, rs, c.professors[i].id)))
  }

  /**
   * Every `average_rating` in the listing is the "no data" value 0 exactly when that
   * professor has no rating, and a star count in 1..5 otherwise, given valid values.
   */
  lemma ProfessorRatingsDeclared(c: Catalog, rs: seq<Rating>, i: nat)
    requires RatingsDeclared(rs)
    requires i < |c.professors|
    ensures var a := ProfessorRatings(c, rs)[i].averageRating;
            (a == 0 <==> forall x :: x in rs ==> x.professor != c.professors[i].id)
            && (a == 0 || 1 <= a <= 5)
  {
    AverageRatingDeclared(c, rs, c.professors[i].id);
  }

  /**
   * `get_module_rating`: the module average when the context carries a non-empty
   * module code, and 0 otherwise; None when `get_module_average_rating` raises.
   */
  function GetModuleRating(c: Catalog, rs: seq<Rating>, professor: ProfessorId, moduleCode: Option<ModuleCode>): (r: Option<int>)
    ensures moduleCode.None? || moduleCode == Some("") ==> r == Some(0)
    ensures moduleCode.Some? && moduleCode.value != "" ==> r == ModuleAverageRating(c, rs, professor, moduleCode.value)
  {
    match moduleCode
    case Some(code) => if code != "" then ModuleAverageRating(c, rs, professor, code) else Some(0)
    case None => Some(0)
  }

  /** `RatingSerializer.create`'s first step: the requesting user replaces any supplied user. */
  function StampUser(d: RatingData, requester: UserId): (r: RatingData)
    ensures r.user == Some(requester)
    ensures r.(user := d.user) == d
  {
    d.(user := Some(requester))
  }
}
