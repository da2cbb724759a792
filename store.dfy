/**
 * The Rating table as mutable state, with the two operations that write it:
 * the `rateProfessor` view's validate-then-`update_or_create` transaction and
 * `RatingSerializer.create`. The catalog tables are only read.
 */
module Store {
  import opened Wrappers
  import opened Models
  import opened Serializers
  import opened Views

  class RatingStore {
    const catalog: Catalog
    var ratings: seq<Rating>
    /** The id the next inserted Rating row receives. */
    var nextId: nat

    ghost predicate Valid()
      reads this
    {
      CatalogValid(catalog) && TableValid(catalog, ratings, nextId)
    }

    constructor (c: Catalog)
      requires CatalogValid(c)
      ensures Valid()
      ensures catalog == c && ratings == [] && nextId == 1
    {
      catalog := c;
      ratings := [];
      nextId := 1;
    }

    /** The row lookup `update_or_create` starts with: the position of the row with a key, if any. */
    method Lookup(key: (UserId, nat, ProfessorId)) returns (index: Option<nat>)
      ensures index == IndexOfKey(ratings, key)
    {
      var i := 0;
      while i < |ratings| && RatingKey(ratings[i]) != key
        invariant 0 <= i <= |ratings|
        invariant forall j :: 0 <= j < i ==> RatingKey(ratings[j]) != key
      {
        i := i + 1;
      }
      index := if i < |ratings| then Some(i) else None;
    }

    /**
     * `rateProfessor`: the checks in the view's order, each answering without
     * touching the table, then the upsert as one atomic step.
     */
    method RateProfessor(user: UserId, req: Request, now: Timestamp) returns (result: RateResult)
      requires Valid()
      modifies this
      ensures Valid()
      ensures Submission(result, ratings, nextId) == Submit(catalog, old(ratings), old(nextId), user, req, now)
    {
      SubmitPreservesValid(catalog, ratings, nextId, user, req, now);
      if !AllPresent(req) {
        return MissingFields;
      }
      var professor := FindProfessor(catalog.professors, AsText(Field(req, "professorID")));
      if professor.None? {
        return NotFound(UnknownProfessor);
      }
      var course := FindModule(catalog.modules, AsText(Field(req, "moduleCode")));
      if course.None? {
        return NotFound(UnknownModule);
      }
      var year, semester := AsInt(Field(req, "year")), AsInt(Field(req, "semester"));
      if year.None? || semester.None? {
        return Rejected;
      }
      var instance := FindInstance(catalog.instances, course.value.code, year.value, semester.value);
      if instance.None? {
        return NotFound(UnknownInstance);
      }
      if professor.value.id !in instance.value.professors {
        return WrongProfessor;
      }
      var value := AsInt(Field(req, "rating"));
      if value.None? {
        return Rejected;
      }
      assert Submit(catalog, ratings, nextId, user, req, now)
          == Upsert(ratings, nextId, user, instance.value.id, professor.value.id, value.value, now);
      result := UpdateOrCreate(user, instance.value.id, professor.value.id, value.value, now);
    }

    /** `Rating.objects.update_or_create` keyed by (user, instance, professor), with the rating as default. */
    method UpdateOrCreate(user: UserId, instance: nat, professor: ProfessorId, value: int, now: Timestamp)
      returns (result: RateResult)
      requires Valid()
      requires instance in InstanceIds(catalog) && professor in ProfessorIds(catalog)
      modifies this
      ensures Valid()
      ensures Submission(result, ratings, nextId) == Upsert(old(ratings), old(nextId), user, instance, professor, value, now)
    {
      UpsertPreservesValid(catalog, ratings, nextId, user, instance, professor, value, now);
      var existing := Lookup((user, instance, professor));
      if existing.Some? {
        var row := ratings[existing.value].(value := value);
        ratings := ratings[existing.value := row];
        result := Updated(RatingProjection(row));
      } else {
        var row := Rating(nextId, user, instance, professor, value, now);
        ratings := ratings + [row];
        nextId := nextId + 1;
        result := Created(RatingProjection(row));
      }
    }

    /**
     * `RatingSerializer.create` on validated data: the requesting user replaces
     * any supplied one, then the row is inserted; the unique index refuses a
     * second row for the same key (IntegrityError), writing nothing.
     */
    method CreateRating(data: RatingData, requester: UserId, now: Timestamp) returns (created: Option<RatingRecord>)
      requires Valid()
      requires data.moduleInstance in InstanceIds(catalog) && data.professor in ProfessorIds(catalog)
      requires 1 <= data.rating <= 5
      modifies this
      ensures Valid()
      ensures RatingsDeclared(old(ratings)) ==> RatingsDeclared(ratings)
      ensures var key := (requester, data.moduleInstance, data.professor);
              var row := Rating(old(nextId), requester, data.moduleInstance, data.professor, data.rating, now);
              if IndexOfKey(old(ratings), key).Some? then
                created.None? && ratings == old(ratings) && nextId == old(nextId)
              else
                created == Some(RatingProjection(row)) && ratings == old(ratings) + [row] && nextId == old(nextId) + 1
    {
      var stamped := StampUser(data, requester);
      var key := (stamped.user.value, stamped.moduleInstance, stamped.professor);
      var existing := Lookup(key);
      if existing.Some? {
        return None;
      }
      var row := Rating(nextId, stamped.user.value, stamped.moduleInstance, stamped.professor, stamped.rating, now);
      UpsertPreservesValid(catalog, ratings, nextId, stamped.user.value, stamped.moduleInstance, stamped.professor,
                           stamped.rating, now);
      ratings := ratings + [row];
      nextId := nextId + 1;
      created := Some(RatingProjection(row));
    }
  }
}
