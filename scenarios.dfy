/**
 * Concrete runs of the rating service on a one-module catalog: the behaviour
 * the general lemmas describe, pinned to specific requests.
 */
module Scenarios {
  import opened Wrappers
  import opened Models
  import opened Averages
  import opened Serializers
  import opened Views

  /** Module COMP1 "Intro", taught in 2024 semester 1 by professor JE1 "John Smith". */
  function SampleCatalog(): Catalog
  {
    Catalog([Module("COMP1", "Intro")], [Professor("JE1", "John Smith")], [ModuleInstance(1, "COMP1", 2024, 1, ["JE1"])])
  }

  function RatingRequest(value: JsonValue): Request
  {
    map["professorID" := JStr("JE1"), "moduleCode" := JStr("COMP1"), "year" := JInt(2024),
        "semester" := JInt(1), "rating" := value]
  }

  /** Two students rate JE1 with 4 and 2: both rows are created and both averages are 3. */
  lemma TwoStudentsAverageThree()
    ensures var a := Submit(SampleCatalog(), [], 1, 1, RatingRequest(JInt(4)), 10);
            var b := Submit(SampleCatalog(), a.ratings, a.nextId, 2, RatingRequest(JInt(2)), 11);
            a.result == Created(RatingRecord(1, 1, 1, "JE1", 4, 10))
            && b.result == Created(RatingRecord(2, 2, 1, "JE1", 2, 11))
            && AverageRating(SampleCatalog(), b.ratings, "JE1") == 3
            && ModuleAverageRating(SampleCatalog(), b.ratings, "JE1", "COMP1") == Some(3)
            && ProfessorModuleRating(SampleCatalog(), b.ratings, "JE1", "COMP1")
               == Found(ProfessorModuleRatingRecord("JE1", "John Smith", 3))
  {
    var a := Submit(SampleCatalog(), [], 1, 1, RatingRequest(JInt(4)), 10);
    assert a.ratings == [Rating(1, 1, 1, "JE1", 4, 10)];
    var b := Submit(SampleCatalog(), a.ratings, a.nextId, 2, RatingRequest(JInt(2)), 11);
    assert b.ratings == [Rating(1, 1, 1, "JE1", 4, 10), Rating(2, 2, 1, "JE1", 2, 11)];
    assert Select(SampleCatalog(), b.ratings, Overall("JE1")) == b.ratings;
    assert Select(SampleCatalog(), b.ratings, InModule("JE1", "COMP1")) == b.ratings;
  }

  /** The same student rates 3 and then 5: one row, holding 5, answered 201 and then 200. */
  lemma ThreeThenFive()
    ensures var a := Submit(SampleCatalog(), [], 1, 1, RatingRequest(JInt(3)), 10);
            var b := Submit(SampleCatalog(), a.ratings, a.nextId, 1, RatingRequest(JInt(5)), 11);
            StatusCode(a.result) == 201 && StatusCode(b.result) == 200
            && b.ratings == [Rating(1, 1, 1, "JE1", 5, 10)]
  {
    var a := Submit(SampleCatalog(), [], 1, 1, RatingRequest(JInt(3)), 10);
    assert a.ratings == [Rating(1, 1, 1, "JE1", 3, 10)];
  }

  /** No range check: a rating of 6 is stored and answered 201, breaking the declared validator. */
  lemma SixIsStored()
    ensures var s := Submit(SampleCatalog(), [], 1, 1, RatingRequest(JInt(6)), 10);
            s.result == Created(RatingRecord(1, 1, 1, "JE1", 6, 10)) && !RatingsDeclared(s.ratings)
  {
    var s := Submit(SampleCatalog(), [], 1, 1, RatingRequest(JInt(6)), 10);
    assert s.ratings[0] in s.ratings;
  }

  /** A rating of 0 is falsy and answered 400 as a missing field; the text "0" is truthy and is stored. */
  lemma ZeroIsMissingButTextZeroIsStored()
    ensures Submit(SampleCatalog(), [], 1, 1, RatingRequest(JInt(0)), 10).result == MissingFields
    ensures Submit(SampleCatalog(), [], 1, 1, RatingRequest(JStr("0")), 10).result
            == Created(RatingRecord(1, 1, 1, "JE1", 0, 10))
  {
    assert Text.ParseInt("0") == Some(0);
  }

  /** A professor who does not teach the instance is refused with 400 and nothing is written. */
  lemma WrongProfessorWritesNothing()
    ensures var c := SampleCatalog().(professors := [Professor("JE1", "John Smith"), Professor("VS1", "Victor Smith")]);
            var s := Submit(c, [], 1, 1, RatingRequest(JInt(4))["professorID" := JStr("VS1")], 10);
            s.result == WrongProfessor && StatusCode(s.result) == 400 && s.ratings == []
  {
  }
}
