/**
 * `Professor.get_average_rating` and `Professor.get_module_average_rating`:
 * filter the Rating table, sum the values, divide by the count and apply
 * Python's `round`, which rounds halves to the even neighbour. The quotient is
 * kept as the exact pair (total, count), so no floating point is involved.
 * Both aggregations are one function over a `Scope`.
 */
module Averages {
  import opened Wrappers
  import opened Models

  /** Which ratings an aggregation reads: all of one professor's, or those within one module. */
  datatype Scope = Overall(professor: ProfessorId) | InModule(professor: ProfessorId, code: ModuleCode)

  /** The module of the instance a rating points at (the `moduleInstance__module` join). */
  function InstanceModule(c: Catalog, instance: nat): Option<ModuleCode>
  {
    match InstanceById(c.instances, instance)
    case Some(m) => Some(m.moduleCode)
    case None => None
  }

  predicate InScope(c: Catalog, scope: Scope, x: Rating)
  {
    match scope
    case Overall(p) => x.professor == p
    case InModule(p, code) => x.professor == p && InstanceModule(c, x.instance) == Some(code)
  }

  /** `Rating.objects.filter(...)` for a scope, in table order. */
  function Select(c: Catalog, rs: seq<Rating>, scope: Scope): (r: seq<Rating>)
    ensures |r| <= |rs|
    ensures forall x :: x in r <==> x in rs && InScope(c, scope, x)
  {
    if rs == [] then []
    else (if InScope(c, scope, rs[0]) then [rs[0]] else []) + Select(c, rs[1..], scope)
  }

  /** The filter keeps every in-scope row as often as the table holds it, so it fixes the count divided by. */
  lemma {:induction false} SelectCounts(c: Catalog, rs: seq<Rating>, scope: Scope)
    ensures forall x :: multiset(Select(c, rs, scope))[x] == if InScope(c, scope, x) then multiset(rs)[x] else 0
  {
    if rs != [] {
      SelectCounts(c, rs[1..], scope);
      assert rs == [rs[0]] + rs[1..];
    }
  }

  /** `sum(r.rating for r in ratings)`. */
  function Sum(rs: seq<Rating>): int
  {
    if rs == [] then 0 else rs[0].value + Sum(rs[1..])
  }

  function Dist(a: int, b: int): nat
  {
    if a >= b then a - b else b - a
  }

  /**
   * Python's `round(total / count)`: the integer nearest to the quotient, and
   * on an exact half the even one of the two neighbours.
   */
  function RoundHalfEven(total: int, count: int): (r: int)
    requires count > 0
    ensures RoundsTo(total, count, r)
  {
    var q, rem := total / count, total % count;
    assert (q + 1) * count == q * count + count;
    if 2 * rem < count then q
    else if 2 * rem > count then q + 1
    else if q % 2 == 0 then q
    else q + 1
  }

  lemma MulMono(a: int, b: int, c: int)
    ensures a <= b && c >= 0 ==> a * c <= b * c
  {
    assert b * c - a * c == (b - a) * c;
  }

  /** Rounding to nearest, ties to even, as a relation between a quotient and an integer. */
  predicate RoundsTo(total: int, count: int, k: int)
  {
    2 * Dist(k * count, total) < count || (2 * Dist(k * count, total) == count && k % 2 == 0)
  }

  lemma MulFacts(d: int, count: int)
    ensures count > 0 && d >= 1 ==> d * count >= count
    ensures count > 0 && d >= 2 ==> d * count >= 2 * count
    ensures count > 0 && d <= -1 ==> d * count <= -count
    ensures count > 0 && d <= -2 ==> d * count <= -2 * count
  {
    MulMono(1, d, count);
    MulMono(2, d, count);
    MulMono(d, -1, count);
    MulMono(d, -2, count);
  }

  lemma {:induction false} RoundsToUnique(total: int, count: int, k: int, j: int)
    requires count > 0
    requires RoundsTo(total, count, k) && RoundsTo(total, count, j)
    ensures k == j
  {
    var e1, e2 := k * count - total, j * count - total;
    assert (k - j) * count == e1 - e2;
    MulFacts(k - j, count);
  }

  /**
   * The two properties of `RoundHalfEven` single out its result: it is an
   * independent definition of Python's rounding of the mean.
   */
  lemma {:induction false} RoundHalfEvenUnique(total: int, count: int, k: int)
    requires count > 0
    requires RoundsTo(total, count, k)
    ensures k == RoundHalfEven(total, count)
  {
    RoundsToUnique(total, count, k, RoundHalfEven(total, count));
  }

  /** The two ties of the mean of two ratings: (2+3)/2 rounds to 2 and (3+4)/2 to 4. */
  lemma HalvesRoundToEven()
    ensures RoundHalfEven(5, 2) == 2 && RoundHalfEven(7, 2) == 4
  {
  }

  /** A quotient between lo and hi rounds to an integer between lo and hi. */
  lemma {:induction false} RoundHalfEvenWithin(total: int, count: int, lo: int, hi: int)
    requires count > 0
    requires lo * count <= total <= hi * count
    ensures lo <= RoundHalfEven(total, count) <= hi
  {
    var r := RoundHalfEven(total, count);
    MulMono(hi + 1, r, count);
    assert (hi + 1) * count == hi * count + count;
    MulMono(r, lo - 1, count);
    assert (lo - 1) * count == lo * count - count;
  }

  /** The rounded mean of a selection, or the "no data" value 0 when it is empty. */
  function Average(sel: seq<Rating>): (r: int)
    ensures sel == [] ==> r == 0
    ensures sel != [] ==> RoundsTo(Sum(sel), |sel|, r)
  {
    if sel == [] then 0 else RoundHalfEven(Sum(sel), |sel|)
  }

  /** `Professor.get_average_rating`. */
  function AverageRating(c: Catalog, rs: seq<Rating>, professor: ProfessorId): (r: int)
    ensures (forall x :: x in rs ==> x.professor != professor) ==> r == 0
    ensures (exists x :: x in rs && x.professor == professor) ==>
              var sel := Select(c, rs, Overall(professor));
              sel != [] && RoundsTo(Sum(sel), |sel|, r)
  {
    var sel := Select(c, rs, Overall(professor));
    assert sel != [] ==> sel[0] in sel;
    Average(sel)
  }

  /**
   * `Professor.get_module_average_rating`: None when the module code is unknown
   * (the initial `Module.objects.get` raises DoesNotExist before any rating is read).
   */
  function ModuleAverageRating(c: Catalog, rs: seq<Rating>, professor: ProfessorId, code: ModuleCode): (r: Option<int>)
    ensures r.None? <==> FindModule(c.modules, code).None?
    ensures r.Some? && (forall x :: x in rs ==> !InScope(c, InModule(professor, code), x)) ==> r.value == 0
    ensures r.Some? && (exists x :: x in rs && InScope(c, InModule(professor, code), x)) ==>
              var sel := Select(c, rs, InModule(professor, code));
              sel != [] && RoundsTo(Sum(sel), |sel|, r.value)
  {
    match FindModule(c.modules, code)
    case None => None
    case Some(m) =>
      var sel := Select(c, rs, InModule(professor, m.code));
      assert sel != [] ==> sel[0] in sel;
      Some(Average(sel))
  }

  lemma {:induction false} SumWithin(rs: seq<Rating>, lo: int, hi: int)
    requires forall x :: x in rs ==> lo <= x.value <= hi
    ensures lo * |rs| <= Sum(rs) <= hi * |rs|
  {
    if rs != [] {
      assert rs[0] in rs;
      forall x | x in rs[1..] ensures lo <= x.value <= hi { assert x in rs; }
      SumWithin(rs[1..], lo, hi);
      assert lo * |rs| == lo + lo * |rs[1..]|;
      assert hi * |rs| == hi + hi * |rs[1..]|;
    }
  }

  /**
   * When every stored rating respects the declared 1..5 validator, an average is
   * 0 exactly when the scope holds no rating, and otherwise lies in 1..5.
   */
  lemma {:induction false} AverageDeclared(c: Catalog, rs: seq<Rating>, scope: Scope)
    requires RatingsDeclared(rs)
    ensures var a := Average(Select(c, rs, scope));
            (a == 0 <==> forall x :: x in rs ==> !InScope(c, scope, x))
            && ((exists x :: x in rs && InScope(c, scope, x)) ==> 1 <= a <= 5)
  {
    var sel := Select(c, rs, scope);
    if sel != [] {
      SumWithin(sel, 1, 5);
      RoundHalfEvenWithin(Sum(sel), |sel|, 1, 5);
      assert sel[0] in sel;
    }
  }

  /** `get_average_rating` is 0 for a professor without ratings and in 1..5 otherwise (given valid values). */
  lemma AverageRatingDeclared(c: Catalog, rs: seq<Rating>, professor: ProfessorId)
    requires RatingsDeclared(rs)
    ensures AverageRating(c, rs, professor) == 0 <==> forall x :: x in rs ==> x.professor != professor
    ensures (exists x :: x in rs && x.professor == professor) ==> 1 <= AverageRating(c, rs, professor) <= 5
  {
    AverageDeclared(c, rs, Overall(professor));
  }

  lemma {:induction false} SelectAppend(c: Catalog, a: seq<Rating>, b: seq<Rating>, scope: Scope)
    ensures Select(c, a + b, scope) == Select(c, a, scope) + Select(c, b, scope)
  {
    if a == [] {
      assert a + b == b;
    } else {
      assert (a + b)[0] == a[0] && (a + b)[1..] == a[1..] + b;
      SelectAppend(c, a[1..], b, scope);
    }
  }

  lemma {:induction false} SelectUpdateOutside(c: Catalog, rs: seq<Rating>, i: nat, x: Rating, scope: Scope)
    requires i < |rs|
    requires !InScope(c, scope, rs[i]) && !InScope(c, scope, x)
    ensures Select(c, rs[i := x], scope) == Select(c, rs, scope)
  {
    if i > 0 {
      assert rs[i := x][1..] == rs[1..][i - 1 := x];
      SelectUpdateOutside(c, rs[1..], i - 1, x, scope);
    }
  }

  /** Adding a rating outside a scope does not change that scope's average. */
  lemma AverageIgnoresAppendOutside(c: Catalog, rs: seq<Rating>, x: Rating, scope: Scope)
    requires !InScope(c, scope, x)
    ensures Average(Select(c, rs + [x], scope)) == Average(Select(c, rs, scope))
  {
    SelectAppend(c, rs, [x], scope);
    assert [x][1..] == [];
    assert Select(c, [x], scope) == [];
    assert Select(c, rs + [x], scope) == Select(c, rs, scope);
  }

  /** Overwriting a rating outside a scope does not change that scope's average. */
  lemma AverageIgnoresUpdateOutside(c: Catalog, rs: seq<Rating>, i: nat, x: Rating, scope: Scope)
    requires i < |rs|
    requires !InScope(c, scope, rs[i]) && !InScope(c, scope, x)
    ensures Average(Select(c, rs[i := x], scope)) == Average(Select(c, rs, scope))
  {
    SelectUpdateOutside(c, rs, i, x, scope);
  }

  lemma {:induction false} SelectNarrowing(c: Catalog, rs: seq<Rating>, professor: ProfessorId, code: ModuleCode)
    requires forall x :: x in rs && x.professor == professor ==> InstanceModule(c, x.instance) == Some(code)
    ensures Select(c, rs, InModule(professor, code)) == Select(c, rs, Overall(professor))
  {
    if rs != [] {
      assert rs[0] in rs;
      forall x | x in rs[1..] && x.professor == professor ensures InstanceModule(c, x.instance) == Some(code) {
        assert x in rs;
      }
      SelectNarrowing(c, rs[1..], professor, code);
    }
  }

  /**
   * The module average pools every year and semester of the module: when all of a
   * professor's ratings are within one module, the module average is the overall one.
   */
  lemma ModuleAverageOfSingleModule(c: Catalog, rs: seq<Rating>, professor: ProfessorId, code: ModuleCode)
    requires FindModule(c.modules, code).Some?
    requires forall x :: x in rs && x.professor == professor ==> InstanceModule(c, x.instance) == Some(code)
    ensures ModuleAverageRating(c, rs, professor, code) == Some(AverageRating(c, rs, professor))
  {
    SelectNarrowing(c, rs, professor, code);
  }
}
