/**
 * The grade-point average of a student: the credit-weighted mean of the
 * 4.0-scale value of the letters on the student's records, counting only
 * records whose lecture exists.
 */
module Gpa {
  import opened Wrappers
  import opened Seqs
  import opened Grading
  import opened Records

  /** Selects the records of one student. */
  function OfStudent(id: string): Record -> bool
  {
    (r: Record) => r.id == id
  }

  /** The credit a record contributes: its lecture's credit, or nothing when the lecture is missing. */
  function CreditOf(ls: seq<Lecture>): Record -> real
  {
    (r: Record) => match FindLecture(ls, r.lecture)
         case None => 0.0
         case Some(l) => l.credit as real
  }

  /** The weighted points a record contributes: its letter's points times its lecture's credit. */
  function WeightOf(ls: seq<Lecture>): Record -> real
  {
    (r: Record) => match FindLecture(ls, r.lecture)
         case None => 0.0
         case Some(l) => Weighted(Points(r.letter), l.credit)
  }

  /** A letter's points weighted by a lecture's credit. */
  function Weighted(points: real, credit: int): real
  {
    points * credit as real
  }

  /**
   * The GPA: 0 for a student without records or without credit, otherwise
   * the total weighted points divided by the total credit.
   */
  function GPA(s: seq<Record>, ls: seq<Lecture>, id: string): (g: real)
    ensures (forall r :: r in s ==> r.id != id) ==> g == 0.0
    ensures g != 0.0 ==> exists r :: r in s && r.id == id && HasCourse(ls, r.lecture)
  {
    var rs := Filter(s, OfStudent(id));
    if |rs| == 0 then 0.0
    else
      var total := Sum(rs, CreditOf(ls));
      if total > 0.0 then
        CreditFromExistingLecture(rs, ls);
        Sum(rs, WeightOf(ls)) / total
      else 0.0
  }

  /** Credit only comes from records whose lecture exists. */
  lemma {:induction false} CreditFromExistingLecture(rs: seq<Record>, ls: seq<Lecture>)
    ensures Sum(rs, CreditOf(ls)) != 0.0 ==> exists r :: r in rs && HasCourse(ls, r.lecture)
  {
    if rs != [] {
      var r := rs[|rs| - 1];
      var rest := rs[..|rs| - 1];
      CreditFromExistingLecture(rest, ls);
      assert forall x :: x in rest ==> x in rs;
      assert r in rs;
    }
  }

  /** With positive credits, the weighted points lie between 0 and four times the credit. */
  lemma {:induction false} WeightWithinCredit(rs: seq<Record>, ls: seq<Lecture>)
    requires forall l :: l in ls ==> l.credit > 0
    ensures 0.0 <= Sum(rs, CreditOf(ls))
    ensures 0.0 <= Sum(rs, WeightOf(ls)) <= 4.0 * Sum(rs, CreditOf(ls))
  {
    if rs != [] {
      var r := rs[|rs| - 1];
      WeightWithinCredit(rs[..|rs| - 1], ls);
      match FindLecture(ls, r.lecture)
      case None =>
      case Some(l) =>
        assert l in ls;
        assert 0.0 <= Points(r.letter) * l.credit as real <= 4.0 * l.credit as real;
    }
  }

  /** With positive credits, every GPA lies on the 4.0 scale. */
  lemma GpaBounds(s: seq<Record>, ls: seq<Lecture>, id: string)
    requires forall l :: l in ls ==> l.credit > 0
    ensures 0.0 <= GPA(s, ls, id) <= 4.0
  {
    var rs := Filter(s, OfStudent(id));
    WeightWithinCredit(rs, ls);
    var total := Sum(rs, CreditOf(ls));
    if |rs| != 0 && total > 0.0 {
      MeanWithin(Sum(rs, WeightOf(ls)), total, 0.0, 4.0);
    }
  }

  /** The GPA does not depend on the order in which the records were created. */
  lemma GpaOrderIndependent(s: seq<Record>, t: seq<Record>, ls: seq<Lecture>, id: string)
    requires multiset(s) == multiset(t)
    ensures GPA(s, ls, id) == GPA(t, ls, id)
  {
    var rs := Filter(s, OfStudent(id));
    var rt := Filter(t, OfStudent(id));
    FilterMultiset(s, OfStudent(id));
    FilterMultiset(t, OfStudent(id));
    assert multiset(rs) == multiset(rt);
    assert |rs| == |multiset(rs)| == |multiset(rt)| == |rt|;
    SumPermutation(rs, rt, CreditOf(ls));
    SumPermutation(rs, rt, WeightOf(ls));
  }

  /** A student whose every letter is `g`, in lectures that exist, has exactly `g`'s points as GPA. */
  lemma GpaUniformLetter(s: seq<Record>, ls: seq<Lecture>, id: string, g: Letter)
    requires forall l :: l in ls ==> l.credit > 0
    requires forall r :: r in s && r.id == id ==> r.letter == g && HasCourse(ls, r.lecture)
    requires exists r :: r in s && r.id == id
    ensures GPA(s, ls, id) == Points(g)
  {
    StudentCredit(s, ls, id);
    UniformQuotient(Filter(s, OfStudent(id)), ls, g);
  }

  /** When every record carries letter `g` and the credit is positive, weighted points over credit is `g`'s points. */
  lemma {:induction false} UniformQuotient(rs: seq<Record>, ls: seq<Lecture>, g: Letter)
    requires forall r :: r in rs ==> r.letter == g
    requires Sum(rs, CreditOf(ls)) > 0.0
    ensures Sum(rs, WeightOf(ls)) / Sum(rs, CreditOf(ls)) == Points(g)
  {
    UniformWeight(rs, ls, g);
    Cancel(Sum(rs, WeightOf(ls)), Points(g), Sum(rs, CreditOf(ls)));
  }

  /** A student with a record in an existing lecture has positive total credit. */
  lemma StudentCredit(s: seq<Record>, ls: seq<Lecture>, id: string)
    requires forall l :: l in ls ==> l.credit > 0
    requires exists r :: r in s && r.id == id && HasCourse(ls, r.lecture)
    ensures Sum(Filter(s, OfStudent(id)), CreditOf(ls)) > 0.0
  {
    var rs := Filter(s, OfStudent(id));
    var r :| r in s && r.id == id && HasCourse(ls, r.lecture);
    assert r in rs;
    var k :| 0 <= k < |rs| && rs[k] == r;
    PositiveCredit(rs, ls, k);
  }

  /** When every record carries letter `g`, the weighted points are `g`'s points times the credit. */
  lemma {:induction false} UniformWeight(rs: seq<Record>, ls: seq<Lecture>, g: Letter)
    requires forall r :: r in rs ==> r.letter == g
    ensures Sum(rs, WeightOf(ls)) == Points(g) * Sum(rs, CreditOf(ls))
  {
    if rs != [] {
      var rest := rs[..|rs| - 1];
      assert forall x :: x in rest ==> x in rs;
      UniformWeight(rest, ls, g);
      UniformTerm(ls, rs[|rs| - 1], g);
      Factor(Points(g), Sum(rest, CreditOf(ls)), CreditOf(ls)(rs[|rs| - 1]));
    }
  }

  /** Multiplication distributes over a sum of two terms. */
  lemma Factor(k: real, a: real, b: real)
    ensures k * a + k * b == k * (a + b)
  {
  }

  /** A record lettered `g` has `g`'s points times its credit as weighted points. */
  lemma UniformTerm(ls: seq<Lecture>, x: Record, g: Letter)
    requires x.letter == g
    ensures WeightOf(ls)(x) == Points(g) * CreditOf(ls)(x)
  {
    match FindLecture(ls, x.lecture)
    case None =>
    case Some(l) =>
  }

  /** Dividing `p * t` by a positive `t` gives back `p`. */
  lemma Cancel(w: real, p: real, t: real)
    requires t > 0.0 && w == p * t
    ensures w / t == p
  {
  }

  /** A record of `rs` whose lecture exists makes the total credit positive. */
  lemma {:induction false} PositiveCredit(rs: seq<Record>, ls: seq<Lecture>, k: nat)
    requires forall l :: l in ls ==> l.credit > 0
    requires k < |rs| && HasCourse(ls, rs[k].lecture)
    ensures Sum(rs, CreditOf(ls)) > 0.0
  {
    WeightWithinCredit(rs[..|rs| - 1], ls);
    var r := rs[|rs| - 1];
    if k < |rs| - 1 {
      PositiveCredit(rs[..|rs| - 1], ls, k);
    }
    match FindLecture(ls, r.lecture)
    case None =>
    case Some(l) => assert l in ls;
  }

  /** A record whose lecture does not exist is skipped: adding one changes no GPA. */
  lemma GpaSkipsMissingLecture(s: seq<Record>, ls: seq<Lecture>, r: Record, id: string)
    requires !HasCourse(ls, r.lecture)
    ensures GPA(s + [r], ls, id) == GPA(s, ls, id)
  {
    var rs := Filter(s, OfStudent(id));
    FilterConcat(s, [r], OfStudent(id));
    assert [r][1..] == [];
    if r.id == id {
      var rs' := rs + [r];
      assert Filter(s + [r], OfStudent(id)) == rs';
      assert rs'[..|rs'| - 1] == rs;
      assert CreditOf(ls)(r) == 0.0 && WeightOf(ls)(r) == 0.0;
      if rs == [] {
        assert Sum(rs', CreditOf(ls)) == 0.0;
      }
    } else {
      assert Filter(s + [r], OfStudent(id)) == rs;
    }
  }
}
