/**
 * The grading-scale catalog and the letter-grade lookup: each scale is a list
 * of (letter, minimum score) thresholds, highest first, and a score gets the
 * letter of the first threshold it reaches.
 */
module Grading {

  /** The keys of the catalog: the "10-point" and the "7-point" scale. */
  datatype ScaleType = TenPoint | SevenPoint

  datatype Letter = A | B | C | D | F

  /** One threshold of a scale: scores of at least `min` earn `letter`. */
  datatype Entry = Entry(letter: Letter, min: real)

  /** The value of a letter on the 4.0 grade-point scale. */
  function Points(l: Letter): (p: real)
    ensures 0.0 <= p <= 4.0
    ensures p == 0.0 <==> l == F
  {
    match l
    case A => 4.0
    case B => 3.0
    case C => 2.0
    case D => 1.0
    case F => 0.0
  }

  /**
   * A scale is well formed when its thresholds strictly descend, its letters
   * strictly worsen along the list, and it ends with F from 0 upwards.
   */
  predicate WellFormed(s: seq<Entry>)
  {
    && |s| > 0
    && s[|s| - 1] == Entry(F, 0.0)
    && forall i, j :: 0 <= i < j < |s| ==> s[i].min > s[j].min && Points(s[i].letter) > Points(s[j].letter)
  }

  /** The thresholds of each scale in the catalog, in the order they are scanned. */
  function Scale(t: ScaleType): (s: seq<Entry>)
    ensures WellFormed(s)
    ensures |s| == 5
  {
    match t
    case TenPoint => [Entry(A, 90.0), Entry(B, 80.0), Entry(C, 70.0), Entry(D, 60.0), Entry(F, 0.0)]
    case SevenPoint => [Entry(A, 93.0), Entry(B, 85.0), Entry(C, 77.0), Entry(D, 70.0), Entry(F, 0.0)]
  }

  /** The letter of the first entry whose threshold `score` reaches, or F when it reaches none. */
  function FirstMatch(s: seq<Entry>, score: real): Letter
  {
    if s == [] then F
    else if score >= s[0].min then s[0].letter
    else FirstMatch(s[1..], score)
  }

  /** The letter a score earns under a scale of the catalog. */
  function LetterOf(t: ScaleType, score: real): Letter
  {
    FirstMatch(Scale(t), score)
  }

  /** The scan of the lookup: thresholds in order, returning at the first one reached. */
  method CalculateLetterGrade(score: real, t: ScaleType) returns (l: Letter)
    ensures l == LetterOf(t, score)
  {
    var scale := Scale(t);
    var i := 0;
    while i < |scale|
      invariant 0 <= i <= |scale|
      invariant FirstMatch(scale[i..], score) == FirstMatch(scale, score)
    {
      if score >= scale[i].min {
        return scale[i].letter;
      }
      assert scale[i..][1..] == scale[i + 1..];
      i := i + 1;
    }
    return F;
  }

  /** The lookup returns the letter of entry `i` when `i` is the first threshold the score reaches. */
  lemma {:induction false} FirstMatchIsFirst(s: seq<Entry>, score: real, i: nat)
    requires i < |s| && s[i].min <= score
    requires forall j :: 0 <= j < i ==> s[j].min > score
    ensures FirstMatch(s, score) == s[i].letter
  {
    if i > 0 {
      FirstMatchIsFirst(s[1..], score, i - 1);
    }
  }

  /** The lookup falls back to F when the score reaches no threshold. */
  lemma {:induction false} FirstMatchFallback(s: seq<Entry>, score: real)
    requires forall j :: 0 <= j < |s| ==> s[j].min > score
    ensures FirstMatch(s, score) == F
  {
    if s != [] {
      FirstMatchFallback(s[1..], score);
    }
  }

  /**
   * Under a well-formed scale, a score of at least 0 is never left to the
   * fallback: some entry's threshold is reached and that entry's letter is returned.
   */
  lemma {:induction false} FirstMatchReached(s: seq<Entry>, score: real)
    requires WellFormed(s) && score >= 0.0
    ensures exists i :: 0 <= i < |s| && s[i].min <= score && FirstMatch(s, score) == s[i].letter
  {
    if score >= s[0].min {
      assert s[0].min <= score && FirstMatch(s, score) == s[0].letter;
    } else {
      var t := s[1..];
      assert |s| > 1;
      assert WellFormed(t);
      FirstMatchReached(t, score);
      var i :| 0 <= i < |t| && t[i].min <= score && FirstMatch(t, score) == t[i].letter;
      assert s[i + 1] == t[i];
    }
  }

  /** Every score of at least 0 reaches a threshold of either catalog scale. */
  lemma LetterReached(t: ScaleType, score: real)
    requires score >= 0.0
    ensures exists i :: 0 <= i < |Scale(t)| && Scale(t)[i].min <= score && LetterOf(t, score) == Scale(t)[i].letter
  {
    FirstMatchReached(Scale(t), score);
  }

  /** If every letter of `s` is worth at most `b` points, so is the lookup's answer. */
  lemma {:induction false} FirstMatchAtMost(s: seq<Entry>, score: real, b: real)
    requires b >= 0.0
    requires forall j :: 0 <= j < |s| ==> Points(s[j].letter) <= b
    ensures Points(FirstMatch(s, score)) <= b
  {
    if s != [] && score < s[0].min {
      FirstMatchAtMost(s[1..], score, b);
    }
  }

  /** When letters worsen along the scale, a higher score never earns a worse letter. */
  lemma {:induction false} FirstMatchMonotone(s: seq<Entry>, x: real, y: real)
    requires forall i, j :: 0 <= i < j < |s| ==> Points(s[i].letter) > Points(s[j].letter)
    requires x <= y
    ensures Points(FirstMatch(s, x)) <= Points(FirstMatch(s, y))
  {
    if s != [] {
      if y >= s[0].min {
        if x < s[0].min {
          FirstMatchAtMost(s[1..], x, Points(s[0].letter));
        }
      } else {
        FirstMatchMonotone(s[1..], x, y);
      }
    }
  }

  /** The letter lookup is monotone under both catalog scales. */
  lemma LetterMonotone(t: ScaleType, x: real, y: real)
    requires x <= y
    ensures Points(LetterOf(t, x)) <= Points(LetterOf(t, y))
  {
    FirstMatchMonotone(Scale(t), x, y);
  }

  /** On the 10-point scale, a letter other than F is earned exactly from 60 upwards. */
  lemma TenPointPassMark(score: real)
    ensures LetterOf(TenPoint, score) != F <==> score >= 60.0
  {
    var s := Scale(TenPoint);
    if score >= 60.0 {
      if score >= 90.0 {
        FirstMatchIsFirst(s, score, 0);
      } else if score >= 80.0 {
        FirstMatchIsFirst(s, score, 1);
      } else if score >= 70.0 {
        FirstMatchIsFirst(s, score, 2);
      } else {
        FirstMatchIsFirst(s, score, 3);
      }
    } else {
      if score >= 0.0 {
        FirstMatchIsFirst(s, score, 4);
      } else {
        FirstMatchFallback(s, score);
      }
    }
  }

  /** On the 7-point scale, every score in [60, 70) earns an F. */
  lemma SevenPointFailsBelowSeventy(score: real)
    requires 60.0 <= score < 70.0
    ensures LetterOf(SevenPoint, score) == F
  {
    FirstMatchIsFirst(Scale(SevenPoint), score, 4);
  }
}
