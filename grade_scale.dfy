/** The fixed percent -> (letter, grade point) scale used for every result. */
module GradeScale {

  datatype Letter = APlus | A | AMinus | BPlus | B | BMinus | CPlus | C | D | F

  datatype Grade = Grade(letter: Letter, point: real)

  /** One row of the scale: a percentage at or above `minPercent` earns `letter`. */
  datatype Bracket = Bracket(minPercent: real, letter: Letter, point: real)

  /** The grade point attached to each letter. */
  function PointOf(l: Letter): real {
    match l
    case APlus => 4.00
    case A => 3.75
    case AMinus => 3.50
    case BPlus => 3.25
    case B => 3.00
    case BMinus => 2.75
    case CPlus => 2.50
    case C => 2.25
    case D => 2.00
    case F => 0.00
  }

  /** Inclusive lower bound of a letter's bracket; F is open below and has none. */
  function Lower(l: Letter): real
    requires l != F
  {
    match l
    case APlus => 80.0
    case A => 75.0
    case AMinus => 70.0
    case BPlus => 65.0
    case B => 60.0
    case BMinus => 55.0
    case CPlus => 50.0
    case C => 45.0
    case D => 40.0
  }

  /** Exclusive upper bound of a letter's bracket: the lower bound of the next letter up. */
  function Upper(l: Letter): real
    requires l != APlus
  {
    match l
    case A => 80.0
    case AMinus => 75.0
    case BPlus => 70.0
    case B => 65.0
    case BMinus => 60.0
    case CPlus => 55.0
    case C => 50.0
    case D => 45.0
    case F => 40.0
  }

  /** `p` lies in the bracket of `l`: F is open below, A+ is open above. */
  predicate InBracket(l: Letter, p: real) {
    (l == F || Lower(l) <= p) && (l == APlus || p < Upper(l))
  }

  /** The scale as ordered data, highest threshold first. */
  function Scale(): seq<Bracket> {
    [ Bracket(80.0, APlus, 4.00), Bracket(75.0, A, 3.75), Bracket(70.0, AMinus, 3.50),
      Bracket(65.0, BPlus, 3.25), Bracket(60.0, B, 3.00), Bracket(55.0, BMinus, 2.75),
      Bracket(50.0, CPlus, 2.50), Bracket(45.0, C, 2.25), Bracket(40.0, D, 2.00) ]
  }

  /** First-match-descending lookup in an ordered table; no match gives ("F", 0.00). */
  function Lookup(table: seq<Bracket>, p: real): Grade {
    if table == [] then Grade(F, 0.00)
    else if p >= table[0].minPercent then Grade(table[0].letter, table[0].point)
    else Lookup(table[1..], p)
  }

  /**
   * calc_grade: total on every percentage, including values outside [0, 100].
   * The result is the one letter whose bracket holds `p`, with that letter's point.
   */
  function CalcGrade(p: real): (g: Grade)
    ensures InBracket(g.letter, p)
    ensures g.point == PointOf(g.letter)
    ensures 0.0 <= g.point <= 4.0
  {
    if p >= 80.0 then Grade(APlus, 4.00)
    else if p >= 75.0 then Grade(A, 3.75)
    else if p >= 70.0 then Grade(AMinus, 3.50)
    else if p >= 65.0 then Grade(BPlus, 3.25)
    else if p >= 60.0 then Grade(B, 3.00)
    else if p >= 55.0 then Grade(BMinus, 2.75)
    else if p >= 50.0 then Grade(CPlus, 2.50)
    else if p >= 45.0 then Grade(C, 2.25)
    else if p >= 40.0 then Grade(D, 2.00)
    else Grade(F, 0.00)
  }

  /** Brackets do not overlap, so the letter is determined by the percentage. */
  lemma BracketUnique(l1: Letter, l2: Letter, p: real)
    requires InBracket(l1, p) && InBracket(l2, p)
    ensures l1 == l2
  {
  }

  /** The chain of comparisons and the ordered table agree on every percentage. */
  lemma {:induction false} CalcGradeIsTableLookup(p: real)
    ensures CalcGrade(p) == Lookup(Scale(), p)
  {
    var t := Scale();
    assert t[1..][1..][1..][1..][1..][1..][1..][1..][1..] == [];
    assert Lookup(t[1..][1..][1..][1..][1..][1..][1..][1..], p)
        == (if p >= 40.0 then Grade(D, 2.00) else Grade(F, 0.00));
    assert Lookup(t[1..][1..][1..][1..][1..][1..][1..], p)
        == (if p >= 45.0 then Grade(C, 2.25) else Lookup(t[1..][1..][1..][1..][1..][1..][1..][1..], p));
    assert Lookup(t[1..][1..][1..][1..][1..][1..], p)
        == (if p >= 50.0 then Grade(CPlus, 2.50) else Lookup(t[1..][1..][1..][1..][1..][1..][1..], p));
    assert Lookup(t[1..][1..][1..][1..][1..], p)
        == (if p >= 55.0 then Grade(BMinus, 2.75) else Lookup(t[1..][1..][1..][1..][1..][1..], p));
    assert Lookup(t[1..][1..][1..][1..], p)
        == (if p >= 60.0 then Grade(B, 3.00) else Lookup(t[1..][1..][1..][1..][1..], p));
    assert Lookup(t[1..][1..][1..], p)
        == (if p >= 65.0 then Grade(BPlus, 3.25) else Lookup(t[1..][1..][1..][1..], p));
    assert Lookup(t[1..][1..], p)
        == (if p >= 70.0 then Grade(AMinus, 3.50) else Lookup(t[1..][1..][1..], p));
    assert Lookup(t[1..], p)
        == (if p >= 75.0 then Grade(A, 3.75) else Lookup(t[1..][1..], p));
  }

  /** Below the lowest threshold the grade is ("F", 0.00); at 80 or above it is ("A+", 4.00). */
  lemma Extremes(p: real)
    ensures p < 40.0 ==> CalcGrade(p) == Grade(F, 0.00)
    ensures p >= 80.0 ==> CalcGrade(p) == Grade(APlus, 4.00)
  {
  }

  /** A higher percentage never earns a lower grade point. */
  lemma PointMonotone(p: real, q: real)
    requires p <= q
    ensures CalcGrade(p).point <= CalcGrade(q).point
  {
  }

  /** Boundary cases: 79.999 is in the A bracket [75, 80), not A-. */
  lemma BoundaryExamples()
    ensures CalcGrade(79.999) == Grade(A, 3.75)
    ensures CalcGrade(80.0) == Grade(APlus, 4.00)
    ensures CalcGrade(-5.0) == Grade(F, 0.00)
    ensures CalcGrade(150.0) == Grade(APlus, 4.00)
  {
  }
}
