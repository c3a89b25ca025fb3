/** The promotion ladder of PromoteTeacher (Data/DataLayer.cs): each
    promotion moves a rank one step up Instructor, AssistantProfessor,
    AssociateProfessor, Professor, and Professor stays Professor. */
module Promotion {
  import opened Wrappers
  import opened Models

  /** A rank's position on the ladder, Instructor being 0. */
  function Level(r: Rank): (n: nat)
    ensures n <= 3
  {
    match r
    case Instructor => 0
    case AssistantProfessor => 1
    case AssociateProfessor => 2
    case Professor => 3
  }

  /** The ladder is a total order: a level names exactly one rank. */
  lemma LevelInjective(a: Rank, b: Rank)
    requires Level(a) == Level(b)
    ensures a == b
  {
  }

  /** One promotion: one level up, except at Professor, which is kept. */
  function Promote(r: Rank): (p: Rank)
    ensures r != Professor ==> Level(p) == Level(r) + 1
    ensures r == Professor ==> p == Professor
  {
    match r
    case Instructor => AssistantProfessor
    case AssistantProfessor => AssociateProfessor
    case AssociateProfessor => Professor
    case Professor => Professor
  }

  /** The comparison chain PromoteTeacher runs on the rank's text: a text
      naming a rank becomes the name of the next rank up ("Professor" is
      left as it is), and a text naming no rank falls through every test
      unchanged. */
  function PromoteName(s: string): (p: string)
    ensures ParseRank(s).Some? ==> p == RankName(Promote(ParseRank(s).value))
    ensures ParseRank(s).None? ==> p == s
  {
    if s == "Instructor" then RankName(AssistantProfessor)
    else if s == "AssistantProfessor" then RankName(AssociateProfessor)
    else if s == "AssociateProfessor" then RankName(Professor)
    else s
  }

  /** The text chain agrees with the rank ladder on every stored rank. */
  lemma PromoteNameOfRank(r: Rank)
    ensures PromoteName(RankName(r)) == RankName(Promote(r))
  {
    assert ParseRank(RankName(r)) == Some(r);
  }

  /** n promotions in a row. */
  function PromoteTimes(r: Rank, n: nat): Rank
    decreases n
  {
    if n == 0 then r else PromoteTimes(Promote(r), n - 1)
  }

  function Min(a: int, b: int): int
  {
    if a <= b then a else b
  }

  /** n promotions climb n levels, stopping at Professor's. */
  lemma {:induction false} PromoteTimesLevel(r: Rank, n: nat)
    ensures Level(PromoteTimes(r, n)) == Min(Level(r) + n, 3)
    decreases n
  {
    if n > 0 {
      PromoteTimesLevel(Promote(r), n - 1);
    }
  }

  /** Promoting a Professor any number of times still gives a Professor. */
  lemma {:induction false} ProfessorStaysProfessor(n: nat)
    ensures PromoteTimes(Professor, n) == Professor
  {
    if n > 0 {
      ProfessorStaysProfessor(n - 1);
    }
  }

  /** Three promotions bring any rank to the top of the ladder. */
  lemma ThreePromotionsReachProfessor(r: Rank)
    ensures PromoteTimes(r, 3) == Professor
  {
    PromoteTimesLevel(r, 3);
    LevelInjective(PromoteTimes(r, 3), Professor);
  }
}
