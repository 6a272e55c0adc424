/** The weighted edit-distance table and the direction flags derived from it, as functions of
    the two strings and the three costs. */
module EditDistance {
  import opened Directions

  /** The inputs of one computation: source x, target y and the three costs. */
  datatype Problem = Problem(x: string, y: string, sub: int, del: int, ins: int)
  {
    ghost predicate InTable(i: int, j: int) {
      0 <= i <= |x| && 0 <= j <= |y|
    }
  }

  /** Python's three-argument min on integers. */
  function Min3(a: int, b: int, c: int): (r: int)
    ensures r <= a && r <= b && r <= c
    ensures r == a || r == b || r == c
  {
    if a <= b && a <= c then a else if b <= c then b else c
  }

  /** The diagonal term's cost: nothing when x[i-1] and y[j-1] agree, the substitution cost otherwise. */
  function MatchCost(p: Problem, i: int, j: int): int
    requires 1 <= i <= |p.x| && 1 <= j <= |p.y|
  {
    if p.x[i - 1] == p.y[j - 1] then 0 else p.sub
  }

  /** Cell (i, j) of the distance table. The boundary cells hold i and j whatever the costs. */
  function Dist(p: Problem, i: int, j: int): int
    requires p.InTable(i, j)
    decreases i + j
  {
    if j == 0 then i
    else if i == 0 then j
    else Min3(Dist(p, i - 1, j) + p.del, Dist(p, i, j - 1) + p.ins, Dist(p, i - 1, j - 1) + MatchCost(p, i, j))
  }

  /** The Left flag: every cell of row 0 carries it; an interior cell carries it when the
      insertion term reaches the cell's value. */
  predicate LeftFlag(p: Problem, i: int, j: int)
    requires p.InTable(i, j)
  {
    if i == 0 then true
    else if j == 0 then false
    else Dist(p, i, j - 1) + p.ins == Dist(p, i, j)
  }

  /** The Up flag: every cell of column 0 carries it; an interior cell carries it when the
      deletion term reaches the cell's value. */
  predicate UpFlag(p: Problem, i: int, j: int)
    requires p.InTable(i, j)
  {
    if j == 0 then true
    else if i == 0 then false
    else Dist(p, i - 1, j) + p.del == Dist(p, i, j)
  }

  /** The UpLeft flag: never on the boundary; on an interior cell when the diagonal neighbour
      equals the cell's value or does so once the raw substitution cost is added. */
  predicate UpLeftFlag(p: Problem, i: int, j: int)
    requires p.InTable(i, j)
  {
    if i == 0 || j == 0 then false
    else Dist(p, i - 1, j - 1) == Dist(p, i, j) || Dist(p, i - 1, j - 1) + p.sub == Dist(p, i, j)
  }

  predicate Flag(p: Problem, i: int, j: int, d: Direction)
    requires p.InTable(i, j)
  {
    match d
    case Left => LeftFlag(p, i, j)
    case Up => UpFlag(p, i, j)
    case UpLeft => UpLeftFlag(p, i, j)
  }

  /** Entry (i, j, k) of the direction table: the direction's value when its flag is set, else 0. */
  function FlagValue(p: Problem, i: int, j: int, k: int): int
    requires p.InTable(i, j) && 0 <= k < 3
  {
    if Flag(p, i, j, AtSlot(k)) then AtSlot(k).Value() else 0
  }

  /** Each interior cell is at most every recurrence term and equals one of them. */
  lemma DistIsMinimumOfTerms(p: Problem, i: int, j: int)
    requires 1 <= i <= |p.x| && 1 <= j <= |p.y|
    ensures Dist(p, i, j) <= Dist(p, i - 1, j) + p.del
    ensures Dist(p, i, j) <= Dist(p, i, j - 1) + p.ins
    ensures Dist(p, i, j) <= Dist(p, i - 1, j - 1) + MatchCost(p, i, j)
    ensures Dist(p, i, j) == Dist(p, i - 1, j) + p.del
         || Dist(p, i, j) == Dist(p, i, j - 1) + p.ins
         || Dist(p, i, j) == Dist(p, i - 1, j - 1) + MatchCost(p, i, j)
  {
  }

  /** Every cell except (0, 0) carries at least one flag, so the backward walk never stalls. */
  lemma SomeFlagSet(p: Problem, i: int, j: int)
    requires p.InTable(i, j) && (i, j) != (0, 0)
    ensures LeftFlag(p, i, j) || UpFlag(p, i, j) || UpLeftFlag(p, i, j)
  {
    if i > 0 && j > 0 {
      DistIsMinimumOfTerms(p, i, j);
    }
  }

  /** With non-negative costs no cell is negative. */
  lemma {:induction false} DistNonNegative(p: Problem, i: int, j: int)
    requires p.sub >= 0 && p.del >= 0 && p.ins >= 0
    requires p.InTable(i, j)
    ensures Dist(p, i, j) >= 0
    decreases i + j
  {
    if i > 0 && j > 0 {
      DistNonNegative(p, i - 1, j);
      DistNonNegative(p, i, j - 1);
      DistNonNegative(p, i - 1, j - 1);
    }
  }

  /** A string is at distance 0 from itself when the costs are non-negative. */
  lemma {:induction false} DistToSelfIsZero(p: Problem, i: int)
    requires p.x == p.y && p.sub >= 0 && p.del >= 0 && p.ins >= 0
    requires 0 <= i <= |p.x|
    ensures Dist(p, i, i) == 0
  {
    if i > 0 {
      DistToSelfIsZero(p, i - 1);
      DistNonNegative(p, i, i);
    }
  }

  /** The path down column 0 and then along row i bounds the cell: d[i][j] <= i + j * ins.
      On row 0 the cells hold j whatever the insertion cost, so there the bound needs ins >= 1. */
  lemma {:induction false} DistUpperBound(p: Problem, i: int, j: int)
    requires p.InTable(i, j)
    requires i > 0 || j == 0 || p.ins >= 1
    ensures Dist(p, i, j) <= i + j * p.ins
  {
    if j > 0 {
      DistUpperBound(p, i, j - 1);
      assert Dist(p, i, j) <= Dist(p, i, j - 1) + p.ins by {
        if i > 0 { DistIsMinimumOfTerms(p, i, j); }
      }
      assert (j - 1) * p.ins + p.ins == j * p.ins;
    }
  }

  /** The problem with source and target swapped and the deletion and insertion costs swapped. */
  function Swapped(p: Problem): Problem
  {
    Problem(p.y, p.x, p.sub, p.ins, p.del)
  }

  /** The distance is symmetric under that swap: d[i][j] for (x, y) is d[j][i] for (y, x). */
  lemma {:induction false} DistCostSwap(p: Problem, i: int, j: int)
    requires p.InTable(i, j)
    ensures Dist(p, i, j) == Dist(Swapped(p), j, i)
    decreases i + j
  {
    if i > 0 && j > 0 {
      var q := Swapped(p);
      DistCostSwap(p, i - 1, j);
      DistCostSwap(p, i, j - 1);
      DistCostSwap(p, i - 1, j - 1);
      assert MatchCost(p, i, j) == MatchCost(q, j, i);
      assert Dist(q, j, i) == Min3(Dist(q, j - 1, i) + q.del, Dist(q, j, i - 1) + q.ins, Dist(q, j - 1, i - 1) + MatchCost(q, j, i));
    }
  }
}
