/** The backward walk over the direction flags, the instruction records it emits and the
    replay that rebuilds the target from the source, as functions. */
module Backtrack {
  import opened Directions
  import opened EditDistance

  /** A step in direction d can be taken from cursor (i, j) without leaving the table. */
  predicate CanStep(d: Direction, i: nat, j: nat)
  {
    (d != Up ==> j >= 1) && (d != Left ==> i >= 1)
  }

  /** The cursor after a step: Left decrements j, Up decrements i, UpLeft both. */
  function Next(d: Direction, i: nat, j: nat): (c: (nat, nat))
    requires CanStep(d, i, j)
    ensures c.0 <= i && c.1 <= j && c.0 + c.1 < i + j
  {
    match d
    case Left => (i, j - 1)
    case Up => (i - 1, j)
    case UpLeft => (i - 1, j - 1)
  }

  /** Every step of dirs, taken in order from (i, j), stays inside the table. */
  predicate Moves(dirs: seq<Direction>, i: nat, j: nat)
  {
    dirs == [] || (CanStep(dirs[0], i, j) && Moves(dirs[1..], Next(dirs[0], i, j).0, Next(dirs[0], i, j).1))
  }

  /** The cursor after each step of dirs, taken from (i, j). */
  function Cells(dirs: seq<Direction>, i: nat, j: nat): (cs: seq<(nat, nat)>)
    requires Moves(dirs, i, j)
    ensures |cs| == |dirs|
    ensures forall k :: 0 <= k < |cs| ==> cs[k].0 <= i && cs[k].1 <= j
  {
    if dirs == [] then []
    else
      var c := Next(dirs[0], i, j);
      [c] + Cells(dirs[1..], c.0, c.1)
  }

  /** How many steps of dirs go in direction d. */
  function Count(dirs: seq<Direction>, d: Direction): nat
  {
    if dirs == [] then 0 else (if dirs[0] == d then 1 else 0) + Count(dirs[1..], d)
  }

  lemma {:induction false} CountTotal(dirs: seq<Direction>)
    ensures Count(dirs, Left) + Count(dirs, Up) + Count(dirs, UpLeft) == |dirs|
  {
    if dirs != [] {
      CountTotal(dirs[1..]);
    }
  }

  /** The step the walk takes at cell (i, j) other than (0, 0): Left if its flag is set, else Up
      if its flag is set, else UpLeft (SomeFlagSet shows UpLeft is then set). */
  function Choose(p: Problem, i: nat, j: nat): (d: Direction)
    requires p.InTable(i, j) && (i, j) != (0, 0)
    ensures CanStep(d, i, j)
  {
    if LeftFlag(p, i, j) then Left
    else if UpFlag(p, i, j) then Up
    else UpLeft
  }

  /** The directions the walk takes from cell (i, j) back to (0, 0). */
  function Walk(p: Problem, i: nat, j: nat): seq<Direction>
    requires p.InTable(i, j)
    decreases i + j
  {
    if i == 0 && j == 0 then []
    else
      var d := Choose(p, i, j);
      [d] + Walk(p, Next(d, i, j).0, Next(d, i, j).1)
  }

  /** One step of the walk: the chosen direction, then the walk from the cell it leads to. */
  lemma WalkStep(p: Problem, i: nat, j: nat)
    requires p.InTable(i, j) && (i, j) != (0, 0)
    ensures var d := Choose(p, i, j);
      var c := Next(d, i, j);
      Walk(p, i, j) == [d] + Walk(p, c.0, c.1) && Walk(p, i, j)[1..] == Walk(p, c.0, c.1) &&
      Moves(Walk(p, i, j), i, j) && Moves(Walk(p, c.0, c.1), c.0, c.1)
  {
    var d := Choose(p, i, j);
    var c := Next(d, i, j);
    WalkMoves(p, c.0, c.1);
    assert Walk(p, i, j)[1..] == Walk(p, c.0, c.1);
  }

  /** One step of a loop that appends the glyph of each step to done until the whole list is built. */
  lemma GlyphsAdvance(p: Problem, i: nat, j: nat, i': nat, j': nat, done: seq<string>, whole: seq<string>)
    requires p.InTable(i, j) && (i, j) != (0, 0)
    requires (i', j') == Next(Choose(p, i, j), i, j)
    requires done + Glyphs(Walk(p, i, j)) == whole
    ensures (done + [Glyph(Choose(p, i, j))]) + Glyphs(Walk(p, i', j')) == whole
  {
    var d := Choose(p, i, j);
    var c := Next(d, i, j);
    WalkStep(p, i, j);
    var tail := Walk(p, c.0, c.1);
    assert Glyphs([d] + tail) == [Glyph(d)] + Glyphs(tail);
  }

  /** One step of a loop that appends the record of each step to done until the whole list is built. */
  lemma RecordsAdvance(p: Problem, xs: string, i: nat, j: nat, i': nat, j': nat, done: seq<Instruction>, whole: seq<Instruction>)
    requires p.InTable(i, j) && (i, j) != (0, 0) && i <= |xs|
    requires (i', j') == Next(Choose(p, i, j), i, j)
    requires Moves(Walk(p, i, j), i, j)
    requires done + Records(xs, p.y, Walk(p, i, j), i, j) == whole
    ensures Moves(Walk(p, i', j'), i', j')
    ensures (done + [Record(xs, p.y, Choose(p, i, j), i, j)]) + Records(xs, p.y, Walk(p, i', j'), i', j') == whole
  {
    var d := Choose(p, i, j);
    var c := Next(d, i, j);
    WalkStep(p, i, j);
    var tail := Walk(p, c.0, c.1);
    assert Records(xs, p.y, [d] + tail, i, j) == [Record(xs, p.y, d, i, j)] + Records(xs, p.y, tail, c.0, c.1);
  }

  /** The tie-break: the first step is Left exactly when Left is set, Up exactly when Up is set
      and Left is not, UpLeft exactly when UpLeft alone of the three is taken. */
  lemma WalkTieBreak(p: Problem, i: nat, j: nat)
    requires p.InTable(i, j) && (i, j) != (0, 0)
    ensures Walk(p, i, j) != []
    ensures Walk(p, i, j)[0] == Left <==> LeftFlag(p, i, j)
    ensures Walk(p, i, j)[0] == Up <==> !LeftFlag(p, i, j) && UpFlag(p, i, j)
    ensures Walk(p, i, j)[0] == UpLeft <==> !LeftFlag(p, i, j) && !UpFlag(p, i, j) && UpLeftFlag(p, i, j)
  {
    SomeFlagSet(p, i, j);
  }

  /** At an interior cell the recurrence term of the step the walk takes equals the cell's value;
      for a diagonal step that is the term with the match-or-substitution cost. */
  lemma WalkStepIsOptimal(p: Problem, i: nat, j: nat)
    requires 1 <= i <= |p.x| && 1 <= j <= |p.y|
    ensures Walk(p, i, j)[0] == Left ==> Dist(p, i, j) == Dist(p, i, j - 1) + p.ins
    ensures Walk(p, i, j)[0] == Up ==> Dist(p, i, j) == Dist(p, i - 1, j) + p.del
    ensures Walk(p, i, j)[0] == UpLeft ==> Dist(p, i, j) == Dist(p, i - 1, j - 1) + MatchCost(p, i, j)
  {
    DistIsMinimumOfTerms(p, i, j);
  }

  /** The walk stays in the table and is empty exactly at (0, 0). */
  lemma {:induction false} WalkMoves(p: Problem, i: nat, j: nat)
    requires p.InTable(i, j)
    ensures Moves(Walk(p, i, j), i, j)
    ensures Walk(p, i, j) == [] <==> (i, j) == (0, 0)
    decreases i + j
  {
    if (i, j) != (0, 0) {
      var w := Walk(p, i, j);
      var c := Next(w[0], i, j);
      WalkMoves(p, c.0, c.1);
      assert w[1..] == Walk(p, c.0, c.1);
    }
  }

  /** The walk ends exactly at (0, 0) and reaches it at no earlier step. */
  lemma {:induction false} WalkEndsAtOrigin(p: Problem, i: nat, j: nat)
    requires p.InTable(i, j) && (i, j) != (0, 0)
    ensures Moves(Walk(p, i, j), i, j)
    ensures var w := Walk(p, i, j);
      Cells(w, i, j)[|w| - 1] == (0, 0) &&
      forall k :: 0 <= k < |w| - 1 ==> Cells(w, i, j)[k] != (0, 0)
    decreases i + j
  {
    WalkMoves(p, i, j);
    var w := Walk(p, i, j);
    var c := Next(w[0], i, j);
    assert w[1..] == Walk(p, c.0, c.1);
    WalkMoves(p, c.0, c.1);
    var cs := Cells(w, i, j);
    assert cs == [c] + Cells(w[1..], c.0, c.1);
    if c != (0, 0) {
      WalkEndsAtOrigin(p, c.0, c.1);
      forall k | 0 <= k < |w| - 1
        ensures cs[k] != (0, 0)
      {
        if k > 0 {
          assert cs[k] == Cells(w[1..], c.0, c.1)[k - 1];
        }
      }
    }
  }

  /** The walk takes j horizontal and i vertical moves (a diagonal step is both). */
  lemma {:induction false} WalkCounts(p: Problem, i: nat, j: nat)
    requires p.InTable(i, j)
    ensures Count(Walk(p, i, j), Left) + Count(Walk(p, i, j), UpLeft) == j
    ensures Count(Walk(p, i, j), Up) + Count(Walk(p, i, j), UpLeft) == i
    decreases i + j
  {
    if (i, j) != (0, 0) {
      WalkMoves(p, i, j);
      var w := Walk(p, i, j);
      var c := Next(w[0], i, j);
      WalkCounts(p, c.0, c.1);
      assert w[1..] == Walk(p, c.0, c.1);
    }
  }

  /** The walk's length: #Insert - #Delete == j - i, and max(i, j) <= length <= i + j. */
  lemma WalkLength(p: Problem, i: nat, j: nat)
    requires p.InTable(i, j)
    ensures Count(Walk(p, i, j), Left) - Count(Walk(p, i, j), Up) == j - i
    ensures i <= |Walk(p, i, j)| <= i + j && j <= |Walk(p, i, j)|
  {
    WalkCounts(p, i, j);
    CountTotal(Walk(p, i, j));
  }

  /** The cost of one step as the distance table charges it: the boundary seeding charges 1
      for every step along row 0 or column 0, the interior the matching recurrence cost. */
  function StepCost(p: Problem, d: Direction, i: nat, j: nat): int
    requires CanStep(d, i, j) && i <= |p.x| && j <= |p.y|
  {
    if i == 0 || j == 0 then 1
    else match d
      case Left => p.ins
      case Up => p.del
      case UpLeft => MatchCost(p, i, j)
  }

  /** The total cost of the steps of dirs taken from (i, j). */
  function PathCost(p: Problem, dirs: seq<Direction>, i: nat, j: nat): int
    requires Moves(dirs, i, j) && i <= |p.x| && j <= |p.y|
  {
    if dirs == [] then 0
    else
      var c := Next(dirs[0], i, j);
      StepCost(p, dirs[0], i, j) + PathCost(p, dirs[1..], c.0, c.1)
  }

  /** The walked path realises the distance: its total cost is the value of its first cell. */
  lemma {:induction false} WalkCostIsDistance(p: Problem, i: nat, j: nat)
    requires p.InTable(i, j)
    ensures Moves(Walk(p, i, j), i, j)
    ensures PathCost(p, Walk(p, i, j), i, j) == Dist(p, i, j)
    decreases i + j
  {
    WalkMoves(p, i, j);
    if (i, j) != (0, 0) {
      var w := Walk(p, i, j);
      var c := Next(w[0], i, j);
      WalkCostIsDistance(p, c.0, c.1);
      assert w[1..] == Walk(p, c.0, c.1);
      if i > 0 && j > 0 {
        WalkStepIsOptimal(p, i, j);
      }
    }
  }

  /** The steps of dirs, taken in order from (i, j), stay inside the table and end at (0, 0). */
  predicate Reaches(dirs: seq<Direction>, i: nat, j: nat)
  {
    if dirs == [] then i == 0 && j == 0
    else CanStep(dirs[0], i, j) && Reaches(dirs[1..], Next(dirs[0], i, j).0, Next(dirs[0], i, j).1)
  }

  /** No step sequence from (i, j) to the origin costs less than d[i][j]: the table holds the
      minimum edit cost, not just some cost. */
  lemma {:induction false} DistIsMinimumPathCost(p: Problem, dirs: seq<Direction>, i: nat, j: nat)
    requires p.InTable(i, j) && Reaches(dirs, i, j)
    ensures Moves(dirs, i, j)
    ensures Dist(p, i, j) <= PathCost(p, dirs, i, j)
    decreases |dirs|
  {
    if dirs != [] {
      var c := Next(dirs[0], i, j);
      DistIsMinimumPathCost(p, dirs[1..], c.0, c.1);
      if i > 0 && j > 0 {
        DistIsMinimumOfTerms(p, i, j);
      }
    }
  }

  /** The walk from (i, j) is one of those step sequences. */
  lemma {:induction false} WalkReaches(p: Problem, i: nat, j: nat)
    requires p.InTable(i, j)
    ensures Reaches(Walk(p, i, j), i, j)
    decreases i + j
  {
    if (i, j) != (0, 0) {
      var d := Choose(p, i, j);
      var c := Next(d, i, j);
      WalkReaches(p, c.0, c.1);
      WalkStep(p, i, j);
    }
  }

  /** The walk is a cheapest edit path: no step sequence from (m, n) to the origin costs less. */
  lemma WalkIsCheapestPath(p: Problem, dirs: seq<Direction>)
    requires Reaches(dirs, |p.x|, |p.y|)
    ensures Moves(dirs, |p.x|, |p.y|) && Moves(Walk(p, |p.x|, |p.y|), |p.x|, |p.y|)
    ensures PathCost(p, Walk(p, |p.x|, |p.y|), |p.x|, |p.y|) <= PathCost(p, dirs, |p.x|, |p.y|)
  {
    DistIsMinimumPathCost(p, dirs, |p.x|, |p.y|);
    WalkCostIsDistance(p, |p.x|, |p.y|);
  }

  /** The glyph list get_instructions_raw returns for a walk. */
  function Glyphs(dirs: seq<Direction>): (gs: seq<string>)
    ensures |gs| == |dirs|
  {
    seq(|dirs|, k requires 0 <= k < |dirs| => Glyph(dirs[k]))
  }

  /** One record of get_instructions: what is inserted, deleted, or replaced by what. */
  datatype Instruction = Insert(ch: char) | Delete(ch: char) | Replace(from: char, to: char)
  {
    /** The direction of the walk step the record was emitted for. */
    function Kind(): Direction
    {
      match this
      case Insert(_) => Left
      case Delete(_) => Up
      case Replace(_, _) => UpLeft
    }
  }

  /** The records of the steps of dirs taken from (i, j), naming the characters at the cursor
      before it moves: Insert y[j-1], Delete xs[i-1], Replace xs[i-1] with y[j-1]. */
  function Records(xs: string, y: string, dirs: seq<Direction>, i: nat, j: nat): seq<Instruction>
    requires Moves(dirs, i, j) && i <= |xs| && j <= |y|
  {
    if dirs == [] then []
    else
      var c := Next(dirs[0], i, j);
      [Record(xs, y, dirs[0], i, j)] + Records(xs, y, dirs[1..], c.0, c.1)
  }

  /** The record of one step taken from cursor (i, j). */
  function Record(xs: string, y: string, d: Direction, i: nat, j: nat): Instruction
    requires CanStep(d, i, j) && i <= |xs| && j <= |y|
  {
    match d
    case Left => Insert(y[j - 1])
    case Up => Delete(xs[i - 1])
    case UpLeft => Replace(xs[i - 1], y[j - 1])
  }

  /** The records mirror the walk: one per step, of that step's kind and glyph. */
  lemma {:induction false} RecordsMirrorWalk(xs: string, y: string, dirs: seq<Direction>, i: nat, j: nat)
    requires Moves(dirs, i, j) && i <= |xs| && j <= |y|
    ensures |Records(xs, y, dirs, i, j)| == |dirs|
    ensures forall k :: 0 <= k < |dirs| ==>
      Records(xs, y, dirs, i, j)[k].Kind() == dirs[k] && Glyph(Records(xs, y, dirs, i, j)[k].Kind()) == Glyphs(dirs)[k]
  {
    if dirs != [] {
      var c := Next(dirs[0], i, j);
      RecordsMirrorWalk(xs, y, dirs[1..], c.0, c.1);
    }
  }

  /** On the diagonal of a string against itself the walk always takes the UpLeft step. */
  lemma DiagonalChoosesUpLeft(p: Problem, i: nat)
    requires p.x == p.y && p.sub >= 0 && p.del > 0 && p.ins > 0
    requires 0 < i <= |p.x|
    ensures Choose(p, i, i) == UpLeft
    ensures Walk(p, i, i) == [UpLeft] + Walk(p, i - 1, i - 1)
  {
    DistToSelfIsZero(p, i);
    DistNonNegative(p, i - 1, i);
    DistNonNegative(p, i, i - 1);
    assert !LeftFlag(p, i, i) && !UpFlag(p, i, i);
  }

  /** With positive insertion and deletion costs, a string against itself walks the diagonal,
      so every record is a Replace of a character by itself (the list is never empty when the
      string is not). */
  lemma {:induction false} EqualStringsGiveReplaceRecords(p: Problem, i: nat)
    requires p.x == p.y && p.sub >= 0 && p.del > 0 && p.ins > 0
    requires i <= |p.x|
    ensures Walk(p, i, i) == seq(i, _ => UpLeft)
    ensures Moves(Walk(p, i, i), i, i)
    ensures Records(p.x, p.y, Walk(p, i, i), i, i) == seq(i, k requires 0 <= k < i => Replace(p.x[i - 1 - k], p.x[i - 1 - k]))
  {
    if i > 0 {
      EqualStringsGiveReplaceRecords(p, i - 1);
      DiagonalChoosesUpLeft(p, i);
      var w := Walk(p, i, i);
      var tail := Walk(p, i - 1, i - 1);
      assert w[0] == UpLeft && w[1..] == tail;
      assert w == seq(i, _ => UpLeft);
      assert Records(p.x, p.y, w, i, i) == [Replace(p.x[i - 1], p.x[i - 1])] + Records(p.x, p.y, tail, i - 1, i - 1);
    }
  }

  /** Python's s[:k] for k >= 0: a prefix, clamped to the whole string. */
  function Take(s: string, k: nat): string
  {
    if k <= |s| then s[..k] else s
  }

  /** Python's s[k:] for k >= 0: a suffix, empty once k passes the end. */
  function Drop(s: string, k: nat): string
  {
    if k <= |s| then s[k..] else []
  }

  /** One replay step on the current string s at cursor (i, j): UpLeft overwrites position i-1
      with y[j-1], Left inserts y[j-1] at position i, Up removes position i-1. */
  function Apply(s: string, y: string, d: Direction, i: nat, j: nat): string
    requires CanStep(d, i, j) && j <= |y|
  {
    match d
    case UpLeft => Take(s, i - 1) + [y[j - 1]] + Drop(s, i)
    case Left => Take(s, i) + [y[j - 1]] + Drop(s, i)
    case Up => Take(s, i - 1) + Drop(s, i)
  }

  /** The strings the replay yields after each step of dirs, starting from s at cursor (i, j). */
  function ReplaySteps(s: string, y: string, dirs: seq<Direction>, i: nat, j: nat): (ss: seq<string>)
    requires Moves(dirs, i, j) && j <= |y|
    ensures |ss| == |dirs|
    decreases |dirs|
  {
    if dirs == [] then []
    else
      var c := Next(dirs[0], i, j);
      var s' := Apply(s, y, dirs[0], i, j);
      [s'] + ReplaySteps(s', y, dirs[1..], c.0, c.1)
  }

  /** One step of a loop that replays dirs[k] on s and appends the result to done until the
      whole snapshot list is built. */
  lemma ReplayAdvance(s: string, y: string, dirs: seq<Direction>, k: nat, i: nat, j: nat, done: seq<string>, whole: seq<string>)
    requires k < |dirs| && Moves(dirs[k..], i, j) && j <= |y|
    requires done + ReplaySteps(s, y, dirs[k..], i, j) == whole
    ensures CanStep(dirs[k], i, j)
    ensures var c := Next(dirs[k], i, j);
      var s' := Apply(s, y, dirs[k], i, j);
      Moves(dirs[k + 1..], c.0, c.1) && (done + [s']) + ReplaySteps(s', y, dirs[k + 1..], c.0, c.1) == whole
  {
    assert dirs[k..][0] == dirs[k] && dirs[k..][1..] == dirs[k + 1..];
  }

  /** The replay invariant: starting from x0[..i] + y[j..], the string after every step is the
      source prefix before the cursor followed by the target suffix after it. */
  lemma {:induction false} ReplayInvariant(x0: string, y: string, s: string, dirs: seq<Direction>, i: nat, j: nat)
    requires Moves(dirs, i, j) && i <= |x0| && j <= |y|
    requires s == x0[..i] + y[j..]
    ensures forall k :: 0 <= k < |dirs| ==>
      ReplaySteps(s, y, dirs, i, j)[k] == x0[..Cells(dirs, i, j)[k].0] + y[Cells(dirs, i, j)[k].1..]
    decreases |dirs|
  {
    if dirs != [] {
      var c := Next(dirs[0], i, j);
      var s' := Apply(s, y, dirs[0], i, j);
      assert Take(s, i) == x0[..i] && Drop(s, i) == y[j..];
      if i > 0 {
        assert Take(s, i - 1) == x0[..i - 1];
      }
      if j > 0 {
        assert y[j - 1..] == [y[j - 1]] + y[j..];
      }
      assert s' == x0[..c.0] + y[c.1..];
      ReplayInvariant(x0, y, s', dirs[1..], c.0, c.1);
    }
  }

  /** Replaying the walk of the whole table on the source yields one string per step, and the
      snapshot list (source first) ends with the target. */
  lemma ReplayReachesTarget(p: Problem)
    ensures Moves(Walk(p, |p.x|, |p.y|), |p.x|, |p.y|)
    ensures var w := Walk(p, |p.x|, |p.y|);
      ([p.x] + ReplaySteps(p.x, p.y, w, |p.x|, |p.y|))[|w|] == p.y
  {
    var m, n := |p.x|, |p.y|;
    var w := Walk(p, m, n);
    WalkMoves(p, m, n);
    if w != [] {
      WalkEndsAtOrigin(p, m, n);
      assert p.x == p.x[..m] + p.y[n..];
      ReplayInvariant(p.x, p.y, p.x, w, m, n);
    }
  }

  /** Source "" and target "abc": three Insert steps. */
  lemma InsertOnlyExample()
    ensures Walk(Problem("", "abc", 2, 1, 1), 0, 3) == [Left, Left, Left]
    ensures Records("", "abc", [Left, Left, Left], 0, 3) == [Insert('c'), Insert('b'), Insert('a')]
  {
  }

  /** Source "abc" and target "": three Delete steps. */
  lemma DeleteOnlyExample()
    ensures Walk(Problem("abc", "", 2, 1, 1), 3, 0) == [Up, Up, Up]
    ensures Records("abc", "", [Up, Up, Up], 3, 0) == [Delete('c'), Delete('b'), Delete('a')]
  {
  }

  /** Source "ab", target "ba", substitution cost 5: the tie at (2, 2) goes Left. */
  lemma TieExample()
    ensures Walk(Problem("ab", "ba", 5, 1, 1), 2, 2) == [Left, UpLeft, Up]
    ensures Records("ab", "ba", [Left, UpLeft, Up], 2, 2) == [Insert('a'), Replace('b', 'b'), Delete('a')]
    ensures ReplaySteps("ab", "ba", [Left, UpLeft, Up], 2, 2) == ["aba", "aba", "ba"]
  {
    var p := Problem("ab", "ba", 5, 1, 1);
    assert Dist(p, 1, 1) == 2;
    assert Dist(p, 2, 1) == 1;
    assert Dist(p, 1, 2) == 1;
    assert Dist(p, 2, 2) == 2;
    assert Apply("ab", "ba", Left, 2, 2) == "aba";
    assert Apply("aba", "ba", UpLeft, 2, 1) == "aba";
    assert Apply("aba", "ba", Up, 1, 0) == "ba";
  }
}
