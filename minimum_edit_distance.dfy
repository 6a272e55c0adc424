/** The MinimumEditDistance object: it fills a distance table and a direction table in place
    at construction, walks the directions back to read off the edits, and replays them on its
    own source field. */
module MinimumEditDistanceModel {
  import opened Directions
  import opened EditDistance
  import opened Backtrack

  class MinimumEditDistance {
    var x: string
    const y: string
    const insCost: int
    const delCost: int
    const subCost: int
    const rows: nat
    const cols: nat
    const distanceMatrix: array2<int>
    /** Slot Value() - 1 of cell (i, j) holds the direction's Value() when its flag is set, else 0. */
    const directionMatrix: array3<int>
    /** The source string the tables were built from (the replay later overwrites x). */
    ghost const source: string

    /** The computation the tables describe. */
    ghost function Spec(): Problem
    {
      Problem(source, y, subCost, delCost, insCost)
    }

    ghost predicate Shaped()
    {
      rows == |source| + 1 && cols == |y| + 1 &&
      distanceMatrix.Length0 == rows && distanceMatrix.Length1 == cols &&
      directionMatrix.Length0 == rows && directionMatrix.Length1 == cols && directionMatrix.Length2 == 3
    }

    ghost predicate DistanceFilled()
      reads distanceMatrix
      requires Shaped()
    {
      forall i, j | 0 <= i < rows && 0 <= j < cols :: distanceMatrix[i, j] == Dist(Spec(), i, j)
    }

    ghost predicate DirectionFilled()
      reads directionMatrix
      requires Shaped()
    {
      forall i, j, k | 0 <= i < rows && 0 <= j < cols && 0 <= k < 3 ::
        directionMatrix[i, j, k] == FlagValue(Spec(), i, j, k)
    }

    /** Both tables are filled from the source and the costs. */
    ghost predicate Valid()
      reads distanceMatrix, directionMatrix
    {
      Shaped() && DistanceFilled() && DirectionFilled()
    }

    constructor (x: string, y: string, substitutionCost: int := 2, delCost: int := 1, insertionCost: int := 1)
      ensures this.x == x && this.y == y && source == x
      ensures subCost == substitutionCost && this.delCost == delCost && insCost == insertionCost
      ensures rows == 1 + |x| && cols == 1 + |y|
      ensures fresh(distanceMatrix) && fresh(directionMatrix)
      ensures Valid()
    {
      this.y := y;
      this.x := x;
      source := x;
      insCost := insertionCost;
      this.delCost := delCost;
      subCost := substitutionCost;
      rows := 1 + |x|;
      cols := 1 + |y|;
      distanceMatrix := new int[1 + |x|, 1 + |y|]((i, j) => 0);
      directionMatrix := new int[1 + |x|, 1 + |y|, 3]((i, j, k) => 0);
      new;
      CalculateDistance();
      CalculateDirection();
    }

    /** Seeds column 0 with i and row 0 with j, then fills the interior row by row with the
        minimum of the deletion, insertion and match-or-substitution terms. */
    method CalculateDistance()
      requires Shaped() && x == source
      modifies distanceMatrix
      ensures DistanceFilled()
    {
      for i := 0 to rows
        invariant forall a | 0 <= a < i :: distanceMatrix[a, 0] == a
      {
        distanceMatrix[i, 0] := i;
      }
      for j := 0 to cols
        invariant forall a | 0 <= a < rows :: distanceMatrix[a, 0] == a
        invariant forall b | 0 <= b < j :: distanceMatrix[0, b] == b
      {
        distanceMatrix[0, j] := j;
      }
      for i := 1 to rows
        invariant forall a, b | 0 <= a < rows && 0 <= b < cols && (a == 0 || b == 0 || a < i) ::
          distanceMatrix[a, b] == Dist(Spec(), a, b)
      {
        for j := 1 to cols
          invariant forall a, b | 0 <= a < rows && 0 <= b < cols && (a == 0 || b == 0 || a < i || (a == i && b < j)) ::
            distanceMatrix[a, b] == Dist(Spec(), a, b)
        {
          SetDistance(i, j);
        }
      }
    }

    /** The body of the interior loop: the minimum of the deletion, insertion and
        match-or-substitution terms goes into cell (i, j), and no other cell changes. */
    method SetDistance(i: int, j: int)
      requires Shaped() && x == source && 0 < i < rows && 0 < j < cols
      requires distanceMatrix[i - 1, j] == Dist(Spec(), i - 1, j)
      requires distanceMatrix[i, j - 1] == Dist(Spec(), i, j - 1)
      requires distanceMatrix[i - 1, j - 1] == Dist(Spec(), i - 1, j - 1)
      modifies distanceMatrix
      ensures distanceMatrix[i, j] == Dist(Spec(), i, j)
      ensures forall a, b | 0 <= a < rows && 0 <= b < cols && (a != i || b != j) ::
        distanceMatrix[a, b] == old(distanceMatrix[a, b])
    {
      var subCost := this.subCost;
      if x[i - 1] == y[j - 1] {
        subCost := 0;
      }
      assert subCost == MatchCost(Spec(), i, j);
      distanceMatrix[i, j] := Min3(
        distanceMatrix[i - 1, j] + delCost,
        distanceMatrix[i, j - 1] + insCost,
        distanceMatrix[i - 1, j - 1] + subCost);
    }

    /** The distance of the whole source to the whole target, d[m][n]. */
    function GetMinDist(): (d: int)
      reads distanceMatrix, directionMatrix
      requires Valid()
      ensures d == Dist(Spec(), |source|, |y|)
    {
      distanceMatrix[rows - 1, cols - 1]
    }

    /** The filled distance table in its own terms: the boundary holds the plain indices
        whatever the costs, and each interior cell is the cheapest of its three terms. */
    lemma TableRecurrence(i: int, j: int)
      requires Valid() && 0 <= i < rows && 0 <= j < cols
      ensures j == 0 ==> distanceMatrix[i, j] == i
      ensures i == 0 ==> distanceMatrix[i, j] == j
      ensures i > 0 && j > 0 ==>
        distanceMatrix[i, j] == Min3(distanceMatrix[i - 1, j] + delCost, distanceMatrix[i, j - 1] + insCost,
                                     distanceMatrix[i - 1, j - 1] + (if source[i - 1] == y[j - 1] then 0 else subCost))
    {
    }

    /** Stamps Up on column 0 and Left on row 0, then sets each interior flag whose recurrence
        term reaches the cell's value. */
    method CalculateDirection()
      requires Shaped() && DistanceFilled()
      requires forall i, j, k | 0 <= i < rows && 0 <= j < cols && 0 <= k < 3 :: directionMatrix[i, j, k] == 0
      modifies directionMatrix
      ensures DirectionFilled()
    {
      for i := 0 to rows
        invariant forall a, b, k | 0 <= a < rows && 0 <= b < cols && 0 <= k < 3 ::
          directionMatrix[a, b, k] == (if a < i && b == 0 && k == 1 then 2 else 0)
      {
        var index := Up.Value() - 1;
        directionMatrix[i, 0, index] := Up.Value();
      }
      for j := 0 to cols
        invariant forall a, b, k | 0 <= a < rows && 0 <= b < cols && 0 <= k < 3 ::
          directionMatrix[a, b, k] == (if b == 0 && k == 1 then 2 else if a == 0 && b < j && k == 0 then 1 else 0)
      {
        var index := Left.Value() - 1;
        directionMatrix[0, j, index] := Left.Value();
      }
      for i := 1 to rows
        invariant forall a, b, k | 0 <= a < rows && 0 <= b < cols && 0 <= k < 3 ::
          directionMatrix[a, b, k] == (if a == 0 || b == 0 || a < i then FlagValue(Spec(), a, b, k) else 0)
      {
        for j := 1 to cols
          invariant forall a, b, k | 0 <= a < rows && 0 <= b < cols && 0 <= k < 3 ::
            directionMatrix[a, b, k] ==
              (if a == 0 || b == 0 || a < i || (a == i && b < j) then FlagValue(Spec(), a, b, k) else 0)
        {
          SetFlags(i, j);
        }
      }
    }

    /** The body of the interior loop: sets the flags of cell (i, j) whose recurrence term
        reaches the cell's value, and touches no other cell. */
    method SetFlags(i: int, j: int)
      requires Shaped() && DistanceFilled() && 0 < i < rows && 0 < j < cols
      requires forall k | 0 <= k < 3 :: directionMatrix[i, j, k] == 0
      modifies directionMatrix
      ensures forall k | 0 <= k < 3 :: directionMatrix[i, j, k] == FlagValue(Spec(), i, j, k)
      ensures forall a, b, k | 0 <= a < rows && 0 <= b < cols && 0 <= k < 3 && (a != i || b != j) ::
        directionMatrix[a, b, k] == old(directionMatrix[a, b, k])
    {
      var dist := distanceMatrix[i, j];
      if distanceMatrix[i - 1, j] + delCost == dist {
        directionMatrix[i, j, Up.Value() - 1] := Up.Value();
      }
      if distanceMatrix[i, j - 1] + insCost == dist {
        directionMatrix[i, j, Left.Value() - 1] := Left.Value();
      }
      if distanceMatrix[i - 1, j - 1] == dist || distanceMatrix[i - 1, j - 1] + subCost == dist {
        directionMatrix[i, j, UpLeft.Value() - 1] := UpLeft.Value();
      }
      assert FlagValue(Spec(), i, j, 0) == if LeftFlag(Spec(), i, j) then 1 else 0;
      assert FlagValue(Spec(), i, j, 1) == if UpFlag(Spec(), i, j) then 2 else 0;
      assert FlagValue(Spec(), i, j, 2) == if UpLeftFlag(Spec(), i, j) then 3 else 0;
    }

    /** The flag invariant in terms of the two tables: column 0 carries Up, row 0 carries Left,
        and an interior flag is set exactly when its recurrence term reaches the cell's value. */
    lemma FlagInvariant(i: int, j: int)
      requires Valid() && 0 <= i < rows && 0 <= j < cols
      ensures j == 0 ==> directionMatrix[i, j, Up.Value() - 1] == Up.Value()
      ensures i == 0 ==> directionMatrix[i, j, Left.Value() - 1] == Left.Value()
      ensures i > 0 && j > 0 ==>
        (directionMatrix[i, j, Up.Value() - 1] != 0 <==> distanceMatrix[i - 1, j] + delCost == distanceMatrix[i, j])
      ensures i > 0 && j > 0 ==>
        (directionMatrix[i, j, Left.Value() - 1] != 0 <==> distanceMatrix[i, j - 1] + insCost == distanceMatrix[i, j])
      ensures i > 0 && j > 0 ==>
        (directionMatrix[i, j, UpLeft.Value() - 1] != 0 <==>
         distanceMatrix[i - 1, j - 1] == distanceMatrix[i, j] || distanceMatrix[i - 1, j - 1] + subCost == distanceMatrix[i, j])
    {
      CellFlags(i, j);
    }

    /** Each slot of a cell holds its direction's value when the flag is set and 0 otherwise. */
    lemma CellFlags(i: int, j: int)
      requires Valid() && 0 <= i < rows && 0 <= j < cols
      ensures directionMatrix[i, j, 0] == (if LeftFlag(Spec(), i, j) then Left.Value() else 0)
      ensures directionMatrix[i, j, 1] == (if UpFlag(Spec(), i, j) then Up.Value() else 0)
      ensures directionMatrix[i, j, 2] == (if UpLeftFlag(Spec(), i, j) then UpLeft.Value() else 0)
    {
      assert directionMatrix[i, j, 0] == FlagValue(Spec(), i, j, 0);
      assert directionMatrix[i, j, 1] == FlagValue(Spec(), i, j, 1);
      assert directionMatrix[i, j, 2] == FlagValue(Spec(), i, j, 2);
    }

    /** What the walk reads at a cell other than (0, 0): the first non-zero slot in the order
        Left, Up, UpLeft belongs to the step Choose takes, and it holds that direction's value. */
    lemma StepAt(i: int, j: int)
      requires Valid() && 0 <= i < rows && 0 <= j < cols && (i, j) != (0, 0)
      ensures var d := Choose(Spec(), i, j);
        && (directionMatrix[i, j, 0] != 0 ==> d == Left)
        && (directionMatrix[i, j, 0] == 0 && directionMatrix[i, j, 1] != 0 ==> d == Up)
        && (directionMatrix[i, j, 0] == 0 && directionMatrix[i, j, 1] == 0 ==> directionMatrix[i, j, 2] != 0 && d == UpLeft)
        && directionMatrix[i, j, d.Value() - 1] == d.Value()
    {
      CellFlags(i, j);
      SomeFlagSet(Spec(), i, j);
    }

    /** Reads the Left, Up and UpLeft slots of a cell other than (0, 0) and returns the first
        non-zero one in that order: the tie-break both walks apply. */
    method FirstFlag(i: int, j: int) returns (dirValue: int)
      requires Valid() && 0 <= i < rows && 0 <= j < cols && (i, j) != (0, 0)
      ensures dirValue == Choose(Spec(), i, j).Value()
    {
      var dirLeft := directionMatrix[i, j, Left.Value() - 1];
      var dirUp := directionMatrix[i, j, Up.Value() - 1];
      var dirUl := directionMatrix[i, j, UpLeft.Value() - 1];
      StepAt(i, j);
      if dirLeft != 0 {
        dirValue := dirLeft;
      } else if dirUp != 0 {
        dirValue := dirUp;
      } else {
        dirValue := dirUl;
      }
    }

    /** Walks the flags from (m, n) to (0, 0), taking Left, else Up, else UpLeft, and returns the
        glyph of every step taken. */
    method GetInstructionsRaw() returns (result: seq<string>)
      requires Valid()
      ensures result == Glyphs(Walk(Spec(), |source|, |y|))
    {
      result := [];
      var i := rows - 1;
      var j := cols - 1;
      ghost var whole := Glyphs(Walk(Spec(), i, j));
      while !(i == 0 && j == 0)
        invariant 0 <= i < rows && 0 <= j < cols
        invariant result + Glyphs(Walk(Spec(), i, j)) == whole
        decreases i + j
      {
        var dir := FirstFlag(i, j);
        ghost var before, i0, j0 := result, i, j;
        result := result + [GetChar(dir)];
        if dir == Left.Value() {
          j := j - 1;
        } else if dir == Up.Value() {
          i := i - 1;
        } else {
          i := i - 1;
          j := j - 1;
        }
        GlyphsAdvance(Spec(), i0, j0, i, j, before, whole);
      }
    }

    /** The same walk, emitting one record per step: Insert y[j-1], Delete x[i-1] or Replace
        x[i-1] with y[j-1], read before the cursor moves. The current x is read, which after a
        replay is no longer the source; a shorter x would make Python's x[i-1] raise. */
    method GetInstructions() returns (results: seq<Instruction>)
      requires Valid()
      requires |x| >= rows - 1
      ensures Moves(Walk(Spec(), |source|, |y|), |source|, |y|)
      ensures results == Records(x, y, Walk(Spec(), |source|, |y|), |source|, |y|)
    {
      results := [];
      var i := rows - 1;
      var j := cols - 1;
      WalkMoves(Spec(), i, j);
      ghost var whole := Records(x, y, Walk(Spec(), i, j), i, j);
      while !(i == 0 && j == 0)
        invariant 0 <= i < rows && 0 <= j < cols
        invariant Moves(Walk(Spec(), i, j), i, j)
        invariant results + Records(x, y, Walk(Spec(), i, j), i, j) == whole
        decreases i + j
      {
        var dir := FirstFlag(i, j);
        ghost var d, before, i0, j0 := Choose(Spec(), i, j), results, i, j;
        assert Record(x, y, d, i, j) == if d == Left then Insert(y[j - 1])
          else if d == Up then Delete(x[i - 1]) else Replace(x[i - 1], y[j - 1]);
        if dir == Left.Value() {
          assert d == Left;
          results := results + [Insert(y[j - 1])];
          j := j - 1;
        } else if dir == Up.Value() {
          assert d == Up;
          results := results + [Delete(x[i - 1])];
          i := i - 1;
        } else {
          assert d == UpLeft;
          results := results + [Replace(x[i - 1], y[j - 1])];
          j := j - 1;
          i := i - 1;
        }
        RecordsAdvance(Spec(), x, i0, j0, i, j, before, whole);
      }
    }

    /** One step of the replay on the field x: "↖" overwrites position i-1 with y[j-1], "←"
        inserts y[j-1] at position i, any other glyph removes position i-1; the cursor moves as
        the walk did. */
    method ReplayStep(ch: string, i: nat, j: nat) returns (i': nat, j': nat)
      requires CanStep(Decode(ch), i, j) && j <= |y|
      modifies this`x
      ensures x == Apply(old(x), y, Decode(ch), i, j)
      ensures (i', j') == Next(Decode(ch), i, j)
    {
      if ch == "↖" {
        x := Take(x, i - 1) + [y[j - 1]] + Drop(x, i);
        i', j' := i - 1, j - 1;
      } else if ch == "←" {
        x := Take(x, i) + [y[j - 1]] + Drop(x, i);
        i', j' := i, j - 1;
      } else {
        x := Take(x, i - 1) + Drop(x, i);
        i', j' := i - 1, j;
      }
    }

    /** Replays the glyphs on the field x: the first snapshot is x as it was, then x after each
        step; x is overwritten at every step and ends as the last snapshot. */
    method PrintStepByStep() returns (snapshots: seq<string>)
      requires Valid()
      modifies this`x
      ensures Moves(Walk(Spec(), |source|, |y|), |source|, |y|)
      ensures snapshots == [old(x)] + ReplaySteps(old(x), y, Walk(Spec(), |source|, |y|), |source|, |y|)
      ensures |snapshots| == |Walk(Spec(), |source|, |y|)| + 1
      ensures x == snapshots[|snapshots| - 1]
      ensures old(x) == source ==> x == y
    {
      var ins := GetInstructionsRaw();
      var i: nat := rows - 1;
      var j: nat := cols - 1;
      ghost var w := Walk(Spec(), i, j);
      assert ins == Glyphs(w);
      WalkMoves(Spec(), i, j);
      ghost var whole := [x] + ReplaySteps(x, y, w, i, j);
      snapshots := [x];
      for k := 0 to |ins|
        invariant i < rows && j < cols
        invariant |snapshots| == k + 1 && x == snapshots[k]
        invariant Moves(w[k..], i, j)
        invariant snapshots + ReplaySteps(x, y, w[k..], i, j) == whole
      {
        var ch := ins[k];
        ReplayAdvance(x, y, w, k, i, j, snapshots, whole);
        DecodeGlyph(w[k]);
        i, j := ReplayStep(ch, i, j);
        snapshots := snapshots + [x];
      }
      ReplayReachesTarget(Spec());
    }
  }
}
