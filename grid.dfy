/**
  The 15 x 15 grid [-7, 7]^2 the agent walks on: state keys, the four unit
  moves with clamping, the boundary action filter, and the goal test.

  Actions: 0 forward (z + 1), 1 backward (z - 1), 2 right (x + 1), 3 left (x - 1).
*/
module Grid {

  /** Half-extent of the grid (gridPositionConstant). */
  const GridPositionConstant: int := 7
  /** Length of one move (stepSize). */
  const StepSize: int := 1
  /** Distance per axis within which the target counts as reached (targetThreshold). */
  const TargetThreshold: real := 0.5

  /** A position on the ground plane; the height coordinate y is never used by the learner. */
  datatype Position = Position(x: int, z: int)

  /** The state key: the two rounded coordinates (the source's string "x,z"). */
  datatype State = State(x: int, z: int)

  const StartPosition: Position := Position(GridPositionConstant, -GridPositionConstant)
  const TargetPosition: Position := Position(-GridPositionConstant, GridPositionConstant)

  predicate InGrid(p: Position) {
    -GridPositionConstant <= p.x <= GridPositionConstant &&
    -GridPositionConstant <= p.z <= GridPositionConstant
  }

  function Abs(n: int): nat {
    if n < 0 then -n else n
  }

  // ---------------------------------------------------------------------------
  // State coding
  // ---------------------------------------------------------------------------

  /**
    Round to the nearest integer, halves to the even neighbour
    (the rule of Mathf.RoundToInt).
  */
  function RoundToInt(r: real): (n: int)
    ensures n as real - 0.5 <= r <= n as real + 0.5
    ensures r == n as real - 0.5 || r == n as real + 0.5 ==> n % 2 == 0
  {
    var f := r.Floor;
    var d := r - f as real;
    if d < 0.5 then f
    else if d > 0.5 then f + 1
    else if f % 2 == 0 then f else f + 1
  }

  /** The two properties of RoundToInt determine it: no other integer has both. */
  lemma RoundingIsDetermined(r: real, n: int)
    requires n as real - 0.5 <= r <= n as real + 0.5
    requires r == n as real - 0.5 || r == n as real + 0.5 ==> n % 2 == 0
    ensures n == RoundToInt(r)
  {
  }

  /** The key of a position given by real coordinates (getState). */
  function StateOf(x: real, z: real): State {
    State(RoundToInt(x), RoundToInt(z))
  }

  /** getState on a grid position: rounding an integer coordinate changes nothing. */
  function GetState(p: Position): (s: State)
    ensures s == State(p.x, p.z)
  {
    StateOf(p.x as real, p.z as real)
  }

  /** Two coordinate pairs share a key exactly when their rounded coordinates agree. */
  lemma SameKeyIffSameRounding(x1: real, z1: real, x2: real, z2: real)
    ensures StateOf(x1, z1) == StateOf(x2, z2) <==>
            RoundToInt(x1) == RoundToInt(x2) && RoundToInt(z1) == RoundToInt(z2)
  {
  }

  /** On grid positions the key is a one-to-one coding. */
  lemma GetStateInjective(p: Position, q: Position)
    ensures GetState(p) == GetState(q) <==> p == q
  {
  }

  // ---------------------------------------------------------------------------
  // Movement
  // ---------------------------------------------------------------------------

  /** Mathf.Clamp on integers. */
  function Clamp(v: int, lo: int, hi: int): (c: int)
    ensures lo <= hi ==> lo <= c <= hi
    ensures lo <= v <= hi ==> c == v
  {
    if v < lo then lo else if v > hi then hi else v
  }

  /** newPos: one unit step in the direction of the action, then both axes clamped to the grid. */
  function NewPos(p: Position, action: int): (q: Position)
    ensures InGrid(q)
    ensures InGrid(p) ==> Abs(q.x - p.x) + Abs(q.z - p.z) <= StepSize
  {
    var stepped :=
      match action
      case 0 => Position(p.x, p.z + StepSize)
      case 1 => Position(p.x, p.z - StepSize)
      case 2 => Position(p.x + StepSize, p.z)
      case 3 => Position(p.x - StepSize, p.z)
      case _ => p;
    Position(Clamp(stepped.x, -GridPositionConstant, GridPositionConstant),
             Clamp(stepped.z, -GridPositionConstant, GridPositionConstant))
  }

  /**
    move: the clamped step, except that with the collision check on (training
    mode) a step into an obstacle leaves the position where it was.
  */
  function MoveResult(p: Position, action: int, collisionCheck: bool,
                      blocked: (Position, int) -> bool): (q: Position)
    ensures q == p || q == NewPos(p, action)
    ensures InGrid(p) ==> InGrid(q)
    ensures collisionCheck && blocked(NewPos(p, action), action) ==> q == p
    ensures !(collisionCheck && blocked(NewPos(p, action), action)) ==> q == NewPos(p, action)
  {
    var target := NewPos(p, action);
    if collisionCheck && blocked(target, action) then p else target
  }

  // ---------------------------------------------------------------------------
  // Boundary action filter
  // ---------------------------------------------------------------------------

  /** The action points across the edge of the grid the position lies on. */
  predicate PointsOffGrid(p: Position, action: int) {
    (action == 0 && p.z >= GridPositionConstant) ||
    (action == 1 && p.z <= -GridPositionConstant) ||
    (action == 2 && p.x >= GridPositionConstant) ||
    (action == 3 && p.x <= -GridPositionConstant)
  }

  function Keep(p: Position, action: int): seq<int> {
    if PointsOffGrid(p, action) then [] else [action]
  }

  /** Reference definition of the filter: the actions 0..3, in order, minus those pointing off the grid. */
  function Allowed(p: Position): seq<int> {
    Keep(p, 0) + Keep(p, 1) + Keep(p, 2) + Keep(p, 3)
  }

  /** Number of grid edges the position lies on or beyond. */
  function EdgesTouched(p: Position): nat {
    (if p.x >= GridPositionConstant then 1 else 0) +
    (if p.x <= -GridPositionConstant then 1 else 0) +
    (if p.z >= GridPositionConstant then 1 else 0) +
    (if p.z <= -GridPositionConstant then 1 else 0)
  }

  /** List.Remove: drop the first occurrence of v, if any. */
  function RemoveFirst(s: seq<int>, v: int): (r: seq<int>)
    ensures v in s ==> |r| == |s| - 1
    ensures v !in s ==> r == s
  {
    if s == [] then []
    else if s[0] == v then s[1..]
    else [s[0]] + RemoveFirst(s[1..], v)
  }

  /** As multisets, removal takes away exactly one copy of v (when there is one). */
  lemma {:induction false} RemoveFirstMultiset(s: seq<int>, v: int)
    ensures multiset(RemoveFirst(s, v)) == multiset(s) - multiset{v}
  {
    if s != [] {
      assert s == [s[0]] + s[1..];
      if s[0] != v {
        RemoveFirstMultiset(s[1..], v);
      }
    }
  }

  /** Removing the first occurrence, found at index i, splices out exactly that index. */
  lemma {:induction false} RemoveFirstAt(s: seq<int>, v: int, i: nat)
    requires i < |s| && s[i] == v && v !in s[..i]
    ensures RemoveFirst(s, v) == s[..i] + s[i + 1..]
  {
    if i > 0 {
      assert s[1..][..i - 1] == s[1..i];
      assert v !in s[1..][..i - 1];
      RemoveFirstAt(s[1..], v, i - 1);
      assert s[1..][i - 1 + 1..] == s[i + 1..];
      assert s[..i] == [s[0]] + s[1..i];
    }
  }

  /** The filter's value in each of the nine regions the cascade distinguishes. */
  lemma AllowedInRegion(p: Position)
    ensures p.x >= GridPositionConstant && p.z >= GridPositionConstant ==> Allowed(p) == [1, 3]
    ensures p.x <= -GridPositionConstant && p.z <= -GridPositionConstant ==> Allowed(p) == [0, 2]
    ensures p.x >= GridPositionConstant && p.z <= -GridPositionConstant ==> Allowed(p) == [0, 3]
    ensures p.x <= -GridPositionConstant && p.z >= GridPositionConstant ==> Allowed(p) == [1, 2]
    ensures -GridPositionConstant < p.z < GridPositionConstant && p.x >= GridPositionConstant ==> Allowed(p) == [0, 1, 3]
    ensures -GridPositionConstant < p.x < GridPositionConstant && p.z >= GridPositionConstant ==> Allowed(p) == [1, 2, 3]
    ensures -GridPositionConstant < p.z < GridPositionConstant && p.x <= -GridPositionConstant ==> Allowed(p) == [0, 1, 2]
    ensures -GridPositionConstant < p.x < GridPositionConstant && p.z <= -GridPositionConstant ==> Allowed(p) == [0, 2, 3]
    ensures -GridPositionConstant < p.x < GridPositionConstant && -GridPositionConstant < p.z < GridPositionConstant ==>
              Allowed(p) == [0, 1, 2, 3]
  {
  }

  /** The boundary cascade of chooseAction: start from [0, 1, 2, 3] and remove what points off the grid. */
  method BoundaryActions(p: Position) returns (actions: seq<int>)
    ensures actions == Allowed(p)
  {
    AllowedInRegion(p);
    actions := [0, 1, 2, 3];
    if p.x >= GridPositionConstant && p.z >= GridPositionConstant {
      RemoveFirstAt(actions, 2, 2);
      actions := RemoveFirst(actions, 2);
      RemoveFirstAt(actions, 0, 0);
      actions := RemoveFirst(actions, 0);
    } else if p.x <= -GridPositionConstant && p.z <= -GridPositionConstant {
      RemoveFirstAt(actions, 3, 3);
      actions := RemoveFirst(actions, 3);
      RemoveFirstAt(actions, 1, 1);
      actions := RemoveFirst(actions, 1);
    } else if p.x >= GridPositionConstant && p.z <= -GridPositionConstant {
      RemoveFirstAt(actions, 2, 2);
      actions := RemoveFirst(actions, 2);
      RemoveFirstAt(actions, 1, 1);
      actions := RemoveFirst(actions, 1);
    } else if p.x <= -GridPositionConstant && p.z >= GridPositionConstant {
      RemoveFirstAt(actions, 3, 3);
      actions := RemoveFirst(actions, 3);
      RemoveFirstAt(actions, 0, 0);
      actions := RemoveFirst(actions, 0);
    } else if p.x >= GridPositionConstant {
      RemoveFirstAt(actions, 2, 2);
      actions := RemoveFirst(actions, 2);
    } else if p.z >= GridPositionConstant {
      RemoveFirstAt(actions, 0, 0);
      actions := RemoveFirst(actions, 0);
    } else if p.x <= -GridPositionConstant {
      RemoveFirstAt(actions, 3, 3);
      actions := RemoveFirst(actions, 3);
    } else if p.z <= -GridPositionConstant {
      RemoveFirstAt(actions, 1, 1);
      actions := RemoveFirst(actions, 1);
    }
  }

  /** An action survives the filter exactly when it is one of 0..3 and does not point off the grid. */
  lemma AllowedMembers(p: Position, a: int)
    ensures a in Allowed(p) <==> 0 <= a < 4 && !PointsOffGrid(p, a)
  {
  }

  /** The filter keeps the candidates in increasing order, each once. */
  lemma AllowedIncreasing(p: Position)
    ensures forall i, j :: 0 <= i < j < |Allowed(p)| ==> Allowed(p)[i] < Allowed(p)[j]
  {
  }

  /** One action is dropped per edge touched, so at least two always remain. */
  lemma AllowedSize(p: Position)
    ensures |Allowed(p)| == 4 - EdgesTouched(p)
    ensures 2 <= |Allowed(p)| <= 4
  {
  }

  /** Two candidates at a corner, three on an edge, four inside. */
  lemma AllowedByRegion(p: Position)
    requires InGrid(p)
    ensures Abs(p.x) == GridPositionConstant && Abs(p.z) == GridPositionConstant ==> |Allowed(p)| == 2
    ensures (Abs(p.x) == GridPositionConstant) != (Abs(p.z) == GridPositionConstant) ==> |Allowed(p)| == 3
    ensures Abs(p.x) < GridPositionConstant && Abs(p.z) < GridPositionConstant ==> |Allowed(p)| == 4
  {
    AllowedSize(p);
  }

  /** The filter and the movement agree: on the grid, an action is kept exactly when its step moves the agent. */
  lemma AllowedIffMoves(p: Position, a: int)
    requires InGrid(p) && 0 <= a < 4
    ensures a in Allowed(p) <==> NewPos(p, a) != p
    ensures a in Allowed(p) ==> Abs(NewPos(p, a).x - p.x) + Abs(NewPos(p, a).z - p.z) == StepSize
  {
    AllowedMembers(p, a);
  }

  // ---------------------------------------------------------------------------
  // Goal
  // ---------------------------------------------------------------------------

  /** Both axis distances to the target are within the threshold. */
  predicate AtGoal(p: Position) {
    Abs(p.x - TargetPosition.x) as real <= TargetThreshold &&
    Abs(p.z - TargetPosition.z) as real <= TargetThreshold
  }

  /** With integer positions the goal test means standing on the target. */
  lemma AtGoalIffTarget(p: Position)
    ensures AtGoal(p) <==> p == TargetPosition
  {
  }
}
