/**
  The MonteCarlo agent: first-visit Monte Carlo control on the grid.

  Engine services are parameters: `roll` is the draw of Random.Range,
  `blocked(target, action)` stands for "distanceToNearestObstacle(target,
  rotation of action) < 0.5", and the table read from or written to disk is
  an Option<ValueTable> passed in or handed back.
*/
module MonteCarloAgent {
  import opened Wrappers
  import opened Grid
  import opened Episode
  import opened ValueTables
  import opened Greedy

  /** chooseAction in training mode: the candidate the draw picks. */
  function TrainingChoice(p: Position, roll: nat): (a: int)
    ensures a in Allowed(p)
    ensures 0 <= a < 4 && !PointsOffGrid(p, a)
  {
    AllowedSize(p);
    var a := Allowed(p)[RandomRange(|Allowed(p)|, roll)];
    AllowedMembers(p, a);
    a
  }

  /** The table every run starts from: the goal state's four actions seeded with 1. */
  function SeededTable(): (Q: ValueTable)
    ensures forall a :: 0 <= a < 4 ==> Value(Q, GetState(TargetPosition), a) == Some(1.0)
    ensures Q.Keys == {GetState(TargetPosition)}
  {
    map[GetState(TargetPosition) := [(0, 1.0), (1, 1.0), (2, 1.0), (3, 1.0)]]
  }

  class MonteCarlo {
    var maxEpisodes: int
    /** The running return G of the backward pass. */
    var cumulativeReward: real
    var trajectory: seq<Trajectory>
    var stateActionValues: ValueTable
    var returnValues: ReturnTable
    var episodeCount: int
    var steps: int
    /** A saved table was loaded: replay it greedily instead of training. */
    var isSavedData: bool
    /** States the replay has left, so that it does not step back onto them. */
    var visitedStates: seq<State>
    /** transform.position on the ground plane. */
    var position: Position

    ghost predicate Valid()
      reads this
    {
      && InGrid(position)
      && cumulativeReward == 0.0
      && 0 <= steps
      && 0 <= episodeCount <= maxEpisodes
      && (isSavedData ==> maxEpisodes == 1 && trajectory == [] && returnValues == map[])
      && (!isSavedData ==>
            maxEpisodes == MaxEpisodes && steps < MaxSteps && |trajectory| == steps && visitedStates == [])
      && (forall k :: 0 <= k < |trajectory| ==> 0 <= trajectory[k].action < 4)
      && Consistent(returnValues, stateActionValues)
      && RowsDistinct(stateActionValues)
    }

    /** Start: seed the goal row, then replace the table by the saved one if there is one. */
    constructor (retrieved: Option<ValueTable>)
      requires retrieved.Some? ==> RowsDistinct(retrieved.value)
      ensures Valid()
      ensures position == StartPosition && steps == 0 && episodeCount == 0
      ensures trajectory == [] && returnValues == map[] && visitedStates == []
      ensures retrieved.None? ==>
                !isSavedData && maxEpisodes == MaxEpisodes && stateActionValues == SeededTable()
      ensures retrieved.Some? ==>
                isSavedData && maxEpisodes == 1 && stateActionValues == retrieved.value
    {
      maxEpisodes := MaxEpisodes;
      cumulativeReward := 0.0;
      trajectory := [];
      returnValues := map[];
      episodeCount := 0;
      steps := 0;
      isSavedData := false;
      visitedStates := [];
      position := StartPosition;
      var actionDict := [(0, 1.0), (1, 1.0), (2, 1.0), (3, 1.0)];
      stateActionValues := map[GetState(TargetPosition) := actionDict];
      if retrieved.Some? {
        stateActionValues := retrieved.value;
        isSavedData := true;
        maxEpisodes := 1;
      }
    }

    /** One frame: stop (handing back the table to save) after the last episode, else replay or train one step. */
    method Update(roll: nat, blocked: (Position, int) -> bool) returns (saved: Option<ValueTable>)
      requires Valid()
      modifies this
      ensures Valid()
      ensures old(episodeCount) == old(maxEpisodes) ==>
                unchanged(this) && saved == (if isSavedData then None else Some(stateActionValues))
      ensures old(episodeCount) != old(maxEpisodes) ==> saved == None
      ensures old(episodeCount) != old(maxEpisodes) && old(isSavedData) ==> ReplayedOneStep(roll)
      ensures old(episodeCount) != old(maxEpisodes) && !old(isSavedData) ==> TrainedOneStep(roll, blocked)
      ensures old(visitedStates) <= visitedStates
    {
      saved := None;
      if episodeCount == maxEpisodes {
        if !isSavedData {
          saved := Some(stateActionValues);
        }
        return;
      }
      if isSavedData {
        if !AtGoal(position) {
          var action := ChooseAction(roll);
          visitedStates := visitedStates + [GetState(position)];
          Move(action, blocked);
          steps := steps + 1;
        }
      } else {
        RunMonteCarloMethod(roll, blocked);
      }
    }

    /** What one replay frame does: unless at the goal, leave a visited mark and take the greedy step. */
    twostate predicate ReplayedOneStep(roll: nat)
      reads this
    {
      var p := old(position);
      && isSavedData == old(isSavedData) && maxEpisodes == old(maxEpisodes)
      && episodeCount == old(episodeCount) && trajectory == old(trajectory)
      && returnValues == old(returnValues) && stateActionValues == old(stateActionValues)
      && cumulativeReward == old(cumulativeReward)
      && if AtGoal(p) then
           position == p && steps == old(steps) && visitedStates == old(visitedStates)
         else
           && steps == old(steps) + 1
           && visitedStates == old(visitedStates) + [GetState(p)]
           && exists a :: GreedyChoice(old(stateActionValues), old(visitedStates), p, Allowed(p), roll, a) &&
                          position == NewPos(p, a)
    }

    /**
      What one training step does: move by the drawn action, record
      (state before the move, action, reward); at the end of the episode run
      the backward pass over the whole trajectory and reset.
    */
    twostate predicate TrainedOneStep(roll: nat, blocked: (Position, int) -> bool)
      reads this
    {
      var p := old(position);
      var action := TrainingChoice(p, roll);
      var moved := MoveResult(p, action, true, blocked);
      var n := old(steps) + 1;
      var t := old(trajectory) + [Trajectory(GetState(p), action, Reward(n, AtGoal(moved)))];
      && isSavedData == old(isSavedData) && maxEpisodes == old(maxEpisodes)
      && visitedStates == old(visitedStates)
      && if Terminal(AtGoal(moved), n) then
           && Tables(returnValues, stateActionValues) ==
              Backup(Tables(old(returnValues), old(stateActionValues)), t, 0)
           && position == StartPosition && steps == 0 && trajectory == [] && cumulativeReward == 0.0
           && episodeCount == old(episodeCount) + 1
         else
           && position == moved && steps == n && trajectory == t
           && cumulativeReward == old(cumulativeReward)
           && returnValues == old(returnValues) && stateActionValues == old(stateActionValues)
           && episodeCount == old(episodeCount)
    }

    /** runMonteCarloMethod: one training step, and at the end of an episode the learning pass. */
    method RunMonteCarloMethod(roll: nat, blocked: (Position, int) -> bool)
      requires Valid() && !isSavedData && episodeCount < maxEpisodes
      modifies this
      ensures Valid()
      ensures TrainedOneStep(roll, blocked)
    {
      ghost var p := position;
      ghost var action := TrainingChoice(p, roll);
      ghost var moved := MoveResult(p, action, true, blocked);
      ghost var t := trajectory + [Trajectory(GetState(p), action, Reward(steps + 1, AtGoal(moved)))];
      ghost var before := Tables(returnValues, stateActionValues);
      TakeStep(roll, blocked);
      assert trajectory == t && position == moved;
      if AtGoal(position) || steps >= MaxSteps {
        EndEpisode();
        assert Tables(returnValues, stateActionValues) == Backup(before, t, 0);
      }
    }

    /**
      The first half of runMonteCarloMethod: choose and take an action, count
      the step, and record (state before the move, action, reward).
    */
    method TakeStep(roll: nat, blocked: (Position, int) -> bool)
      requires !isSavedData && InGrid(position)
      modifies this`position, this`steps, this`trajectory
      ensures position == MoveResult(old(position), TrainingChoice(old(position), roll), true, blocked)
      ensures steps == old(steps) + 1
      ensures trajectory == old(trajectory) +
                [Trajectory(GetState(old(position)), TrainingChoice(old(position), roll), Reward(steps, AtGoal(position)))]
    {
      var previousPos := position;
      var action := ChooseAction(roll);
      Move(action, blocked);
      steps := steps + 1;
      var reward := StepCost;
      if AtGoal(position) || steps >= MaxSteps {
        reward := if steps >= MaxSteps then steps as real * StepCost else 0.0;
      }
      var state := GetState(previousPos);
      var t := Trajectory(state, action, reward);
      trajectory := trajectory + [t];
    }

    /** The end of an episode in runMonteCarloMethod: the backward pass over the trajectory, then resetEpisode. */
    method EndEpisode()
      requires cumulativeReward == 0.0
      requires Consistent(returnValues, stateActionValues) && RowsDistinct(stateActionValues)
      modifies this`returnValues, this`stateActionValues, this`cumulativeReward
      modifies this`steps, this`episodeCount, this`position, this`trajectory
      ensures Tables(returnValues, stateActionValues) ==
              Backup(Tables(old(returnValues), old(stateActionValues)), old(trajectory), 0)
      ensures Consistent(returnValues, stateActionValues) && RowsDistinct(stateActionValues)
      ensures steps == 0 && episodeCount == old(episodeCount) + 1 && position == StartPosition
      ensures cumulativeReward == 0.0 && trajectory == []
    {
      ghost var before := Tables(returnValues, stateActionValues);
      BackwardPass();
      BackupConsistent(before, trajectory, 0);
      BackupRowsDistinct(before, trajectory, 0);
      ResetEpisode();
    }

    /**
      The reverse loop of runMonteCarloMethod: from the last step to the
      first, fold each step into the return and the tables.
    */
    method BackwardPass()
      requires cumulativeReward == 0.0
      modifies this`returnValues, this`stateActionValues, this`cumulativeReward
      ensures Tables(returnValues, stateActionValues) ==
              Backup(Tables(old(returnValues), old(stateActionValues)), trajectory, 0)
      ensures cumulativeReward == Return(trajectory, 0)
    {
      ghost var before := Tables(returnValues, stateActionValues);
      for i := |trajectory| downto 0
        invariant Tables(returnValues, stateActionValues) == Backup(before, trajectory, i)
        invariant cumulativeReward == Return(trajectory, i)
      {
        BackwardStep(i, before);
      }
    }

    /**
      One iteration of the reverse loop: G = gamma * G + r, and when the
      step's pair is not in the window before it, record G and refresh the mean.
    */
    method BackwardStep(i: int, ghost before: Tables)
      requires 0 <= i < |trajectory|
      requires Tables(returnValues, stateActionValues) == Backup(before, trajectory, i + 1)
      requires cumulativeReward == Return(trajectory, i + 1)
      modifies this`returnValues, this`stateActionValues, this`cumulativeReward
      ensures Tables(returnValues, stateActionValues) == Backup(before, trajectory, i)
      ensures cumulativeReward == Return(trajectory, i)
    {
      ghost var prev := Tables(returnValues, stateActionValues);
      var currentTrajectory := trajectory[i];
      cumulativeReward := DiscountFactor * cumulativeReward + currentTrajectory.reward;
      var endRange := if i <= 0 then 0 else i - 1;
      var window := trajectory[..endRange];
      var seen := exists j :: 0 <= j < |window| && SamePair(window[j], currentTrajectory);
      WindowTest(trajectory, i);
      assert cumulativeReward == Return(trajectory, i);
      if !seen {
        assert Backup(before, trajectory, i) == Credit(prev, currentTrajectory, cumulativeReward);
        RecordSpec(returnValues, currentTrajectory.state, currentTrajectory.action, cumulativeReward);
        AddToReturnValues(currentTrajectory.state, currentTrajectory.action, cumulativeReward);
        AddToStateActionValues(currentTrajectory);
        assert Tables(returnValues, stateActionValues) == Credit(prev, currentTrajectory, cumulativeReward);
      } else {
        assert Backup(before, trajectory, i) == prev;
      }
    }

    /** resetEpisode: back to the start with an empty trajectory; visitedStates is left as it is. */
    method ResetEpisode()
      modifies this`steps, this`episodeCount, this`position, this`cumulativeReward, this`trajectory
      ensures steps == 0 && episodeCount == old(episodeCount) + 1 && position == StartPosition
      ensures cumulativeReward == 0.0 && trajectory == []
    {
      steps := 0;
      episodeCount := episodeCount + 1;
      position := StartPosition;
      cumulativeReward := 0.0;
      trajectory := [];
    }

    /** addToReturnValues: append value to the list of (state, action), creating the entries it needs. */
    method AddToReturnValues(state: State, action: int, value: real)
      modifies this`returnValues
      ensures returnValues == Record(old(returnValues), state, action, value)
    {
      ghost var expected := Record(returnValues, state, action, value);
      if state in returnValues && action in returnValues[state] {
        returnValues := returnValues[state := returnValues[state][action := returnValues[state][action] + [value]]];
      } else {
        ghost var inner := if state in returnValues then returnValues[state] else map[];
        if state !in returnValues {
          returnValues := returnValues[state := map[]];
        }
        if action !in returnValues[state] {
          returnValues := returnValues[state := returnValues[state][action := []]];
        }
        assert returnValues[state] == inner[action := []];
        assert returnValues[state][action] + [value] == [value];
        returnValues := returnValues[state := returnValues[state][action := returnValues[state][action] + [value]]];
        assert returnValues[state] == expected[state] by {
          assert returnValues[state].Keys == expected[state].Keys;
        }
      }
    }

    /** addToStateActionValues: store the mean of the recorded returns of the step's pair. */
    method AddToStateActionValues(currentTrajectory: Trajectory)
      requires currentTrajectory.state in returnValues && currentTrajectory.action in returnValues[currentTrajectory.state]
               ==> |returnValues[currentTrajectory.state][currentTrajectory.action]| > 0
      modifies this`stateActionValues
      ensures stateActionValues ==
              SetMean(old(stateActionValues), returnValues, currentTrajectory.state, currentTrajectory.action)
    {
      var state := currentTrajectory.state;
      var action := currentTrajectory.action;
      if state in returnValues && action in returnValues[state] {
        var mean := Mean(returnValues[state][action]);
        if state in stateActionValues {
          stateActionValues := stateActionValues[state := RowSet(stateActionValues[state], action, mean)];
        } else {
          stateActionValues := stateActionValues[state := [(action, mean)]];
        }
      }
    }

    /**
      chooseAction: filter the actions at the boundary, then draw one
      (training) or ask the greedy policy (replay). The result is always 0..3.
    */
    method ChooseAction(roll: nat) returns (action: int)
      ensures 0 <= action < 4
      ensures !isSavedData ==> action == TrainingChoice(position, roll)
      ensures isSavedData ==>
                GreedyChoice(stateActionValues, visitedStates, position, Allowed(position), roll, action)
    {
      var actions := BoundaryActions(position);
      AllowedSize(position);
      if !isSavedData {
        var index := RandomRange(|actions|, roll);
        action := actions[index];
      } else {
        action := FindBestAction(actions, roll);
        GreedyChoiceMeaning(stateActionValues, visitedStates, position, actions, roll, action);
        if HasBest(stateActionValues, visitedStates, position, actions) {
          AllowedMembers(position, action);
        }
      }
    }

    /**
      findBestAction: walk the state's row in order keeping the first strict
      maximum among eligible entries; with none found (or the state unknown)
      return a random index into the candidates.
    */
    method FindBestAction(actions: seq<int>, roll: nat) returns (best: int)
      ensures GreedyChoice(stateActionValues, visitedStates, position, actions, roll, best)
    {
      var state := GetState(position);
      if state in stateActionValues {
        var stateValues := stateActionValues[state];
        var maxKey := NoKey;
        var maxValue := FloatMinValue;
        ghost var at := -1;
        for k := 0 to |stateValues|
          invariant at == -1 ==> maxKey == NoKey && maxValue == FloatMinValue
          invariant at == -1 ==> forall j :: 0 <= j < k ==> !Eligible(stateValues[j], actions, visitedStates, position)
          invariant at != -1 ==> 0 <= at < k && maxKey == stateValues[at].0 && maxValue == stateValues[at].1
          invariant at != -1 ==> Eligible(stateValues[at], actions, visitedStates, position)
          invariant at != -1 ==> forall j :: 0 <= j < at && Eligible(stateValues[j], actions, visitedStates, position)
                                   ==> stateValues[j].1 < maxValue
          invariant at != -1 ==> forall j :: at < j < k && Eligible(stateValues[j], actions, visitedStates, position)
                                   ==> stateValues[j].1 <= maxValue
        {
          var pair := stateValues[k];
          if pair.1 > maxValue && pair.0 in actions && GetState(NewPos(position, pair.0)) !in visitedStates {
            maxValue := pair.1;
            maxKey := pair.0;
            at := k;
          }
        }
        if maxKey == NoKey {
          if at != -1 {
            MarkerBestMeansNoBest(stateActionValues, visitedStates, position, actions, at);
          }
          best := RandomRange(|actions|, roll);
        } else {
          assert IsBest(stateValues, at, actions, visitedStates, position);
          best := maxKey;
        }
      } else {
        best := RandomRange(|actions|, roll);
      }
    }

    /** move: take the clamped step unless, in training, it runs into an obstacle. */
    method Move(action: int, blocked: (Position, int) -> bool)
      modifies this`position
      ensures position == MoveResult(old(position), action, !isSavedData, blocked)
    {
      var newPosition := NewPos(position, action);
      if !isSavedData {
        if blocked(newPosition, action) {
          return;
        }
      }
      position := newPosition;
    }
  }

  /** When the first maximum carries the marker key, the greedy policy finds nothing. */
  lemma MarkerBestMeansNoBest(Q: ValueTable, visited: seq<State>, pos: Position, actions: seq<int>, at: int)
    requires GetState(pos) in Q
    requires IsBest(Q[GetState(pos)], at, actions, visited, pos) && Q[GetState(pos)][at].0 == NoKey
    ensures !HasBest(Q, visited, pos, actions)
  {
    var row := Q[GetState(pos)];
    forall i | 0 <= i < |row| && IsBest(row, i, actions, visited, pos)
      ensures row[i].0 == NoKey
    {
      BestUnique(row, i, at, actions, visited, pos);
    }
  }
}
