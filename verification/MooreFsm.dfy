/** The debounced scene machine: a candidate state must be seen several times in a row to be entered. */
module MooreFsm {
  import opened Bytes

  const UNKNOWN: string := "UNKNOWN"
  const QUEST: string := "QUEST"
  const NORMAL_QUEST: string := "NORMAL-QUEST"
  const NORMAL_QUEST_UIJIN: string := "NORMAL-QUEST-UIJIN"
  const CONFIRM_RETRY: string := "CONFIRM-RETRY"

  datatype Score = Score(name: string, value: real)

  /** The tables set up before the first call: scene names and allowed successors. */
  datatype Tables = Tables(scenes: map<string, string>, transitions: map<string, set<string>>)

  function Scene(t: Tables, name: string): string {
    if name in t.scenes then t.scenes[name] else UNKNOWN
  }

  function Allowed(t: Tables, state: string): set<string> {
    if state in t.transitions then t.transitions[state] else {}
  }

  /** _evaluate_state_onnx, on scores in descending order. */
  function Evaluate(t: Tables, scores: seq<Score>): string {
    if scores == [] then UNKNOWN
    else
      var top := scores[0];
      if top.name == "unknown" || top.value < 0.30 then UNKNOWN
      else if top.value >= 0.60 then Scene(t, top.name)
      else if |scores| >= 2 && top.value - scores[1].value >= 0.15 then Scene(t, top.name)
      else UNKNOWN
  }

  /** What a call in `state` takes the scores for. */
  function Candidate(t: Tables, state: string, scores: seq<Score>): string {
    var c := Evaluate(t, scores);
    if state == QUEST && c == NORMAL_QUEST_UIJIN then NORMAL_QUEST else c
  }

  function Required(c: string): nat { if c == CONFIRM_RETRY then 10 else 3 }

  /** The candidate awaiting confirmation and how often it was seen, with the state the caller holds. */
  datatype Machine = Machine(state: string, pending: Option<string>, count: nat)

  /** fsm_update on the candidate `c`. */
  function Step(t: Tables, m: Machine, c: string): Machine {
    if c == m.state || c !in Allowed(t, m.state) then m.(pending := None, count := 0)
    else
      var n := if m.pending == Some(c) then m.count + 1 else 1;
      if n >= Required(c) then Machine(c, None, 0) else m.(pending := Some(c), count := n)
  }

  /** A run from a start state, with the candidates its calls made out of the scores. */
  datatype Trace = Trace(machine: Machine, seen: seq<string>)

  function Run(t: Tables, start: string, inputs: seq<seq<Score>>): (r: Trace)
    ensures |r.seen| == |inputs|
    decreases |inputs|
  {
    if inputs == [] then Trace(Machine(start, None, 0), [])
    else
      var r := Run(t, start, inputs[..|inputs| - 1]);
      var c := Candidate(t, r.machine.state, inputs[|inputs| - 1]);
      Trace(Step(t, r.machine, c), r.seen + [c])
  }

  /** How many of the last calls saw `c`, without a break. */
  function Streak(seen: seq<string>, c: string): (n: nat)
    ensures n <= |seen| && (forall i :: |seen| - n <= i < |seen| ==> seen[i] == c)
    ensures n < |seen| ==> seen[|seen| - n - 1] != c
    decreases |seen|
  {
    if seen == [] || seen[|seen| - 1] != c then 0 else Streak(seen[..|seen| - 1], c) + 1
  }

  lemma StreakNext(seen: seq<string>, x: string, c: string)
    ensures Streak(seen + [x], c) == if x == c then Streak(seen, c) + 1 else 0
  {
    assert (seen + [x])[..|seen|] == seen;
  }

  /** What is pending is the streak of an allowed successor, and not yet long enough. */
  ghost predicate Counts(t: Tables, r: Trace) {
    && (forall c :: c in Allowed(t, r.machine.state) && c != r.machine.state ==>
          Streak(r.seen, c) == if r.machine.pending == Some(c) then r.machine.count else 0)
    && (r.machine.pending.Some? ==>
          var c := r.machine.pending.value;
          c in Allowed(t, r.machine.state) && c != r.machine.state && r.machine.count < Required(c))
  }

  lemma StepCounts(t: Tables, r: Trace, x: string)
    requires Counts(t, r)
    ensures Counts(t, Trace(Step(t, r.machine, x), r.seen + [x]))
  {
    forall c
      ensures Streak(r.seen + [x], c) == if x == c then Streak(r.seen, c) + 1 else 0
    {
      StreakNext(r.seen, x, c);
    }
    hide Streak;
  }

  lemma {:induction false} RunCounts(t: Tables, start: string, inputs: seq<seq<Score>>)
    ensures Counts(t, Run(t, start, inputs))
    decreases |inputs|
  {
    hide Step, Candidate;
    if inputs != [] {
      var r := Run(t, start, inputs[..|inputs| - 1]);
      RunCounts(t, start, inputs[..|inputs| - 1]);
      StepCounts(t, r, Candidate(t, r.machine.state, inputs[|inputs| - 1]));
    }
  }

  /**
   In any run, the next call moves to `c` exactly when `c` is an allowed successor other than the
   present state and the last `Required(c)` calls, this one included, all saw `c`; and then it is the
   first call at which that is so. Otherwise the state stays.
   */
  lemma MovesExactlyWhenConfirmed(t: Tables, start: string, inputs: seq<seq<Score>>, c: string)
    requires inputs != []
    ensures var r, s := Run(t, start, inputs[..|inputs| - 1]), Run(t, start, inputs);
            && (s.machine.state == c && c != r.machine.state <==>
                  c != r.machine.state && c in Allowed(t, r.machine.state) && Streak(s.seen, c) >= Required(c))
            && (s.machine.state != r.machine.state ==> Streak(s.seen, s.machine.state) == Required(s.machine.state))
  {
    var r := Run(t, start, inputs[..|inputs| - 1]);
    var x := Candidate(t, r.machine.state, inputs[|inputs| - 1]);
    RunCounts(t, start, inputs[..|inputs| - 1]);
    StreakNext(r.seen, x, c);
    StreakNext(r.seen, x, x);
    hide Streak, Candidate;
  }

  function States(t: Tables, start: string, inputs: seq<seq<Score>>): (r: seq<string>)
    ensures |r| == |inputs| + 1
  {
    seq(|inputs| + 1, i requires 0 <= i <= |inputs| => Run(t, start, inputs[..i]).machine.state)
  }

  /** Every run walks the transition table. */
  lemma RunIsPath(t: Tables, start: string, inputs: seq<seq<Score>>, i: nat)
    requires i < |inputs|
    ensures var s := States(t, start, inputs);
            s[0] == start && (s[i + 1] == s[i] || s[i + 1] in Allowed(t, s[i]))
  {
    var p := inputs[..i + 1];
    assert p[..i] == inputs[..i];
    MovesExactlyWhenConfirmed(t, start, p, States(t, start, inputs)[i + 1]);
    assert inputs[..0] == [];
    hide Streak, Step, Candidate;
  }

  /** Same path, but no candidate shorter-lived than required is ever entered. */
  lemma NoShortVisit(t: Tables, start: string, inputs: seq<seq<Score>>, i: nat)
    requires i < |inputs|
    requires var s := States(t, start, inputs); s[i + 1] != s[i]
    ensures var s := States(t, start, inputs);
            var seen := Run(t, start, inputs[..i + 1]).seen;
            Required(s[i + 1]) <= i + 1
            && forall j :: i + 1 - Required(s[i + 1]) <= j <= i ==> seen[j] == s[i + 1]
  {
    var p := inputs[..i + 1];
    assert p[..i] == inputs[..i];
    MovesExactlyWhenConfirmed(t, start, p, States(t, start, inputs)[i + 1]);
    hide Step, Candidate, Run;
  }

  // ---- What a call takes the scores for ----

  /** At least as sure of the same thing: the same first name scored no lower, the second no higher. */
  ghost predicate Surer(a: seq<Score>, b: seq<Score>) {
    && a != [] && b != [] && a[0].name == b[0].name && a[0].value <= b[0].value
    && (|a| >= 2 ==> |b| >= 2 && b[1].value <= a[1].value)
  }

  /**
   Scores are taken for a scene from 0.60 on, or from 0.30 on with a lead of 0.15, and then for the scene
   of the first name; surer scores are taken for the same scene.
   */
  lemma TakenForScene(t: Tables, a: seq<Score>, b: seq<Score>)
    requires forall n :: n in t.scenes ==> t.scenes[n] != "UNKNOWN"
    ensures Evaluate(t, a) != "UNKNOWN" <==>
              a != [] && a[0].name != "unknown" && a[0].name in t.scenes
              && (a[0].value >= 0.60 || (a[0].value >= 0.30 && |a| >= 2 && a[0].value >= a[1].value + 0.15))
    ensures Evaluate(t, a) != "UNKNOWN" ==> Evaluate(t, a) == t.scenes[a[0].name]
    ensures Surer(a, b) && Evaluate(t, a) != "UNKNOWN" ==> Evaluate(t, b) == Evaluate(t, a)
  {
  }

  /** Ten calls in a row confirm the retry screen, three any other; and in a quest no special quest is ever entered. */
  lemma ConfirmedBy(t: Tables, start: string, inputs: seq<seq<Score>>, i: nat)
    requires i < |inputs| && var s := States(t, start, inputs); s[i + 1] != s[i]
    ensures var s := States(t, start, inputs);
            var n := if s[i + 1] == "CONFIRM-RETRY" then 10 else 3;
            var seen := Run(t, start, inputs[..i + 1]).seen;
            && n <= i + 1 && (forall j :: i + 1 - n <= j <= i ==> seen[j] == s[i + 1])
            && (s[i] == "QUEST" ==> s[i + 1] != "NORMAL-QUEST-UIJIN")
  {
    NoShortVisit(t, start, inputs, i);
    var p := inputs[..i + 1];
    assert p[..i] == inputs[..i];
    hide Streak, Evaluate, States;
  }

  /** The two globals, updated call by call. */
  class Fsm {
    var pending: Option<string>
    var count: nat

    function View(state: string): Machine
      reads this
    {
      Machine(state, pending, count)
    }

    constructor ()
      ensures pending == None && count == 0
    {
      pending, count := None, 0;
    }

    /** fsm_update */
    method Update(t: Tables, state: string, scores: seq<Score>) returns (next: string, changed: bool)
      modifies this
      ensures View(next) == Step(t, old(View(state)), Candidate(t, state, scores))
      ensures changed <==> next != state
    {
      var candidate := Evaluate(t, scores);
      if state == QUEST && candidate == NORMAL_QUEST_UIJIN { candidate := NORMAL_QUEST; }
      if candidate == state {
        pending, count := None, 0;
        return state, false;
      }
      if candidate in Allowed(t, state) {
        if pending == Some(candidate) {
          count := count + 1;
        } else {
          pending, count := Some(candidate), 1;
        }
        if count >= Required(candidate) {
          pending, count := None, 0;
          return candidate, true;
        }
        return state, false;
      }
      pending, count := None, 0;
      return state, false;
    }
  }
}
