/** The connectivity check of the ICE agent as the connection's loop drives it, one turn at a time. */
module Ice {
  import opened Bytes

  const CONNCHECK_MAX: nat := 1000
  const CONNCHECK_PERIOD: nat := 100

  datatype PairState = Frozen | Waiting | InProgress | Succeeded | Failed

  datatype Pair = Pair(local: nat, remote: nat, state: PairState, conncheck: nat)

  datatype PcState = Checking | Connected | ConnectionFailed

  /**
   The candidate pairs with the nominated and the selected one, the connection's state, whether a
   state callback is registered, and a log of the pairs Binding requests went to.
   */
  datatype Check = Check(pairs: seq<Pair>, nominated: Option<nat>, selected: Option<nat>,
                         state: PcState, callback: bool, requests: seq<nat>)

  /** agent_select_candidate_pair from pair `i` on; the pair it stops at, if any. */
  function SelectFrom(c: Check, i: nat): (r: (Check, bool))
    ensures |r.0.pairs| == |c.pairs| && r.0.state == c.state && r.0.callback == c.callback && r.0.requests == c.requests
    decreases |c.pairs| - i
  {
    if i >= |c.pairs| then (c, false)
    else
      var p := c.pairs[i];
      match p.state
      case Frozen => (c.(nominated := Some(i), pairs := c.pairs[i := p.(conncheck := 0, state := InProgress)]), true)
      case InProgress =>
        if p.conncheck + 1 < CONNCHECK_MAX then (c.(pairs := c.pairs[i := p.(conncheck := p.conncheck + 1)]), true)
        else SelectFrom(c.(pairs := c.pairs[i := p.(conncheck := p.conncheck + 1, state := Failed)]), i + 1)
      case Succeeded => (c.(selected := Some(i)), true)
      case _ => SelectFrom(c, i + 1)
  }

  predicate HasNominee(c: Check) { c.nominated.Some? && c.nominated.value < |c.pairs| }

  /** agent_connectivity_check; `answered` when the datagram it took was an authenticated Binding response. */
  function Connectivity(c: Check, answered: bool): (r: (Check, bool))
    requires HasNominee(c)
    ensures r.0.callback == c.callback && r.0.state == c.state
  {
    var k := c.nominated.value;
    if !c.pairs[k].state.InProgress? then (c, false)
    else
      var q := if c.pairs[k].conncheck % CONNCHECK_PERIOD == 0 then c.(requests := c.requests + [k]) else c;
      if answered then
        (q.(pairs := q.pairs[k := q.pairs[k].(state := Succeeded)], selected := Some(k)), true)
      else (q, false)
  }

  /** STATE_CHANGED: nothing happens without a callback. */
  function Changed(c: Check, s: PcState): Check {
    if c.callback && c.state != s then c.(state := s) else c
  }

  /** One turn of peer_connection_loop, its checking case. */
  function Turn(c: Check, answered: bool): Check {
    if !c.state.Checking? then c
    else
      var (s, found) := SelectFrom(c, 0);
      if !found then Changed(s, ConnectionFailed)
      else if HasNominee(s) then
        var (d, ok) := Connectivity(s, answered);
        if ok then Changed(d, Connected) else d
      else s
  }

  function Run(c: Check, answers: seq<bool>): Check
    decreases |answers|
  {
    if answers == [] then c else Turn(Run(c, answers[..|answers| - 1]), answers[|answers| - 1])
  }

  predicate FreshPairs(pairs: seq<Pair>) { forall i :: 0 <= i < |pairs| ==> pairs[i].state.Frozen? }

  function Start(pairs: seq<Pair>, callback: bool): Check {
    Check(pairs, None, None, Checking, callback, [])
  }

  // ---- The run in closed form ----

  /** The pair under check after `t` unanswered turns, and its count. */
  function Current(t: nat): nat
    requires t > 0
  {
    (t - 1) / CONNCHECK_MAX
  }

  function Count(t: nat): nat
    requires t > 0
  {
    (t - 1) % CONNCHECK_MAX
  }

  /** The pairs when pair `k` stands at `count`: those before it have failed, those after it are untouched. */
  function PairsAt(pairs: seq<Pair>, k: nat, count: nat): (r: seq<Pair>)
    ensures |r| == |pairs|
  {
    seq(|pairs|, i requires 0 <= i < |pairs| =>
      if i < k then pairs[i].(state := Failed, conncheck := CONNCHECK_MAX)
      else if i == k then pairs[i].(state := InProgress, conncheck := count)
      else pairs[i])
  }

  /** The requests of `t` turns: ten to each pair in turn. */
  function Requests(t: nat): (r: seq<nat>)
    ensures |r| == (t + CONNCHECK_PERIOD - 1) / CONNCHECK_PERIOD
  {
    seq((t + CONNCHECK_PERIOD - 1) / CONNCHECK_PERIOD, j requires 0 <= j => j / 10)
  }

  /** Where `t` unanswered turns lead, while pairs are left. */
  function After(pairs: seq<Pair>, callback: bool, t: nat): Check {
    if t == 0 then Start(pairs, callback)
    else Check(PairsAt(pairs, Current(t), Count(t)), Some(Current(t)), None, Checking, callback, Requests(t))
  }

  lemma {:induction false} PassFailed(c: Check, i: nat, k: nat)
    requires i <= k <= |c.pairs| && forall j :: i <= j < k ==> c.pairs[j].state.Failed?
    ensures SelectFrom(c, i) == SelectFrom(c, k)
    decreases k - i
  {
    if i < k { PassFailed(c, i + 1, k); }
  }

  lemma NominateAt(pairs: seq<Pair>, k: nat)
    requires k < |pairs| && FreshPairs(pairs)
    ensures var p := PairsAt(pairs, k, 0);
            && (k == 0 ==> pairs[0 := pairs[0].(conncheck := 0, state := InProgress)] == p)
            && (k > 0 ==>
                  var q := PairsAt(pairs, k - 1, CONNCHECK_MAX - 1);
                  var f := q[k - 1 := q[k - 1].(conncheck := CONNCHECK_MAX, state := Failed)];
                  f[k].state.Frozen? && f[k := f[k].(conncheck := 0, state := InProgress)] == p)
  {
  }

  lemma CountOn(pairs: seq<Pair>, k: nat, n: nat)
    requires k < |pairs|
    ensures var q := PairsAt(pairs, k, n);
            q[k := q[k].(conncheck := n + 1)] == PairsAt(pairs, k, n + 1)
  {
  }

  /** What one turn adds to the closed form. */
  lemma Numbers(t: nat)
    ensures t == 0 || Count(t) + 1 == CONNCHECK_MAX ==> Count(t + 1) == 0
    ensures t > 0 && Count(t) + 1 == CONNCHECK_MAX ==> Current(t + 1) == Current(t) + 1
    ensures t > 0 && Count(t) + 1 < CONNCHECK_MAX ==> Current(t + 1) == Current(t) && Count(t + 1) == Count(t) + 1
    ensures Current(t + 1) * CONNCHECK_MAX <= t && Current(1) == 0
    ensures Count(t + 1) % CONNCHECK_PERIOD == t % CONNCHECK_PERIOD
  {
  }

  lemma RequestsGrow(t: nat)
    ensures Requests(t + 1) == if t % CONNCHECK_PERIOD == 0 then Requests(t) + [Current(t + 1)] else Requests(t)
  {
    var q, r := t / CONNCHECK_PERIOD, t % CONNCHECK_PERIOD;
    if r == 0 {
      assert (t + 99) / 100 == q && (t + 100) / 100 == q + 1 && t / 1000 == q / 10;
    } else {
      assert (t + 99) / 100 == q + 1 && (t + 100) / 100 == q + 1;
    }
  }

  lemma CurrentBelow(t: nat, n: nat)
    requires t < CONNCHECK_MAX * n
    ensures Current(t + 1) < n
  {
  }

  /** An unanswered turn, and what the same turn makes of an answer. */
  lemma OneTurn(pairs: seq<Pair>, callback: bool, t: nat)
    requires FreshPairs(pairs) && t < CONNCHECK_MAX * |pairs|
    ensures var c := After(pairs, callback, t);
            && SelectFrom(c, 0).1
            && SelectFrom(c, 0).0 == After(pairs, callback, t + 1).(requests := Requests(t))
  {
    Numbers(t);
    CurrentBelow(t, |pairs|);
    var c, k := After(pairs, callback, t), Current(t + 1);
    if t == 0 {
      NominateAt(pairs, 0);
    } else if Count(t) + 1 < CONNCHECK_MAX {
      PassFailed(c, 0, k);
      CountOn(pairs, k, Count(t));
    } else {
      PassFailed(c, 0, k - 1);
      NominateAt(pairs, k);
    }
    hide Requests;
  }

  lemma ConnectivityTurn(pairs: seq<Pair>, callback: bool, t: nat, answered: bool)
    requires FreshPairs(pairs) && t < CONNCHECK_MAX * |pairs|
    ensures Turn(After(pairs, callback, t), answered) ==
            if answered then Answered(pairs, callback, t) else After(pairs, callback, t + 1)
  {
    OneTurn(pairs, callback, t);
    Numbers(t);
    CurrentBelow(t, |pairs|);
    RequestsGrow(t);
    hide Requests, Current, Count, SelectFrom;
  }

  /** After an answer in turn `t + 1`: the pair under check has succeeded and is selected. */
  function Answered(pairs: seq<Pair>, callback: bool, t: nat): Check {
    var c := After(pairs, callback, t + 1);
    var k := Current(t + 1);
    c.(pairs := if k < |pairs| then c.pairs[k := c.pairs[k].(state := Succeeded)] else c.pairs,
       selected := Some(k), state := if callback then Connected else Checking)
  }

  /** After every pair has run out. */
  function RunOut(pairs: seq<Pair>, callback: bool): Check {
    Check(PairsAt(pairs, |pairs|, 0), if pairs == [] then None else Some(|pairs| - 1), None,
          if callback then ConnectionFailed else Checking, callback, Requests(CONNCHECK_MAX * |pairs|))
  }

  lemma LastFails(pairs: seq<Pair>)
    requires pairs != []
    ensures var k := |pairs| - 1;
            var q := PairsAt(pairs, k, CONNCHECK_MAX - 1);
            q[k := q[k].(conncheck := CONNCHECK_MAX, state := Failed)] == PairsAt(pairs, |pairs|, 0)
  {
  }

  lemma LastNumbers(n: nat)
    requires n > 0
    ensures Current(CONNCHECK_MAX * n) == n - 1 && Count(CONNCHECK_MAX * n) == CONNCHECK_MAX - 1
  {
  }

  lemma RunsOut(pairs: seq<Pair>, callback: bool, answered: bool)
    requires FreshPairs(pairs)
    ensures Turn(After(pairs, callback, CONNCHECK_MAX * |pairs|), answered) == RunOut(pairs, callback)
  {
    var n := |pairs|;
    var c := After(pairs, callback, CONNCHECK_MAX * n);
    if n > 0 {
      LastNumbers(n);
      LastFails(pairs);
      PassFailed(c, 0, n - 1);
      hide Requests, PairsAt;
    }
  }

  lemma RunOutStays(pairs: seq<Pair>, callback: bool, answered: bool)
    ensures Turn(RunOut(pairs, callback), answered) == RunOut(pairs, callback)
  {
    PassFailed(RunOut(pairs, callback), 0, |pairs|);
    hide Requests;
  }

  lemma AnsweredStays(pairs: seq<Pair>, callback: bool, t: nat, answered: bool)
    requires t < CONNCHECK_MAX * |pairs|
    ensures Turn(Answered(pairs, callback, t), answered) == Answered(pairs, callback, t)
  {
    var c, k := Answered(pairs, callback, t), Current(t + 1);
    CurrentBelow(t, |pairs|);
    PassFailed(c, 0, k);
    hide Requests, Current, Count;
  }

  /** The turn of the first answer, counted from zero. */
  function FirstAnswer(answers: seq<bool>): (f: nat)
    ensures f <= |answers| && (forall i :: 0 <= i < f ==> !answers[i]) && (f < |answers| ==> answers[f])
  {
    if answers == [] || answers[0] then 0 else 1 + FirstAnswer(answers[1..])
  }

  /** Where any sequence of turns leads. */
  function Outcome(pairs: seq<Pair>, callback: bool, answers: seq<bool>): Check {
    var f, limit := FirstAnswer(answers), CONNCHECK_MAX * |pairs|;
    if f < limit && f < |answers| then Answered(pairs, callback, f)
    else if |answers| <= limit then After(pairs, callback, |answers|)
    else RunOut(pairs, callback)
  }

  lemma {:induction false} FirstOfPrefix(answers: seq<bool>, n: nat)
    requires n <= |answers|
    ensures FirstAnswer(answers[..n]) == if FirstAnswer(answers) < n then FirstAnswer(answers) else n
  {
    var f := FirstAnswer(answers[..n]);
    assert f < n ==> answers[..n][f] == answers[f];
    assert forall i :: 0 <= i < f ==> answers[..n][i] == answers[i];
  }

  /** The check in closed form, for every number of pairs and every sequence of answers. */
  lemma {:induction false} RunIsOutcome(pairs: seq<Pair>, callback: bool, answers: seq<bool>)
    requires FreshPairs(pairs)
    ensures Run(Start(pairs, callback), answers) == Outcome(pairs, callback, answers)
    decreases |answers|
  {
    hide Turn, After, Answered, RunOut;
    if answers == [] {
      NoTurns(pairs, callback);
    } else {
      var n, last := |answers| - 1, answers[|answers| - 1];
      RunIsOutcome(pairs, callback, answers[..n]);
      FirstOfPrefix(answers, n);
      var f, limit := FirstAnswer(answers[..n]), CONNCHECK_MAX * |pairs|;
      if f < limit && f < n {
        AnsweredStays(pairs, callback, f, last);
      } else if n < limit {
        ConnectivityTurn(pairs, callback, n, last);
      } else if n == limit {
        RunsOut(pairs, callback, last);
      } else {
        RunOutStays(pairs, callback, last);
      }
    }
  }

  lemma NoTurns(pairs: seq<Pair>, callback: bool)
    ensures Outcome(pairs, callback, []) == Start(pairs, callback)
  {
  }

  // ---- What it means ----

  /**
   With a callback: connected exactly when some turn of the first thousand per pair brought an
   authenticated answer, failed exactly when a further turn came without one; without a callback the
   connection never leaves the checking state.
   */
  lemma ConnectedExactlyWhenAnswered(pairs: seq<Pair>, callback: bool, answers: seq<bool>)
    requires FreshPairs(pairs)
    ensures var c, limit := Run(Start(pairs, callback), answers), 1000 * |pairs|;
            && (c.state.Connected? <==> callback && exists i :: 0 <= i < |answers| && i < limit && answers[i])
            && (c.state.ConnectionFailed? <==>
                  callback && |answers| > limit && forall i :: 0 <= i < limit ==> !answers[i])
            && (!callback ==> c.state.Checking?)
  {
    RunIsOutcome(pairs, callback, answers);
    var f, limit := FirstAnswer(answers), CONNCHECK_MAX * |pairs|;
    hide Run, PairsAt, Requests, FirstAnswer;
    if f < limit && f < |answers| { assert answers[f]; }
  }

  /** The run that shows it: one pair, answered on the first turn, has succeeded either way. */
  lemma AnsweredUnnoticed(p: Pair, callback: bool)
    requires p.state.Frozen?
    ensures var c := Run(Start([p], callback), [true]);
            && |c.pairs| == 1 && c.pairs[0].state.Succeeded? && c.selected == Some(0)
            && c.state == if callback then Connected else Checking
  {
    var s := Start([p], callback);
    assert [true][..0] == [];
    assert Run(s, [true][..0]) == s;
    assert Run(s, [true]) == Turn(s, true);
  }

  /** Failed pairs, then at most one that is being checked or has succeeded, then untouched ones. */
  ghost predicate InOrder(c: Check) {
    exists k :: 0 <= k <= |c.pairs| && Ordered(c, k)
  }

  ghost predicate Ordered(c: Check, k: nat)
    requires k <= |c.pairs|
  {
    && (forall i :: 0 <= i < k ==> c.pairs[i].state.Failed?)
    && (k < |c.pairs| ==> c.pairs[k].state.Frozen? || ((c.pairs[k].state.InProgress? || c.pairs[k].state.Succeeded?) && c.nominated == Some(k)))
    && (forall i :: k < i < |c.pairs| ==> c.pairs[i].state.Frozen?)
    && (c.selected.Some? ==> c.selected == Some(k) && k < |c.pairs| && c.pairs[k].state.Succeeded?)
  }

  lemma PairsStayInOrder(pairs: seq<Pair>, callback: bool, answers: seq<bool>)
    requires FreshPairs(pairs)
    ensures InOrder(Run(Start(pairs, callback), answers))
  {
    RunIsOutcome(pairs, callback, answers);
    var c := Outcome(pairs, callback, answers);
    var f, limit, t := FirstAnswer(answers), CONNCHECK_MAX * |pairs|, |answers|;
    hide Run, Requests, FirstAnswer, Count;
    if f < limit && f < t {
      CurrentBelow(f, |pairs|);
      assert Ordered(c, Current(f + 1));
    } else if t == 0 {
      assert Ordered(c, 0);
    } else if t <= limit {
      CurrentBelow(t - 1, |pairs|);
      assert Ordered(c, Current(t));
    } else {
      assert Ordered(c, |pairs|);
    }
  }

  function CountOf(s: seq<nat>, k: nat): nat {
    if s == [] then 0 else CountOf(s[..|s| - 1], k) + if s[|s| - 1] == k then 1 else 0
  }

  lemma {:induction false} TenEach(n: nat, k: nat)
    ensures CountOf(seq(n, j requires 0 <= j => j / 10), k) ==
            if n <= 10 * k then 0 else if n >= 10 * k + 10 then 10 else n - 10 * k
    decreases n
  {
    var s := seq(n, j requires 0 <= j => j / 10);
    if n > 0 {
      TenEach(n - 1, k);
      assert s[..n - 1] == seq(n - 1, j requires 0 <= j => j / 10);
      assert s[n - 1] == (n - 1) / 10;
    }
  }

  /** Unanswered to the end, every pair got exactly ten requests. */
  lemma TenRequestsEach(pairs: seq<Pair>, callback: bool, answers: seq<bool>, k: nat)
    requires FreshPairs(pairs) && k < |pairs| && |answers| >= 1000 * |pairs|
    requires forall i :: 0 <= i < 1000 * |pairs| ==> !answers[i]
    ensures CountOf(Run(Start(pairs, callback), answers).requests, k) == 10
  {
    RunIsOutcome(pairs, callback, answers);
    var n := 10 * |pairs|;
    TenEach(n, k);
    assert Requests(CONNCHECK_MAX * |pairs|) == seq(n, j requires 0 <= j => j / 10);
    hide Run, PairsAt, CountOf;
  }

  /** While nothing answers, a request goes out every hundredth turn, ten to a pair, the pairs in order. */
  lemma RequestsInTurn(pairs: seq<Pair>, callback: bool, answers: seq<bool>)
    requires FreshPairs(pairs) && |answers| <= 1000 * |pairs| && forall i :: 0 <= i < |answers| ==> !answers[i]
    ensures var sent := Run(Start(pairs, callback), answers).requests;
            |sent| == (|answers| + 99) / 100 && forall j :: 0 <= j < |sent| ==> sent[j] == j / 10
  {
    RunIsOutcome(pairs, callback, answers);
    assert FirstAnswer(answers) == |answers|;
    hide Run, PairsAt, FirstAnswer;
  }
}
