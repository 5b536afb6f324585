// The compare-and-swap retry loops, run by any number of concurrent calls under
// any interleaving.  A call is at the top of its loop, between its load and its
// compare-and-swap, or finished; load and compare-and-swap are atomic steps.
// The value type is a parameter, so this covers cas_loop_int32 and
// cas_loop_uint32 alike.

module CasLoop {

  datatype Pc<V> = Start | Loaded(snapshot: V) | Finished

  // log: the calls in order of completion.  seen[t]: how many calls had
  // completed when call t last loaded.  fails[t]: failed swaps of call t.
  datatype State<V> = State(target: V, pcs: seq<Pc<V>>, log: seq<nat>, seen: seq<nat>, fails: seq<nat>)

  function Initial<V>(init: V, n: nat): State<V> {
    State(init, seq(n, _ => Start), [], seq(n, _ => 0), seq(n, _ => 0))
  }

  predicate Shaped<V>(values: seq<V>, s: State<V>) {
    |s.pcs| == |s.seen| == |s.fails| == |values|
  }

  predicate Enabled<V>(values: seq<V>, s: State<V>, t: nat) {
    Shaped(values, s) && t < |values| && !s.pcs[t].Finished?
  }

  // One atomic step of call t.
  function Next<V(==)>(values: seq<V>, s: State<V>, t: nat): (s': State<V>)
    requires Enabled(values, s, t)
    ensures Shaped(values, s')
  {
    match s.pcs[t]
    case Start =>
      s.(pcs := s.pcs[t := Loaded(s.target)], seen := s.seen[t := |s.log|])
    case Loaded(snapshot) =>
      if s.target == snapshot then
        s.(target := values[t], pcs := s.pcs[t := Finished], log := s.log + [t])
      else
        s.(pcs := s.pcs[t := Start], fails := s.fails[t := s.fails[t] + 1])
    case Finished =>
      s
  }

  predicate Runnable<V(==)>(values: seq<V>, s: State<V>, sched: seq<nat>)
    decreases |sched|
  {
    Shaped(values, s) &&
    (sched != [] ==> Enabled(values, s, sched[0]) && Runnable(values, Next(values, s, sched[0]), sched[1..]))
  }

  // The state after letting the calls step in the order of the schedule.
  function Exec<V(==)>(values: seq<V>, s: State<V>, sched: seq<nat>): (s': State<V>)
    requires Runnable(values, s, sched)
    ensures Shaped(values, s')
    decreases |sched|
  {
    if sched == [] then s else Exec(values, Next(values, s, sched[0]), sched[1..])
  }

  lemma {:induction false} ExecConcat<V>(values: seq<V>, s: State<V>, a: seq<nat>, b: seq<nat>)
    requires Runnable(values, s, a) && Runnable(values, Exec(values, s, a), b)
    ensures Runnable(values, s, a + b)
    ensures Exec(values, s, a + b) == Exec(values, Exec(values, s, a), b)
    decreases |a|
  {
    if a == [] {
      assert a + b == b;
    } else {
      assert (a + b)[1..] == a[1..] + b;
      ExecConcat(values, Next(values, s, a[0]), a[1..], b);
    }
  }

  // ----------------------------------------------------------- one call's loop

  class Target<V(==)> {
    var value: V

    constructor (v: V)
      ensures value == v
    {
      value := v;
    }

    // ck_pr_cas: swap if the target still holds what was loaded.
    method Cas(snapshot: V, v: V) returns (ok: bool)
      modifies this
      ensures ok <==> old(value) == snapshot
      ensures value == if ok then v else old(value)
    {
      ok := value == snapshot;
      if ok { value := v; }
    }

    method Stores(vs: seq<V>)
      modifies this
      ensures value == LastOr(vs, old(value))
    {
      var i := 0;
      while i < |vs|
        invariant 0 <= i <= |vs| && value == LastOr(vs[..i], old(value))
      {
        value := vs[i];
        i := i + 1;
      }
      assert vs[..i] == vs;
    }

    // The loop of one call, with any stores by other calls before each load and
    // between each load and its swap: it fails exactly in the rounds up to the
    // first in which the target was not changed under it, and leaves its value.
    method CasLoop(v: V, others: seq<Round<V>>) returns (fails: nat)
      modifies this
      ensures value == v && fails <= |others|
      ensures forall i :: 0 <= i < fails ==> Changed(old(value), others, i)
      ensures fails < |others| ==> !Changed(old(value), others, fails)
    {
      fails := 0;
      while true
        invariant fails <= |others| && value == Held(old(value), others, fails)
        invariant forall i :: 0 <= i < fails ==> Changed(old(value), others, i)
        decreases |others| - fails
      {
        if fails < |others| { Stores(others[fails].before); }
        var snapshot := value;
        if fails < |others| { Stores(others[fails].between); }
        var ok := Cas(snapshot, v);
        if ok { break; }
        fails := fails + 1;
      }
    }
  }

  // What other calls store before a load, and between it and the swap.
  datatype Round<V> = Round(before: seq<V>, between: seq<V>)

  function LastOr<V>(vs: seq<V>, v: V): V {
    if vs == [] then v else vs[|vs| - 1]
  }

  // The target after the first i rounds of stores by others.
  function Held<V>(first: V, others: seq<Round<V>>, i: nat): V
    requires i <= |others|
  {
    if i == 0 then first
    else LastOr(others[i - 1].between, LastOr(others[i - 1].before, Held(first, others, i - 1)))
  }

  // In round i the target is not what the call has loaded when it swaps.
  predicate Changed<V(==)>(first: V, others: seq<Round<V>>, i: nat)
    requires i < |others|
  {
    Held(first, others, i + 1) != LastOr(others[i].before, Held(first, others, i))
  }

  // ------------------------------------------------- the atomic-store reading

  // The value a sequence of atomic stores leaves behind.
  function Replay<V>(init: V, values: seq<V>, log: seq<nat>): V
    requires forall k :: 0 <= k < |log| ==> log[k] < |values|
  {
    if log == [] then init else values[log[|log| - 1]]
  }

  ghost predicate Distinct(log: seq<nat>) {
    forall i, j :: 0 <= i < j < |log| ==> log[i] != log[j]
  }

  ghost predicate LogOk(n: nat, log: seq<nat>) {
    Distinct(log) && forall k :: 0 <= k < |log| ==> log[k] < n
  }

  ghost predicate CallOk<V>(init: V, values: seq<V>, s: State<V>, t: nat)
    requires Shaped(values, s) && LogOk(|values|, s.log) && t < |values|
  {
    match s.pcs[t]
    case Start => t !in s.log && s.fails[t] <= |s.log|
    case Loaded(v) =>
      t !in s.log && s.fails[t] <= s.seen[t] <= |s.log| && v == Replay(init, values, s.log[..s.seen[t]])
    case Finished => exists k :: 0 <= k < |s.log| && s.log[k] == t && s.fails[t] <= k
  }

  ghost predicate Inv<V>(init: V, values: seq<V>, s: State<V>) {
    && Shaped(values, s) && LogOk(|values|, s.log)
    && s.target == Replay(init, values, s.log)
    && forall t :: 0 <= t < |values| ==> CallOk(init, values, s, t)
  }

  lemma NextKeepsCall<V>(init: V, values: seq<V>, s: State<V>, t: nat, u: nat)
    requires Inv(init, values, s) && Enabled(values, s, t) && u < |values|
    ensures LogOk(|values|, Next(values, s, t).log) && CallOk(init, values, Next(values, s, t), u)
  {
    var s' := Next(values, s, t);
    assert CallOk(init, values, s, t) && CallOk(init, values, s, u);
    if u == t {
      if s.pcs[t].Loaded? && s.target == s.pcs[t].snapshot {
        assert s'.log[|s.log|] == t;
      } else if s.pcs[t].Start? {
        assert s.log[..|s.log|] == s.log;
      } else {
        assert s.log[..|s.log|] == s.log;
      }
    } else {
      assert s'.pcs[u] == s.pcs[u] && s'.fails[u] == s.fails[u] && s'.seen[u] == s.seen[u];
      if s.pcs[u].Loaded? {
        assert s'.log[..s.seen[u]] == s.log[..s.seen[u]];
      } else if s.pcs[u].Finished? {
        var k :| 0 <= k < |s.log| && s.log[k] == u && s.fails[u] <= k;
        assert s'.log[k] == u;
      }
    }
  }

  lemma NextKeepsInv<V>(init: V, values: seq<V>, s: State<V>, t: nat)
    requires Inv(init, values, s) && Enabled(values, s, t)
    ensures Inv(init, values, Next(values, s, t))
  {
    NextKeepsCall(init, values, s, t, t);
    forall u | 0 <= u < |values| ensures CallOk(init, values, Next(values, s, t), u) {
      NextKeepsCall(init, values, s, t, u);
    }
  }

  lemma {:induction false} ExecKeepsInv<V>(init: V, values: seq<V>, s: State<V>, sched: seq<nat>)
    requires Inv(init, values, s) && Runnable(values, s, sched)
    ensures Inv(init, values, Exec(values, s, sched))
    decreases |sched|
  {
    if sched != [] {
      NextKeepsInv(init, values, s, sched[0]);
      ExecKeepsInv(init, values, Next(values, s, sched[0]), sched[1..]);
    }
  }

  // Linearizability: after any run of any number of calls, the target holds what
  // an atomic store per completed call, in completion order, would leave there;
  // no call takes effect twice; and the calls in the log are the finished ones.
  lemma Linearizable<V>(init: V, values: seq<V>, sched: seq<nat>)
    requires Runnable(values, Initial(init, |values|), sched)
    ensures var s := Exec(values, Initial(init, |values|), sched);
            && LogOk(|values|, s.log)
            && s.target == Replay(init, values, s.log)
            && forall t :: 0 <= t < |values| ==> (s.pcs[t].Finished? <==> t in s.log)
  {
    var s := Exec(values, Initial(init, |values|), sched);
    ExecKeepsInv(init, values, Initial(init, |values|), sched);
    forall t | 0 <= t < |values| ensures s.pcs[t].Finished? <==> t in s.log {
      assert CallOk(init, values, s, t);
    }
  }

  // A swap fails only if another call completed since this call's load.
  lemma FailureMeansInterference<V>(init: V, values: seq<V>, sched: seq<nat>, t: nat)
    requires Runnable(values, Initial(init, |values|), sched)
    requires t < |values|
    requires var s := Exec(values, Initial(init, |values|), sched);
             s.pcs[t].Loaded? && s.pcs[t].snapshot != s.target
    ensures var s := Exec(values, Initial(init, |values|), sched);
            && s.seen[t] < |s.log|
            && forall k :: s.seen[t] <= k < |s.log| ==> s.log[k] != t
  {
    var s := Exec(values, Initial(init, |values|), sched);
    ExecKeepsInv(init, values, Initial(init, |values|), sched);
    assert CallOk(init, values, s, t);
    assert s.log[..|s.log|] == s.log;
  }

  // --------------------------------------------------------- counting failures

  function Sum(x: seq<nat>): nat {
    if x == [] then 0 else x[0] + Sum(x[1..])
  }

  lemma {:induction false} SumUpdate(x: seq<nat>, i: nat, v: nat)
    requires i < |x|
    ensures Sum(x[i := v]) + x[i] == Sum(x) + v
    decreases |x|
  {
    if i == 0 {
      assert x[i := v][1..] == x[1..];
    } else {
      assert x[i := v][1..] == x[1..][i - 1 := v];
      SumUpdate(x[1..], i - 1, v);
    }
  }

  lemma {:induction false} SumMonotone(x: seq<nat>, y: seq<nat>)
    requires |x| == |y| && forall i :: 0 <= i < |x| ==> x[i] <= y[i]
    ensures Sum(x) <= Sum(y)
    decreases |x|
  {
    if x != [] { SumMonotone(x[1..], y[1..]); }
  }

  lemma {:induction false} SumAdd(x: seq<nat>, y: seq<nat>, z: seq<nat>)
    requires |x| == |y| == |z| && forall i :: 0 <= i < |x| ==> z[i] == x[i] + y[i]
    ensures Sum(z) == Sum(x) + Sum(y)
    decreases |x|
  {
    if x != [] { SumAdd(x[1..], y[1..], z[1..]); }
  }

  lemma {:induction false} SumConst(x: seq<nat>, c: nat)
    requires forall i :: 0 <= i < |x| ==> x[i] == c
    ensures Sum(x) == c * |x|
    decreases |x|
  {
    if x != [] { SumConst(x[1..], c); }
  }

  // Where a call stands in the log, or the log's length if it is not there.
  function Position(log: seq<nat>, t: nat): (p: nat)
    ensures p <= |log|
    ensures p < |log| ==> log[p] == t
    ensures t in log ==> p < |log|
  {
    if log == [] then 0
    else if log[0] == t then 0
    else 1 + Position(log[1..], t)
  }

  lemma {:induction false} PositionExtend(log: seq<nat>, u: nat, t: nat)
    requires u !in log
    ensures Position(log + [u], t) == Position(log, t) + if t in log || t == u then 0 else 1
    decreases |log|
  {
    if log == [] {
      assert log + [u] == [u];
    } else {
      assert (log + [u])[1..] == log[1..] + [u];
      assert forall x :: x in log <==> x == log[0] || x in log[1..];
      PositionExtend(log[1..], u, t);
    }
  }

  ghost function Positions(n: nat, log: seq<nat>): seq<nat> {
    seq(n, t requires 0 <= t => Position(log, t))
  }

  ghost function Waiting(n: nat, log: seq<nat>): seq<nat> {
    seq(n, t requires 0 <= t => if t in log then 0 else 1)
  }

  lemma OneMoreDone(n: int, m: int)
    ensures 2 * (n - m) * m + m * (m - 1) + 2 * (n - m - 1) == (m + 1) * m + 2 * (n - m - 1) * (m + 1)
  {
  }

  lemma PositionsExtend(n: nat, log: seq<nat>, u: nat)
    requires u !in log && u < n
    ensures Sum(Waiting(n, log + [u])) == Sum(Waiting(n, log)) - 1
    ensures Sum(Positions(n, log + [u])) == Sum(Positions(n, log)) + Sum(Waiting(n, log + [u]))
  {
    assert Waiting(n, log + [u]) == Waiting(n, log)[u := 0];
    SumUpdate(Waiting(n, log), u, 0);
    forall t | 0 <= t < n
      ensures Positions(n, log + [u])[t] == Positions(n, log)[t] + Waiting(n, log + [u])[t]
    {
      PositionExtend(log, u, t);
    }
    SumAdd(Positions(n, log), Waiting(n, log + [u]), Positions(n, log + [u]));
  }

  lemma {:induction false} PositionSums(n: nat, log: seq<nat>)
    requires LogOk(n, log)
    ensures Sum(Waiting(n, log)) == n - |log|
    ensures 2 * Sum(Positions(n, log)) == |log| * (|log| - 1) + 2 * (n - |log|) * |log|
    decreases |log|
  {
    if log == [] {
      SumConst(Waiting(n, log), 1);
      SumConst(Positions(n, log), 0);
    } else {
      var m := |log| - 1;
      var shorter, u := log[..m], log[m];
      assert log == shorter + [u];
      PositionSums(n, shorter);
      PositionsExtend(n, shorter, u);
      OneMoreDone(n, m);
    }
  }

  lemma PositionOf(log: seq<nat>, k: nat)
    requires k < |log| && Distinct(log)
    ensures Position(log, log[k]) == k
  {
  }

  // N calls that are the only writers fail at most N(N-1)/2 swaps between them,
  // in any run, finished or not.
  lemma FailureBound<V>(init: V, values: seq<V>, sched: seq<nat>)
    requires Runnable(values, Initial(init, |values|), sched)
    ensures var n := |values|;
            2 * Sum(Exec(values, Initial(init, n), sched).fails) <= n * (n - 1)
  {
    var n := |values|;
    var s := Exec(values, Initial(init, n), sched);
    ExecKeepsInv(init, values, Initial(init, n), sched);
    var ps := Positions(n, s.log);
    forall t | 0 <= t < n ensures s.fails[t] <= ps[t] {
      assert CallOk(init, values, s, t);
      if s.pcs[t].Finished? {
        var k :| 0 <= k < |s.log| && s.log[k] == t && s.fails[t] <= k;
        PositionOf(s.log, k);
      }
    }
    SumMonotone(s.fails, ps);
    PositionSums(n, s.log);
    LogFits(n, s.log);
    Shortfall(n, |s.log|);
  }

  lemma {:induction false} Shortfall(n: nat, m: nat)
    requires m <= n
    ensures m * (m - 1) + 2 * (n - m) * m <= n * (n - 1)
  {
    var d := n - m;
    assert n * (n - 1) - (m * (m - 1) + 2 * d * m) == d * (d - 1);
    assert d == 0 || d * (d - 1) >= 0;
  }

  lemma LogFits(n: nat, log: seq<nat>)
    requires LogOk(n, log)
    ensures |log| <= n
  {
    PositionSums(n, log);
  }

  // ------------------------------------------------------------ counting steps

  ghost function Work<V>(s: State<V>): seq<nat>
    requires |s.pcs| == |s.fails|
  {
    seq(|s.pcs|, t requires 0 <= t < |s.pcs| =>
      2 * s.fails[t] + match s.pcs[t] case Start => 0 case Loaded(_) => 1 case Finished => 2)
  }

  lemma {:induction false} ScheduleLength<V>(values: seq<V>, s: State<V>, sched: seq<nat>)
    requires Runnable(values, s, sched)
    ensures |sched| + Sum(Work(s)) == Sum(Work(Exec(values, s, sched)))
    decreases |sched|
  {
    if sched != [] {
      var t := sched[0];
      var s' := Next(values, s, t);
      assert Work(s') == Work(s)[t := Work(s)[t] + 1];
      SumUpdate(Work(s), t, Work(s)[t] + 1);
      ScheduleLength(values, s', sched[1..]);
    }
  }

  // Progress: every run of N calls ends within N(N+1) steps, however the
  // scheduler interleaves them.
  lemma {:induction false} StepBound<V>(init: V, values: seq<V>, sched: seq<nat>)
    requires Runnable(values, Initial(init, |values|), sched)
    ensures |sched| <= |values| * (|values| + 1)
  {
    var n := |values|;
    var s0 := Initial(init, n);
    var s := Exec(values, s0, sched);
    ScheduleLength(values, s0, sched);
    SumConst(Work(s0), 0);
    FailureBound(init, values, sched);
    WorkCeiling(s);
  }

  lemma WorkCeiling<V>(s: State<V>)
    requires |s.pcs| == |s.fails|
    ensures Sum(Work(s)) <= 2 * Sum(s.fails) + 2 * |s.fails|
  {
    var n := |s.fails|;
    var twos := seq(n, t requires 0 <= t => 2);
    var twice := seq(n, t requires 0 <= t < n => 2 * s.fails[t]);
    var ceiling := seq(n, t requires 0 <= t < n => 2 * s.fails[t] + 2);
    SumConst(twos, 2);
    SumAdd(s.fails, s.fails, twice);
    SumAdd(twice, twos, ceiling);
    SumMonotone(Work(s), ceiling);
  }

  // ------------------------------------------------------ the bounds are exact

  // Calls that store b and a in turn over a target that starts as a.
  function Alternating<V>(n: nat, a: V, b: V): seq<V> {
    seq(n, t => if t % 2 == 0 then b else a)
  }

  function From(j: nat, n: nat): seq<nat>
    requires j <= n
    decreases n - j
  {
    if j == n then [] else [j] + From(j + 1, n)
  }

  // k calls have finished, in order, and each later one has failed once for each.
  ghost predicate AtRound<V>(n: nat, a: V, b: V, s: State<V>, k: nat) {
    && Shaped(Alternating(n, a, b), s) && k <= n
    && s.target == (if k % 2 == 0 then a else b)
    && forall u :: 0 <= u < n ==>
         && s.pcs[u] == (if u < k then Finished else Start)
         && s.fails[u] == (if u < k then u else k)
  }

  lemma {:induction false} AllLoad<V>(values: seq<V>, s: State<V>, j: nat)
    requires Shaped(values, s) && j <= |values|
    requires forall u :: j <= u < |values| ==> s.pcs[u].Start?
    ensures Runnable(values, s, From(j, |values|))
    ensures var s' := Exec(values, s, From(j, |values|));
            && s'.target == s.target && s'.fails == s.fails
            && forall u :: 0 <= u < |values| ==> s'.pcs[u] == if u < j then s.pcs[u] else Loaded(s.target)
    decreases |values| - j
  {
    if j < |values| {
      var s1 := Next(values, s, j);
      assert From(j, |values|)[1..] == From(j + 1, |values|);
      AllLoad(values, s1, j + 1);
    }
  }

  lemma {:induction false} AllFail<V>(values: seq<V>, s: State<V>, j: nat)
    requires Shaped(values, s) && j <= |values|
    requires forall u :: j <= u < |values| ==> s.pcs[u].Loaded? && s.pcs[u].snapshot != s.target
    ensures Runnable(values, s, From(j, |values|))
    ensures var s' := Exec(values, s, From(j, |values|));
            && s'.target == s.target
            && forall u :: 0 <= u < |values| ==>
                 && s'.pcs[u] == (if u < j then s.pcs[u] else Start)
                 && s'.fails[u] == s.fails[u] + if u < j then 0 else 1
    decreases |values| - j
  {
    if j < |values| {
      var s1 := Next(values, s, j);
      assert From(j, |values|)[1..] == From(j + 1, |values|);
      AllFail(values, s1, j + 1);
    }
  }

  // All waiting calls load, call k swaps, the others fail.
  lemma OneRound<V>(n: nat, a: V, b: V, s: State<V>, k: nat) returns (sched: seq<nat>)
    requires a != b && AtRound(n, a, b, s, k) && k < n
    ensures Runnable(Alternating(n, a, b), s, sched)
    ensures AtRound(n, a, b, Exec(Alternating(n, a, b), s, sched), k + 1)
  {
    var values := Alternating(n, a, b);
    AllLoad(values, s, k);
    var s1 := Exec(values, s, From(k, n));
    var s2 := Next(values, s1, k);
    assert s2.target == values[k] != s1.target;
    AllFail(values, s2, k + 1);
    var swaps := [k] + From(k + 1, n);
    assert swaps[1..] == From(k + 1, n);
    ExecConcat(values, s, From(k, n), swaps);
    sched := From(k, n) + swaps;
  }

  lemma {:induction false} Rounds<V>(n: nat, a: V, b: V, k: nat) returns (sched: seq<nat>)
    requires a != b && k <= n
    ensures Runnable(Alternating(n, a, b), Initial(a, n), sched)
    ensures AtRound(n, a, b, Exec(Alternating(n, a, b), Initial(a, n), sched), k)
    decreases k
  {
    if k == 0 {
      sched := [];
    } else {
      var before := Rounds(n, a, b, k - 1);
      var s := Exec(Alternating(n, a, b), Initial(a, n), before);
      var round := OneRound(n, a, b, s, k - 1);
      ExecConcat(Alternating(n, a, b), Initial(a, n), before, round);
      sched := before + round;
    }
  }

  lemma {:induction false} SumRamp(x: seq<nat>, base: nat)
    requires forall i :: 0 <= i < |x| ==> x[i] == base + i
    ensures 2 * Sum(x) == |x| * (|x| - 1) + 2 * base * |x|
    decreases |x|
  {
    if x != [] {
      SumRamp(x[1..], base + 1);
      var m := |x| - 1;
      assert m * (m - 1) + 2 * (base + 1) * m + 2 * base == (m + 1) * m + 2 * base * (m + 1);
    }
  }

  // For every N there is a run of N calls, all finishing, that fails exactly
  // N(N-1)/2 swaps and takes exactly N(N+1) steps.
  lemma BoundsAreTight<V>(n: nat, a: V, b: V) returns (sched: seq<nat>)
    requires a != b
    ensures Runnable(Alternating(n, a, b), Initial(a, n), sched)
    ensures var s := Exec(Alternating(n, a, b), Initial(a, n), sched);
            && 2 * Sum(s.fails) == n * (n - 1)
            && forall t :: 0 <= t < n ==> s.pcs[t].Finished?
    ensures |sched| == n * (n + 1)
  {
    sched := Rounds(n, a, b, n);
    var values, s0 := Alternating(n, a, b), Initial(a, n);
    var s := Exec(values, s0, sched);
    SumRamp(s.fails, 0);
    ScheduleLength(values, s0, sched);
    SumConst(Work(s0), 0);
    var half := seq(n, t requires 0 <= t => t + 1);
    SumRamp(half, 1);
    SumAdd(half, half, Work(s));
    assert n * (n - 1) + 2 * n == n * (n + 1);
  }
}
