/**
 Any number of threads in add_server, remove_server and for_each_server(ping_server) (src/server_table.c:13-68),
 interleaved one table access at a time under the file's plain, non-recursive mutex.
 */
module Interleavings {
  import opened Bytes
  import opened Registry
  import opened ServerTables

  datatype Call = Add(server: Server) | Remove(id: nat) | SweepAll

  /** Where a thread is. */
  datatype Pc =
    | Idle
    | Waiting(call: Call)                              // at pthread_mutex_lock
    | Grow(server: Server)                             // before realloc and ++server_count
    | Store(server: Server)                            // before the write of the new last entry
    | Scan(id: nat, at: nat)                           // in indexof, before reading entry at
    | Shift(id: nat, first: nat, at: nat)              // in the shifting loop, before the write of entry at
    | Visit(at: nat)                                   // in for_each_server, before the callback on entry at
    | Nested(at: nat)                                  // in the callback's remove_server, at pthread_mutex_lock
    | Unlock(call: Call)                               // at pthread_mutex_unlock

  /** acquired and completed are histories: calls in the order they took the mutex, and released it. */
  datatype State = State(cells: seq<Server>, lock: Option<nat>, pcs: seq<Pc>,
                         acquired: seq<Call>, completed: seq<Call>)

  predicate Initial(s: State) {
    && s.cells == [] && s.lock.None? && s.acquired == [] && s.completed == []
    && forall t :: 0 <= t < |s.pcs| ==> s.pcs[t].Idle?
  }

  function Entry(c: Call): Pc {
    match c
    case Add(server) => Grow(server)
    case Remove(id) => Scan(id, 0)
    case SweepAll => Visit(0)
  }

  function Goto(s: State, t: nat, pc: Pc): State
    requires t < |s.pcs|
  {
    s.(pcs := s.pcs[t := pc])
  }

  /** One access to the table by the holder of the mutex. */
  ghost predicate TableStep(pc: Pc, cells: seq<Server>, pc': Pc, cells': seq<Server>, failed: Server -> bool) {
    match pc
    case Grow(server) =>
      && pc' == Store(server)
      && if |cells| < MAX_SERVERS then |cells'| == |cells| + 1 && cells'[..|cells|] == cells else cells' == []
    case Store(server) =>
      && pc' == Unlock(Add(server))
      && cells' == if |cells| > 0 then cells[|cells| - 1 := server] else []  // in front of the table if it is empty
    case Scan(id, at) =>
      && cells' == cells
      && pc' == if at >= |cells| then Unlock(Remove(id))
                else if cells[at].id == id then Shift(id, at, at)
                else Scan(id, at + 1)
    case Shift(id, first, at) =>
      if at + 1 < |cells| then pc' == Shift(id, first, at + 1) && cells' == cells[at := cells[at + 1]]
      else |cells| > 0 && pc' == Unlock(Remove(id)) && cells' == cells[..|cells| - 1]
    case Visit(at) =>
      && cells' == cells
      && pc' == if at >= |cells| then Unlock(SweepAll) else if failed(cells[at]) then Nested(at) else Visit(at + 1)
    case _ => false
  }

  /** Thread t makes one step. */
  ghost predicate Step(s: State, s': State, t: nat, failed: Server -> bool) {
    && t < |s.pcs|
    && match s.pcs[t]
       case Idle => exists c :: s' == Goto(s, t, Waiting(c))
       case Waiting(c) => s.lock.None? && s' == Goto(s, t, Entry(c)).(lock := Some(t), acquired := s.acquired + [c])
       case Nested(at) => s.lock.None? && at < |s.cells| && s' == Goto(s, t, Scan(s.cells[at].id, 0)).(lock := Some(t))
       case Unlock(c) => s' == Goto(s, t, Idle).(lock := None, completed := s.completed + [c])
       case _ =>
         && t < |s'.pcs|
         && s' == Goto(s, t, s'.pcs[t]).(cells := s'.cells)
         && TableStep(s.pcs[t], s.cells, s'.pcs[t], s'.cells, failed)
  }

  /** A run from an initial state, each state one step of some thread after the one before. */
  ghost predicate IsRun(run: seq<State>, failed: Server -> bool) {
    && run != []
    && Initial(run[0])
    && forall i :: 0 <= i < |run| - 1 ==> AnyStep(run[i], run[i + 1], failed)
  }

  ghost predicate AnyStep(s: State, s': State, failed: Server -> bool) {
    exists t: nat :: Step(s, s', t, failed)
  }

  // ---------- the sequential meaning ----------

  function ApplyCall(table: seq<Server>, c: Call, failed: Server -> bool): seq<Server> {
    match c
    case Add(server) => Added(table, server)
    case Remove(id) => Without(table, id)
    case SweepAll => Sweep(table, failed)
  }

  /** The calls applied one after the other, each at once, to an empty table. */
  function Replay(calls: seq<Call>, failed: Server -> bool): seq<Server> {
    if calls == [] then []
    else ApplyCall(Replay(calls[..|calls| - 1], failed), calls[|calls| - 1], failed)
  }

  predicate Outside(pc: Pc) {
    pc.Idle? || pc.Waiting?
  }

  function CurrentCall(pc: Pc): Call
    requires !Outside(pc)
  {
    match pc
    case Grow(server) => Add(server)
    case Store(server) => Add(server)
    case Scan(id, _) => Remove(id)
    case Shift(id, _, _) => Remove(id)
    case Visit(_) => SweepAll
    case Nested(_) => SweepAll
    case Unlock(c) => c
  }

  ghost predicate NoneFailed(table: seq<Server>, n: nat, failed: Server -> bool)
    requires n <= |table|
  {
    forall k :: 0 <= k < n ==> !failed(table[k])
  }

  /** What the cells look like while the holder is at pc, base being the table before its call. */
  ghost predicate Matches(pc: Pc, cells: seq<Server>, base: seq<Server>, failed: Server -> bool)
    requires !Outside(pc)
  {
    match pc
    case Grow(_) => cells == base
    case Store(_) => if |base| < MAX_SERVERS then |cells| == |base| + 1 && cells[..|base|] == base else cells == []
    case Scan(id, at) => cells == base && at <= |base| && forall k :: 0 <= k < at ==> base[k].id != id
    case Shift(id, first, at) =>
      first <= at < |base| && IndexOfId(base, id) == first && cells == Shifted(base, first, at)
    case Visit(at) => cells == base && at <= |base| && NoneFailed(base, at, failed)
    case Nested(at) => cells == base && at < |base| && failed(base[at])
    case Unlock(c) => cells == ApplyCall(base, c, failed) && (c.SweepAll? ==> NoneFailed(base, |base|, failed))
  }

  ghost predicate Inv(s: State, failed: Server -> bool) {
    && (s.lock.None? ==>
          && s.cells == Replay(s.completed, failed)
          && s.acquired == s.completed
          && forall t :: 0 <= t < |s.pcs| ==> Outside(s.pcs[t]))
    && (s.lock.Some? ==>
          && s.lock.value < |s.pcs|
          && !Outside(s.pcs[s.lock.value])
          && s.acquired == s.completed + [CurrentCall(s.pcs[s.lock.value])]
          && Matches(s.pcs[s.lock.value], s.cells, Replay(s.completed, failed), failed)
          && forall t :: 0 <= t < |s.pcs| && t != s.lock.value ==> Outside(s.pcs[t]))
  }

  lemma {:induction false} CleanSweep(table: seq<Server>, failed: Server -> bool)
    requires NoneFailed(table, |table|, failed)
    ensures Sweep(table, failed) == table
  {
    if table != [] {
      CleanSweep(table[1..], failed);
      assert [table[0]] + table[1..] == table;
    }
  }

  lemma ReplayStep(calls: seq<Call>, c: Call, failed: Server -> bool)
    ensures Replay(calls + [c], failed) == ApplyCall(Replay(calls, failed), c, failed)
  {
    assert (calls + [c])[..|calls|] == calls;
  }

  lemma ShiftedMoves(base: seq<Server>, first: nat, at: nat)
    requires first <= at < |base|
    ensures Shifted(base, first, first) == base
    ensures at + 1 < |base| ==>
              Shifted(base, first, at)[at := Shifted(base, first, at)[at + 1]] == Shifted(base, first, at + 1)
    ensures at + 1 == |base| ==> Shifted(base, first, at)[..at] == WithoutIndex(base, first)
  {
  }

  lemma StepKeepsInv(s: State, s': State, t: nat, failed: Server -> bool)
    requires Inv(s, failed) && Step(s, s', t, failed)
    ensures Inv(s', failed)
  {
    if !Outside(s.pcs[t]) {
      assert s.lock == Some(t);
      HolderKeepsInv(s, s', t, failed);
    }
  }

  lemma HolderKeepsInv(s: State, s': State, t: nat, failed: Server -> bool)
    requires Inv(s, failed) && Step(s, s', t, failed) && s.lock == Some(t)
    ensures Inv(s', failed)
  {
    var base := Replay(s.completed, failed);
    if s.pcs[t].Unlock? {
      ReplayStep(s.completed, s.pcs[t].call, failed);
    } else {
      TableStepKeepsMatches(s.pcs[t], s.cells, s'.pcs[t], s'.cells, base, failed);
    }
  }

  lemma TableStepKeepsMatches(pc: Pc, cells: seq<Server>, pc': Pc, cells': seq<Server>, base: seq<Server>,
                              failed: Server -> bool)
    requires !Outside(pc) && Matches(pc, cells, base, failed) && TableStep(pc, cells, pc', cells', failed)
    ensures !Outside(pc') && CurrentCall(pc') == CurrentCall(pc) && Matches(pc', cells', base, failed)
  {
    match pc
    case Scan(id, at) =>
      if at < |cells| && cells[at].id == id {
        ShiftedMoves(base, at, at);
      }
    case Shift(id, first, at) =>
      ShiftKeepsMatches(id, first, at, cells, pc', cells', base, failed);
    case Visit(at) =>
      if at >= |cells| {
        CleanSweep(base, failed);
      }
    case _ =>
  }

  lemma ShiftKeepsMatches(id: nat, first: nat, at: nat, cells: seq<Server>, pc': Pc, cells': seq<Server>,
                          base: seq<Server>, failed: Server -> bool)
    requires first <= at < |base| && IndexOfId(base, id) == first && cells == Shifted(base, first, at)
    requires TableStep(Shift(id, first, at), cells, pc', cells', failed)
    ensures !Outside(pc') && CurrentCall(pc') == Remove(id) && Matches(pc', cells', base, failed)
  {
    ShiftedMoves(base, first, at);
  }

  // ---------- results over all runs ----------

  lemma {:induction false} InvAlways(run: seq<State>, i: nat, failed: Server -> bool)
    requires IsRun(run, failed) && i < |run|
    ensures Inv(run[i], failed)
  {
    if i > 0 {
      InvAlways(run, i - 1, failed);
      assert AnyStep(run[i - 1], run[i - 1 + 1], failed);
      var t: nat :| Step(run[i - 1], run[i], t, failed);
      StepKeepsInv(run[i - 1], run[i], t, failed);
    }
  }

  /**
   Whenever the mutex is free, the table is the completed calls applied one at a time in the order in which they
   took the mutex; and while a removal is under way it is the table before it with a prefix of the tail moved up.
   */
  lemma Linearisable(run: seq<State>, i: nat, failed: Server -> bool)
    requires IsRun(run, failed) && i < |run|
    ensures run[i].lock.None? ==>
              run[i].completed == run[i].acquired && run[i].cells == Replay(run[i].acquired, failed)
    ensures forall t :: 0 <= t < |run[i].pcs| && run[i].pcs[t].Shift? ==>
              var pc, base := run[i].pcs[t], Replay(run[i].completed, failed);
              pc.first <= pc.at < |base| && base[pc.first].id == pc.id && run[i].cells == Shifted(base, pc.first, pc.at)
    ensures forall t, u :: 0 <= t < u < |run[i].pcs| ==> Outside(run[i].pcs[t]) || Outside(run[i].pcs[u])
  {
    InvAlways(run, i, failed);
  }

  /** Once the sweep's callback waits for the mutex its own thread holds, nothing ever changes or completes again. */
  lemma {:induction false} SelfDeadlock(run: seq<State>, i: nat, j: nat, t: nat, failed: Server -> bool)
    requires IsRun(run, failed) && i <= j < |run|
    requires t < |run[i].pcs| && run[i].pcs[t].Nested?
    ensures t < |run[j].pcs| && run[j].pcs[t] == run[i].pcs[t]
    ensures run[j].lock == run[i].lock == Some(t)
    ensures run[j].cells == run[i].cells && run[j].completed == run[i].completed
  {
    NestedHoldsMutex(run, i, t, failed);
    if j > i {
      SelfDeadlock(run, i, j - 1, t, failed);
      NestedIsStuck(run, j - 1, t, failed);
    }
  }

  lemma NestedHoldsMutex(run: seq<State>, i: nat, t: nat, failed: Server -> bool)
    requires IsRun(run, failed) && i < |run| && t < |run[i].pcs| && run[i].pcs[t].Nested?
    ensures run[i].lock == Some(t)
    ensures forall u :: 0 <= u < |run[i].pcs| && u != t ==> Outside(run[i].pcs[u])
  {
    InvAlways(run, i, failed);
  }

  lemma NestedIsStuck(run: seq<State>, i: nat, t: nat, failed: Server -> bool)
    requires IsRun(run, failed) && i + 1 < |run| && t < |run[i].pcs| && run[i].pcs[t].Nested?
    ensures t < |run[i + 1].pcs| && run[i + 1].pcs[t] == run[i].pcs[t]
    ensures run[i + 1].lock == run[i].lock && run[i + 1].cells == run[i].cells
    ensures run[i + 1].completed == run[i].completed
  {
    NestedHoldsMutex(run, i, t, failed);
    assert AnyStep(run[i], run[i + 1], failed);
    var u: nat :| Step(run[i], run[i + 1], u, failed);
    assert u != t;
  }

  /** In every run a sweep gets stuck only on a table with a failed worker, and finishes only on one without. */
  lemma SweepEndsOnlyIf(run: seq<State>, i: nat, t: nat, failed: Server -> bool)
    requires IsRun(run, failed) && i < |run| && t < |run[i].pcs|
    ensures run[i].pcs[t].Nested? ==> !NoneFailed(run[i].cells, |run[i].cells|, failed)
    ensures run[i].pcs[t] == Unlock(SweepAll) ==> NoneFailed(run[i].cells, |run[i].cells|, failed)
  {
    InvAlways(run, i, failed);
    if run[i].pcs[t] == Unlock(SweepAll) {
      CleanSweep(Replay(run[i].completed, failed), failed);
    }
  }

  /** And a run with a sweep under way goes on, by that thread alone, to finish it if and only if no worker failed. */
  lemma {:induction false} SweepReachesEnd(run: seq<State>, t: nat, failed: Server -> bool) returns (longer: seq<State>)
    requires IsRun(run, failed)
    requires var s := run[|run| - 1]; t < |s.pcs| && s.pcs[t].Visit?
    ensures IsRun(longer, failed) && run <= longer
    ensures forall i :: |run| - 1 <= i < |longer| - 1 ==> Step(longer[i], longer[i + 1], t, failed)
    ensures var s, end := run[|run| - 1], longer[|longer| - 1];
            && t < |end.pcs| && end.cells == s.cells
            && (end.pcs[t] == Unlock(SweepAll) <==> NoneFailed(s.cells, |s.cells|, failed))
            && (end.pcs[t].Nested? <==> !NoneFailed(s.cells, |s.cells|, failed))
    decreases |run[|run| - 1].cells| - run[|run| - 1].pcs[t].at
  {
    var s := run[|run| - 1];
    var at := s.pcs[t].at;
    VisitSoFar(run, t, failed);
    if at >= |s.cells| {
      longer := OneMore(run, Goto(s, t, Unlock(SweepAll)), t, failed);
    } else if failed(s.cells[at]) {
      longer := OneMore(run, Goto(s, t, Nested(at)), t, failed);
    } else {
      var next := OneMore(run, Goto(s, t, Visit(at + 1)), t, failed);
      longer := SweepReachesEnd(next, t, failed);
      assert longer[|run| - 1] == next[|run| - 1] && longer[|run|] == next[|run|];
      assert next[|run| - 1] == run[|run| - 1];
    }
  }

  lemma VisitSoFar(run: seq<State>, t: nat, failed: Server -> bool)
    requires IsRun(run, failed)
    requires var s := run[|run| - 1]; t < |s.pcs| && s.pcs[t].Visit?
    ensures var s := run[|run| - 1]; s.pcs[t].at <= |s.cells| && NoneFailed(s.cells, s.pcs[t].at, failed)
  {
    InvAlways(run, |run| - 1, failed);
  }

  lemma OneMore(run: seq<State>, s': State, t: nat, failed: Server -> bool) returns (longer: seq<State>)
    requires IsRun(run, failed) && Step(run[|run| - 1], s', t, failed)
    ensures longer == run + [s'] && IsRun(longer, failed)
  {
    longer := run + [s'];
    forall i | 0 <= i < |longer| - 1
      ensures AnyStep(longer[i], longer[i + 1], failed)
    {
      if i < |run| - 1 {
        assert AnyStep(run[i], run[i + 1], failed);
      }
    }
  }

  /** The deadlock is real: adding one failed worker and sweeping is a run from the initial state that ends in it. */
  lemma DeadlockIsReached(w: Server, failed: Server -> bool) returns (run: seq<State>)
    requires failed(w)
    ensures IsRun(run, failed)
    ensures var end := run[|run| - 1]; |end.pcs| == 1 && end.pcs[0] == Nested(0) && end.cells == [w]
  {
    run := [State([], None, [Idle], [], [])];
    run := Then(run, State([], None, [Waiting(Add(w))], [], []), failed);
    run := Then(run, State([], Some(0), [Grow(w)], [Add(w)], []), failed);
    run := Then(run, State([w], Some(0), [Store(w)], [Add(w)], []), failed);
    run := Then(run, State([w], Some(0), [Unlock(Add(w))], [Add(w)], []), failed);
    run := Then(run, State([w], None, [Idle], [Add(w)], [Add(w)]), failed);
    run := Then(run, State([w], None, [Waiting(SweepAll)], [Add(w)], [Add(w)]), failed);
    run := Then(run, State([w], Some(0), [Visit(0)], [Add(w), SweepAll], [Add(w)]), failed);
    run := Then(run, State([w], Some(0), [Nested(0)], [Add(w), SweepAll], [Add(w)]), failed);
  }

  /** One more step of the only thread. */
  lemma Then(run: seq<State>, s': State, failed: Server -> bool) returns (longer: seq<State>)
    requires IsRun(run, failed) && Step(run[|run| - 1], s', 0, failed)
    ensures IsRun(longer, failed) && longer[|longer| - 1] == s'
  {
    longer := OneMore(run, s', 0, failed);
  }
}
