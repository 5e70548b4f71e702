/** The whole storage system as a step machine that the master's main loop refines, and what holds over all its runs. */
module Systems {
  import opened Bytes
  import opened Packets
  import opened Text
  import opened Registry
  import RegistryRuns
  import opened Workers
  import opened Requests
  import opened Masters

  /** answering: the workers that answer at the moment. */
  datatype State = State(table: seq<Server>, nextId: nat, stores: Stores, answering: set<Location>)

  datatype Event =
    | Idle                              // a request that leaves everything as it is
    | Register(location: Location)
    | Write(arg: seq<byte>)             // "name;data"
    | Delete(name: Name)
    | PingSweep
    | Outage(answering: set<Location>)  // workers fail or come back

  ghost predicate Step(s: State, e: Event, s': State) {
    match e
    case Idle => s' == s
    case Register(location) =>
      s' == s.(table := Added(s.table, Server(s.nextId, location)), nextId := (s.nextId + 1) % INT_SPAN)
    case Write(arg) =>
      && SEP in arg && NoNul(arg)
      && s' == s.(stores := WriteOutcome(s.table, s.stores, s.answering, arg).0)
    case Delete(name) =>
      && s' == s.(stores := s'.stores)
      && AtMostErased(s.table, s.stores, s'.stores, name)
      && (Plain(s.table, s.stores, name) ==> s'.stores == DeleteOutcome(s.table, s.stores, s.answering, name))
    case PingSweep => s' == s.(table := Sweep(s.table, Silenced(s.stores, s.answering)))
    case Outage(answering) => s' == s.(answering := answering)
  }

  /** states[i] goes to states[i + 1] by events[i]. */
  ghost predicate StepAt(states: seq<State>, events: seq<Event>, i: nat)
    requires |states| == |events| + 1 && i < |events|
  {
    Step(states[i], events[i], states[i + 1])
  }

  ghost predicate IsRun(states: seq<State>, events: seq<Event>) {
    |states| == |events| + 1 && forall i :: 0 <= i < |events| ==> StepAt(states, events, i)
  }

  // ---------- the registry along a run ----------

  ghost predicate Ordered(s: State) {
    Increasing(s.table) && AllBelow(s.table, s.nextId)
  }

  lemma {:induction false} SubsequenceStaysOrdered(r: seq<Server>, s: seq<Server>, low: int, high: int)
    requires Subsequence(r, s)
    requires Increasing(s)
    requires forall i :: 0 <= i < |s| ==> low < s[i].id < high
    ensures Increasing(r)
    ensures forall i :: 0 <= i < |r| ==> low < r[i].id < high
    decreases |s|
  {
    if r != [] {
      if r[0] == s[0] && Subsequence(r[1..], s[1..]) {
        SubsequenceStaysOrdered(r[1..], s[1..], s[0].id, high);
      } else {
        SubsequenceStaysOrdered(r, s[1..], low, high);
      }
    }
  }

  lemma StepKeepsOrdered(s: State, e: Event, s': State)
    requires Ordered(s) && Step(s, e, s') && (e.Register? ==> s.nextId + 1 < INT_SPAN)
    ensures Ordered(s') && s'.nextId == s.nextId + if e.Register? then 1 else 0
  {
    if e.PingSweep? {
      var failed := Silenced(s.stores, s.answering);
      SweepIsSubsequence(s.table, failed);
      SubsequenceStaysOrdered(s'.table, s.table, -1, s.nextId);
    }
  }

  lemma {:induction false} SweepAgrees(s: seq<Server>, f: Server -> bool, g: Server -> bool)
    requires forall w :: w in s ==> f(w) == g(w)
    ensures Sweep(s, f) == Sweep(s, g)
  {
    if s != [] {
      SweepAgrees(s[1..], f, g);
      if |s| > 1 {
        SweepAgrees(s[2..], f, g);
      }
    }
  }

  /** The registrations and sweeps of the first j events, as RegistryRuns has them. */
  ghost function History(states: seq<State>, events: seq<Event>, j: nat): (es: seq<RegistryRuns.Event>)
    requires j <= |events| < |states|
  {
    if j == 0 then [] else History(states, events, j - 1) + Projected(states[j - 1], events[j - 1])
  }

  ghost function Projected(s: State, e: Event): (es: seq<RegistryRuns.Event>) {
    match e
    case Register(location) => [RegistryRuns.Register(location)]
    case PingSweep => [RegistryRuns.PingSweep(SilencedIds(s))]
    case _ => []
  }

  ghost function SilencedIds(s: State): set<nat> {
    set w | w in s.table && Silenced(s.stores, s.answering)(w) :: w.id
  }

  /** A run from an empty registry in which no registration makes the id counter wrap. */
  ghost predicate FromStart(states: seq<State>, events: seq<Event>) {
    && IsRun(states, events) && states[0].table == [] && states[0].nextId == 1
    && forall i :: 0 <= i < |events| && events[i].Register? ==> states[i].nextId + 1 < INT_SPAN
  }

  lemma StartStep(states: seq<State>, events: seq<Event>, i: nat)
    requires FromStart(states, events) && i < |events| && Ordered(states[i])
    ensures Step(states[i], events[i], states[i + 1]) && Ordered(states[i + 1])
    ensures states[i + 1].nextId == states[i].nextId + if events[i].Register? then 1 else 0
  {
    assert StepAt(states, events, i);
    StepKeepsOrdered(states[i], events[i], states[i + 1]);
  }

  lemma RunStep(states: seq<State>, events: seq<Event>, i: nat)
    requires FromStart(states, events) && i < |events|
    ensures Ordered(states[i]) && Step(states[i], events[i], states[i + 1])
  {
    RunStaysOrdered(states, events, i);
    StartStep(states, events, i);
  }

  lemma {:induction false} RunStaysOrdered(states: seq<State>, events: seq<Event>, j: nat)
    requires FromStart(states, events) && j < |states|
    ensures Ordered(states[j])
  {
    if j > 0 {
      RunStaysOrdered(states, events, j - 1);
      StartStep(states, events, j - 1);
    }
  }

  /** So a registration's id is below every later value of the counter. */
  lemma {:induction false} CounterGrows(states: seq<State>, events: seq<Event>, b: nat, j: nat)
    requires FromStart(states, events) && b < j < |states| && events[b].Register?
    ensures states[b].nextId < states[j].nextId
    decreases j
  {
    RunStaysOrdered(states, events, j - 1);
    StartStep(states, events, j - 1);
    if b < j - 1 {
      CounterGrows(states, events, b, j - 1);
    }
  }

  /** The registry of a run is what RegistryRuns makes of its own registrations and sweeps. */
  lemma {:induction false} RegistryFollowsHistory(states: seq<State>, events: seq<Event>, j: nat)
    requires FromStart(states, events) && j < |states|
    ensures Agrees(History(states, events, j), states[j])
  {
    if j == 0 {
      NoHistory(states[0]);
    } else {
      RegistryFollowsHistory(states, events, j - 1);
      HistoryGrows(states, events, j);
    }
  }

  lemma NoHistory(s: State)
    requires s.table == [] && s.nextId == 1
    ensures Agrees([], s)
  {
  }

  /** The registry of s is what RegistryRuns makes of es. */
  ghost predicate Agrees(es: seq<RegistryRuns.Event>, s: State) {
    RegistryRuns.Run(es).table == s.table && RegistryRuns.Run(es).nextId == s.nextId
  }

  lemma HistoryGrows(states: seq<State>, events: seq<Event>, j: nat)
    requires FromStart(states, events) && 0 < j < |states|
    requires Agrees(History(states, events, j - 1), states[j - 1])
    ensures Agrees(History(states, events, j), states[j])
  {
    StepFollowsHistory(states, events, j, History(states, events, j - 1), History(states, events, j));
  }

  lemma StepFollowsHistory(states: seq<State>, events: seq<Event>, j: nat,
                           es: seq<RegistryRuns.Event>, later: seq<RegistryRuns.Event>)
    requires FromStart(states, events) && 0 < j < |states|
    requires Agrees(es, states[j - 1]) && later == es + Projected(states[j - 1], events[j - 1])
    ensures Agrees(later, states[j])
  {
    RunStep(states, events, j - 1);
    HistoryStep(es, states[j - 1], events[j - 1], states[j], later);
  }

  lemma HistoryStep(es: seq<RegistryRuns.Event>, s: State, e: Event, s': State, later: seq<RegistryRuns.Event>)
    requires Step(s, e, s') && Ordered(s) && Agrees(es, s) && later == es + Projected(s, e)
    ensures Agrees(later, s')
  {
    match e
    case Register(location) =>
      assert (es + [RegistryRuns.Register(location)])[..|es|] == es;
    case PingSweep =>
      assert (es + [RegistryRuns.PingSweep(SilencedIds(s))])[..|es|] == es;
      IncreasingIsUnique(s.table);
      SweepAgrees(s.table, Silenced(s.stores, s.answering), RegistryRuns.Failing(SilencedIds(s)));
    case _ =>
      assert es + [] == es;
  }

  /** Event a registered entry w. */
  ghost predicate RegisteredAt(states: seq<State>, events: seq<Event>, a: nat, w: Server)
    requires |states| == |events| + 1 && a < |events|
  {
    events[a] == Register(w.location) && states[a].nextId == w.id
  }

  lemma {:induction false} SubsequenceHolds(r: seq<Server>, s: seq<Server>)
    requires Subsequence(r, s)
    ensures forall w :: w in r ==> w in s
    decreases |s|
  {
    if r != [] {
      assert r == [r[0]] + r[1..];
      if r[0] == s[0] && Subsequence(r[1..], s[1..]) {
        SubsequenceHolds(r[1..], s[1..]);
      } else {
        SubsequenceHolds(r, s[1..]);
      }
    }
  }

  /** Every entry of the registry comes from a registration of the run. */
  lemma {:induction false} EntryWasRegistered(states: seq<State>, events: seq<Event>, j: nat, w: Server)
    returns (a: nat)
    requires FromStart(states, events) && j < |states| && w in states[j].table
    ensures a < j && RegisteredAt(states, events, a, w)
  {
    var s := states[j - 1];
    assert StepAt(states, events, j - 1);
    if events[j - 1].PingSweep? {
      SweepIsSubsequence(s.table, Silenced(s.stores, s.answering));
      SubsequenceHolds(states[j].table, s.table);
    }
    if w in s.table {
      a := EntryWasRegistered(states, events, j - 1, w);
    } else {
      a := j - 1;
    }
  }

  /**
   A write that is carried out goes to the oldest registration that is still in the registry: some event of the run
   registered that very entry, and no entry registered before it is left.
   */
  lemma WriteGoesToOldestSurvivor(states: seq<State>, events: seq<Event>, i: nat, loc: Location, name: Name)
    returns (a: nat)
    requires FromStart(states, events) && i < |events| && Writes(states, events, i, loc, name)
    ensures a < i && RegisteredAt(states, events, a, states[i].table[0]) && events[a] == Register(loc)
    ensures forall b :: 0 <= b < a && events[b].Register? ==>
              forall w :: w in states[i].table ==> w.id != states[b].nextId
  {
    a := EntryWasRegistered(states, events, i, states[i].table[0]);
    RunStaysOrdered(states, events, i);
    forall b, w | 0 <= b < a && events[b].Register? && w in states[i].table
      ensures w.id != states[b].nextId
    {
      CounterGrows(states, events, b, a);
    }
  }

  function SweepCount(events: seq<Event>, i: nat, j: nat): (n: nat)
    requires i <= j <= |events|
  {
    if i == j then 0 else SweepCount(events, i, j - 1) + if events[j - 1].PingSweep? then 1 else 0
  }

  /** While no worker registers, fails or comes back, the registry is the sweeps made so far, whatever is served. */
  lemma {:induction false} RegistryIsSweeps(states: seq<State>, events: seq<Event>, i: nat, j: nat)
    requires IsRun(states, events) && i <= j < |states|
    requires forall k :: i <= k < j ==> !events[k].Register? && !events[k].Outage?
    ensures states[j].answering == states[i].answering
    ensures states[j].table
         == Sweeps(states[i].table, SweepCount(events, i, j), Silenced(states[i].stores, states[i].answering))
    decreases j
  {
    if i < j {
      RegistryIsSweeps(states, events, i, j - 1);
      LocationsStay(states, events, i, j - 1);
      assert StepAt(states, events, j - 1);
      QuietStep(states[i], states[j - 1], events[j - 1], states[j]);
      OneMoreSweep(states[i].table, SweepCount(events, i, j - 1), Silenced(states[i].stores, states[i].answering));
    }
  }

  lemma QuietStep(start: State, s: State, e: Event, s': State)
    requires Step(s, e, s') && !e.Register? && !e.Outage?
    requires s.answering == start.answering && s.stores.Keys == start.stores.Keys
    ensures s'.answering == start.answering
    ensures s'.table == if e.PingSweep? then Sweep(s.table, Silenced(start.stores, start.answering)) else s.table
  {
    SweepAgrees(s.table, Silenced(s.stores, s.answering), Silenced(start.stores, start.answering));
  }

  lemma {:induction false} OneMoreSweep(s: seq<Server>, k: nat, failed: Server -> bool)
    ensures Sweeps(s, k + 1, failed) == Sweep(Sweeps(s, k, failed), failed)
    decreases k
  {
    if k > 0 {
      OneMoreSweep(Sweep(s, failed), k - 1, failed);
    }
  }

  /** After sixteen of them, wherever they fall in the run, exactly the answering workers are left. */
  lemma SixteenSweepsOfARun(states: seq<State>, events: seq<Event>, i: nat, j: nat)
    requires IsRun(states, events) && i <= j < |states| && |states[i].table| <= MAX_SERVERS
    requires forall k :: i <= k < j ==> !events[k].Register? && !events[k].Outage?
    requires SweepCount(events, i, j) >= 16
    ensures states[j].table == Live(states[i].table, Silenced(states[i].stores, states[i].answering))
  {
    RegistryIsSweeps(states, events, i, j);
    EnoughSweeps(states[i].table, SweepCount(events, i, j), Silenced(states[i].stores, states[i].answering));
  }

  // ---------- the stored files along a run ----------

  /** Event i writes the file of that name on that worker. */
  ghost predicate Writes(states: seq<State>, events: seq<Event>, i: nat, loc: Location, name: Name)
    requires |states| == |events| + 1 && i < |events|
  {
    && events[i].Write? && SEP in events[i].arg && BeforeSep(events[i].arg) == name
    && states[i].table != [] && states[i].table[0].location == loc
    && Reachable(loc, states[i].stores, states[i].answering)
  }

  /** Event i deletes the name, and the search for it ends at that worker. */
  ghost predicate Erases(states: seq<State>, events: seq<Event>, i: nat, loc: Location, name: Name)
    requires |states| == |events| + 1 && i < |events|
  {
    var s := states[i];
    && events[i] == Delete(name) && Plain(s.table, s.stores, name)
    && match Verdict(s.table, s.stores, s.answering, name)
       case At(k) => s.table[k].location == loc
       case _ => false
  }

  /** As far as can be said without the listing order: for a name with a newline, any worker of the registry. */
  ghost predicate MayErase(states: seq<State>, events: seq<Event>, i: nat, loc: Location, name: Name)
    requires |states| == |events| + 1 && i < |events|
  {
    var s := states[i];
    && events[i] == Delete(name)
    && if Plain(s.table, s.stores, name) then Erases(states, events, i, loc, name)
       else exists k :: 0 <= k < |s.table| && s.table[k].location == loc
  }

  /** What one step does to one file: a write there sets it, a delete that ends there removes it, else it stays. */
  lemma StepTouches(states: seq<State>, events: seq<Event>, i: nat, loc: Location, name: Name)
    requires IsRun(states, events) && i < |events| && loc in states[i].stores
    ensures states[i + 1].stores.Keys == states[i].stores.Keys
    ensures var before, after := states[i].stores[loc], states[i + 1].stores[loc];
            if Writes(states, events, i, loc, name) then name in after && after[name] == AfterSep(events[i].arg)
            else if Erases(states, events, i, loc, name) then name !in after
            else
              && (name in after ==> name in before && after[name] == before[name])
              && (!MayErase(states, events, i, loc, name) && name in before ==> name in after)
  {
    assert StepAt(states, events, i);
    if events[i].Delete? {
      DeleteTouches(states[i], events[i].name, states[i + 1], loc, name);
    }
  }

  lemma DeleteTouches(s: State, deleted: Name, s': State, loc: Location, name: Name)
    requires Step(s, Delete(deleted), s') && loc in s.stores
    ensures s'.stores.Keys == s.stores.Keys
    ensures name in s'.stores[loc] ==> name in s.stores[loc] && s'.stores[loc][name] == s.stores[loc][name]
    ensures name in s.stores[loc] && name !in s'.stores[loc] ==>
              && deleted == name
              && (exists k :: 0 <= k < |s.table| && s.table[k].location == loc)
              && (Plain(s.table, s.stores, name) ==>
                    match Verdict(s.table, s.stores, s.answering, name)
                    case At(k) => s.table[k].location == loc
                    case _ => false)
    ensures Plain(s.table, s.stores, deleted) ==>
              match Verdict(s.table, s.stores, s.answering, deleted)
              case At(k) => s.table[k].location == loc ==> deleted !in s'.stores[loc]
              case _ => s'.stores == s.stores
  {
    if s'.stores != s.stores {
      var k :| 0 <= k < |s.table| && s.table[k].location in s.stores
               && s'.stores == Erased(s.stores, s.table[k].location, deleted);
    }
  }

  lemma {:induction false} LocationsStay(states: seq<State>, events: seq<Event>, i: nat, j: nat)
    requires IsRun(states, events) && i <= j < |states|
    ensures states[j].stores.Keys == states[i].stores.Keys
    decreases j - i
  {
    if i < j {
      LocationsStay(states, events, i, j - 1);
      assert StepAt(states, events, j - 1);
    }
  }

  /**
   Durability: what a client wrote stays, byte for byte, on the worker it went to, through registrations, sweeps,
   outages, other requests and deletes that end elsewhere, until that file is written or deleted there.
   */
  lemma {:induction false} WrittenDataStays(states: seq<State>, events: seq<Event>,
                                            i: nat, j: nat, loc: Location, name: Name)
    requires IsRun(states, events) && i < j < |states|
    requires Writes(states, events, i, loc, name)
    requires forall k :: i < k < j ==>
               !MayErase(states, events, k, loc, name) && !Writes(states, events, k, loc, name)
    ensures loc in states[j].stores && name in states[j].stores[loc]
    ensures states[j].stores[loc][name] == AfterSep(events[i].arg)
    decreases j - i
  {
    if j == i + 1 {
      StepTouches(states, events, i, loc, name);
    } else {
      WrittenDataStays(states, events, i, j - 1, loc, name);
      StepTouches(states, events, j - 1, loc, name);
    }
  }

  /** A deleted file is gone from the worker where the search ended, until that name is written there again. */
  lemma {:induction false} DeletedFileStaysGone(states: seq<State>, events: seq<Event>,
                                                i: nat, j: nat, loc: Location, name: Name)
    requires IsRun(states, events) && i < j < |states| && loc in states[i].stores
    requires Erases(states, events, i, loc, name)
    requires forall k :: i < k < j ==> !Writes(states, events, k, loc, name)
    ensures loc in states[j].stores && name !in states[j].stores[loc]
    decreases j - i
  {
    if j == i + 1 {
      StepTouches(states, events, i, loc, name);
    } else {
      DeletedFileStaysGone(states, events, i, j - 1, loc, name);
      StepTouches(states, events, j - 1, loc, name);
    }
  }

  /** File names stay text, so a delete of a newline-free name is Plain as long as listings stay below 4 GiB. */
  lemma {:induction false} NamesStayText(states: seq<State>, events: seq<Event>, j: nat)
    requires IsRun(states, events) && j < |states|
    requires forall loc :: loc in states[0].stores ==> NamesAreText(states[0].stores[loc])
    ensures forall loc :: loc in states[j].stores ==> NamesAreText(states[j].stores[loc])
  {
    if j > 0 {
      NamesStayText(states, events, j - 1);
      assert StepAt(states, events, j - 1);
      if events[j - 1].Delete? && states[j].stores != states[j - 1].stores {
        var s := states[j - 1];
        var k :| 0 <= k < |s.table| && s.table[k].location in s.stores
                 && states[j].stores == Erased(s.stores, s.table[k].location, events[j - 1].name);
      }
    }
  }

  /**
   Integrity: whatever a worker holds was there at the start and never written since, or is exactly the data of the
   last write of that name that went to that worker.
   */
  lemma {:induction false} StoredDataWasWritten(states: seq<State>, events: seq<Event>,
                                                j: nat, loc: Location, name: Name)
    requires IsRun(states, events) && j < |states|
    requires loc in states[0].stores && loc in states[j].stores && name in states[j].stores[loc]
    ensures
      || (&& name in states[0].stores[loc] && states[j].stores[loc][name] == states[0].stores[loc][name]
          && forall k :: 0 <= k < j ==> !Writes(states, events, k, loc, name))
      || exists i :: && 0 <= i < j && Writes(states, events, i, loc, name)
                     && AfterSep(events[i].arg) == states[j].stores[loc][name]
                     && forall k :: i < k < j ==> !Writes(states, events, k, loc, name)
    decreases j
  {
    if j > 0 {
      LocationsStay(states, events, 0, j - 1);
      StepTouches(states, events, j - 1, loc, name);
      if !Writes(states, events, j - 1, loc, name) {
        StoredDataWasWritten(states, events, j - 1, loc, name);
      }
    }
  }
}
