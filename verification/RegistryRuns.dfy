/** The registry over all runs of registration, removal and ping sweeps (src/master.c, src/worker_admin.c). */
module RegistryRuns {
  import opened Bytes
  import opened Registry

  /** registered and removed are the history: every registration so far, and the ids taken out again. */
  datatype State = State(table: seq<Server>, nextId: nat, registered: seq<Server>, removed: set<nat>)

  datatype Event = Register(location: Location) | Remove(id: nat) | PingSweep(down: set<nat>)

  const START := State([], 1, [], {})

  function Failing(down: set<nat>): Server -> bool {
    (w: Server) => w.id in down
  }

  /** The ids a sweep takes out: the odd-ranked entries of the runs of failed workers. */
  function SweptIds(table: seq<Server>, failed: Server -> bool): (ids: set<nat>) {
    set i | 0 <= i < |table| && Rank(table, i, failed) % 2 == 1 :: table[i].id
  }

  function After(s: State, e: Event): State {
    match e
    case Register(location) =>
      var w := Server(s.nextId, location);
      State(Added(s.table, w), (s.nextId + 1) % INT_SPAN, s.registered + [w], s.removed)
    case Remove(id) =>
      s.(table := Without(s.table, id), removed := s.removed + if IndexOfId(s.table, id) < 0 then {} else {id})
    case PingSweep(down) =>
      s.(table := Sweep(s.table, Failing(down)), removed := s.removed + SweptIds(s.table, Failing(down)))
  }

  function Run(es: seq<Event>): State {
    if es == [] then START else After(Run(es[..|es| - 1]), es[|es| - 1])
  }

  function Registrations(es: seq<Event>): nat {
    if es == [] then 0 else Registrations(es[..|es| - 1]) + if es[|es| - 1].Register? then 1 else 0
  }

  /** The table has room at each registration of the run. */
  ghost predicate NeverFull(es: seq<Event>) {
    forall k :: 0 <= k < |es| && es[k].Register? ==> |Run(es[..k]).table| < MAX_SERVERS
  }

  /** The entries whose id is not in gone, in order. */
  function Surviving(s: seq<Server>, gone: set<nat>): (r: seq<Server>) {
    if s == [] then []
    else Surviving(s[..|s| - 1], gone) + if s[|s| - 1].id in gone then [] else [s[|s| - 1]]
  }

  ghost predicate Inv(s: State) {
    && Increasing(s.registered) && AllBelow(s.registered, s.nextId)
    && (forall id :: id in s.removed ==> id < s.nextId)
    && s.table == Surviving(s.registered, s.removed)
  }

  // ---------- Surviving ----------

  lemma {:induction false} SurvivingIsOrdered(s: seq<Server>, gone: set<nat>, bound: nat)
    requires Increasing(s) && AllBelow(s, bound)
    ensures Increasing(Surviving(s, gone)) && AllBelow(Surviving(s, gone), bound)
    ensures forall w :: w in Surviving(s, gone) ==> w in s && w.id !in gone
  {
    if s != [] {
      var last := s[|s| - 1];
      SurvivingIsOrdered(s[..|s| - 1], gone, last.id);
    }
  }

  lemma {:induction false} SurvivingTwice(s: seq<Server>, gone: set<nat>, more: set<nat>)
    ensures Surviving(Surviving(s, gone), more) == Surviving(s, gone + more)
  {
    if s != [] {
      var t := Surviving(s[..|s| - 1], gone);
      SurvivingTwice(s[..|s| - 1], gone, more);
      var last := s[|s| - 1];
      if last.id in gone {
        assert t + [] == t;
      } else {
        assert (t + [last])[..|t|] == t;
      }
    }
  }

  lemma {:induction false} RemoveIsSurviving(s: seq<Server>, id: nat)
    requires UniqueIds(s)
    ensures Without(s, id) == Surviving(s, {id})
  {
    if s != [] {
      var t, last := s[..|s| - 1], s[|s| - 1];
      assert s == t + [last];
      RemoveIsSurviving(t, id);
      RemoveFromLonger(t, last, id);
    }
  }

  lemma RemoveFromLonger(t: seq<Server>, last: Server, id: nat)
    requires Without(t, id) == Surviving(t, {id}) && forall k :: 0 <= k < |t| ==> t[k].id != last.id
    ensures Without(t + [last], id) == Surviving(t + [last], {id})
  {
    SurvivingLonger(t, last, {id});
    WithoutFromFront(t, last, id);
    if last.id == id {
      SurvivingUntouched(t, {id});
    }
  }

  lemma SurvivingLonger(t: seq<Server>, last: Server, gone: set<nat>)
    ensures Surviving(t + [last], gone) == Surviving(t, gone) + if last.id in gone then [] else [last]
  {
    assert (t + [last])[..|t|] == t;
  }

  lemma {:induction false} SurvivingUntouched(s: seq<Server>, gone: set<nat>)
    requires forall w :: w in s ==> w.id !in gone
    ensures Surviving(s, gone) == s
  {
    if s != [] {
      SurvivingUntouched(s[..|s| - 1], gone);
      assert s == s[..|s| - 1] + [s[|s| - 1]];
    }
  }

  lemma WithoutFromFront(t: seq<Server>, last: Server, id: nat)
    requires forall k :: 0 <= k < |t| ==> t[k].id != last.id
    ensures Without(t + [last], id) == if last.id == id then t else Without(t, id) + [last]
  {
    IndexInFront(t, last, id);
    var i := IndexOfId(t + [last], id);
    if last.id == id {
      assert WithoutIndex(t + [last], |t|) == t;
    } else if i >= 0 {
      DropInFront(t, i, last);
    }
  }

  lemma IndexInFront(t: seq<Server>, last: Server, id: nat)
    requires forall k :: 0 <= k < |t| ==> t[k].id != last.id
    ensures last.id == id ==> IndexOfId(t + [last], id) == |t|
    ensures last.id != id ==> IndexOfId(t, id) == IndexOfId(t + [last], id) < |t|
  {
    var s := t + [last];
    var i, j := IndexOfId(s, id), IndexOfId(t, id);
    assert s[|t|] == last;
    assert j >= 0 ==> s[j] == t[j];
    assert 0 <= i < |t| ==> t[i] == s[i];
  }

  lemma DropInFront(t: seq<Server>, i: nat, last: Server)
    requires i < |t|
    ensures WithoutIndex(t + [last], i) == WithoutIndex(t, i) + [last]
  {
    assert (t + [last])[i + 1..] == t[i + 1..] + [last];
  }

  lemma {:induction false} SweepIsSurviving(s: seq<Server>, n: nat, failed: Server -> bool)
    requires UniqueIds(s) && n <= |s|
    ensures EvenRanked(s, n, failed) == Surviving(s[..n], SweptIds(s, failed))
  {
    if n > 0 {
      SweepIsSurviving(s, n - 1, failed);
      assert s[..n][..n - 1] == s[..n - 1];
      if s[n - 1].id in SweptIds(s, failed) {
        var i :| 0 <= i < |s| && Rank(s, i, failed) % 2 == 1 && s[i].id == s[n - 1].id;
        assert i == n - 1;
      }
    }
  }

  // ---------- the invariant ----------

  lemma RemoveKeepsInv(s: State, id: nat)
    requires Inv(s)
    ensures Inv(After(s, Remove(id)))
  {
    SurvivingIsOrdered(s.registered, s.removed, s.nextId);
    IncreasingIsUnique(s.table);
    if IndexOfId(s.table, id) < 0 {
      assert s.removed + {} == s.removed;
    } else {
      RemoveIsSurviving(s.table, id);
      SurvivingTwice(s.registered, s.removed, {id});
    }
  }

  lemma SweepKeepsInv(s: State, down: set<nat>)
    requires Inv(s)
    ensures Inv(After(s, PingSweep(down)))
  {
    var failed := Failing(down);
    var ids := SweptIds(s.table, failed);
    assert UniqueIds(s.table) && AllBelow(s.table, s.nextId) by {
      SurvivingIsOrdered(s.registered, s.removed, s.nextId);
    }
    assert Sweep(s.table, failed) == Surviving(s.table, ids) by {
      SweepRemovesOddRanks(s.table, failed);
      SweepIsSurviving(s.table, |s.table|, failed);
      assert s.table[..|s.table|] == s.table;
    }
    SurvivingTwice(s.registered, s.removed, ids);
  }

  /** A registration keeps the invariant exactly while neither the 32-bit nor the 16-bit counter wraps. */
  lemma RegistrationKeepsInvIff(s: State, location: Location)
    requires Inv(s) && s.nextId < INT_SPAN
    ensures Inv(After(s, Register(location))) <==> s.nextId + 1 < INT_SPAN && |s.table| < MAX_SERVERS
  {
    var s' := After(s, Register(location));
    var w := s'.registered[|s.registered|];
    assert s'.registered[..|s.registered|] == s.registered;
    assert w.id !in s.removed;
    assert Surviving(s'.registered, s.removed) == s.table + [w];
    if s.nextId + 1 >= INT_SPAN {
      assert !AllBelow(s'.registered, s'.nextId);
    }
  }

  /** The invariant holds after every run in which neither counter wraps. */
  lemma {:induction false} InvAlways(es: seq<Event>)
    requires Registrations(es) + 1 < INT_SPAN && NeverFull(es)
    ensures Inv(Run(es)) && Run(es).nextId == Registrations(es) + 1
  {
    if es != [] {
      NeverFullFront(es);
      InvAlways(es[..|es| - 1]);
      StepKeepsInv(Run(es[..|es| - 1]), es[|es| - 1]);
    }
  }

  lemma NeverFullFront(es: seq<Event>)
    requires es != [] && NeverFull(es)
    ensures NeverFull(es[..|es| - 1])
    ensures es[|es| - 1].Register? ==> |Run(es[..|es| - 1]).table| < MAX_SERVERS
  {
    var front := es[..|es| - 1];
    assert forall k | 0 <= k < |front| :: front[..k] == es[..k];
  }

  lemma StepKeepsInv(s: State, e: Event)
    requires Inv(s) && (e.Register? ==> s.nextId + 1 < INT_SPAN && |s.table| < MAX_SERVERS)
    ensures Inv(After(s, e))
  {
    match e
    case Register(location) => RegistrationKeepsInvIff(s, location);
    case Remove(id) => RemoveKeepsInv(s, id);
    case PingSweep(down) => SweepKeepsInv(s, down);
  }

  /** What the invariant gives the other parts: ordered, unique ids below the counter, and removal at most once. */
  lemma RegistryIsOrdered(es: seq<Event>)
    requires Registrations(es) + 1 < INT_SPAN && NeverFull(es)
    ensures var s := Run(es);
            && Increasing(s.table) && AllBelow(s.table, s.nextId) && UniqueIds(s.table)
            && forall id :: Without(Without(s.table, id), id) == Without(s.table, id)
  {
    InvAlways(es);
    var s := Run(es);
    SurvivingIsOrdered(s.registered, s.removed, s.nextId);
    IncreasingIsUnique(s.table);
    forall id
      ensures Without(Without(s.table, id), id) == Without(s.table, id)
    {
      RemoveTwice(s.table, id);
    }
  }

  /** The first entry, which least_load picks, is the oldest registration that has not been removed. */
  lemma LeastLoadIsOldestSurvivor(es: seq<Event>)
    requires Registrations(es) + 1 < INT_SPAN && NeverFull(es)
    ensures var s := Run(es);
            && (s.table == [] <==> forall w :: w in s.registered ==> w.id in s.removed)
            && (s.table != [] ==>
                  exists i :: 0 <= i < |s.registered| && s.registered[i] == s.table[0]
                              && s.registered[i].id !in s.removed
                              && forall k :: 0 <= k < i ==> s.registered[k].id in s.removed)
  {
    InvAlways(es);
    FirstSurvivor(Run(es).registered, Run(es).removed);
  }

  lemma {:induction false} FirstSurvivor(s: seq<Server>, gone: set<nat>)
    ensures Surviving(s, gone) == [] <==> forall w :: w in s ==> w.id in gone
    ensures Surviving(s, gone) != [] ==>
              exists i :: 0 <= i < |s| && s[i] == Surviving(s, gone)[0] && s[i].id !in gone
                          && forall k :: 0 <= k < i ==> s[k].id in gone
  {
    if s != [] {
      var front, last := s[..|s| - 1], s[|s| - 1];
      FirstSurvivor(front, gone);
      assert s == front + [last];
      if Surviving(front, gone) != [] {
        var i :| 0 <= i < |front| && front[i] == Surviving(front, gone)[0] && front[i].id !in gone
                 && forall k :: 0 <= k < i ==> front[k].id in gone;
        assert s[i] == Surviving(s, gone)[0] && forall k | 0 <= k < i :: s[k] == front[k];
      } else if last.id !in gone {
        assert s[|s| - 1] == Surviving(s, gone)[0];
        assert forall k | 0 <= k < |s| - 1 :: s[k] == front[k] && front[k] in front;
      }
    }
  }
}
