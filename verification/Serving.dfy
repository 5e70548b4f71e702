/** The master's loops as runs of the system: what each stimulus means, and the whole-run results for its clients. */
module Serving {
  import opened Bytes
  import opened Packets
  import opened Text
  import opened Registry
  import opened Workers
  import opened Requests
  import opened Masters
  import opened Systems

  ghost function StateOf(m: Master): State
    reads m, m.table, m.table.cells, m.net
  {
    State(m.table.Contents(), m.nextId, m.net.stores, m.net.answering)
  }

  /** What happens next: a client that has sent some bytes is served, the workers are pinged, or some change. */
  datatype Stimulus = Client(sent: seq<byte>) | PingTime | Change(answering: set<Location>)

  /** The event a stimulus is, when it meets that table. A client is what the master has in its read buffer then. */
  ghost predicate Means(s: Stimulus, e: Event, table: seq<Server>, t: Tokens) {
    match s
    case PingTime => e == PingSweep
    case Change(answering) => e == Outage(answering)
    case Client(sent) =>
      if sent == [] then e == Idle else exists buf :: MayHold(buf, sent) && e == EventIn(buf, t, table)
  }

  ghost predicate MayHold(buf: seq<byte>, sent: seq<byte>) {
    |buf| == READ_SZ && ReadFrom(sent, buf)
  }

  /** The event a read buffer amounts to: Idle without a whole packet. */
  ghost function EventIn(buf: seq<byte>, t: Tokens, table: seq<Server>): Event {
    match Decoding(buf)
    case None => Idle
    case Some(p) => EventOf(p, t, table)
  }

  /** The event a request amounts to. */
  ghost function EventOf(p: Packet, t: Tokens, table: seq<Server>): Event {
    if p.msgType == REGISTER then
      if Accepted(p, t) then Register(ParseLocation(CStr(p.arg))) else Idle
    else if table == [] then Idle
    else if p.msgType == WRITE && SEP in CStr(p.arg) then Write(CStr(p.arg))
    else if p.msgType == DELETE then Delete(CStr(p.arg))
    else Idle
  }

  lemma RequestIsStep(p: Packet, t: Tokens, s: State, s': State, r: Response)
    requires Responded(p, t, s.answering, s.table, s.nextId, s.stores, s'.table, s'.nextId, s'.stores, r)
    requires s'.answering == s.answering
    ensures Step(s, EventOf(p, t, s.table), s')
  {
  }

  // ---------- the code ----------

  /** One pass: a stimulus takes the system through the event it means. */
  method React(m: Master, s: Stimulus) returns (ghost e: Event)
    requires m.Valid() && Ordered(StateOf(m))
    modifies m`nextId, m.table, m.table.cells, m.net`stores, m.net`answering
    ensures m.Valid() && (m.table.cells == old(m.table.cells) || fresh(m.table.cells))
    ensures Step(old(StateOf(m)), e, StateOf(m))
    ensures Means(s, e, old(m.table.Contents()), m.tokens)
  {
    ghost var before := StateOf(m);
    match s {
      case PingTime =>
        m.PingWorkers();
        e := PingSweep;
      case Change(answering) =>
        m.net.answering := answering;
        e := Outage(answering);
      case Client(sent) =>
        var r, buf := m.HandleClient(sent);
        if sent == [] {
          e := Idle;
        } else {
          assert MayHold(buf, sent);
          e := EventIn(buf, m.tokens, before.table);
          if Decoding(buf).Some? {
            RequestIsStep(Decoding(buf).value, m.tokens, before, StateOf(m), r);
          }
        }
    }
  }

  /** The run that answers the stimuli, event by event. */
  ghost predicate Answers(stimuli: seq<Stimulus>, states: seq<State>, events: seq<Event>, t: Tokens) {
    && Systems.IsRun(states, events) && |events| == |stimuli|
    && forall i :: 0 <= i < |stimuli| ==> AnswersAt(stimuli, states, events, t, i)
  }

  ghost predicate AnswersAt(stimuli: seq<Stimulus>, states: seq<State>, events: seq<Event>, t: Tokens, i: nat)
    requires i < |stimuli| == |events| < |states|
  {
    Means(stimuli[i], events[i], states[i].table, t)
  }

  lemma RunGrows(stimuli: seq<Stimulus>, states: seq<State>, events: seq<Event>, t: Tokens,
                 s: Stimulus, e: Event, after: State)
    requires Answers(stimuli, states, events, t)
    requires Step(states[|events|], e, after) && Means(s, e, states[|events|].table, t)
    ensures Answers(stimuli + [s], states + [after], events + [e], t)
  {
    RunIsLonger(states, events, e, after);
    AnswersGrow(stimuli, states, events, t, stimuli + [s], states + [after], events + [e]);
  }

  lemma AnswersGrow(stimuli: seq<Stimulus>, states: seq<State>, events: seq<Event>, t: Tokens,
                    stimuli': seq<Stimulus>, states': seq<State>, events': seq<Event>)
    requires |stimuli| == |events| < |states| && |stimuli'| == |events'| == |stimuli| + 1 < |states'|
    requires stimuli <= stimuli' && states <= states' && events <= events'
    requires forall i :: 0 <= i < |stimuli| ==> AnswersAt(stimuli, states, events, t, i)
    requires AnswersAt(stimuli', states', events', t, |stimuli|)
    ensures forall i :: 0 <= i < |stimuli'| ==> AnswersAt(stimuli', states', events', t, i)
  {
    forall i | 0 <= i < |stimuli|
      ensures AnswersAt(stimuli', states', events', t, i)
    {
      assert AnswersAt(stimuli, states, events, t, i);
    }
  }

  lemma RunIsLonger(states: seq<State>, events: seq<Event>, e: Event, after: State)
    requires Systems.IsRun(states, events) && Step(states[|events|], e, after)
    ensures Systems.IsRun(states + [after], events + [e])
  {
    forall i | 0 <= i < |events + [e]|
      ensures StepAt(states + [after], events + [e], i)
    {
      if i < |events| {
        assert StepAt(states, events, i);
      }
    }
  }

  /** How many clients there are among the first n stimuli: at most so many workers register. */
  function Clients(stimuli: seq<Stimulus>, n: nat): (c: nat)
    requires n <= |stimuli|
  {
    if n == 0 then 0 else Clients(stimuli, n - 1) + if stimuli[n - 1].Client? then 1 else 0
  }

  lemma {:induction false} ClientsGrow(stimuli: seq<Stimulus>, i: nat, n: nat)
    requires i <= n <= |stimuli|
    ensures Clients(stimuli, i) <= Clients(stimuli, n)
    decreases n
  {
    if i < n {
      ClientsGrow(stimuli, i, n - 1);
    }
  }

  /** The master's loops over any stimuli: the run that answers them, so the results about runs hold of it. */
  method Serve(m: Master, stimuli: seq<Stimulus>) returns (ghost states: seq<State>, ghost events: seq<Event>)
    requires m.Valid() && Ordered(StateOf(m)) && m.nextId + Clients(stimuli, |stimuli|) < INT_SPAN
    modifies m`nextId, m.table, m.table.cells, m.net`stores, m.net`answering
    ensures m.Valid() && Ordered(StateOf(m))
    ensures Answers(stimuli, states, events, m.tokens)
    ensures states[0] == old(StateOf(m)) && states[|stimuli|] == StateOf(m)
  {
    states, events := [StateOf(m)], [];
    for i := 0 to |stimuli|
      invariant m.Valid() && Ordered(StateOf(m))
      invariant m.nextId + Clients(stimuli, |stimuli|) - Clients(stimuli, i) < INT_SPAN
      invariant m.table.cells == old(m.table.cells) || fresh(m.table.cells)
      invariant Answers(stimuli[..i], states, events, m.tokens)
      invariant states[0] == old(StateOf(m)) && states[i] == StateOf(m)
    {
      ClientsGrow(stimuli, i + 1, |stimuli|);
      states, events := ReactAndRecord(m, stimuli[..i], stimuli[i], states, events);
      assert stimuli[..i + 1] == stimuli[..i] + [stimuli[i]];
    }
    assert stimuli[..|stimuli|] == stimuli;
  }

  /** One pass of the loops, after those over past. */
  method ReactAndRecord(m: Master, ghost past: seq<Stimulus>, s: Stimulus,
                        ghost states: seq<State>, ghost events: seq<Event>)
    returns (ghost states': seq<State>, ghost events': seq<Event>)
    requires m.Valid() && Ordered(StateOf(m)) && (s.Client? ==> m.nextId + 1 < INT_SPAN)
    requires Answers(past, states, events, m.tokens) && states[|past|] == StateOf(m)
    modifies m`nextId, m.table, m.table.cells, m.net`stores, m.net`answering
    ensures m.Valid() && (m.table.cells == old(m.table.cells) || fresh(m.table.cells))
    ensures Ordered(StateOf(m)) && m.nextId <= old(m.nextId) + if s.Client? then 1 else 0
    ensures Answers(past + [s], states', events', m.tokens)
    ensures states' == states + [StateOf(m)]
  {
    ghost var before := StateOf(m);
    var e := React(m, s);
    StepKeepsOrdered(before, e, StateOf(m));
    RunGrows(past, states, events, m.tokens, s, e, StateOf(m));
    states', events' := states + [StateOf(m)], events + [e];
  }

  // ---------- what clients and pings can rely on ----------

  /** A packet that is sent whole and fits the master's buffer is carried out as that packet, however it was written. */
  lemma WholePacketMeans(p: Packet, n: nat, sent: seq<byte>, e: Event, table: seq<Server>, t: Tokens)
    requires p.Valid() && SentFrom(p, n, sent) && HEADER + |p.arg| <= n && HEADER + |p.arg| <= READ_SZ
    requires Means(Client(sent), e, table, t)
    ensures e == EventOf(p, t, table)
  {
    assert sent != [];
    var buf :| MayHold(buf, sent) && e == EventIn(buf, t, table);
    Delivered(p, n, sent, buf);
  }

  /** Pings, and clients that cannot be read as a registration. */
  ghost predicate Quiet(s: Stimulus) {
    match s
    case PingTime => true
    case Change(_) => false
    case Client(sent) =>
      forall buf :: MayHold(buf, sent) && Decoding(buf).Some? ==> Decoding(buf).value.msgType != REGISTER
  }

  function Pings(stimuli: seq<Stimulus>, i: nat, j: nat): (n: nat)
    requires i <= j <= |stimuli|
  {
    if i == j then 0 else Pings(stimuli, i, j - 1) + if stimuli[j - 1].PingTime? then 1 else 0
  }

  lemma {:induction false} PingsAreSweeps(stimuli: seq<Stimulus>, states: seq<State>, events: seq<Event>, t: Tokens,
                                          i: nat, j: nat)
    requires Answers(stimuli, states, events, t) && i <= j <= |stimuli|
    ensures SweepCount(events, i, j) == Pings(stimuli, i, j)
    decreases j
  {
    if i < j {
      PingsAreSweeps(stimuli, states, events, t, i, j - 1);
      assert AnswersAt(stimuli, states, events, t, j - 1);
    }
  }

  /** Sixteen ping times leave exactly the answering workers, whatever other requests come in between. */
  lemma SixteenPingTimes(stimuli: seq<Stimulus>, states: seq<State>, events: seq<Event>, t: Tokens, i: nat, j: nat)
    requires Answers(stimuli, states, events, t) && i <= j <= |stimuli|
    requires |states[i].table| <= MAX_SERVERS && Pings(stimuli, i, j) >= 16
    requires forall k :: i <= k < j ==> Quiet(stimuli[k])
    ensures states[j].table == Live(states[i].table, Silenced(states[i].stores, states[i].answering))
  {
    PingsAreSweeps(stimuli, states, events, t, i, j);
    forall k | i <= k < j
      ensures !events[k].Register? && !events[k].Outage?
    {
      assert Quiet(stimuli[k]) && AnswersAt(stimuli, states, events, t, k);
    }
    SixteenSweepsOfARun(states, events, i, j);
  }

  /** The same of the code. */
  method ServeQuietly(m: Master, stimuli: seq<Stimulus>)
    requires m.Valid() && Ordered(StateOf(m)) && m.nextId + Clients(stimuli, |stimuli|) < INT_SPAN
    requires Pings(stimuli, 0, |stimuli|) >= 16 && forall k :: 0 <= k < |stimuli| ==> Quiet(stimuli[k])
    modifies m`nextId, m.table, m.table.cells, m.net`stores, m.net`answering
    ensures m.table.Contents()
         == Live(old(m.table.Contents()), Silenced(old(m.net.stores), old(m.net.answering)))
  {
    var states, events := Serve(m, stimuli);
    SixteenPingTimes(stimuli, states, events, m.tokens, 0, |stimuli|);
  }

  predicate AsksToWrite(p: Packet, name: Name) {
    var arg := CStr(p.arg);
    p.msgType == WRITE && SEP in arg && BeforeSep(arg) == name
  }

  /** A write or delete of that name. */
  predicate AsksFor(p: Packet, name: Name) {
    AsksToWrite(p, name) || (p.msgType == DELETE && CStr(p.arg) == name)
  }

  /** No client that can be read as a write of that name. */
  ghost predicate NeverWrites(s: Stimulus, name: Name) {
    s.Client? ==> forall buf :: MayHold(buf, s.sent) && Decoding(buf).Some? ==> !AsksToWrite(Decoding(buf).value, name)
  }

  /** No client that can be read as a write or delete of that name. */
  ghost predicate LeavesAlone(s: Stimulus, name: Name) {
    s.Client? ==> forall buf :: MayHold(buf, s.sent) && Decoding(buf).Some? ==> !AsksFor(Decoding(buf).value, name)
  }

  lemma LeftAlone(states: seq<State>, events: seq<Event>, k: nat, s: Stimulus, t: Tokens, loc: Location, name: Name)
    requires Systems.IsRun(states, events) && k < |events| && Means(s, events[k], states[k].table, t)
    requires LeavesAlone(s, name)
    ensures !MayErase(states, events, k, loc, name) && !Writes(states, events, k, loc, name)
  {
  }

  /**
   A client's write of ';'-free name and data that meets an answering first worker is there, byte for byte, until a
   client writes or deletes that name, through whatever registrations, outages, pings and other requests.
   */
  lemma ClientWriteStays(stimuli: seq<Stimulus>, states: seq<State>, events: seq<Event>, t: Tokens, i: nat, j: nat,
                         name: Name, data: seq<byte>, n: nat)
    requires Answers(stimuli, states, events, t) && i < j <= |stimuli|
    requires NoNul(name) && NoNul(data) && SEP !in name && HEADER + |WithSep(name, data)| <= READ_SZ
    requires stimuli[i].Client? && HEADER + |WithSep(name, data)| <= n
    requires SentFrom(Init(0, WithSep(name, data), WRITE), n, stimuli[i].sent)
    requires states[i].table != []
    requires Reachable(states[i].table[0].location, states[i].stores, states[i].answering)
    requires forall k :: i < k < j ==> LeavesAlone(stimuli[k], name)
    ensures var loc := states[i].table[0].location;
            loc in states[j].stores && name in states[j].stores[loc] && states[j].stores[loc][name] == data
  {
    var loc := states[i].table[0].location;
    ClientWrites(stimuli, states, events, t, i, name, data, n);
    LeftAloneBetween(stimuli, states, events, t, i, j, loc, name);
    WrittenDataStays(states, events, i, j, loc, name);
  }

  lemma ClientWrites(stimuli: seq<Stimulus>, states: seq<State>, events: seq<Event>, t: Tokens, i: nat,
                     name: Name, data: seq<byte>, n: nat)
    requires Answers(stimuli, states, events, t) && i < |stimuli|
    requires NoNul(name) && NoNul(data) && SEP !in name && HEADER + |WithSep(name, data)| <= READ_SZ
    requires stimuli[i].Client? && HEADER + |WithSep(name, data)| <= n
    requires SentFrom(Init(0, WithSep(name, data), WRITE), n, stimuli[i].sent)
    requires states[i].table != []
    requires Reachable(states[i].table[0].location, states[i].stores, states[i].answering)
    ensures Writes(states, events, i, states[i].table[0].location, name) && AfterSep(events[i].arg) == data
  {
    var p := Init(0, WithSep(name, data), WRITE);
    SplitJoinedIff(name, data);
    assert p.arg == WithSep(name, data) && p.Valid() by { Spans(); }
    assert AnswersAt(stimuli, states, events, t, i);
    WholePacketMeans(p, n, stimuli[i].sent, events[i], states[i].table, t);
  }

  lemma LeftAloneBetween(stimuli: seq<Stimulus>, states: seq<State>, events: seq<Event>, t: Tokens, i: nat, j: nat,
                         loc: Location, name: Name)
    requires Answers(stimuli, states, events, t) && i < j <= |stimuli|
    requires forall k :: i < k < j ==> LeavesAlone(stimuli[k], name)
    ensures forall k :: i < k < j ==>
              !MayErase(states, events, k, loc, name) && !Writes(states, events, k, loc, name)
  {
    forall k | i < k < j
      ensures !MayErase(states, events, k, loc, name) && !Writes(states, events, k, loc, name)
    {
      assert AnswersAt(stimuli, states, events, t, k);
      LeftAlone(states, events, k, stimuli[k], t, loc, name);
    }
  }

  lemma NotWritten(states: seq<State>, events: seq<Event>, k: nat, s: Stimulus, t: Tokens, loc: Location, name: Name)
    requires Systems.IsRun(states, events) && k < |events| && Means(s, events[k], states[k].table, t)
    requires NeverWrites(s, name)
    ensures !Writes(states, events, k, loc, name)
  {
  }

  lemma DeletePacket(name: Name)
    requires NoNul(name) && HEADER + |name| <= READ_SZ
    ensures var p := Init(0, name, DELETE);
            p.Valid() && p.arg == name && p.msgType == DELETE && CStr(p.arg) == name
  {
    Spans();
  }

  lemma DeleteMeans(name: Name, n: nat, sent: seq<byte>, e: Event, table: seq<Server>, t: Tokens)
    requires NoNul(name) && HEADER + |name| <= READ_SZ && HEADER + |name| <= n && table != []
    requires SentFrom(Init(0, name, DELETE), n, sent) && Means(Client(sent), e, table, t)
    ensures e == Delete(name)
  {
    DeletePacket(name);
    WholePacketMeans(Init(0, name, DELETE), n, sent, e, table, t);
  }

  lemma DeleteEndsAt(states: seq<State>, events: seq<Event>, i: nat, name: Name, h: nat)
    requires |states| == |events| + 1 && i < |events| && events[i] == Delete(name)
    requires Plain(states[i].table, states[i].stores, name)
    requires Verdict(states[i].table, states[i].stores, states[i].answering, name) == At(h)
    ensures Erases(states, events, i, states[i].table[h].location, name)
    ensures states[i].table[h].location in states[i].stores
  {
  }

  /**
   A client's delete of a newline-free name, when the search for it ends at entry h, takes the file from that worker,
   and it stays gone there until a client writes that name.
   */
  lemma ClientDeleteStays(stimuli: seq<Stimulus>, states: seq<State>, events: seq<Event>, t: Tokens, i: nat, j: nat,
                          name: Name, n: nat, h: nat)
    requires Answers(stimuli, states, events, t) && i < j <= |stimuli|
    requires NoNul(name) && HEADER + |name| <= READ_SZ && stimuli[i].Client? && HEADER + |name| <= n
    requires SentFrom(Init(0, name, DELETE), n, stimuli[i].sent)
    requires Plain(states[i].table, states[i].stores, name)
    requires Verdict(states[i].table, states[i].stores, states[i].answering, name) == At(h)
    requires forall k :: i < k < j ==> NeverWrites(stimuli[k], name)
    ensures var loc := states[i].table[h].location; loc in states[j].stores && name !in states[j].stores[loc]
  {
    var loc := states[i].table[h].location;
    assert AnswersAt(stimuli, states, events, t, i);
    DeleteMeans(name, n, stimuli[i].sent, events[i], states[i].table, t);
    DeleteEndsAt(states, events, i, name, h);
    NoWriteBetween(stimuli, states, events, t, i, j, loc, name);
    DeletedFileStaysGone(states, events, i, j, loc, name);
  }

  lemma NoWriteBetween(stimuli: seq<Stimulus>, states: seq<State>, events: seq<Event>, t: Tokens, i: nat, j: nat,
                       loc: Location, name: Name)
    requires Answers(stimuli, states, events, t) && i < j <= |stimuli|
    requires forall k :: i < k < j ==> NeverWrites(stimuli[k], name)
    ensures forall k :: i < k < j ==> !Writes(states, events, k, loc, name)
  {
    forall k | i < k < j
      ensures !Writes(states, events, k, loc, name)
    {
      assert AnswersAt(stimuli, states, events, t, k);
      NotWritten(states, events, k, stimuli[k], t, loc, name);
    }
  }
}
