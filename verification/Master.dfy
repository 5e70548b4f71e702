/** The master's side of a request: src/master.c and the forwarding part of src/worker_admin.c. */
module Masters {
  import opened Bytes
  import opened Packets
  import opened Text
  import opened Registry
  import opened ServerTables
  import opened Workers
  import opened Requests

  const READ_SZ := 10000
  const PORT_SPAN := 0x1_0000

  /** The registry has 16 bytes for an address and its terminator. */
  const MAX_IP := 15

  function Ascii(s: string): (r: seq<byte>)
    ensures |r| == |s|
    ensures forall i :: 0 <= i < |s| && s[i] as int < 256 ==> r[i] as int == s[i] as int
  {
    seq(|s|, i requires 0 <= i < |s| => (s[i] as int % 256) as byte)
  }

  const UNAVAILABLE := "Service unavailable."
  const SERVER_ERROR := "Server error."

  // ---------- registration text ----------

  /** parse_ip, parse_port. */
  function ParseLocation(text: seq<byte>): (l: Location)
    requires SEP in text
    ensures 0 <= l.port < PORT_SPAN
  {
    Location(BeforeSep(text), Atol(AfterSep(text)) % PORT_SPAN)
  }

  // ---------- the network the master talks to ----------

  datatype Answer = Unreachable | Got(reply: Reply)

  class Network {
    var stores: Stores
    var answering: set<Location>
    const tokens: Tokens

    constructor (stores: Stores, answering: set<Location>, tokens: Tokens)
      ensures this.stores == stores && this.answering == answering && this.tokens == tokens
    {
      this.stores, this.answering, this.tokens := stores, answering, tokens;
    }

    /** client_init, conn_write of sent, and the worker serving it: packet p, of which n bytes were written. */
    method Exchange(loc: Location, ghost p: Packet, ghost n: nat, sent: seq<byte>)
      returns (a: Answer, ghost listing: seq<Name>)
      requires p.Valid() && SentFrom(p, n, sent) && HEADER + |p.arg| <= n && HEADER + |p.arg| <= Workers.READ_SIZE
      modifies this`stores
      ensures !Reachable(loc, old(stores), answering) ==> a == Unreachable && stores == old(stores)
      ensures Reachable(loc, old(stores), answering) ==>
                && IsListing(listing, old(stores)[loc])
                && a.Got?
                && loc in stores && stores == old(stores)[loc := stores[loc]]
                && Answered(old(stores)[loc], p, listing, tokens, stores[loc], a.reply)
    {
      listing := [];
      if loc !in stores || loc !in answering {
        return Unreachable, listing;
      }
      var worker := new Worker(stores[loc], tokens);
      ghost var buf;
      var reply;
      reply, buf, listing := worker.HandleClient(sent);
      Delivered(p, n, sent, buf);
      stores := stores[loc := worker.files];
      a := Got(reply);
    }
  }

  // ---------- the master ----------

  /** Broken: the source would read or write outside its buffers, or through a null pointer. */
  datatype Response = NoResponse | Respond(text: seq<byte>) | Broken

  class Master {
    const table: Table
    const net: Network
    const tokens: Tokens
    var nextId: nat

    ghost predicate Valid()
      reads this, table
    {
      table.Valid() && net.tokens == tokens && tokens.master < Span(8) && tokens.worker < Span(8)
    }

    constructor (net: Network, tokens: Tokens)
      requires net.tokens == tokens && tokens.master < Span(8) && tokens.worker < Span(8)
      ensures Valid() && fresh(table) && fresh(table.cells) && table.Contents() == []
      ensures this.net == net && this.tokens == tokens && nextId == 1
    {
      table := new Table();
      this.net, this.tokens, nextId := net, tokens, 1;
    }

    /** written_bytes: reads at most 50 bytes of the reply. None where the source would decode an unfilled buffer. */
    method WrittenBytes(a: Answer) returns (n: Option<int>)
      ensures a == Unreachable ==> n == Some(-1)
      ensures forall q: Packet :: a.Got? && a.reply.Sent? && q.Valid() && |q.arg| <= 9
                                  && SentFrom(q, SIZEOF_PACKET + |q.arg| + 1, a.reply.bytes)
                                  ==> n == Some(Atol(q.arg))
    {
      if a == Unreachable {
        return Some(-1);
      } else if !a.reply.Sent? {
        return None;
      }
      var buffer := ReadInto(a.reply.bytes, SIZEOF_PACKET + 10);
      forall q: Packet | q.Valid() && |q.arg| <= 9 && SentFrom(q, SIZEOF_PACKET + |q.arg| + 1, a.reply.bytes)
        ensures Decoding(buffer[..]) == Some(q)
      {
        Delivered(q, SIZEOF_PACKET + |q.arg| + 1, a.reply.bytes, buffer[..]);
      }
      if Decoding(buffer[..]).None? {
        return None;
      }
      var p := Decode(buffer);
      return Some(Atol(p.arg));
    }

    /** ping_server up to the read: what arrives from the worker within the 50 bytes of the ping buffer. */
    method Ping(loc: Location) returns (bytes: seq<byte>)
      requires Valid()
      modifies net`stores
      ensures net.stores == old(net.stores) && Recognisable(bytes)
      ensures PingFailed(bytes) <==> !Reachable(loc, net.stores, net.answering)
    {
      var p := WithToken(Init(0, [], PING), tokens.master);
      assert p.Valid() by { Spans(); }
      var sent := Send(p, SIZEOF_PACKET + 10);
      var a, listing := net.Exchange(loc, p, SIZEOF_PACKET + 10, sent);
      if Reachable(loc, old(net.stores), net.answering) {
        PingIsAnswered(old(net.stores)[loc], p, listing, tokens, net.stores[loc], a.reply);
      }
      assert net.stores == old(net.stores);
      bytes := if a.Got? && a.reply.Sent? then a.reply.bytes else [];
    }

    /** for_each_server(ping_server): the callback removes from the table that is being walked. */
    method PingWorkers()
      requires Valid() && UniqueIds(table.Contents())
      modifies table, table.cells, net`stores
      ensures Valid() && (table.cells == old(table.cells) || fresh(table.cells))
      ensures net.stores == old(net.stores)
      ensures table.Contents() == Sweep(old(table.Contents()), Silenced(net.stores, net.answering))
      ensures UniqueIds(table.Contents())
    {
      ghost var failed := Silenced(net.stores, net.answering);
      ghost var swept := Sweep(table.Contents(), failed);
      var i := 0;
      assert table.Contents()[0..] == table.Contents();
      while i < table.count
        invariant Valid() && UniqueIds(table.Contents()) && (table.cells == old(table.cells) || fresh(table.cells))
        invariant net.stores == old(net.stores)
        invariant SweptTo(table.Contents(), i, failed, swept)
        decreases table.count - i
      {
        Visit(i, failed, swept);
        i := i + 1;
      }
    }

    /** One visit of that walk. */
    method Visit(i: nat, ghost failed: Server -> bool, ghost swept: seq<Server>)
      requires Valid() && UniqueIds(table.Contents()) && i < table.count
      requires failed == Silenced(net.stores, net.answering) && SweptTo(table.Contents(), i, failed, swept)
      modifies table, table.cells, net`stores
      ensures Valid() && UniqueIds(table.Contents()) && (table.cells == old(table.cells) || fresh(table.cells))
      ensures net.stores == old(net.stores) && table.count <= old(table.count)
      ensures SweptTo(table.Contents(), i + 1, failed, swept)
    {
      SweepStep(table.Contents(), i, failed, swept);
      PingEntry(i);
    }

    /** The callback ping_server on entry i. */
    method PingEntry(i: nat)
      requires Valid() && UniqueIds(table.Contents()) && i < table.count
      modifies table, table.cells, net`stores
      ensures Valid() && UniqueIds(table.Contents()) && (table.cells == old(table.cells) || fresh(table.cells))
      ensures net.stores == old(net.stores)
      ensures table.Contents()
           == if Silenced(net.stores, net.answering)(old(table.Contents()[i]))
              then WithoutIndex(old(table.Contents()), i)
              else old(table.Contents())
    {
      assert table.Contents()[i] == table.cells[i];
      var answer := Ping(table.cells[i].location);
      PingFailedIff(answer);
      table.PingServer(i, answer);
    }

    /** That many rounds of manager_thread: the failed workers go as Registry.SweepsSufficeIff says. */
    method ManagerThread(rounds: nat)
      requires Valid() && UniqueIds(table.Contents())
      modifies table, table.cells, net`stores
      ensures Valid() && net.stores == old(net.stores)
      ensures table.Contents() == Sweeps(old(table.Contents()), rounds, Silenced(net.stores, net.answering))
      ensures rounds >= 16 ==> table.Contents() == Live(old(table.Contents()), Silenced(net.stores, net.answering))
    {
      ghost var failed := Silenced(net.stores, net.answering);
      ghost var start := table.Contents();
      var round := 0;
      while round < rounds
        invariant 0 <= round <= rounds
        invariant Valid() && UniqueIds(table.Contents()) && (table.cells == old(table.cells) || fresh(table.cells))
        invariant net.stores == old(net.stores)
        invariant Sweeps(table.Contents(), rounds - round, failed) == Sweeps(start, rounds, failed)
      {
        PingWorkers();
        round := round + 1;
      }
      if rounds >= 16 {
        EnoughSweeps(start, rounds, failed);
      }
    }

    /** worker_write. */
    method WorkerWrite(file: seq<byte>, data: seq<byte>) returns (count: Option<int>)
      requires Valid() && NoNul(file) && NoNul(data)
      requires HEADER + |file| + 1 + |data| <= Workers.READ_SIZE
      modifies net`stores
      ensures count.Some?
      ensures (net.stores, count.value)
           == WriteOutcome(table.Contents(), old(net.stores), net.answering, WithSep(file, data))
      ensures -1 <= count.value < Workers.READ_SIZE
    {
      var fs := table.LeastLoad();
      var arg := WithSep(file, data);
      SplitJoinedIff(file, data);
      if fs.None? {
        return Some(-1);
      }
      var p := WithToken(Init(0, arg, WRITE), tokens.master);
      WriteIsServed(arg, tokens);
      var n := |arg| + SIZEOF_PACKET + 1;
      var sent := Send(p, n);
      var a, listing := net.Exchange(fs.value.location, p, n, sent);
      count := WrittenBytes(a);
    }

    /** The LS exchange of worker_ls_index. */
    method FetchListing(loc: Location) returns (a: Answer, ghost listing: seq<Name>)
      requires Valid()
      modifies net`stores
      ensures net.stores == old(net.stores)
      ensures !Reachable(loc, net.stores, net.answering) ==> a == Unreachable
      ensures Reachable(loc, net.stores, net.answering) ==>
                && IsListing(listing, net.stores[loc])
                && a.Got? && a.reply.Sent?
                && SentFrom(Init(1, Join(listing), LS), |CStr(Join(listing))| + SIZEOF_PACKET, a.reply.bytes)
    {
      var p := WithToken(Init(0, [], LS), tokens.master);
      assert p.Valid() by { Spans(); }
      var sent := Send(p, SIZEOF_PACKET + 1);
      a, listing := net.Exchange(loc, p, SIZEOF_PACKET + 1, sent);
      if Reachable(loc, old(net.stores), net.answering) {
        ListingIsServed(old(net.stores)[loc], p, listing, tokens, net.stores[loc], a.reply);
      }
      assert net.stores == old(net.stores);
    }

    /** worker_ls_index: the worker's listing, or None where the source returns NULL or decodes past its buffer. */
    method WorkerLsIndex(index: nat) returns (ls: Option<seq<byte>>, ghost listing: seq<Name>)
      requires Valid() && index < |table.Contents()|
      modifies net`stores
      ensures net.stores == old(net.stores)
      ensures var loc := table.Contents()[index].location;
              && (!Reachable(loc, net.stores, net.answering) ==> ls == None)
              && (Reachable(loc, net.stores, net.answering) ==> IsListing(listing, net.stores[loc]))
              && (Reachable(loc, net.stores, net.answering) && Ordinary(net.stores[loc]) ==>
                    ls == if ListingFits(net.stores[loc]) then Some(Join(listing)) else None)
    {
      var worker := table.GetByIndex(index);
      ghost var loc := worker.value.location;
      var a;
      a, listing := FetchListing(worker.value.location);
      if !a.Got? || !a.reply.Sent? {
        return None, listing;
      }
      var buffer := ReadInto(a.reply.bytes, WORKER_READ_LEN + SIZEOF_PACKET);
      if Ordinary(net.stores[loc]) {
        ListingArrivesIff(listing, net.stores[loc], a.reply.bytes, buffer[..]);
      }
      if Decoding(buffer[..]).None? {
        return None, listing;
      }
      var r := Decode(buffer);
      ls := Some(r.arg);
    }

    /** find_by_file. */
    method FindByFile(file: Name) returns (found: Found)
      requires Valid()
      modifies net`stores
      ensures net.stores == old(net.stores)
      ensures found.At? ==>
                && found.index < |table.Contents()|
                && Reachable(table.Contents()[found.index].location, net.stores, net.answering)
      ensures Plain(table.Contents(), net.stores, file) ==>
                found == Verdict(table.Contents(), net.stores, net.answering, file)
    {
      var i, workers := 0, table.count;
      while i < workers
        invariant 0 <= i <= workers
        invariant net.stores == old(net.stores)
        invariant Plain(table.Contents(), net.stores, file) ==>
                    PassesOver(table.Contents(), i, net.stores, net.answering, file)
      {
        var ls, listing := WorkerLsIndex(i);
        if Plain(table.Contents(), net.stores, file) {
          VerdictMeaning(table.Contents(), i, net.stores, net.answering, file);
        }
        if ls.None? {
          return Lost;
        }
        if Plain(table.Contents(), net.stores, file) {
          ListingMatch(net.stores[table.Contents()[i].location], listing, file);
        }
        if Contains(ls.value, file) {
          return At(i);
        }
        i := i + 1;
      }
      if Plain(table.Contents(), net.stores, file) {
        VerdictMeaning(table.Contents(), i, net.stores, net.answering, file);
      }
      return Nowhere;
    }

    /** The DELETE packet of worker_delete. */
    method SendDelete(loc: Location, file: Name)
      requires Valid() && NoNul(file) && HEADER + |file| <= Workers.READ_SIZE
      modifies net`stores
      ensures net.stores == if Reachable(loc, old(net.stores), net.answering)
                            then Erased(old(net.stores), loc, file) else old(net.stores)
    {
      var p := WithToken(Init(0, file, DELETE), tokens.master);
      assert p == Packet(0, file, DELETE, 0, tokens.master);
      assert p.Valid() by { Spans(); }
      var sent := Send(p, SIZEOF_PACKET + |file|);
      var a, listing := net.Exchange(loc, p, SIZEOF_PACKET + |file|, sent);
      if Reachable(loc, old(net.stores), net.answering) {
        DeleteIsServed(old(net.stores)[loc], p, listing, tokens, net.stores[loc], a.reply);
      }
    }

    /** worker_delete; false where the source would search a listing it does not have. */
    method WorkerDelete(file: Name) returns (ok: bool)
      requires Valid() && NoNul(file) && HEADER + |file| <= Workers.READ_SIZE
      modifies net`stores
      ensures AtMostErased(table.Contents(), old(net.stores), net.stores, file)
      ensures !ok ==> net.stores == old(net.stores)
      ensures Plain(table.Contents(), old(net.stores), file) ==>
                && ok == !Verdict(table.Contents(), old(net.stores), net.answering, file).Lost?
                && net.stores == DeleteOutcome(table.Contents(), old(net.stores), net.answering, file)
    {
      var found := FindByFile(file);
      if found == Lost {
        return false;
      } else if found == Nowhere {
        return true;
      }
      var worker := table.GetByIndex(found.index);
      SendDelete(worker.value.location, file);
      return true;
    }

    /** long2str: the source's buffer holds nine characters. */
    method Long2Str(v: int) returns (s: seq<byte>)
      requires |Show(v)| <= 9
      ensures s == Show(v)
    {
      s := Show(v);
    }

    /** exec_long for WRITE and APPEND; the master's append is a stub that answers -1. */
    method ExecLong(msgType: nat, arg: seq<byte>) returns (r: Response)
      requires Valid() && NoNul(arg) && HEADER + |arg| <= READ_SZ && (msgType == WRITE || msgType == APPEND)
      modifies net`stores
      ensures arg == [] ==> r == Broken
      ensures arg != [] && SEP !in arg ==> r == Respond(Ascii(SERVER_ERROR))
      ensures SEP in arg && msgType == WRITE ==>
                var (after, count) := WriteOutcome(table.Contents(), old(net.stores), net.answering, arg);
                r == Respond(Show(count)) && net.stores == after && -1 <= count < Workers.READ_SIZE
      ensures msgType == APPEND && SEP in arg ==> r == Respond(Show(-1))
      ensures !(SEP in arg && msgType == WRITE) ==> net.stores == old(net.stores)
    {
      if |arg| == 0 {
        return Broken;
      }
      var separator := CharAt(arg, SEP);
      if separator < 0 {
        return Respond(Ascii(SERVER_ERROR));
      }
      var file, data := arg[..separator], arg[separator + 1..];
      assert WithSep(file, data) == arg;
      var count := Some(-1);
      if msgType == WRITE {
        count := WorkerWrite(file, data);
      }
      if count.value >= 0 {
        CountFits(count.value);
      }
      var text := Long2Str(count.value);
      r := Respond(text);
    }

    /** handle_request. LS and READ run into undefined behaviour in the source. */
    method HandleRequest(msgType: nat, arg: seq<byte>) returns (r: Response)
      requires Valid() && NoNul(arg) && HEADER + |arg| <= READ_SZ
      modifies net`stores
      ensures Handled(msgType, arg, table.Contents(), net.answering, old(net.stores), net.stores, r)
    {
      match msgType {
        case 1 => r := Broken;
        case 3 => r := Broken;
        case 2 => r := ExecLong(msgType, arg);
        case 4 => r := ExecLong(msgType, arg);
        case 6 =>
          var ok := WorkerDelete(arg);
          r := if ok then Respond([ZERO + 1]) else Broken;
        case _ => r := Respond(Ascii(SERVER_ERROR));
      }
    }

    /** The REGISTER branch of handle_client. */
    method Register(token: nat, text: seq<byte>) returns (r: Response)
      requires Valid()
      modifies this`nextId, table
      ensures Valid() && (table.cells == old(table.cells) || fresh(table.cells))
      ensures var accepted := token == tokens.worker && SEP in text;
              && table.Contents()
                 == (if accepted then Added(old(table.Contents()), Server(old(nextId), ParseLocation(text)))
                     else old(table.Contents()))
              && nextId == (if accepted then (old(nextId) + 1) % INT_SPAN else old(nextId))
              && r == if token != tokens.worker then NoResponse
                      else if SEP !in text then Broken
                      else Registered(old(table.Contents()), ParseLocation(text))
    {
      if token != tokens.worker {
        return NoResponse;
      }
      if SEP !in text {
        return Broken;
      }
      var at := CharAt(text, SEP);
      var location := Location(text[..at], Atol(text[at + 1..]) % PORT_SPAN);
      var copied := |location.ip| <= MAX_IP;
      var worker := Server(nextId, location);
      nextId := (nextId + 1) % INT_SPAN;
      var inside := table.Add(worker);
      return if inside && copied then NoResponse else Broken;
    }

    /** handle_client on what a client has sent; buf is the read buffer, junk and all. */
    method HandleClient(input: seq<byte>) returns (r: Response, ghost buf: seq<byte>)
      requires Valid()
      modifies this`nextId, table, net`stores
      ensures Valid() && (table.cells == old(table.cells) || fresh(table.cells))
      ensures input != [] ==> |buf| == 10000 && ReadFrom(input, buf)
      ensures input == [] || Decoding(buf).None? ==>
                && table.Contents() == old(table.Contents()) && nextId == old(nextId) && net.stores == old(net.stores)
                && r == if input == [] then NoResponse else Broken
      ensures input != [] && Decoding(buf).Some? && Decoding(buf).value.msgType == 5 ==>
                var token, text := Decoding(buf).value.token, CStr(Decoding(buf).value.arg);
                var was, id := old(table.Contents()), old(nextId);
                && net.stores == old(net.stores)
                && if token != tokens.worker then r == NoResponse && table.Contents() == was && nextId == id
                   else if SEP !in text then r == Broken && table.Contents() == was && nextId == id
                   else
                     && r == (if |was| < 65535 && |BeforeSep(text)| <= 15 then NoResponse else Broken)
                     && nextId == (id + 1) % 0x1_0000_0000
                     && table.Contents()
                        == (if |was| < 65535
                            then was + [Server(id, Location(BeforeSep(text), Atol(AfterSep(text)) % 0x1_0000))]
                            else [])
      ensures input != [] && Decoding(buf).Some? ==>
                Responded(Decoding(buf).value, tokens, net.answering, old(table.Contents()), old(nextId),
                          old(net.stores), table.Contents(), nextId, net.stores, r)
    {
      r, buf := ReadAndAnswer(input);
      if input != [] && Decoding(buf).Some? && Decoding(buf).value.msgType == 5 {
        RegistrationAnswers(Decoding(buf).value, tokens, net.answering, old(table.Contents()), old(nextId),
                            old(net.stores), table.Contents(), nextId, net.stores, r);
      }
    }

    /** Its read and its dispatch. */
    method ReadAndAnswer(input: seq<byte>) returns (r: Response, ghost buf: seq<byte>)
      requires Valid()
      modifies this`nextId, table, net`stores
      ensures Valid() && (table.cells == old(table.cells) || fresh(table.cells))
      ensures input != [] ==> |buf| == 10000 && ReadFrom(input, buf)
      ensures input == [] || Decoding(buf).None? ==>
                && table.Contents() == old(table.Contents()) && nextId == old(nextId) && net.stores == old(net.stores)
                && r == if input == [] then NoResponse else Broken
      ensures input != [] && Decoding(buf).Some? ==>
                Responded(Decoding(buf).value, tokens, net.answering, old(table.Contents()), old(nextId),
                          old(net.stores), table.Contents(), nextId, net.stores, r)
    {
      buf := [];
      if |input| == 0 {
        return NoResponse, buf;
      }
      var buffer := ReadInto(input, READ_SZ);
      buf := buffer[..];
      if Decoding(buffer[..]).None? {
        return Broken, buf;
      }
      var p := Decode(buffer);
      r := AnswerPacket(p);
    }

    /** The branches of handle_client on a decoded packet. */
    method AnswerPacket(p: Packet) returns (r: Response)
      requires Valid() && HEADER + |p.arg| <= READ_SZ
      modifies this`nextId, table, net`stores
      ensures Valid() && (table.cells == old(table.cells) || fresh(table.cells))
      ensures Responded(p, tokens, net.answering, old(table.Contents()), old(nextId), old(net.stores),
                        table.Contents(), nextId, net.stores, r)
    {
      if p.msgType != REGISTER && table.count == 0 {
        return Respond(Ascii(UNAVAILABLE));
      } else if p.msgType == REGISTER {
        r := Register(p.token, CStr(p.arg));
      } else {
        r := HandleRequest(p.msgType, CStr(p.arg));
      }
    }
  }

  /** What handle_client makes of a decoded packet: the registry, the counter, the stores and the response. */
  ghost predicate Responded(p: Packet, t: Tokens, answering: set<Location>,
                            table: seq<Server>, nextId: nat, stores: Stores,
                            table': seq<Server>, nextId': nat, stores': Stores, r: Response)
  {
    if p.msgType == REGISTER then
      var accepted := Accepted(p, t);
      && stores' == stores
      && table' == (if accepted then Added(table, Server(nextId, ParseLocation(CStr(p.arg)))) else table)
      && nextId' == (if accepted then (nextId + 1) % INT_SPAN else nextId)
      && r == (if p.token != t.worker then NoResponse
               else if SEP !in CStr(p.arg) then Broken
               else Registered(table, ParseLocation(CStr(p.arg))))
    else
      && table' == table && nextId' == nextId
      && if table == [] then r == Respond(Ascii(UNAVAILABLE)) && stores' == stores
         else Handled(p.msgType, CStr(p.arg), table, answering, stores, stores', r)
  }

  /** A registration is not answered; it leaves the memory it has for an overlong address or a full table. */
  function Registered(table: seq<Server>, location: Location): Response {
    if |table| < MAX_SERVERS && |location.ip| <= MAX_IP then NoResponse else Broken
  }

  /** A registration the master carries out. */
  ghost predicate Accepted(p: Packet, t: Tokens) {
    p.token == t.worker && SEP in CStr(p.arg)
  }

  /** What handle_request answers and does to the workers' files. */
  ghost predicate Handled(msgType: nat, arg: seq<byte>, table: seq<Server>, answering: set<Location>,
                          before: Stores, after: Stores, r: Response)
  {
    if msgType == WRITE && SEP in arg then
      var (stores, count) := WriteOutcome(table, before, answering, arg);
      after == stores && r == Respond(Show(count)) && -1 <= count < Workers.READ_SIZE
    else if msgType == DELETE then
      && AtMostErased(table, before, after, arg)
      && (r == Respond([ZERO + 1]) || (r == Broken && after == before))
      && (Plain(table, before, arg) ==>
            && after == DeleteOutcome(table, before, answering, arg)
            && (r == Broken <==> Verdict(table, before, answering, arg).Lost?))
    else
      && after == before
      && (msgType == APPEND && SEP in arg ==> r == Respond(Show(-1)))
      && ((msgType == WRITE || msgType == APPEND) && arg != [] && SEP !in arg ==> r == Respond(Ascii(SERVER_ERROR)))
      && ((msgType == WRITE || msgType == APPEND) && arg == [] ==> r == Broken)
      && (msgType == READ || msgType == LS ==> r == Broken)
      && (msgType == PING || msgType > DELETE ==> r == Respond(Ascii(SERVER_ERROR)))
  }

  /**
   With the worker token and a ';' a registration is stored and counted. It stays unanswered; a full table, which it
   empties, or an address beyond its 16 bytes makes the source write outside its memory.
   */
  lemma RegistrationAnswers(p: Packet, t: Tokens, answering: set<Location>,
                            table: seq<Server>, nextId: nat, stores: Stores,
                            table': seq<Server>, nextId': nat, stores': Stores, r: Response)
    requires p.msgType == 5 && Responded(p, t, answering, table, nextId, stores, table', nextId', stores', r)
    ensures var text := CStr(p.arg);
            && stores' == stores
            && if p.token != t.worker then r == NoResponse && table' == table && nextId' == nextId
               else if SEP !in text then r == Broken && table' == table && nextId' == nextId
               else
                 && r == (if |table| < 65535 && |BeforeSep(text)| <= 15 then NoResponse else Broken)
                 && nextId' == (nextId + 1) % 0x1_0000_0000
                 && table' == if |table| < 65535
                              then table + [Server(nextId, Location(BeforeSep(text), Atol(AfterSep(text)) % 0x1_0000))]
                              else []
  {
  }

  /**
   The answers that need no worker: without workers, to requests the source does not implement or runs off its data
   on, and to those that have no ';'.
   */
  lemma AnswersWithoutWorker(p: Packet, t: Tokens, answering: set<Location>,
                             table: seq<Server>, nextId: nat, stores: Stores,
                             table': seq<Server>, nextId': nat, stores': Stores, r: Response)
    requires p.msgType != 5 && Responded(p, t, answering, table, nextId, stores, table', nextId', stores', r)
    ensures table' == table && nextId' == nextId
    ensures table == [] || p.msgType !in {2, 6} ==> stores' == stores
    ensures table == [] ==> r == Respond(Ascii("Service unavailable."))
    ensures table != [] && p.msgType in {1, 3} ==> r == Broken
    ensures table != [] && (p.msgType == 0 || p.msgType > 6) ==> r == Respond(Ascii("Server error."))
    ensures table != [] && p.msgType in {2, 4} && SEP !in CStr(p.arg) ==>
              stores' == stores && r == if CStr(p.arg) == [] then Broken else Respond(Ascii("Server error."))
    ensures table != [] && p.msgType == 4 && SEP in CStr(p.arg) ==> r == Respond([45, 49])
  {
    ShowMinusOne();
  }

  /** A delete of a newline-free name is answered "1" unless the search for it is lost. */
  lemma DeleteAnswer(p: Packet, t: Tokens, answering: set<Location>,
                     table: seq<Server>, nextId: nat, stores: Stores,
                     table': seq<Server>, nextId': nat, stores': Stores, r: Response)
    requires p.msgType == 6 && table != [] && Plain(table, stores, CStr(p.arg))
    requires Responded(p, t, answering, table, nextId, stores, table', nextId', stores', r)
    ensures var v := Verdict(table, stores, answering, CStr(p.arg));
            && r == (if v.Lost? then Broken else Respond([49]))
            && stores' == if v.At? then Erased(stores, table[v.index].location, CStr(p.arg)) else stores
  {
  }

  /** A write that meets a first worker which does not answer: "-1", and nothing changes. */
  lemma SilentWorkerGivesMinusOne(p: Packet, t: Tokens, answering: set<Location>,
                                  table: seq<Server>, nextId: nat, stores: Stores,
                                  table': seq<Server>, nextId': nat, stores': Stores, r: Response)
    requires p.msgType == 2 && SEP in CStr(p.arg)
    requires table != [] && !(table[0].location in stores && table[0].location in answering)
    requires Responded(p, t, answering, table, nextId, stores, table', nextId', stores', r)
    ensures r == Respond([45, 49]) && stores' == stores && table' == table && nextId' == nextId
  {
    ShowMinusOne();
  }

  /** A worker's 13-byte ping reply holds a whole message type, so the master recognises it. */
  lemma PingIsAnswered(before: Files, p: Packet, listing: seq<Name>, t: Tokens, after: Files, reply: Reply)
    requires p == Packet(0, [], PING, 0, t.master) && Answered(before, p, listing, t, after, reply)
    ensures after == before && reply.Sent? && |reply.bytes| == 13 && !PingFailed(reply.bytes)
  {
    var q := Init(1, [ZERO + 1], PING);
    assert Serve(before, p, listing, t) == Served(before, Some(q));
    assert q.Valid() by { Spans(); }
    assert q.arg == [ZERO + 1];
    PrefixFixesType(q, 13, reply.bytes);
  }

  lemma DeleteIsServed(before: Files, p: Packet, listing: seq<Name>, t: Tokens, after: Files, reply: Reply)
    requires p.msgType == DELETE && p.token == t.master && NoNul(p.arg) && Answered(before, p, listing, t, after, reply)
    ensures after == before - {p.arg}
  {
  }

  lemma ListingIsServed(before: Files, p: Packet, listing: seq<Name>, t: Tokens, after: Files, reply: Reply)
    requires p == Packet(0, [], LS, 0, t.master) && Answered(before, p, listing, t, after, reply)
    ensures after == before && reply.Sent?
    ensures SentFrom(Init(1, Join(listing), LS), |CStr(Join(listing))| + SIZEOF_PACKET, reply.bytes)
  {
    var q := Init(1, Join(listing), LS);
    assert Serve(before, p, listing, t) == Served(before, Some(q));
    assert ReplyLength(q) == |CStr(Join(listing))| + SIZEOF_PACKET;
  }

  /** A listing is decoded from the worker's reply if it fits the master's buffer; else decoding would leave it. */
  lemma ListingArrivesIff(listing: seq<Name>, files: Files, sent: seq<byte>, buffer: seq<byte>)
    requires IsListing(listing, files) && Ordinary(files) && |buffer| == WORKER_READ_LEN + SIZEOF_PACKET
    requires SentFrom(Init(1, Join(listing), LS), |CStr(Join(listing))| + SIZEOF_PACKET, sent) && ReadFrom(sent, buffer)
    ensures ListingFits(files) ==> Decoding(buffer).Some? && Decoding(buffer).value.arg == Join(listing)
    ensures !ListingFits(files) ==> Decoding(buffer).None?
  {
    var q := Init(1, Join(listing), LS);
    ListingIsText(files, listing);
    ListingFitsIff(files, listing);
    assert q.Valid() by { Spans(); }
    if ListingFits(files) {
      Delivered(q, |q.arg| + SIZEOF_PACKET, sent, buffer);
    } else {
      TooLongToDecode(q, |q.arg| + SIZEOF_PACKET, sent, buffer);
    }
  }

  /** The worker's answer to a forwarded write. */
  function WriteReply(arg: seq<byte>, t: Tokens): Packet
    requires SEP in arg
  {
    Packet(1, Show(|AfterSep(arg)|), WRITE, 0, t.worker)
  }

  lemma WriteIsServed(arg: seq<byte>, t: Tokens)
    requires SEP in arg && NoNul(arg) && HEADER + |arg| <= Workers.READ_SIZE
    requires t.master < Span(8) && t.worker < Span(8)
    ensures var p := WithToken(Init(0, arg, WRITE), t.master);
            && p.Valid() && p.arg == arg
            && forall files: Files, listing ::
                 Serve(files, p, listing, t)
                 == Served(files[BeforeSep(arg) := AfterSep(arg)], Some(WriteReply(arg, t)))
    ensures var q := WriteReply(arg, t);
            q.Valid() && |q.arg| <= 9 && Atol(q.arg) == |AfterSep(arg)| && ReplyLength(q) == SIZEOF_PACKET + |q.arg| + 1
  {
    Spans();
    CountFits(|AfterSep(arg)|);
    assert CStr(BeforeSep(arg)) == BeforeSep(arg) && CStr(AfterSep(arg)) == AfterSep(arg);
  }

  /** Counts below the read size print in at most 4 characters, and back. */
  lemma CountFits(size: nat)
    requires size < Workers.READ_SIZE
    ensures |Show(size)| <= 4 && Atol(Show(size)) == size && NoNul(Show(size))
  {
    assert Pow10(4) == 10000 by { assert Pow10(2) == 100; }
    DigitCount(size, 4);
    CountRoundTrip(size, []);
    assert Show(size) + [] == Show(size);
    ShowIsText(size);
  }
}
