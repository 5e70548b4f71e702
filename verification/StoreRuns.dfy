/** What a worker's files are after any sequence of packets. */
module StoreRuns {
  import opened Bytes
  import opened Packets
  import opened Text
  import opened Workers
  import opened Answers

  /** The files after serving the packets; None if one of them made the source run off its data. */
  function FilesAfter(start: Files, ps: seq<Packet>, t: Tokens): (r: Option<Files>) {
    if ps == [] then Some(start)
    else
      match FilesAfter(start, ps[..|ps| - 1], t)
      case None => None
      case Some(files) =>
        match Serve(files, ps[|ps| - 1], [], t)
        case Crashed => None
        case Served(after, _) => Some(after)
  }

  /** What a packet asks of one particular file. */
  datatype Change = Nothing | Overwrite(data: seq<byte>) | Extend(data: seq<byte>) | Erase

  /** Only WRITE, APPEND and DELETE packets with the master's token change anything, and only the file they name. */
  function ChangeTo(name: Name, p: Packet, t: Tokens): Change {
    if p.token != t.master then Nothing else ChangeBy(name, p.msgType, p.arg)
  }

  function ChangeBy(name: Name, msgType: nat, arg: seq<byte>): Change {
    if msgType == DELETE && CStr(arg) == name then Erase
    else if msgType in {WRITE, APPEND} && SEP in arg && CStr(BeforeSep(arg)) == name then
      var data := CStr(AfterSep(arg));
      if msgType == WRITE then Overwrite(data) else Extend(data)
    else Nothing
  }

  function Changed(before: Option<seq<byte>>, c: Change): (r: Option<seq<byte>>) {
    match c
    case Nothing => before
    case Overwrite(data) => Some(data)
    case Extend(data) => if before.Some? then Some(before.value + data) else None
    case Erase => None
  }

  /** One file's history: its content if it exists. */
  function Content(start: Option<seq<byte>>, name: Name, ps: seq<Packet>, t: Tokens): (r: Option<seq<byte>>) {
    if ps == [] then start
    else
      var before := Content(start, name, ps[..|ps| - 1], t);
      Changed(before, ChangeTo(name, ps[|ps| - 1], t))
  }

  function Lookup(files: Files, name: Name): (r: Option<seq<byte>>) {
    if name in files then Some(files[name]) else None
  }

  /** One packet changes each file as it asks, whatever the listing order. */
  lemma ServeChangesAsAsked(files: Files, p: Packet, listing: seq<Name>, t: Tokens, name: Name)
    requires Serve(files, p, listing, t).Served?
    ensures Lookup(Serve(files, p, listing, t).files, name) == Changed(Lookup(files, name), ChangeTo(name, p, t))
  {
    if p.token == t.master && Executed(files, p.msgType, p.arg).Done? {
      if p.msgType == DELETE {
        DeleteChangesAsAsked(files, p.arg, name);
      } else {
        OperationChangesAsAsked(files, p.msgType, p.arg, name);
      }
    }
  }

  lemma DeleteChangesAsAsked(files: Files, arg: seq<byte>, name: Name)
    requires Executed(files, DELETE, arg).Done?
    ensures Lookup(Executed(files, DELETE, arg).files, name)
         == Changed(Lookup(files, name), ChangeBy(name, DELETE, arg))
  {
  }

  lemma OperationChangesAsAsked(files: Files, msgType: nat, arg: seq<byte>, name: Name)
    requires msgType != DELETE && Executed(files, msgType, arg).Done?
    ensures Lookup(Executed(files, msgType, arg).files, name)
         == Changed(Lookup(files, name), ChangeBy(name, msgType, arg))
  {
    if msgType != READ {
      WriteChangesAsAsked(files, arg, msgType == APPEND, name);
    }
  }

  lemma WriteChangesAsAsked(files: Files, arg: seq<byte>, append: bool, name: Name)
    requires SEP in arg
    ensures var target, data := CStr(BeforeSep(arg)), CStr(AfterSep(arg));
            Lookup(Written(files, target, data, append).0, name)
            == if name != target then Lookup(files, name)
               else Changed(Lookup(files, name), if append then Extend(data) else Overwrite(data))
  {
  }

  /** A packet, coming after others, that the source serves without running off its data. */
  predicate Survivable(start: Files, before: seq<Packet>, p: Packet, t: Tokens) {
    || p.token != t.master
    || p.msgType in {PING, LS, DELETE}
    || (p.msgType in {WRITE, APPEND} && SEP in p.arg)
    || (p.msgType == READ && Content(Lookup(start, CStr(p.arg)), CStr(p.arg), before, t).Some?)
  }

  ghost predicate AllSurvivable(start: Files, ps: seq<Packet>, t: Tokens) {
    forall k :: 0 <= k < |ps| ==> Survivable(start, ps[..k], ps[k], t)
  }

  lemma AllSurvivableUnfold(start: Files, ps: seq<Packet>, t: Tokens)
    requires ps != []
    ensures var front := ps[..|ps| - 1];
            AllSurvivable(start, ps, t) <==> AllSurvivable(start, front, t) && Survivable(start, front, ps[|ps| - 1], t)
  {
    var front := ps[..|ps| - 1];
    assert forall k | 0 <= k < |front| :: front[..k] == ps[..k] && front[k] == ps[k];
  }

  lemma {:induction false} HistoriesWhileUp(start: Files, ps: seq<Packet>, t: Tokens, name: Name)
    requires FilesAfter(start, ps, t).Some?
    ensures Lookup(FilesAfter(start, ps, t).value, name) == Content(Lookup(start, name), name, ps, t)
  {
    if ps != [] {
      HistoriesWhileUp(start, ps[..|ps| - 1], t, name);
      ServeChangesAsAsked(FilesAfter(start, ps[..|ps| - 1], t).value, ps[|ps| - 1], [], t, name);
    }
  }

  /**
   The packet sequences a worker survives: of those with the master's token, each WRITE and APPEND has a ';', each
   READ names a file that exists by then, and there is no message type without an operation.
   */
  lemma {:induction false} WorkerSurvivesIff(start: Files, ps: seq<Packet>, t: Tokens)
    ensures FilesAfter(start, ps, t).Some? <==> AllSurvivable(start, ps, t)
  {
    if ps != [] {
      var front, p := ps[..|ps| - 1], ps[|ps| - 1];
      AllSurvivableUnfold(start, ps, t);
      WorkerSurvivesIff(start, front, t);
      if FilesAfter(start, front, t).Some? {
        HistoriesWhileUp(start, front, t, CStr(p.arg));
        ServedIffSurvivable(start, front, FilesAfter(start, front, t).value, p, t);
      }
    }
  }

  lemma ServedIffSurvivable(start: Files, before: seq<Packet>, files: Files, p: Packet, t: Tokens)
    requires Lookup(files, CStr(p.arg)) == Content(Lookup(start, CStr(p.arg)), CStr(p.arg), before, t)
    ensures Serve(files, p, [], t).Served? <==> Survivable(start, before, p, t)
  {
    DoneIff(files, p.msgType, p.arg);
  }

  lemma DoneIff(files: Files, msgType: nat, arg: seq<byte>)
    ensures Executed(files, msgType, arg).Done? <==>
              || msgType == DELETE
              || (msgType in {WRITE, APPEND} && SEP in arg)
              || (msgType == READ && CStr(arg) in files)
  {
  }

  /** After any packets a worker survives, each file is what its own history of authorised changes makes of it. */
  lemma StoreRefinesHistories(start: Files, ps: seq<Packet>, t: Tokens, name: Name)
    requires AllSurvivable(start, ps, t)
    ensures FilesAfter(start, ps, t).Some?
    ensures Lookup(FilesAfter(start, ps, t).value, name) == Content(Lookup(start, name), name, ps, t)
  {
    WorkerSurvivesIff(start, ps, t);
    HistoriesWhileUp(start, ps, t, name);
  }

  /** Contents never hold a NUL. */
  ghost predicate TextOnly(files: Files) {
    forall n :: n in files ==> NoNul(files[n])
  }

  lemma {:induction false} StoreStaysText(start: Files, ps: seq<Packet>, t: Tokens)
    requires TextOnly(start) && FilesAfter(start, ps, t).Some?
    ensures TextOnly(FilesAfter(start, ps, t).value)
  {
    if ps != [] {
      StoreStaysText(start, ps[..|ps| - 1], t);
    }
  }

  /** A READ of a file that exists replies with the whole content its history gives it, and changes nothing. */
  lemma ReadReturnsHistory(start: Files, ps: seq<Packet>, t: Tokens, read: Packet, listing: seq<Name>)
    requires TextOnly(start) && AllSurvivable(start, ps, t)
    requires read.token == t.master && read.msgType == READ
    ensures FilesAfter(start, ps, t).Some?
    ensures var files := FilesAfter(start, ps, t).value;
            var content := Content(Lookup(start, CStr(read.arg)), CStr(read.arg), ps, t);
            Serve(files, read, listing, t) ==
            if content.None? then Crashed
            else Served(files, Some(Packet(NextSeq(read.seqNumber), content.value, READ, 0, t.worker)))
  {
    StoreRefinesHistories(start, ps, t, CStr(read.arg));
    StoreStaysText(start, ps, t);
  }

  /** On the wire: every reader with room for it decodes that content from the answer. */
  lemma ReadDeliversHistory(start: Files, ps: seq<Packet>, t: Tokens, read: Packet, listing: seq<Name>,
                            after: Files, reply: Reply)
    requires TextOnly(start) && AllSurvivable(start, ps, t) && t.worker < 0x1_0000_0000_0000_0000
    requires read.token == t.master && read.msgType == 3
    requires FilesAfter(start, ps, t).Some? && Answered(FilesAfter(start, ps, t).value, read, listing, t, after, reply)
    ensures var content := Content(Lookup(start, CStr(read.arg)), CStr(read.arg), ps, t);
            && (content.None? ==> reply == Down)
            && (content.Some? && |content.value| < 0x1_0000_0000 ==>
                  && reply.Sent? && |reply.bytes| == 41 + |content.value|
                  && forall buffer :: |buffer| >= 22 + |content.value| && ReadFrom(reply.bytes, buffer) ==>
                       Decoding(buffer)
                       == Some(Packet((read.seqNumber + 1) % 0x1_0000_0000, content.value, 3, 0, t.worker)))
  {
    var files, name := FilesAfter(start, ps, t).value, CStr(read.arg);
    StoreRefinesHistories(start, ps, t, name);
    StoreStaysText(start, ps, t);
    if name in files && |files[name]| < 0x1_0000_0000 {
      ReadIsAnswered(files, read, listing, t, after, reply);
    }
  }

  /** Appending to a missing file answers -1 and changes nothing; deleting a missing file changes nothing. */
  lemma MissingFile(files: Files, p: Packet, listing: seq<Name>, t: Tokens)
    requires p.token == t.master
    ensures p.msgType == APPEND && SEP in p.arg && CStr(BeforeSep(p.arg)) !in files ==>
              Serve(files, p, listing, t)
              == Served(files, Some(Packet(NextSeq(p.seqNumber), Show(-1), APPEND, 0, t.worker)))
    ensures p.msgType == DELETE && CStr(p.arg) !in files ==>
              Serve(files, p, listing, t)
              == Served(files, Some(Packet(NextSeq(p.seqNumber), [], DELETE, 0, t.worker)))
  {
    ShowIsText(-1);
    if p.msgType == DELETE && CStr(p.arg) !in files {
      assert files - {CStr(p.arg)} == files;
    }
  }

  /** The count in the reply to a WRITE is the file's new size; to an APPEND, by how much the file has grown. */
  lemma CountIsWhatWasWritten(files: Files, p: Packet, listing: seq<Name>, t: Tokens)
    requires p.token == t.master && p.msgType in {WRITE, APPEND} && SEP in p.arg
    requires p.msgType == APPEND ==> CStr(BeforeSep(p.arg)) in files
    ensures var name, r := CStr(BeforeSep(p.arg)), Serve(files, p, listing, t);
            && r.Served? && r.reply.Some? && name in r.files
            && Atol(r.reply.value.arg) == |r.files[name]| - (if p.msgType == APPEND then |files[name]| else 0)
  {
    var count := |CStr(AfterSep(p.arg))|;
    ShowIsText(count);
    CountRoundTrip(count, []);
    assert Show(count) + [] == Show(count);
  }

  /** Packets without the master's token are as if they had not been sent. */
  lemma {:induction false} StrangersChangeNothing(start: Files, ps: seq<Packet>, t: Tokens)
    requires forall i :: 0 <= i < |ps| ==> ps[i].token != t.master
    ensures FilesAfter(start, ps, t) == Some(start)
  {
    if ps != [] {
      StrangersChangeNothing(start, ps[..|ps| - 1], t);
    }
  }

  // ---------- the code ----------

  /** The packets in a worker's read buffers; a buffer without a whole packet holds none. */
  function PacketsIn(bufs: seq<seq<byte>>): (ps: seq<Packet>) {
    if bufs == [] then []
    else
      PacketsIn(bufs[..|bufs| - 1])
      + match Decoding(bufs[|bufs| - 1])
        case None => []
        case Some(p) => [p]
  }

  lemma PacketsStep(bufs: seq<seq<byte>>, buf: seq<byte>)
    ensures PacketsIn(bufs + [buf])
         == match Decoding(buf)
            case None => PacketsIn(bufs)
            case Some(p) => PacketsIn(bufs) + [p]
  {
    assert (bufs + [buf])[..|bufs|] == bufs;
  }

  lemma FilesStep(start: Files, ps: seq<Packet>, p: Packet, listing: seq<Name>, t: Tokens)
    requires FilesAfter(start, ps, t).Some?
    ensures FilesAfter(start, ps + [p], t)
         == match Serve(FilesAfter(start, ps, t).value, p, listing, t)
            case Crashed => None
            case Served(after, _) => Some(after)
  {
    assert (ps + [p])[..|ps|] == ps;
  }

  /** bufs are the read buffers of the first inputs. */
  ghost predicate Buffered(inputs: seq<seq<byte>>, bufs: seq<seq<byte>>) {
    && |bufs| <= |inputs|
    && forall i :: 0 <= i < |bufs| && inputs[i] != [] ==> |bufs[i]| == READ_SIZE && ReadFrom(inputs[i], bufs[i])
  }

  lemma BufferedStep(inputs: seq<seq<byte>>, bufs: seq<seq<byte>>, buf: seq<byte>)
    requires Buffered(inputs, bufs) && |bufs| < |inputs|
    requires inputs[|bufs|] != [] ==> |buf| == READ_SIZE && ReadFrom(inputs[|bufs|], buf)
    ensures Buffered(inputs, bufs + [buf])
  {
  }

  /** Each of those inputs that is not empty gave a whole packet. */
  ghost predicate AllWhole(inputs: seq<seq<byte>>, bufs: seq<seq<byte>>) {
    |bufs| <= |inputs| && forall i :: 0 <= i < |bufs| && inputs[i] != [] ==> Decoding(bufs[i]).Some?
  }

  lemma AllWholeStep(inputs: seq<seq<byte>>, bufs: seq<seq<byte>>)
    requires 0 < |bufs| <= |inputs| && AllWhole(inputs, bufs[..|bufs| - 1])
    requires inputs[|bufs| - 1] != [] ==> Decoding(bufs[|bufs| - 1]).Some?
    ensures AllWhole(inputs, bufs)
  {
    assert forall i | 0 <= i < |bufs| - 1 :: bufs[i] == bufs[..|bufs| - 1][i];
  }

  /**
   The worker's loop over its clients: while it is up, its files are those after the packets it has read. It goes down
   only over a buffer without a whole packet or a packet it does not survive.
   */
  method ServeClients(worker: Worker, inputs: seq<seq<byte>>) returns (up: bool, ghost bufs: seq<seq<byte>>)
    modifies worker
    ensures Buffered(inputs, bufs)
    ensures up ==>
              && |bufs| == |inputs|
              && AllWhole(inputs, bufs)
              && FilesAfter(old(worker.files), PacketsIn(bufs), worker.tokens) == Some(worker.files)
    ensures !up ==> bufs != [] && (Decoding(bufs[|bufs| - 1]).None?
                                   || FilesAfter(old(worker.files), PacketsIn(bufs), worker.tokens).None?)
  {
    bufs := [];
    ghost var ps := [];
    var i := 0;
    while i < |inputs|
      invariant |bufs| == i <= |inputs| && Buffered(inputs, bufs) && AllWhole(inputs, bufs)
      invariant ps == PacketsIn(bufs) && FilesAfter(old(worker.files), ps, worker.tokens) == Some(worker.files)
    {
      ghost var buf;
      var reply;
      reply, buf, ps := ServeClient(worker, inputs[i], old(worker.files), ps);
      PacketsStep(bufs, buf);
      BufferedStep(inputs, bufs, buf);
      bufs := bufs + [buf];
      if reply == Down {
        return false, bufs;
      }
      AllWholeStep(inputs, bufs);
      i := i + 1;
    }
    return true, bufs;
  }

  /** One client of that loop, start being the files it began with and ps the packets it has read so far. */
  method ServeClient(worker: Worker, input: seq<byte>, ghost start: Files, ghost ps: seq<Packet>)
    returns (reply: Reply, ghost buf: seq<byte>, ghost ps': seq<Packet>)
    requires FilesAfter(start, ps, worker.tokens) == Some(worker.files)
    modifies worker
    ensures input != [] ==> |buf| == READ_SIZE && ReadFrom(input, buf)
    ensures ps' == match Decoding(buf)
                   case None => ps
                   case Some(p) => ps + [p]
    ensures reply != Down && input != [] ==> Decoding(buf).Some?
    ensures reply != Down ==> FilesAfter(start, ps', worker.tokens) == Some(worker.files)
    ensures reply == Down ==> Decoding(buf).None? || FilesAfter(start, ps', worker.tokens).None?
  {
    ghost var listing;
    reply, buf, listing := worker.HandleClient(input);
    if input == [] {
      buf := [];
    }
    ps' := ps;
    if Decoding(buf).Some? {
      ps' := ps + [Decoding(buf).value];
      FilesStep(start, ps, Decoding(buf).value, listing, worker.tokens);
    }
  }
}
