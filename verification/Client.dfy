/** The client library (lib/interface.c) and, through it, a whole request from client to worker and back. */
module Clients {
  import opened Bytes
  import opened Channels
  import opened Packets
  import opened Text
  import opened Registry
  import opened Workers
  import opened Requests
  import opened Masters

  const CHUNK := 1000
  const SIZE_SPAN := 0x1_0000_0000_0000_0000

  /** atoi: atol cut to 32 bits. */
  function Atoi(s: seq<byte>): (v: int)
    ensures -INT_SPAN <= 2 * v < INT_SPAN
  {
    var u := Atol(s) % INT_SPAN;
    if 2 * u >= INT_SPAN then u - INT_SPAN else u
  }

  /** An int returned as size_t. */
  function AsSize(v: int): (n: nat)
    requires -INT_SPAN <= 2 * v < INT_SPAN
  {
    v % SIZE_SPAN
  }

  /** read_all on a connection whose reads are full but for the last: every byte of the stream, in order. */
  method ReadAll(client: Channel) returns (buffer: array<byte>, ghost size: nat)
    modifies client
    ensures fresh(buffer) && size == |old(client.queue)| < buffer.Length
    ensures buffer[..size] == old(client.queue) && client.queue == []
  {
    ghost var q := client.queue;
    ghost var at := 0;
    var i := 0;
    buffer := new byte[CHUNK];
    while true
      invariant at == i * CHUNK && buffer.Length == at + CHUNK && fresh(buffer)
      invariant at <= |q| && client.queue == q[at..] && buffer[..at] == q[..at]
      decreases |client.queue|
    {
      var n := client.ReadInto(buffer, i * CHUNK, CHUNK);
      size := at + n;
      assert buffer[..size] == q[..size];
      if n != CHUNK {
        break;
      }
      i := i + 1;
      at := size;
      buffer := Realloc(buffer, CHUNK * (i + 1));
    }
    assert q[..size] == q;
  }

  /** gen_write_arg. */
  function GenWriteArg(file: seq<byte>, data: seq<byte>): (arg: seq<byte>)
    ensures SEP in arg
  {
    SplitJoinedIff(file, data);
    WithSep(file, data)
  }

  /** What the master writes back: the text and its terminator. */
  function ResponseBytes(text: seq<byte>): seq<byte> {
    text + [NUL]
  }

  lemma AtoiOfCount(v: int, rest: seq<byte>)
    requires -INT_SPAN <= 2 * v < INT_SPAN && StopsNumber(rest)
    ensures Atoi(Show(v) + rest) == v
  {
    CountRoundTrip(v, rest);
  }

  /** The printed count reaches the client unchanged through both hops if and only if it fits an int. */
  lemma CountThroughBothHops(v: int, rest: seq<byte>)
    requires StopsNumber(rest)
    ensures Atoi(Show(Atol(Show(v))) + rest) == v <==> -INT_SPAN <= 2 * v < INT_SPAN
  {
    CountRoundTrip(v, []);
    assert Show(v) + [] == Show(v);
    if -INT_SPAN <= 2 * v < INT_SPAN {
      AtoiOfCount(v, rest);
    }
  }

  lemma {:induction false} ReadDigitsStops(s: seq<byte>, rest: seq<byte>, soFar: nat)
    ensures ReadDigits(s + [NUL] + rest, soFar) == ReadDigits(s + [NUL], soFar)
  {
    if s != [] && IsDigit(s[0]) {
      assert (s + [NUL] + rest)[1..] == s[1..] + [NUL] + rest && (s + [NUL])[1..] == s[1..] + [NUL];
      ReadDigitsStops(s[1..], rest, 10 * soFar + (s[0] - ZERO) as int);
    }
  }

  /** A number is parsed alike whatever lies behind the terminator. */
  lemma {:induction false} AtolStopsAtNul(s: seq<byte>, rest: seq<byte>)
    ensures Atol(s + [NUL] + rest) == Atol(s + [NUL])
  {
    if s != [] {
      assert (s + [NUL] + rest)[1..] == s[1..] + [NUL] + rest && (s + [NUL])[1..] == s[1..] + [NUL];
      ReadDigitsStops(s, rest, 0);
      ReadDigitsStops(s[1..], rest, 0);
      if IsSpace(s[0]) {
        AtolStopsAtNul(s[1..], rest);
      }
    }
  }

  /** atoi of the buffer read_all leaves, with its junk behind the terminator. */
  method ParseReply(text: seq<byte>) returns (v: int)
    ensures v == Atoi(ResponseBytes(text))
  {
    var stream := new Channel(ResponseBytes(text));
    var buffer, size := ReadAll(stream);
    v := Atoi(buffer[..]);
    assert buffer[..] == text + [NUL] + buffer[size..];
    AtolStopsAtNul(text, buffer[size..]);
  }

  /** One request of a client: n bytes are written from the encoding of p, and the master serves what it reads. */
  method Request(p: Packet, n: nat, master: Master) returns (r: Response)
    requires master.Valid() && p.Valid() && NoNul(p.arg) && p.msgType != REGISTER
    requires HEADER + |p.arg| <= n && HEADER + |p.arg| <= READ_SZ
    modifies master`nextId, master.table, master.net`stores
    ensures master.Valid()
    ensures master.table.Contents() == old(master.table.Contents()) && master.nextId == old(master.nextId)
    ensures if master.table.Contents() == []
            then r == Respond(Ascii(UNAVAILABLE)) && master.net.stores == old(master.net.stores)
            else Handled(p.msgType, p.arg, master.table.Contents(), master.net.answering,
                         old(master.net.stores), master.net.stores, r)
  {
    var sent := Send(p, n);
    ghost var buf;
    r, buf := master.HandleClient(sent);
    Delivered(p, n, sent, buf);
  }

  /**
   The stores after a client's write or append and the size_t it gets: 0 without workers ("Service unavailable."
   has no number), -1 as size_t for an append or when the worker does not answer, else the count.
   */
  function ClientOutcome(table: seq<Server>, stores: Stores, answering: set<Location>, arg: seq<byte>, append: bool)
    : (r: (Stores, nat))
    requires SEP in arg
  {
    if table == [] then (stores, 0)
    else if append then (stores, SIZE_SPAN - 1)
    else
      var (after, count) := WriteOutcome(table, stores, answering, arg);
      (after, if count < 0 then SIZE_SPAN - 1 else count)
  }

  /**
   file_write through a running master. The client writes 41 + |arg| bytes of its 22 + |arg| byte encoding.
   The pair that is stored is the argument cut at its first ';'.
   */
  method FileWrite(name: seq<byte>, data: seq<byte>, append: bool, master: Master) returns (written: nat)
    requires master.Valid() && NoNul(name) && NoNul(data)
    requires HEADER + |GenWriteArg(name, data)| <= READ_SZ
    modifies master`nextId, master.table, master.net`stores
    ensures master.Valid()
    ensures master.table.Contents() == old(master.table.Contents()) && master.nextId == old(master.nextId)
    ensures (master.net.stores, written)
         == ClientOutcome(master.table.Contents(), old(master.net.stores), master.net.answering,
                          GenWriteArg(name, data), append)
    ensures master.table.Contents() == [] ==> written == 0 && master.net.stores == old(master.net.stores)
    ensures var table, was := master.table.Contents(), old(master.net.stores);
            table != [] && (append || table[0].location !in was || table[0].location !in master.net.answering) ==>
              written == 0xFFFF_FFFF_FFFF_FFFF && master.net.stores == was
  {
    var arg := GenWriteArg(name, data);
    var p := Init(0, arg, if append then APPEND else WRITE);
    assert p.arg == arg && p.Valid() by { Spans(); }
    var r := Request(p, SIZEOF_PACKET + |p.arg| + 1, master);
    ReplyGivesOutcome(master.table.Contents(), old(master.net.stores), master.net.answering, arg, append, r.text);
    var count := ParseReply(r.text);
    written := AsSize(count);
  }

  lemma ReplyGivesOutcome(table: seq<Server>, before: Stores, answering: set<Location>, arg: seq<byte>, append: bool,
                          text: seq<byte>)
    requires SEP in arg
    requires text == if table == [] then Ascii(UNAVAILABLE)
                     else Show(if append then -1 else WriteOutcome(table, before, answering, arg).1)
    requires table != [] && !append ==> -1 <= WriteOutcome(table, before, answering, arg).1 < Workers.READ_SIZE
    ensures AsSize(Atoi(ResponseBytes(text))) == ClientOutcome(table, before, answering, arg, append).1
  {
    if table == [] {
      UnavailableText();
    } else {
      AtoiOfCount(if append then -1 else WriteOutcome(table, before, answering, arg).1, [NUL]);
    }
  }

  lemma UnavailableText()
    ensures Ascii(UNAVAILABLE)[0] == 83
  {
    var s := UNAVAILABLE;
    assert s[0] == 'S';
  }

  /**
   file_delete: 0 without workers; otherwise 1 unless the master is lost in its search. The file goes from where that
   search ends, whichever workers behind it answer.
   */
  method FileDelete(name: seq<byte>, master: Master) returns (deleted: int)
    requires master.Valid() && NoNul(name) && HEADER + |name| <= READ_SZ
    modifies master`nextId, master.table, master.net`stores
    ensures master.Valid()
    ensures master.table.Contents() == old(master.table.Contents()) && master.nextId == old(master.nextId)
    ensures AtMostErased(master.table.Contents(), old(master.net.stores), master.net.stores, name)
    ensures master.table.Contents() == [] ==> deleted == 0 && master.net.stores == old(master.net.stores)
    ensures master.table.Contents() != [] && Plain(master.table.Contents(), old(master.net.stores), name) ==>
              && master.net.stores
                 == DeleteOutcome(master.table.Contents(), old(master.net.stores), master.net.answering, name)
              && (!Verdict(master.table.Contents(), old(master.net.stores), master.net.answering, name).Lost? ==>
                    deleted == 1)
  {
    var p := Init(0, name, DELETE);
    assert p.arg == name && p.Valid() by { Spans(); }
    var r := Request(p, SIZEOF_PACKET + |p.arg| + 1, master);
    deleted := 0;
    if r.Respond? {
      deleted := ParseReply(r.text);
      DeleteReplies();
    }
  }

  lemma DeleteReplies()
    ensures Atoi(ResponseBytes([ZERO + 1])) == 1 && Atoi(ResponseBytes(Ascii(UNAVAILABLE))) == 0
  {
    AtoiOfCount(1, [NUL]);
    assert Show(1) == [ZERO + 1];
    UnavailableText();
  }

  /**
   End to end: with a ';'-free name and an answering first worker, exactly that worker gains exactly that file,
   and the client learns the data's length.
   */
  method WriteReachesWorker(name: seq<byte>, data: seq<byte>, master: Master) returns (written: nat)
    requires master.Valid() && NoNul(name) && NoNul(data) && SEP !in name
    requires HEADER + |name| + 1 + |data| <= READ_SZ
    requires master.table.Contents() != []
    requires Reachable(master.table.Contents()[0].location, master.net.stores, master.net.answering)
    modifies master`nextId, master.table, master.net`stores
    ensures written == |data|
    ensures var loc, was := old(master.table.Contents()[0].location), old(master.net.stores);
            && loc in master.net.stores && name in master.net.stores[loc] && master.net.stores[loc][name] == data
            && (forall n :: n != name ==> (n in master.net.stores[loc] <==> n in was[loc]))
            && (forall n :: n != name && n in was[loc] ==> master.net.stores[loc][n] == was[loc][n])
            && master.net.stores.Keys == was.Keys
            && forall l :: l in was && l != loc ==> master.net.stores[l] == was[l]
  {
    SplitJoinedIff(name, data);
    written := FileWrite(name, data, false, master);
  }
}
