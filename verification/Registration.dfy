/** A worker's registration (src/server/boot.c) as the master reads it: 40 bytes of a longer or shorter packet. */
module Registrations {
  import opened Bytes
  import opened Packets
  import opened Text
  import opened Registry
  import opened Workers
  import opened Masters

  /** The constant length of the registration write. */
  const WRITE_LEN := 40

  /** The longest text whose encoding fits that write. */
  const MAX_TEXT := 18

  /** "%s;%d". */
  function AddressText(ip: seq<byte>, port: nat): (s: seq<byte>) {
    WithSep(ip, Show(port))
  }

  function Request(ip: seq<byte>, port: nat, t: Tokens): Packet {
    WithToken(Init(0, AddressText(ip, port), REGISTER), t.worker)
  }

  /** A dotted address as get_ip returns it, and a port. */
  ghost predicate Address(ip: seq<byte>, port: nat) {
    |ip| <= 15 && NoNul(ip) && SEP !in ip && port < PORT_SPAN
  }

  /** What the master makes of a read buffer. */
  function Parsed(buffer: seq<byte>): (r: Option<Location>) {
    match Decoding(buffer)
    case None => None
    case Some(p) => if SEP in CStr(p.arg) then Some(ParseLocation(CStr(p.arg))) else None
  }

  lemma RequestIsValid(ip: seq<byte>, port: nat, t: Tokens)
    requires Address(ip, port) && t.worker < Span(8)
    ensures Request(ip, port, t).Valid() && Request(ip, port, t).arg == AddressText(ip, port)
    ensures SEP in AddressText(ip, port) && ParseLocation(AddressText(ip, port)) == Location(ip, port)
    ensures |AddressText(ip, port)| <= 21
  {
    AddressIsText(ip, port);
    assert Request(ip, port, t) == Packet(0, AddressText(ip, port), REGISTER, 0, t.worker);
    Spans();
  }

  lemma AddressIsText(ip: seq<byte>, port: nat)
    requires Address(ip, port)
    ensures NoNul(AddressText(ip, port)) && |AddressText(ip, port)| <= 21
    ensures SEP in AddressText(ip, port) && ParseLocation(AddressText(ip, port)) == Location(ip, port)
  {
    PortText(port);
    SplitJoinedIff(ip, Show(port));
  }

  lemma PortText(port: nat)
    requires port < PORT_SPAN
    ensures 0 < |Show(port)| <= 5 && NoNul(Show(port)) && Atol(Show(port)) == port
  {
    ShowIsText(port);
    CountRoundTrip(port, []);
    assert Show(port) + [] == Show(port);
    assert Pow10(5) == 100000 by { assert Pow10(3) == 1000; }
    DigitCount(port, 5);
  }

  /** A text of at most 18 bytes arrives whole, whatever the master's buffer held before. */
  lemma ShortTextArrives(ip: seq<byte>, port: nat, t: Tokens, sent: seq<byte>, buffer: seq<byte>)
    requires Address(ip, port) && t.worker < Span(8) && |AddressText(ip, port)| <= MAX_TEXT
    requires SentFrom(Request(ip, port, t), WRITE_LEN, sent) && ReadFrom(sent, buffer) && |buffer| == READ_SZ
    ensures Decoding(buffer) == Some(Request(ip, port, t)) && Parsed(buffer) == Some(Location(ip, port))
  {
    RequestIsValid(ip, port, t);
    Delivered(Request(ip, port, t), WRITE_LEN, sent, buffer);
  }

  /** A port with the same digits as port but for the last one. */
  function Neighbour(port: nat): (p: nat)
    ensures p != port
  {
    if port % 10 == 0 then port + 1 else port - port % 10
  }

  lemma NeighbourDigits(port: nat)
    requires port < PORT_SPAN
    ensures Neighbour(port) < PORT_SPAN
    ensures var d, e := Show(port), Show(Neighbour(port)); |d| == |e| && d[..|d| - 1] == e[..|e| - 1]
  {
    if port >= 10 {
      assert Neighbour(port) / 10 == port / 10;
    }
  }

  /** Packets whose arguments agree in length and in their first 18 bytes agree in their first 40 bytes on the wire. */
  lemma SameOnTheWire(p: Packet, q: Packet)
    requires |p.arg| == |q.arg| >= MAX_TEXT && p.arg[..MAX_TEXT] == q.arg[..MAX_TEXT]
    requires p.(arg := []) == q.(arg := [])
    ensures Encoding(p)[..WRITE_LEN] == Encoding(q)[..WRITE_LEN]
  {
    assert Encoding(p)[..WRITE_LEN] == Encoding(p)[..HEADER] + p.arg[..MAX_TEXT];
    assert Encoding(q)[..WRITE_LEN] == Encoding(q)[..HEADER] + q.arg[..MAX_TEXT];
  }

  lemma SameFront(ip: seq<byte>, port: nat)
    requires Address(ip, port) && |AddressText(ip, port)| > MAX_TEXT
    ensures var s, t := AddressText(ip, port), AddressText(ip, Neighbour(port));
            |s| == |t| && s[..MAX_TEXT] == t[..MAX_TEXT]
  {
    NeighbourDigits(port);
    var d, e := Show(port), Show(Neighbour(port));
    assert AddressText(ip, port) == ip + [SEP] + d[..|d| - 1] + [d[|d| - 1]];
    assert AddressText(ip, Neighbour(port)) == ip + [SEP] + e[..|e| - 1] + [e[|e| - 1]];
  }

  /** Past 18 bytes two different registrations look the same on the wire, so leftovers in the buffer decide. */
  lemma LongTextIsAmbiguous(ip: seq<byte>, port: nat, t: Tokens, sent: seq<byte>) returns (buffer: seq<byte>)
    requires Address(ip, port) && t.worker < Span(8) && |AddressText(ip, port)| > MAX_TEXT
    requires SentFrom(Request(ip, port, t), WRITE_LEN, sent)
    ensures |buffer| == READ_SZ && ReadFrom(sent, buffer)
    ensures Parsed(buffer) == Some(Location(ip, Neighbour(port))) != Some(Location(ip, port))
  {
    var other := Neighbour(port);
    NeighbourDigits(port);
    RequestIsValid(ip, port, t);
    RequestIsValid(ip, other, t);
    SameFront(ip, port);
    var p, q := Request(ip, port, t), Request(ip, other, t);
    SameOnTheWire(p, q);
    buffer := BufferHolding(q);
    CutFits(Encoding(q), sent, buffer);
    assert CStr(q.arg) == AddressText(ip, other);
  }

  lemma CutFits(e: seq<byte>, sent: seq<byte>, buffer: seq<byte>)
    requires WRITE_LEN <= |e| && sent == e[..WRITE_LEN] && e <= buffer
    ensures |buffer| == READ_SZ ==> ReadFrom(sent, buffer)
  {
    assert buffer[..WRITE_LEN] == e[..WRITE_LEN];
  }

  lemma BufferHolding(q: Packet) returns (buffer: seq<byte>)
    requires q.Valid() && HEADER + |q.arg| <= READ_SZ
    ensures |buffer| == READ_SZ && Encoding(q) <= buffer && Decoding(buffer) == Some(q)
  {
    buffer := Encoding(q) + seq(READ_SZ - HEADER - |q.arg|, _ => NUL);
    DecodesIffStartsWithEncoding(buffer, q);
  }

  /** The registration is read back for certain if and only if its text has at most 18 bytes. */
  lemma RegistrationRoundTripIff(ip: seq<byte>, port: nat, t: Tokens, sent: seq<byte>)
    requires Address(ip, port) && t.worker < Span(8) && SentFrom(Request(ip, port, t), 40, sent)
    ensures |ip| + 1 + |Show(port)| <= 18 <==>
              forall buffer :: |buffer| == 10000 && ReadFrom(sent, buffer) ==>
                Parsed(buffer) == Some(Location(ip, port))
  {
    if |AddressText(ip, port)| <= MAX_TEXT {
      forall buffer | |buffer| == READ_SZ && ReadFrom(sent, buffer)
        ensures Parsed(buffer) == Some(Location(ip, port))
      {
        ShortTextArrives(ip, port, t, sent, buffer);
      }
    } else {
      var buffer := LongTextIsAmbiguous(ip, port, t, sent);
    }
  }

  /** With the system's one port, 55443, that is: if and only if the address has at most 12 characters. */
  lemma ReliableIffShortAddress(ip: seq<byte>)
    ensures |AddressText(ip, 55443)| <= 18 <==> |ip| <= 12
  {
    assert Pow10(5) == 100000 && Pow10(4) == 10000 by { assert Pow10(3) == 1000; }
    DigitCount(55443, 4);
    DigitCount(55443, 5);
  }

  /** register_worker against a running master: a short enough text gains exactly its own entry, under the next id. */
  method RegisterWorker(ip: seq<byte>, port: nat, master: Master) returns (r: Response)
    requires master.Valid() && Address(ip, port)
    modifies master`nextId, master.table, master.net`stores
    ensures master.Valid() && master.net.stores == old(master.net.stores)
    ensures |AddressText(ip, port)| <= 18 ==>
              var was, id := old(master.table.Contents()), old(master.nextId);
              && master.nextId == (id + 1) % 0x1_0000_0000
              && if |was| < 65535 then
                   r == NoResponse && master.table.Contents() == was + [Server(id, Location(ip, port))]
                 else
                   r == Broken && master.table.Contents() == []
    ensures |master.table.Contents()| <= |old(master.table.Contents())| + 1
  {
    var p := Request(ip, port, master.tokens);
    var sent := Send(p, WRITE_LEN);
    ghost var buf;
    r, buf := master.HandleClient(sent);
    RegistrationArrives(ip, port, master.tokens, sent, buf);
  }

  lemma RegistrationArrives(ip: seq<byte>, port: nat, t: Tokens, sent: seq<byte>, buffer: seq<byte>)
    requires Address(ip, port) && t.worker < Span(8) && SentFrom(Request(ip, port, t), WRITE_LEN, sent)
    requires |buffer| == READ_SZ && ReadFrom(sent, buffer)
    ensures Decoding(buffer).Some? ==> Decoding(buffer).value.msgType == REGISTER
    ensures |AddressText(ip, port)| <= MAX_TEXT ==>
              && Decoding(buffer) == Some(Request(ip, port, t))
              && CStr(Request(ip, port, t).arg) == AddressText(ip, port)
              && SEP in AddressText(ip, port) && ParseLocation(AddressText(ip, port)) == Location(ip, port)
  {
    RequestIsValid(ip, port, t);
    if |AddressText(ip, port)| <= MAX_TEXT {
      ShortTextArrives(ip, port, t, sent, buffer);
    } else {
      TypeSurvives(Request(ip, port, t), sent, buffer);
    }
  }

  /** Even a cut registration still shows as one. */
  lemma TypeSurvives(p: Packet, sent: seq<byte>, buffer: seq<byte>)
    requires p.Valid() && p.msgType == REGISTER && SentFrom(p, WRITE_LEN, sent) && HEADER + |p.arg| >= WRITE_LEN
    requires |buffer| == READ_SZ && ReadFrom(sent, buffer)
    ensures Decoding(buffer).Some? ==> Decoding(buffer).value.msgType == REGISTER
  {
    PrefixFixesType(p, WRITE_LEN, buffer);
  }
}
