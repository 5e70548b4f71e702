/** What a worker writes back for each kind of request, as bytes, and what its reader decodes from them. */
module Answers {
  import opened Bytes
  import opened Packets
  import opened Text
  import opened Workers

  /** Without the master's token nothing is answered and nothing changes, whatever is asked. */
  lemma StrangersGetNoAnswer(before: Files, p: Packet, listing: seq<Name>, t: Tokens, after: Files, reply: Reply)
    requires p.token != t.master && Answered(before, p, listing, t, after, reply)
    ensures reply == Silent && after == before
  {
  }

  /** n bytes that every reader with room for the packet decodes to q. */
  lemma WholeReply(q: Packet, n: nat, bytes: seq<byte>)
    requires q.Valid() && SentFrom(q, n, bytes) && 22 + |q.arg| <= n
    ensures |bytes| == n
    ensures forall buffer :: |buffer| >= 22 + |q.arg| && ReadFrom(bytes, buffer) ==> Decoding(buffer) == Some(q)
  {
    forall buffer | |buffer| >= 22 + |q.arg| && ReadFrom(bytes, buffer)
      ensures Decoding(buffer) == Some(q)
    {
      Delivered(q, n, bytes, buffer);
    }
  }

  /** What is written for an operation that has been carried out. */
  lemma OperationReply(before: Files, p: Packet, listing: seq<Name>, t: Tokens, after: Files, reply: Reply,
                       files: Files, out: seq<byte>)
    requires p.token == t.master && p.msgType in {2, 3, 4, 6} && Executed(before, p.msgType, p.arg) == Done(files, out)
    requires t.worker < 0x1_0000_0000_0000_0000 && NoNul(out) && |out| < 0x1_0000_0000
    requires Answered(before, p, listing, t, after, reply)
    ensures after == files && reply.Sent? && |reply.bytes| == 40 + |out| + 1
    ensures forall buffer :: |buffer| >= 22 + |out| && ReadFrom(reply.bytes, buffer) ==>
              Decoding(buffer) == Some(Packet((p.seqNumber + 1) % 0x1_0000_0000, out, p.msgType, 0, t.worker))
  {
    Spans();
    OperationIsSent(before, p, listing, t, after, reply, files, out);
    WholeReply(Packet((p.seqNumber + 1) % 0x1_0000_0000, out, p.msgType, 0, t.worker), 41 + |out|, reply.bytes);
  }

  lemma OperationIsSent(before: Files, p: Packet, listing: seq<Name>, t: Tokens, after: Files, reply: Reply,
                        files: Files, out: seq<byte>)
    requires p.token == t.master && p.msgType in {2, 3, 4, 6} && Executed(before, p.msgType, p.arg) == Done(files, out)
    requires NoNul(out) && Answered(before, p, listing, t, after, reply)
    ensures var q := Packet((p.seqNumber + 1) % 0x1_0000_0000, out, p.msgType, 0, t.worker);
            after == files && reply.Sent? && SentFrom(q, 41 + |out|, reply.bytes)
  {
    var q := Packet((p.seqNumber + 1) % 0x1_0000_0000, out, p.msgType, 0, t.worker);
    assert WithToken(Init(NextSeq(p.seqNumber), out, p.msgType), t.worker) == q;
    IsSent(before, p, listing, t, after, reply, files, q);
  }

  lemma IsSent(before: Files, p: Packet, listing: seq<Name>, t: Tokens, after: Files, reply: Reply,
               files: Files, q: Packet)
    requires Serve(before, p, listing, t) == Served(files, Some(q)) && Answered(before, p, listing, t, after, reply)
    ensures after == files && reply.Sent? && SentFrom(q, ReplyLength(q), reply.bytes)
  {
  }

  /** READ: the whole content of an existing file, up to a NUL, with the request's number plus one. */
  lemma ReadIsAnswered(before: Files, p: Packet, listing: seq<Name>, t: Tokens, after: Files, reply: Reply)
    requires p.token == t.master && p.msgType == 3 && CStr(p.arg) in before
    requires t.worker < 0x1_0000_0000_0000_0000 && |before[CStr(p.arg)]| < 0x1_0000_0000
    requires Answered(before, p, listing, t, after, reply)
    ensures var content := CStr(before[CStr(p.arg)]);
            && after == before && reply.Sent? && |reply.bytes| == 40 + |content| + 1
            && forall buffer :: |buffer| >= 22 + |content| && ReadFrom(reply.bytes, buffer) ==>
                 Decoding(buffer) == Some(Packet((p.seqNumber + 1) % 0x1_0000_0000, content, 3, 0, t.worker))
  {
    OperationReply(before, p, listing, t, after, reply, before, CStr(before[CStr(p.arg)]));
  }

  /** WRITE: the file holds the data and the answer is the length of the data. */
  lemma WriteIsAnswered(before: Files, p: Packet, listing: seq<Name>, t: Tokens, after: Files, reply: Reply)
    requires p.token == t.master && p.msgType == 2 && SEP in p.arg
    requires t.worker < 0x1_0000_0000_0000_0000 && |p.arg| < 0x1_0000_0000
    requires Answered(before, p, listing, t, after, reply)
    ensures var name, data := CStr(BeforeSep(p.arg)), CStr(AfterSep(p.arg));
            && after == before[name := data] && reply.Sent? && |reply.bytes| == 40 + |Show(|data|)| + 1
            && forall buffer :: |buffer| >= 22 + |Show(|data|)| && ReadFrom(reply.bytes, buffer) ==>
                 Decoding(buffer) == Some(Packet((p.seqNumber + 1) % 0x1_0000_0000, Show(|data|), 2, 0, t.worker))
  {
    var name, data := CStr(BeforeSep(p.arg)), CStr(AfterSep(p.arg));
    CountIsShort(|data|);
    OperationReply(before, p, listing, t, after, reply, before[name := data], Show(|data|));
  }

  /** APPEND: the file has grown by the data, whose length is the answer ... */
  lemma AppendIsAnswered(before: Files, p: Packet, listing: seq<Name>, t: Tokens, after: Files, reply: Reply)
    requires p.token == t.master && p.msgType == 4 && SEP in p.arg && CStr(BeforeSep(p.arg)) in before
    requires t.worker < 0x1_0000_0000_0000_0000 && |p.arg| < 0x1_0000_0000
    requires Answered(before, p, listing, t, after, reply)
    ensures var name, data := CStr(BeforeSep(p.arg)), CStr(AfterSep(p.arg));
            && after == before[name := before[name] + data] && reply.Sent? && |reply.bytes| == 40 + |Show(|data|)| + 1
            && forall buffer :: |buffer| >= 22 + |Show(|data|)| && ReadFrom(reply.bytes, buffer) ==>
                 Decoding(buffer) == Some(Packet((p.seqNumber + 1) % 0x1_0000_0000, Show(|data|), 4, 0, t.worker))
  {
    var name, data := CStr(BeforeSep(p.arg)), CStr(AfterSep(p.arg));
    CountIsShort(|data|);
    OperationReply(before, p, listing, t, after, reply, before[name := before[name] + data], Show(|data|));
  }

  /** ... and for a missing file nothing changes and the answer is "-1". */
  lemma AppendToNothing(before: Files, p: Packet, listing: seq<Name>, t: Tokens, after: Files, reply: Reply)
    requires p.token == t.master && p.msgType == 4 && SEP in p.arg && CStr(BeforeSep(p.arg)) !in before
    requires t.worker < 0x1_0000_0000_0000_0000 && Answered(before, p, listing, t, after, reply)
    ensures after == before && reply.Sent? && |reply.bytes| == 43
    ensures forall buffer :: |buffer| >= 24 && ReadFrom(reply.bytes, buffer) ==>
              Decoding(buffer) == Some(Packet((p.seqNumber + 1) % 0x1_0000_0000, [45, 49], 4, 0, t.worker))
  {
    ShowMinusOne();
    assert Executed(before, 4, p.arg) == Done(before, [45, 49]);
    OperationReply(before, p, listing, t, after, reply, before, [45, 49]);
  }

  /** DELETE: the file is gone, if there was one, and the answer is empty. */
  lemma DeleteIsAnswered(before: Files, p: Packet, listing: seq<Name>, t: Tokens, after: Files, reply: Reply)
    requires p.token == t.master && p.msgType == 6 && t.worker < 0x1_0000_0000_0000_0000
    requires Answered(before, p, listing, t, after, reply)
    ensures CStr(p.arg) !in after && after.Keys == before.Keys - {CStr(p.arg)}
    ensures forall n :: n in after ==> after[n] == before[n]
    ensures reply.Sent? && |reply.bytes| == 41
    ensures forall buffer :: |buffer| >= 22 && ReadFrom(reply.bytes, buffer) ==>
              Decoding(buffer) == Some(Packet((p.seqNumber + 1) % 0x1_0000_0000, [], 6, 0, t.worker))
  {
    OperationReply(before, p, listing, t, after, reply, before - {CStr(p.arg)}, []);
  }

  /** LS: the names in the directory's order, newlines between them, and no token. */
  lemma ListIsAnswered(before: Files, p: Packet, listing: seq<Name>, t: Tokens, after: Files, reply: Reply)
    requires p.token == t.master && p.msgType == 1 && |Join(listing)| < 0x1_0000_0000
    requires Answered(before, p, listing, t, after, reply)
    ensures var text := CStr(Join(listing));
            && after == before && reply.Sent? && |reply.bytes| == 40 + |text|
            && forall buffer :: |buffer| >= 22 + |text| && ReadFrom(reply.bytes, buffer) ==>
                 Decoding(buffer) == Some(Packet((p.seqNumber + 1) % 0x1_0000_0000, text, 1, 0, 0))
  {
    Spans();
    var text := CStr(Join(listing));
    ListIsSent(before, p, listing, t, after, reply);
    WholeReply(Packet((p.seqNumber + 1) % 0x1_0000_0000, text, 1, 0, 0), 40 + |text|, reply.bytes);
  }

  lemma ListIsSent(before: Files, p: Packet, listing: seq<Name>, t: Tokens, after: Files, reply: Reply)
    requires p.token == t.master && p.msgType == 1 && Answered(before, p, listing, t, after, reply)
    ensures var q := Packet((p.seqNumber + 1) % 0x1_0000_0000, CStr(Join(listing)), 1, 0, 0);
            after == before && reply.Sent? && SentFrom(q, 40 + |q.arg|, reply.bytes)
  {
    var q := Packet((p.seqNumber + 1) % 0x1_0000_0000, CStr(Join(listing)), 1, 0, 0);
    IsSent(before, p, listing, t, after, reply, before, q);
  }

  /** PING: the first 13 bytes of the answer "1", so its number and type, but not all of its header. */
  lemma PingReplyBytes(before: Files, p: Packet, listing: seq<Name>, t: Tokens, after: Files, reply: Reply)
    requires p.token == t.master && p.msgType == 0 && Answered(before, p, listing, t, after, reply)
    ensures after == before && reply.Sent? && |reply.bytes| == 13
    ensures reply.bytes[0..4] == Le((p.seqNumber + 1) % 0x1_0000_0000, 4) && reply.bytes[4..8] == [1, 0, 0, 0]
    ensures reply.bytes[8..13] == [0, 0, 0, 0, 0]
  {
    PingIsSent(before, p, listing, t, after, reply);
    PingHeader((p.seqNumber + 1) % 0x1_0000_0000);
  }

  lemma PingIsSent(before: Files, p: Packet, listing: seq<Name>, t: Tokens, after: Files, reply: Reply)
    requires p.token == t.master && p.msgType == 0 && Answered(before, p, listing, t, after, reply)
    ensures after == before && reply.Sent?
    ensures reply.bytes == Encoding(Packet((p.seqNumber + 1) % 0x1_0000_0000, [49], 0, 0, 0))[..13]
  {
    var q := Packet((p.seqNumber + 1) % 0x1_0000_0000, [49], 0, 0, 0);
    assert Init(NextSeq(p.seqNumber), [49], 0) == q;
    IsSent(before, p, listing, t, after, reply, before, q);
  }

  lemma PingHeader(seqNumber: nat)
    ensures var bytes := Encoding(Packet(seqNumber, [49], 0, 0, 0))[..13];
            bytes[0..4] == Le(seqNumber, 4) && bytes[4..8] == [1, 0, 0, 0] && bytes[8..13] == [0, 0, 0, 0, 0]
  {
    var q := Packet(seqNumber, [49], 0, 0, 0);
    var e := Encoding(q);
    FieldOffsets(q);
    SmallLe();
    assert e[..13][0..4] == e[0..4] && e[..13][4..8] == e[4..8];
    assert e[..13][8..13] == e[8..12] + [e[12..14][0]];
  }

  lemma SmallLe()
    ensures Le(1, 4) == [1, 0, 0, 0] && Le(0, 4) == [0, 0, 0, 0] && Le(0, 2) == [0, 0]
  {
    assert Le(0, 1) == [0] && Le(0, 2) == [0, 0] && Le(0, 3) == [0, 0, 0];
  }

  /** The requests with the master's token that the source does not survive. */
  lemma GoesDownIff(before: Files, p: Packet, listing: seq<Name>, t: Tokens, after: Files, reply: Reply)
    requires p.token == t.master && Answered(before, p, listing, t, after, reply)
    ensures reply == Down <==>
              || p.msgType == 5 || p.msgType > 6
              || (p.msgType == 3 && CStr(p.arg) !in before)
              || (p.msgType in {2, 4} && SEP !in p.arg)
    ensures reply == Down ==> after == before
  {
  }
}
