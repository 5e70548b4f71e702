/** The packet codec of lib/PP/packet.c on LP64, little endian. */
module Packets {
  import opened Bytes

  const PING := 0
  const LS := 1
  const WRITE := 2
  const READ := 3
  const APPEND := 4
  const REGISTER := 5
  const DELETE := 6

  /** sizeof(struct packet). */
  const SIZEOF_PACKET := 40

  /** The fixed part of an encoding: three ints, a short and a long. */
  const HEADER := 22

  /** msg_len is the length of arg. */
  datatype Packet = Packet(seqNumber: nat, arg: seq<byte>, msgType: nat, error: nat, token: nat) {
    ghost predicate Valid() {
      && seqNumber < Span(4) && |arg| < Span(4) && msgType < Span(4) && error < Span(2) && token < Span(8)
    }
  }

  /** p_init: takes a C string. */
  function Init(seqNumber: nat, arg: seq<byte>, msgType: nat): Packet {
    Packet(seqNumber, CStr(arg), msgType, 0, 0)
  }

  /** attach_token. */
  function WithToken(p: Packet, token: nat): Packet {
    p.(token := token)
  }

  function Encoding(p: Packet): (s: seq<byte>)
    ensures |s| == HEADER + |p.arg|
  {
    Le(p.seqNumber, 4) + Le(|p.arg|, 4) + Le(p.msgType, 4) + Le(p.error, 2) + Le(p.token, 8) + p.arg
  }

  /** The fields on the wire. */
  lemma FieldOffsets(p: Packet)
    ensures |Encoding(p)| == 22 + |p.arg|
    ensures Encoding(p)[0..4] == Le(p.seqNumber, 4) && Encoding(p)[4..8] == Le(|p.arg|, 4)
    ensures Encoding(p)[8..12] == Le(p.msgType, 4) && Encoding(p)[12..14] == Le(p.error, 2)
    ensures Encoding(p)[14..22] == Le(p.token, 8) && Encoding(p)[22..] == p.arg
  {
  }

  function MsgLen(s: seq<byte>): (n: nat)
    requires |s| >= HEADER
  {
    FromLe(s[4..8])
  }

  /** The only field the ping handler looks at. */
  function MsgType(s: seq<byte>): (n: nat)
    requires |s| >= 12
  {
    FromLe(s[8..12])
  }

  /** p_decode of a buffer; None when one of its copies would leave the buffer. */
  function Decoding(s: seq<byte>): (r: Option<Packet>) {
    if |s| < HEADER || |s| < HEADER + MsgLen(s) then None
    else Some(Packet(FromLe(s[0..4]), s[HEADER..HEADER + MsgLen(s)], MsgType(s), FromLe(s[12..14]), FromLe(s[14..22])))
  }

  /** p_encode: one byte more than the encoding is allocated. */
  method Encode(p: Packet) returns (buffer: array<byte>)
    ensures fresh(buffer) && buffer.Length == HEADER + |p.arg| + 1
    ensures buffer[..HEADER + |p.arg|] == Encoding(p)
  {
    buffer := new byte[|p.arg| + 1 + 4 * 3 + 2 + 8];
    MemCpy(buffer, 0, Le(p.seqNumber, 4));
    MemCpy(buffer, 4, Le(|p.arg|, 4));
    MemCpy(buffer, 4 * 2, Le(p.msgType, 4));
    MemCpy(buffer, 4 * 3, Le(p.error, 2));
    MemCpy(buffer, 4 * 3 + 2, Le(p.token, 8));
    MemCpy(buffer, 4 * 3 + 2 + 8, p.arg);
  }

  /** p_decode. */
  method Decode(buffer: array<byte>) returns (p: Packet)
    requires Decoding(buffer[..]).Some?
    ensures Decoding(buffer[..]) == Some(p)
  {
    assert forall i, j | 0 <= i <= j <= buffer.Length :: buffer[i..j] == buffer[..][i..j];
    var seqNumber := FromLe(buffer[0..4]);
    var msgLen := FromLe(buffer[4..8]);
    var msgType := FromLe(buffer[8..12]);
    var error := FromLe(buffer[12..14]);
    var token := FromLe(buffer[14..22]);
    p := Packet(seqNumber, buffer[22..22 + msgLen], msgType, error, token);
  }

  /** What n bytes sent from an encode buffer look like: a cut of the encoding, or all of it and what lies behind. */
  ghost predicate SentFrom(p: Packet, n: nat, bytes: seq<byte>) {
    && |bytes| == n
    && if n <= HEADER + |p.arg| then bytes == Encoding(p)[..n] else Encoding(p) <= bytes
  }

  /** conn_write(p_encode(p), n). */
  method Send(p: Packet, n: nat) returns (bytes: seq<byte>)
    ensures SentFrom(p, n, bytes)
  {
    var buffer := Encode(p);
    if n <= buffer.Length {
      bytes := buffer[..n];
    } else {
      var behind := new byte[n - buffer.Length];
      bytes := buffer[..] + behind[..];
    }
    assert forall k | 0 <= k <= HEADER + |p.arg| && k <= n :: bytes[..k] == buffer[..HEADER + |p.arg|][..k];
  }

  /** conn_read of what has been sent into a fresh buffer of cap bytes. */
  method ReadInto(sent: seq<byte>, cap: nat) returns (buffer: array<byte>)
    ensures fresh(buffer) && buffer.Length == cap
    ensures ReadFrom(sent, buffer[..])
  {
    buffer := new byte[cap];
    var got := if |sent| < cap then sent else sent[..cap];
    MemCpy(buffer, 0, got);
    assert buffer[..][..|got|] == buffer[..0 + |got|] == got;
  }

  /** A buffer that starts with as much of what has been sent as fits. */
  ghost predicate ReadFrom(sent: seq<byte>, buffer: seq<byte>) {
    (if |sent| < |buffer| then sent else sent[..|buffer|]) <= buffer
  }

  /** A packet that is sent whole and fits the reader's buffer is decoded, whatever else was sent or lies there. */
  lemma Delivered(p: Packet, n: nat, sent: seq<byte>, buffer: seq<byte>)
    requires p.Valid() && HEADER + |p.arg| <= n && HEADER + |p.arg| <= |buffer|
    requires SentFrom(p, n, sent) && ReadFrom(sent, buffer)
    ensures Decoding(buffer) == Some(p)
  {
    var e := Encoding(p);
    assert e <= sent;
    assert buffer[..|e|] == sent[..|e|] == e;
    DecodesIffStartsWithEncoding(buffer, p);
  }

  /** A packet that is sent whole but does not fit the reader's buffer is not decoded inside it. */
  lemma TooLongToDecode(p: Packet, n: nat, sent: seq<byte>, buffer: seq<byte>)
    requires p.Valid() && HEADER + |p.arg| < n && HEADER <= |buffer| < HEADER + |p.arg|
    requires SentFrom(p, n, sent) && ReadFrom(sent, buffer)
    ensures Decoding(buffer) == None
  {
    EncodingFields(sent, p);
    SameLengthField(sent, buffer);
    FromLeInvertsLe(|p.arg|, 4);
  }

  lemma SameLengthField(sent: seq<byte>, buffer: seq<byte>)
    requires ReadFrom(sent, buffer) && |sent| >= 8 && |buffer| >= 8
    ensures buffer[4..8] == sent[4..8]
  {
    var k := if |sent| < |buffer| then |sent| else |buffer|;
    assert buffer[..k] == sent[..k];
    assert buffer[4..8] == buffer[..k][4..8] && sent[4..8] == sent[..k][4..8];
  }

  lemma {:induction false} LeInvertsFromLe(s: seq<byte>)
    ensures Le(FromLe(s), |s|) == s
  {
    if s != [] {
      LeInvertsFromLe(s[1..]);
      var v := FromLe(s);
      assert v % 256 == s[0] as int && v / 256 == FromLe(s[1..]);
      assert s == [s[0]] + s[1..];
    }
  }

  /** The codec is exact: a buffer decodes to p if and only if it starts with the encoding of p, whatever follows. */
  lemma DecodesIffStartsWithEncoding(s: seq<byte>, p: Packet)
    ensures Decoding(s) == Some(p) <==> p.Valid() && Encoding(p) <= s
  {
    if p.Valid() && Encoding(p) <= s {
      EncodingDecodes(s, p);
    }
    if Decoding(s) == Some(p) {
      DecodedIsEncoded(s, p);
    }
  }

  lemma EncodingDecodes(s: seq<byte>, p: Packet)
    requires p.Valid() && Encoding(p) <= s
    ensures Decoding(s) == Some(p)
  {
    EncodingFields(s, p);
    FromLeInvertsLe(p.seqNumber, 4);
    FromLeInvertsLe(|p.arg|, 4);
    FromLeInvertsLe(p.msgType, 4);
    FromLeInvertsLe(p.error, 2);
    FromLeInvertsLe(p.token, 8);
  }

  lemma DecodedIsEncoded(s: seq<byte>, p: Packet)
    requires Decoding(s) == Some(p)
    ensures p.Valid() && Encoding(p) <= s
  {
    LeInvertsFromLe(s[0..4]);
    LeInvertsFromLe(s[4..8]);
    LeInvertsFromLe(s[8..12]);
    LeInvertsFromLe(s[12..14]);
    LeInvertsFromLe(s[14..22]);
    PutTogether(s, HEADER + |p.arg|);
  }

  lemma PutTogether(s: seq<byte>, n: nat)
    requires HEADER <= n <= |s|
    ensures s[0..4] + s[4..8] + s[8..12] + s[12..14] + s[14..22] + s[22..n] == s[..n]
  {
  }

  lemma EncodingFields(s: seq<byte>, p: Packet)
    requires Encoding(p) <= s
    ensures |s| >= HEADER + |p.arg|
    ensures s[0..4] == Le(p.seqNumber, 4) && s[4..8] == Le(|p.arg|, 4) && s[8..12] == Le(p.msgType, 4)
    ensures s[12..14] == Le(p.error, 2) && s[14..22] == Le(p.token, 8) && s[22..22 + |p.arg|] == p.arg
  {
    var e := Encoding(p);
    assert s[..|e|] == e;
    assert e[0..4] == Le(p.seqNumber, 4) && e[4..8] == Le(|p.arg|, 4) && e[8..12] == Le(p.msgType, 4);
    assert e[12..14] == Le(p.error, 2) && e[14..22] == Le(p.token, 8) && e[22..] == p.arg;
    assert forall i, j | 0 <= i <= j <= |e| :: s[i..j] == e[i..j];
  }

  /** No two packets share an encoding, nor is one's encoding a prefix of the other's. */
  lemma EncodingIsPrefixFree(p: Packet, q: Packet)
    requires p.Valid() && q.Valid() && Encoding(p) <= Encoding(q)
    ensures p == q
  {
    DecodesIffStartsWithEncoding(Encoding(q), p);
    DecodesIffStartsWithEncoding(Encoding(q), q);
  }

  /** Twelve bytes of an encoding fix the message type, whatever the rest of the buffer holds. */
  lemma PrefixFixesType(p: Packet, n: nat, s: seq<byte>)
    requires p.Valid() && 12 <= n <= HEADER + |p.arg| && Encoding(p)[..n] <= s
    ensures MsgType(s) == p.msgType
  {
    EncodingFields(Encoding(p), p);
    assert s[8..12] == Encoding(p)[..n][8..12] == Encoding(p)[8..12];
    FromLeInvertsLe(p.msgType, 4);
  }
}
