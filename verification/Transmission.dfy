/** The transmission object of lib/PP/transmission.c with its buffers and loops. */
module Transmissions {
  import opened Bytes
  import opened Framing
  import opened Lifecycle
  import opened Channels
  import opened Serializers

  /** fill_buffer: data at the front, PAD behind it. */
  method FillBuffer(buffer: array<byte>, data: seq<byte>)
    requires |data| <= buffer.Length
    modifies buffer
    ensures buffer[..] == data + Pads(buffer.Length - |data|)
  {
    MemCpy(buffer, 0, data);
    var i := 0;
    while i < buffer.Length - |data|
      invariant i <= buffer.Length - |data|
      invariant buffer[..|data| + i] == data + Pads(i)
    {
      ghost var head := buffer[..|data| + i];
      buffer[|data| + i] := PAD;
      i := i + 1;
      assert buffer[..|data| + i] == head + [PAD] == data + Pads(i);
    }
    assert buffer[..] == buffer[..|data| + i];
  }

  /**
   trim_padding: the size without the trailing PADs. The loop has no lower bound; None is where no byte stops it and the
   source goes on below the buffer.
   */
  method TrimPadding(buffer: array<byte>, size: nat) returns (newSize: Option<nat>)
    requires size <= buffer.Length
    ensures newSize.Some? <==> HasStop(buffer[..size])
    ensures newSize.Some? ==> newSize.value <= size && buffer[..newSize.value] == Trim(buffer[..size])
  {
    var k := size;
    while k > 0 && buffer[k - 1] == PAD
      invariant 0 <= k <= size
      invariant Trim(buffer[..k]) == Trim(buffer[..size])
      invariant forall i :: k <= i < size ==> buffer[i] == PAD
    {
      assert buffer[..k][..k - 1] == buffer[..k - 1];
      k := k - 1;
    }
    if k == 0 {
      return None;
    }
    assert buffer[..size][k - 1] != PAD;
    return Some(k);
  }

  /** contains_padding. */
  method ContainsPadding(buffer: array<byte>, len: nat) returns (b: bool)
    requires 0 < len <= buffer.Length
    ensures b <==> buffer[len - 1] == PAD
  {
    b := buffer[len - 1] == PAD;
  }

  /**
   The sending loop of transmit: from each chunk buffer frameLen bytes are written, one frame a full chunk, then one
   for what remains. What the writes take from behind the buffers is slack.
   */
  method SendFrames(connection: Channel, message: seq<byte>, D: nat, frameLen: nat)
    returns (ghost slack: seq<seq<byte>>)
    requires 0 < D <= frameLen
    modifies connection
    ensures |slack| == |message| / D + 1 && AllOfLength(slack, frameLen - D)
    ensures connection.queue == old(connection.queue) + WireWithSlack(message, D, slack)
  {
    var iterations, remaining := |message| / D, |message| % D;
    ghost var before, at := connection.queue, 0;
    slack := [];
    SendStart(before, message, D);
    var i := 0;
    while i < iterations
      invariant 0 <= i <= iterations && 0 <= at == i * D <= |message|
      invariant |slack| == i && AllOfLength(slack, frameLen - D)
      invariant SentSoFar(connection.queue, before, message, at, D, slack)
    {
      ChunkFits(i, |message|, D);
      ghost var behind := SendChunk(connection, before, message, i * D, D, frameLen, slack);
      slack := slack + [behind];
      i := i + 1;
      at := at + D;
    }
    RemainderIsLeft(|message|, D);
    slack := SendRemainder(connection, before, message, i * D, remaining, D, frameLen, slack);
  }

  /** One full chunk of the loop. */
  method SendChunk(connection: Channel, ghost before: seq<byte>, message: seq<byte>, at: nat, D: nat, frameLen: nat,
                   ghost slack: seq<seq<byte>>)
    returns (ghost behind: seq<byte>)
    requires 0 < D <= frameLen && at + D <= |message|
    requires SentSoFar(connection.queue, before, message, at, D, slack)
    modifies connection
    ensures |behind| == frameLen - D
    ensures SentSoFar(connection.queue, before, message, at + D, D, slack + [behind])
  {
    SendStep(connection.queue, before, message, at, D, slack);
    behind := SendFrame(connection, message[at..at + D], D, frameLen);
  }

  /** The frame behind the loop, with what remains. */
  method SendRemainder(connection: Channel, ghost before: seq<byte>, message: seq<byte>, at: nat, remaining: nat,
                       D: nat, frameLen: nat, ghost slack: seq<seq<byte>>)
    returns (ghost slack': seq<seq<byte>>)
    requires remaining < D <= frameLen && at + remaining == |message| && AllOfLength(slack, frameLen - D)
    requires SentSoFar(connection.queue, before, message, at, D, slack)
    modifies connection
    ensures |slack'| == |slack| + 1 && AllOfLength(slack', frameLen - D)
    ensures connection.queue == before + WireWithSlack(message, D, slack')
  {
    SendEnd(connection.queue, before, message, at, D, slack);
    ghost var behind := SendFrame(connection, message[at..at + remaining], D, frameLen);
    slack' := slack + [behind];
  }

  /** One frame: a chunk buffer is filled, and frameLen bytes are written from it, which may be more than it has. */
  method SendFrame(connection: Channel, chunk: seq<byte>, D: nat, frameLen: nat) returns (ghost behind: seq<byte>)
    requires |chunk| <= D <= frameLen
    modifies connection
    ensures |behind| == frameLen - D
    ensures connection.queue == old(connection.queue) + (chunk + Pads(D - |chunk|)) + behind
  {
    var buffer := new byte[D];
    FillBuffer(buffer, chunk);
    var heap := new byte[frameLen - D];
    behind := heap[..];
    connection.Write(buffer[..] + heap[..]);
  }

  lemma ChunkFits(i: nat, n: nat, D: nat)
    requires D > 0 && i < n / D
    ensures i * D + D == (i + 1) * D <= n
  {
    var k: nat := n / D - (i + 1);
    assert n == (i + 1 + k) * D + n % D && (i + 1 + k) * D == (i + 1) * D + k * D;
  }

  lemma RemainderIsLeft(n: nat, D: nat)
    requires D > 0
    ensures n - n / D * D == n % D
  {
  }

  /** The connection has the frames before position at, with their slack: whatever slack the rest will have. */
  ghost predicate SentSoFar(queue: seq<byte>, before: seq<byte>, message: seq<byte>, at: nat, D: nat,
                            slack: seq<seq<byte>>)
    requires D > 0 && at <= |message|
  {
    forall rest: seq<seq<byte>> ::
      queue + WireWithSlack(message[at..], D, rest) == before + WireWithSlack(message, D, slack + rest)
  }

  lemma SendStart(before: seq<byte>, message: seq<byte>, D: nat)
    requires D > 0
    ensures SentSoFar(before, before, message, 0, D, [])
  {
    assert message[0..] == message;
    assert forall rest: seq<seq<byte>> :: [] + rest == rest;
  }

  lemma SendEnd(sent: seq<byte>, before: seq<byte>, message: seq<byte>, at: nat, D: nat, slack: seq<seq<byte>>)
    requires at <= |message| < at + D && SentSoFar(sent, before, message, at, D, slack)
    ensures forall behind :: sent + (message[at..|message|] + Pads(D - (|message| - at))) + behind
                          == before + WireWithSlack(message, D, slack + [behind])
  {
    forall behind
      ensures sent + (message[at..|message|] + Pads(D - (|message| - at))) + behind
           == before + WireWithSlack(message, D, slack + [behind])
    {
      assert message[at..|message|] == message[at..];
      assert sent + WireWithSlack(message[at..], D, [behind]) == before + WireWithSlack(message, D, slack + [behind]);
      assert WireWithSlack(message[at..], D, [behind]) == message[at..] + Pads(D - (|message| - at)) + behind;
    }
  }

  lemma SendStep(sent: seq<byte>, before: seq<byte>, message: seq<byte>, at: nat, D: nat, slack: seq<seq<byte>>)
    requires D > 0 && at + D <= |message| && SentSoFar(sent, before, message, at, D, slack)
    ensures forall behind ::
              SentSoFar(sent + (message[at..at + D] + Pads(0)) + behind, before, message, at + D, D, slack + [behind])
  {
    var chunk := message[at..at + D];
    assert chunk + Pads(0) == chunk == message[at..][..D];
    assert message[at..][D..] == message[at + D..];
    forall behind, rest: seq<seq<byte>>
      ensures sent + (chunk + Pads(0)) + behind + WireWithSlack(message[at + D..], D, rest)
           == before + WireWithSlack(message, D, slack + [behind] + rest)
    {
      var more := [behind] + rest;
      assert more[1..] == rest;
      assert slack + [behind] + rest == slack + more;
      assert sent + WireWithSlack(message[at..], D, more) == before + WireWithSlack(message, D, slack + more);
    }
  }

  /** A stream that is cut into frames of D bytes without rest, so every read delivers a full frame. */
  ghost predicate WholeFrames(q: seq<byte>, D: nat)
    requires D > 0
  {
    q == [] || (|q| >= D && WholeFrames(q[D..], D))
  }

  /** Every stream that transmit filled is of that kind. */
  lemma {:induction false} WiresAreWholeFrames(ms: seq<seq<byte>>, D: nat)
    requires D > 0
    ensures WholeFrames(WireAll(ms, D), D)
  {
    if ms != [] {
      WiresAreWholeFrames(ms[1..], D);
      WireKeepsWholeFrames(ms[0], WireAll(ms[1..], D), D);
    }
  }

  lemma {:induction false} WireKeepsWholeFrames(m: seq<byte>, rest: seq<byte>, D: nat)
    requires D > 0 && WholeFrames(rest, D)
    ensures WholeFrames(Wire(m, D) + rest, D)
  {
    var q := Wire(m, D) + rest;
    if |m| < D {
      assert q[D..] == rest;
    } else {
      WireKeepsWholeFrames(m[D..], rest, D);
      assert q[D..] == Wire(m[D..], D) + rest;
    }
  }

  /** With the code's frame length too: frames of D data bytes and E bytes of slack. */
  lemma {:induction false} SlackedWiresAreWholeFrames(m: seq<byte>, rest: seq<byte>, D: nat, E: nat,
                                                      slack: seq<seq<byte>>)
    requires D > 0 && |slack| == |m| / D + 1 && AllOfLength(slack, E) && WholeFrames(rest, D + E)
    ensures WholeFrames(WireWithSlack(m, D, slack) + rest, D + E)
  {
    var q := WireWithSlack(m, D, slack) + rest;
    if |m| < D {
      DivisionIsUnique(|m|, D, 0, |m|);
      assert q[D + E..] == rest;
    } else {
      SlackLeft(m, D, slack);
      SlackedWiresAreWholeFrames(m[D..], rest, D, E, slack[1..]);
      assert q[D + E..] == WireWithSlack(m[D..], D, slack[1..]) + rest;
    }
  }

  lemma SlackLeft(m: seq<byte>, D: nat, slack: seq<seq<byte>>)
    requires 0 < D <= |m| && |slack| == |m| / D + 1
    ensures |slack[1..]| == |m[D..]| / D + 1
  {
    PrefixChunk(|m|, D);
  }

  lemma {:induction false} WholeFramesMissNothing(q: seq<byte>, D: nat)
    requires D > 0 && WholeFrames(q, D)
    ensures Missing(q, D) == 0
  {
    if q != [] {
      WholeFramesMissNothing(q[D..], D);
    }
  }

  lemma {:induction false} GoesOnStep(s: seq<byte>, frame: seq<byte>, D: nat)
    requires D > 0 && GoesOn(s, D) && |frame| == D && frame[D - 1] != PAD
    ensures GoesOn(s + frame, D)
  {
    if s == [] {
      assert s + frame == frame && frame[D..] == [];
    } else {
      assert (s + frame)[D..] == s[D..] + frame;
      GoesOnStep(s[D..], frame, D);
    }
  }

  /**
   The reading loop of receive: the bytes read, and how many of them count. If the stream ends within a frame, junk is
   what the buffer happens to hold behind it, and the frame counts as a whole one. Zero if the stream was at its end.
   */
  method ReadFrames(connection: Channel, D: nat) returns (buffer: array<byte>, size: nat, ghost junk: seq<byte>)
    requires D > 0
    modifies connection
    ensures fresh(buffer) && size <= buffer.Length
    ensures |junk| == Missing(old(connection.queue), D)
    ensures size == Taken(old(connection.queue) + junk, D)
    ensures buffer[..size] == (old(connection.queue) + junk)[..size]
    ensures connection.queue == Behind(old(connection.queue), size)
  {
    ghost var q, held := connection.queue, [];
    var i, n := 0, 0;
    buffer := new byte[D];
    junk := [];
    while true
      invariant |held| == i * D && buffer.Length == |held| + D && fresh(buffer)
      invariant buffer[..|held|] == held && Reading(q, junk, held, connection.queue, D)
      decreases |connection.queue|
    {
      n, junk := NextFrame(connection, buffer, i * D, D, q, junk);
      i := i + 1;
      OneMoreFrame(i, D);
      if n == 0 {
        break;
      }
      held := buffer[..];
      var last := ContainsPadding(buffer, i * D);
      if last {
        break;
      }
      buffer := Realloc(buffer, (i + 1) * D);
    }
    size := D * if n > 0 then i else i - 1;
    StopHere(q, junk, held, connection.queue);
  }

  /** One pass of the loop: what the frame read last, completed by junk if it is cut short, means for the loop. */
  method NextFrame(connection: Channel, buffer: array<byte>, at: nat, D: nat, ghost q: seq<byte>, ghost junk: seq<byte>)
    returns (n: nat, ghost more: seq<byte>)
    requires D > 0 && buffer.Length == at + D && Reading(q, junk, buffer[..at], connection.queue, D)
    modifies connection, buffer
    ensures n == 0 ==> Stopped(q, more, buffer[..at], connection.queue, D) && buffer[..at] == old(buffer[..at])
    ensures n != 0 ==>
              && |connection.queue| < |old(connection.queue)|
              && if buffer[at + D - 1] == PAD then Stopped(q, more, buffer[..], connection.queue, D)
                 else Reading(q, more, buffer[..], connection.queue, D)
  {
    ghost var held, left, rest := buffer[..at], connection.queue, [];
    n, rest := ReadFrame(connection, buffer, at, D);
    more := junk + rest;
    if n == 0 {
      assert more == junk;
      StreamEnds(q, junk, held, D);
    } else {
      FrameCounts(q, junk, held, left, rest, D);
    }
  }

  /** The loop goes on: all frames read so far are whole, none ends in PAD; junk ends what can be read. */
  ghost predicate Reading(q: seq<byte>, junk: seq<byte>, held: seq<byte>, left: seq<byte>, D: nat)
    requires D > 0
  {
    ReadTo(q, junk, held, left) && GoesOn(held, D) && (junk != [] ==> |junk| == Missing(q, D))
  }

  ghost predicate Stopped(q: seq<byte>, junk: seq<byte>, held: seq<byte>, left: seq<byte>, D: nat)
    requires D > 0
  {
    ReadTo(q, junk, held, left) && Taken(q + junk, D) == |held| && |junk| == Missing(q, D)
  }

  /** Of q and junk, held has been read and left has not; junk ends what can be read. */
  ghost predicate ReadTo(q: seq<byte>, junk: seq<byte>, held: seq<byte>, left: seq<byte>) {
    q + junk == held + left && (junk != [] ==> left == [])
  }

  lemma StopHere(q: seq<byte>, junk: seq<byte>, held: seq<byte>, left: seq<byte>)
    requires ReadTo(q, junk, held, left)
    ensures |held| <= |q + junk| && (q + junk)[..|held|] == held && left == Behind(q, |held|)
  {
    if junk == [] {
      assert q + junk == q;
    }
  }

  lemma StreamEnds(q: seq<byte>, junk: seq<byte>, held: seq<byte>, D: nat)
    requires D > 0 && Reading(q, junk, held, [], D)
    ensures Stopped(q, junk, held, [], D)
  {
    ReadBehind(held, [], D);
    if junk == [] {
      assert q + junk == q;
    }
  }

  /** One more frame, completed by rest. */
  lemma FrameCounts(q: seq<byte>, junk: seq<byte>, held: seq<byte>, left: seq<byte>, rest: seq<byte>, D: nat)
    requires D > 0 && Reading(q, junk, held, left, D) && left != []
    requires |rest| == if |left| < D then D - |left| else 0
    ensures var frame, later := (left + rest)[..D], (left + rest)[D..];
            if frame[D - 1] == PAD then Stopped(q, junk + rest, held + frame, later, D)
            else Reading(q, junk + rest, held + frame, later, D)
  {
    assert q == held + left by {
      assert q + junk == q;
    }
    assert junk + rest == rest;
    FrameEnds(held, left, rest, D);
    var all := left + rest;
    FrameInFront(held, all, D);
    if all[D - 1] == PAD {
      LastFrame(held, all, D);
    } else {
      GoesOnStep(held, all[..D], D);
    }
  }

  lemma FrameEnds(held: seq<byte>, left: seq<byte>, rest: seq<byte>, D: nat)
    requires D > 0 && GoesOn(held, D) && left != []
    requires |rest| == if |left| < D then D - |left| else 0
    ensures rest != [] || (left + rest)[D - 1] == PAD ==> Missing(held + left, D) == |rest|
    ensures held + left + rest == held + (left + rest)
  {
    ReadBehind(held, left, D);
  }

  lemma LastFrame(held: seq<byte>, all: seq<byte>, D: nat)
    requires 0 < D <= |all| && GoesOn(held, D) && all[D - 1] == PAD
    ensures Taken(held + all, D) == |held| + D
  {
    ReadBehind(held, all, D);
  }

  lemma FrameInFront(held: seq<byte>, all: seq<byte>, D: nat)
    requires D <= |all|
    ensures held + all[..D] + all[D..] == held + all
  {
  }

  /** What is left of a stream after reading n bytes, or all of it. */
  function Behind(q: seq<byte>, n: nat): (rest: seq<byte>) {
    if n < |q| then q[n..] else []
  }

  lemma OneMoreFrame(i: nat, D: nat)
    requires i > 0
    ensures i * D == (i - 1) * D + D && (i + 1) * D == i * D + D && D * i == i * D && D * (i - 1) == (i - 1) * D
  {
  }

  /**
   One conn_read of the loop, behind the frames already read. A frame that is cut short is completed by what the buffer
   holds.
   */
  method ReadFrame(connection: Channel, buffer: array<byte>, at: nat, D: nat) returns (n: nat, ghost rest: seq<byte>)
    requires D > 0 && buffer.Length == at + D
    modifies connection, buffer
    ensures n == if |old(connection.queue)| < D then |old(connection.queue)| else D
    ensures n == 0 ==> rest == [] == connection.queue && buffer[..at] == old(buffer[..at])
    ensures n != 0 ==>
              && |rest| == D - n && connection.queue == (old(connection.queue) + rest)[D..]
              && buffer[..] == old(buffer[..at]) + (old(connection.queue) + rest)[..D]
  {
    n := connection.ReadInto(buffer, at, D);
    rest := if n == 0 then [] else buffer[at + n..];
    if n != 0 {
      assert buffer[..] == buffer[..at + n] + rest;
    }
  }

  class Transmission {
    var data: Option<seq<byte>>
    var open: bool
    var error: bool
    var errMsg: Option<string>
    var errorLen: nat
    var bytes: nat
    var readUsed: bool
    var writeUsed: bool
    const chunkSize: nat
    const connection: Channel

    /** Bytes per conn_write and conn_read: chunk_size in the source; Width() is what the framing is meant to use. */
    const frameLen: nat

    function State(): Life
      reads this
    {
      Life(open, error, readUsed, writeUsed, data, bytes, errMsg, errorLen)
    }

    /** Data bytes per frame: chunk_size - SERIALIZED_SIZE_WITHOUT_DATA. */
    function Width(): int {
      chunkSize - SERIALIZED_SIZE_WITHOUT_DATA
    }

    /** A chunk size that leaves no room for data always shows as an error. */
    ghost predicate Valid()
      reads this
    {
      (error || 0 < Width() <= frameLen) && (data.Some? ==> bytes == |data.value|)
    }

    /**
     init_transmission; connError is the connection's error flag with an error message present. asWritten picks the
     frame length of the code, otherwise it is the one meant.
     */
    constructor (connection: Channel, connError: bool, chunkSize: nat, data: Option<seq<byte>>, size: nat,
                 asWritten: bool)
      requires data.Some? ==> size == |data.value|
      ensures Valid() && Fresh(State())
      ensures !error ==> frameLen == if asWritten then chunkSize else chunkSize - 72
      ensures this.connection == connection && this.chunkSize == chunkSize
      ensures this.data == data && bytes == size
      ensures error <==> connError || chunkSize <= 72
      ensures errMsg == if chunkSize <= 72 then Some("Chunk size too small for transmission.") else None
    {
      this.connection, this.chunkSize := connection, chunkSize;
      frameLen := if asWritten || chunkSize <= SERIALIZED_SIZE_WITHOUT_DATA then chunkSize
                  else chunkSize - SERIALIZED_SIZE_WITHOUT_DATA;
      this.data, bytes, open, readUsed, writeUsed, errorLen := data, size, true, false, false, 0;
      error := connError || chunkSize <= SERIALIZED_SIZE_WITHOUT_DATA;
      errMsg := if chunkSize <= SERIALIZED_SIZE_WITHOUT_DATA then Some(CHUNK_TOO_SMALL) else None;
    }

    /** close_transmission. */
    method Close()
      requires Valid()
      modifies this
      ensures Valid() && State() == Closed(old(State()))
    {
      data, open, bytes := None, false, 0;
    }

    /** TRANS_ERR. */
    method Fail(msg: string)
      requires Valid()
      modifies this
      ensures Valid() && State() == Failed(old(State()), msg)
    {
      Close();
      error, errorLen, errMsg := true, |msg|, Some(msg);
    }

    /**
     transmit: on success the connection has gained exactly the frames of the data, each with what its write took
     from behind the chunk buffer: nothing if the frame length is the one meant.
     */
    method Transmit() returns (ok: bool, ghost slack: seq<seq<byte>>)
      requires Valid()
      modifies this, connection
      ensures Valid()
      ensures (State(), ok) == Transmitted(old(State()))
      ensures ok ==>
                var m, D := old(data.value), chunkSize - 72;
                && D > 0 && |slack| == |m| / D + 1 && AllOfLength(slack, frameLen - D)
                && connection.queue == old(connection.queue) + WireWithSlack(m, D, slack)
                && |connection.queue| == |old(connection.queue)| + frameLen * (|m| / D + 1)
                && (frameLen == D ==> connection.queue == old(connection.queue) + Wire(m, D))
      ensures !ok ==> connection.queue == old(connection.queue)
    {
      if writeUsed {
        Fail(WRITE_USED);
        return false, [];
      } else if error {
        Fail(ERRONEOUS);
        return false, [];
      } else if !open {
        Fail(CLOSED);
        return false, [];
      } else if data.None? {
        Fail(NO_DATA);
        return false, [];
      }
      writeUsed := true;
      slack := SendFrames(connection, data.value, Width(), frameLen);
      SlackedWireLength(data.value, Width(), slack, frameLen - Width());
      if frameLen == Width() {
        NoSlack(data.value, Width(), slack);
      }
      return true, slack;
    }

    /**
     receive: the message is the trimmed bytes up to the first frame that ends in PAD, and exactly those bytes are gone
     from the connection. junk completes a frame that the end of the stream cuts short. None is where trimming leaves
     the buffer.
     */
    method Receive() returns (r: Option<bool>, ghost junk: seq<byte>)
      requires Valid()
      modifies this, connection
      ensures Valid()
      ensures if Healthy(old(State())) && !old(readUsed) then
                var q := old(connection.queue) + junk;
                var taken := Taken(q, frameLen);
                && |junk| == Missing(old(connection.queue), frameLen)
                && connection.queue == Behind(old(connection.queue), taken)
                && if taken > 0 && !HasStop(q[..taken]) then
                     r == None && State() == old(State()).(readUsed := true)
                   else
                     r.Some? && (State(), r.value) == ReceivedInto(old(State()), Arrived(q, frameLen))
              else
                && junk == [] && connection.queue == old(connection.queue)
                && r == Some(false) && State() == ReceivedInto(old(State()), None).0
    {
      junk := [];
      if readUsed {
        Fail(READ_USED);
        return Some(false), junk;
      } else if error {
        Fail(ERRONEOUS);
        return Some(false), junk;
      } else if !open {
        Fail(CLOSED);
        return Some(false), junk;
      }
      readUsed := true;
      var buffer, size;
      buffer, size, junk := ReadFrames(connection, frameLen);
      if size == 0 {
        return Some(false), junk;
      }
      var newSize := TrimPadding(buffer, size);
      if newSize.None? {
        return None, junk;
      }
      data, bytes := Some(buffer[..newSize.value]), newSize.value;
      return Some(true), junk;
    }
  }

  /** What receive makes of stream q: nothing if not even one frame can be read. */
  function Arrived(q: seq<byte>, D: nat): (got: Option<seq<byte>>)
    requires D > 0
  {
    if Taken(q, D) > 0 then Some(Received(q, D)) else None
  }

  /**
   One instance transmits and another receives over the same connection, both with frames of the length meant: the
   receiver has the sender's message if and only if that is clean, and exactly a message of which only PADs arrive makes
   the receiver leave its buffer.
   */
  method Carry(sender: Transmission, receiver: Transmission) returns (r: Option<bool>)
    requires sender.Valid() && receiver.Valid() && sender != receiver
    requires sender.connection == receiver.connection && sender.connection.queue == []
    requires Healthy(sender.State()) && !sender.writeUsed && sender.data.Some?
    requires Healthy(receiver.State()) && !receiver.readUsed
    requires sender.frameLen == sender.chunkSize - 72 == receiver.frameLen
    modifies sender, receiver, sender.connection
    ensures sender.Valid() && receiver.Valid()
    ensures var m, D := old(sender.data.value), sender.chunkSize - 72;
            && (r == None <==> !HasStop(Cut(m, D)))
            && (r != None ==> r == Some(true) && receiver.data == Some(Trim(Cut(m, D))))
            && (r == Some(true) && receiver.data == Some(m) <==> Clean(m, D))
            && (Clean(m, D) ==> sender.connection.queue == [])
  {
    ghost var m, D := sender.data.value, sender.Width();
    var ok, slack := sender.Transmit();
    ghost var q := sender.connection.queue;
    assert q == Wire(m, D) == Wire(m, D) + [];
    assert WholeFrames(q, D) by {
      WireKeepsWholeFrames(m, [], D);
    }
    WholeFramesMissNothing(q, D);
    ghost var junk;
    r, junk := receiver.Receive();
    assert q + junk == q;
    TransportResult(m, [], D);
    TrimmingStopsIff(m, [], D);
    if m != [] {
      RoundTripIffClean(m, [], D);
    }
  }
}
