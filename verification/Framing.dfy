/**
 The in-band framing of lib/PP/transmission.c on plain sequences: what transmit puts on the wire,
 what receive makes of a wire, and exactly when the two are inverse.
 D is the number of data bytes in a frame.
 */
module Framing {
  import opened Bytes

  const PAD: byte := 4

  function Pads(n: nat): (s: seq<byte>)
    ensures |s| == n
    ensures forall i :: 0 <= i < n ==> s[i] == PAD
  {
    seq(n, _ => PAD)
  }

  /** The bytes of all frames of message m: full chunks as they are, the remainder padded to a full frame. */
  function Wire(m: seq<byte>, D: nat): (w: seq<byte>)
    requires D > 0
  {
    if |m| < D then m + Pads(D - |m|) else m[..D] + Wire(m[D..], D)
  }

  /** How many bytes of stream q the receive loop reads: frame by frame, up to a frame that ends in PAD. */
  function Taken(q: seq<byte>, D: nat): (n: nat)
    requires D > 0
    ensures n <= |q|
  {
    if |q| < D then 0 else if q[D - 1] == PAD then D else D + Taken(q[D..], D)
  }

  /** How many bytes the frame that the receive loop reads last is short of. */
  function Missing(q: seq<byte>, D: nat): (n: nat)
    requires D > 0
  {
    if q == [] then 0 else if |q| < D then D - |q| else if q[D - 1] == PAD then 0 else Missing(q[D..], D)
  }

  /** trim_padding. */
  function Trim(s: seq<byte>): (r: seq<byte>)
    ensures r <= s
  {
    if s == [] || s[|s| - 1] != PAD then s else Trim(s[..|s| - 1])
  }

  /** What one call of receive stores as the message. */
  function Received(q: seq<byte>, D: nat): (m: seq<byte>)
    requires D > 0
  {
    Trim(q[..Taken(q, D)])
  }

  /** m cut behind its first full chunk that ends in PAD. */
  function Cut(m: seq<byte>, D: nat): (c: seq<byte>)
    requires D > 0
  {
    if |m| < D then m else if m[D - 1] == PAD then m[..D] else m[..D] + Cut(m[D..], D)
  }

  /** Position i of a message is the last position of a full chunk. */
  predicate ChunkEnd(i: nat, D: nat)
    requires D > 0
  {
    (i + 1) % D == 0
  }

  /** No full chunk of m ends in PAD. */
  ghost predicate NoChunkEndsInPad(m: seq<byte>, D: nat)
    requires D > 0
  {
    forall i :: 0 <= i < |m| && ChunkEnd(i, D) ==> m[i] != PAD
  }

  /** Some byte of s stops the trimming loop. */
  ghost predicate HasStop(s: seq<byte>) {
    exists i :: 0 <= i < |s| && s[i] != PAD
  }

  /** The messages the framing can carry unchanged. */
  ghost predicate Clean(m: seq<byte>, D: nat)
    requires D > 0
  {
    NoChunkEndsInPad(m, D) && m != [] && m[|m| - 1] != PAD
  }

  // ---------- chunk boundaries ----------

  lemma ChunkEndShift(i: nat, D: nat)
    requires D > 0
    ensures ChunkEnd(i + D, D) <==> ChunkEnd(i, D)
  {
    var q, r := (i + 1) / D, (i + 1) % D;
    assert i + 1 + D == D * (q + 1) + r;
    DivisionIsUnique(i + 1 + D, D, q + 1, r);
  }

  lemma FirstChunkEnd(i: nat, D: nat)
    requires D > 0 && i < D
    ensures ChunkEnd(i, D) <==> i == D - 1
  {
    if i < D - 1 {
      DivisionIsUnique(i + 1, D, 0, i + 1);
    } else {
      DivisionIsUnique(i + 1, D, 1, 0);
    }
  }

  lemma NoChunkEndsInPadUnfold(m: seq<byte>, D: nat)
    requires D > 0 && |m| >= D
    ensures NoChunkEndsInPad(m, D) <==> m[D - 1] != PAD && NoChunkEndsInPad(m[D..], D)
  {
    FirstChunkEnd(D - 1, D);
    if m[D - 1] != PAD && NoChunkEndsInPad(m[D..], D) {
      forall i | 0 <= i < |m| && ChunkEnd(i, D)
        ensures m[i] != PAD
      {
        if i < D {
          FirstChunkEnd(i, D);
        } else {
          ChunkEndShift(i - D, D);
          assert m[i] == m[D..][i - D];
        }
      }
    }
    if NoChunkEndsInPad(m, D) {
      forall i | 0 <= i < |m[D..]| && ChunkEnd(i, D)
        ensures m[D..][i] != PAD
      {
        ChunkEndShift(i, D);
        assert m[D..][i] == m[i + D];
      }
    }
  }

  lemma ShortMessage(m: seq<byte>, D: nat)
    requires D > 0 && |m| < D
    ensures NoChunkEndsInPad(m, D)
  {
    forall i | 0 <= i < |m| && ChunkEnd(i, D)
      ensures false
    {
      FirstChunkEnd(i, D);
    }
  }

  // ---------- what the functions mean ----------

  /** A message of n bytes occupies n / D + 1 frames: there is always a padded last one. */
  lemma {:induction false} WireLength(m: seq<byte>, D: nat)
    requires D > 0
    ensures |Wire(m, D)| == D * (|m| / D + 1)
    ensures m <= Wire(m, D) && Wire(m, D)[|m|..] == Pads(D - |m| % D)
  {
    if |m| < D {
      DivisionIsUnique(|m|, D, 0, |m|);
    } else {
      var t := m[D..];
      WireLength(t, D);
      var q, r := |t| / D, |t| % D;
      assert |m| == D * (q + 1) + r;
      DivisionIsUnique(|m|, D, q + 1, r);
      assert D * (q + 1 + 1) == D + D * (q + 1);
      assert Wire(m, D)[|m|..] == Wire(t, D)[|t|..];
      assert m == m[..D] + t;
    }
  }

  /** Trimming removes exactly the trailing PADs. */
  lemma {:induction false} TrimMeaning(s: seq<byte>)
    ensures Trim(s) <= s
    ensures forall i :: |Trim(s)| <= i < |s| ==> s[i] == PAD
    ensures Trim(s) != [] ==> Trim(s)[|Trim(s)| - 1] != PAD
  {
    if s != [] && s[|s| - 1] == PAD {
      TrimMeaning(s[..|s| - 1]);
    }
  }

  lemma {:induction false} TrimDropsPads(s: seq<byte>, n: nat)
    ensures Trim(s + Pads(n)) == Trim(s)
  {
    if n == 0 {
      assert s + Pads(0) == s;
    } else {
      assert (s + Pads(n))[..|s| + n - 1] == s + Pads(n - 1);
      TrimDropsPads(s, n - 1);
    }
  }

  /** Cut(m) is all of m, or the shortest non-empty run of whole chunks of m that ends in PAD. */
  lemma CutMeaning(m: seq<byte>, D: nat)
    requires D > 0
    ensures Cut(m, D) <= m
    ensures Cut(m, D) == m || (Cut(m, D) != [] && ChunkEnd(|Cut(m, D)| - 1, D) && m[|Cut(m, D)| - 1] == PAD)
    ensures forall i :: 0 <= i < |Cut(m, D)| - 1 && ChunkEnd(i, D) ==> m[i] != PAD
    ensures NoChunkEndsInPad(m, D) <==> Cut(m, D) == m && (m == [] || !ChunkEnd(|m| - 1, D) || m[|m| - 1] != PAD)
  {
    CutEnds(m, D);
    CutIsShortest(m, D);
  }

  lemma {:induction false} CutEnds(m: seq<byte>, D: nat)
    requires D > 0
    ensures Cut(m, D) <= m
    ensures Cut(m, D) == m || (Cut(m, D) != [] && ChunkEnd(|Cut(m, D)| - 1, D) && m[|Cut(m, D)| - 1] == PAD)
  {
    if |m| >= D {
      FirstChunkEnd(D - 1, D);
      if m[D - 1] != PAD {
        CutEnds(m[D..], D);
        var c := Cut(m[D..], D);
        if c != [] {
          ChunkEndShift(|c| - 1, D);
        }
      }
    }
  }

  lemma {:induction false} CutIsShortest(m: seq<byte>, D: nat)
    requires D > 0
    ensures |Cut(m, D)| <= |m|
    ensures forall i :: 0 <= i < |Cut(m, D)| - 1 && ChunkEnd(i, D) ==> m[i] != PAD
  {
    if |m| >= D && m[D - 1] != PAD {
      CutIsShortest(m[D..], D);
    }
    forall i | 0 <= i < |Cut(m, D)| - 1 && ChunkEnd(i, D)
      ensures m[i] != PAD
    {
      if i < D {
        FirstChunkEnd(i, D);
      } else {
        ChunkEndShift(i - D, D);
        assert m[i] == m[D..][i - D];
      }
    }
  }

  /**
   A receive reads whole frames: none before the last ends in PAD, and the last one does unless less than a frame is
   left behind it.
   */
  lemma TakenMeaning(q: seq<byte>, D: nat)
    requires D > 0
    ensures var n := Taken(q, D);
            && (n == 0 ==> |q| < D)
            && (n > 0 ==> ChunkEnd(n - 1, D) && (q[n - 1] == PAD || |q| - n < D))
            && forall i :: 0 <= i < n - 1 && ChunkEnd(i, D) ==> q[i] != PAD
  {
    TakenEnds(q, D);
    TakenIsShortest(q, D);
  }

  /** Unless a frame ends in PAD before that, the loop reads on to the end and counts a rest as a whole frame. */
  lemma {:induction false} MissingMeaning(q: seq<byte>, D: nat)
    requires D > 0
    ensures Missing(q, D) == if !NoChunkEndsInPad(q, D) || |q| % D == 0 then 0 else D - |q| % D
  {
    if |q| < D {
      ShortMessage(q, D);
      DivisionIsUnique(|q|, D, 0, |q|);
    } else {
      var n, k := |q| - D, (|q| - D) / D;
      NoChunkEndsInPadUnfold(q, D);
      assert |q| == D * (k + 1) + n % D;
      DivisionIsUnique(|q|, D, k + 1, n % D);
      MissingMeaning(q[D..], D);
    }
  }

  lemma {:induction false} TakenEnds(q: seq<byte>, D: nat)
    requires D > 0
    ensures var n := Taken(q, D);
            && (n == 0 ==> |q| < D)
            && (n > 0 ==> ChunkEnd(n - 1, D) && (q[n - 1] == PAD || |q| - n < D))
  {
    if |q| >= D {
      FirstChunkEnd(D - 1, D);
      if q[D - 1] != PAD {
        TakenEnds(q[D..], D);
        var n := Taken(q[D..], D);
        if n > 0 {
          ChunkEndShift(n - 1, D);
        }
      }
    }
  }

  lemma {:induction false} TakenIsShortest(q: seq<byte>, D: nat)
    requires D > 0
    ensures forall i :: 0 <= i < Taken(q, D) - 1 && ChunkEnd(i, D) ==> q[i] != PAD
  {
    if |q| >= D && q[D - 1] != PAD {
      TakenIsShortest(q[D..], D);
    }
    forall i | 0 <= i < Taken(q, D) - 1 && ChunkEnd(i, D)
      ensures q[i] != PAD
    {
      if i < D {
        FirstChunkEnd(i, D);
      } else {
        ChunkEndShift(i - D, D);
        assert q[i] == q[D..][i - D];
      }
    }
  }

  // ---------- the transport theorems ----------

  /** s is whole frames none of which ends in PAD, so the reading loop goes on behind it. */
  ghost predicate GoesOn(s: seq<byte>, D: nat)
    requires D > 0
  {
    s == [] || (|s| >= D && s[D - 1] != PAD && GoesOn(s[D..], D))
  }

  lemma {:induction false} ReadBehind(s: seq<byte>, rest: seq<byte>, D: nat)
    requires D > 0 && GoesOn(s, D)
    ensures Taken(s + rest, D) == |s| + Taken(rest, D) && Missing(s + rest, D) == Missing(rest, D)
  {
    if s == [] {
      assert s + rest == rest;
    } else {
      assert (s + rest)[D..] == s[D..] + rest;
      ReadBehind(s[D..], rest, D);
    }
  }

  lemma {:induction false} NoPadAtEnd(s: seq<byte>, D: nat)
    requires D > 0 && GoesOn(s, D) && s != []
    ensures s[|s| - 1] != PAD
  {
    if s[D..] != [] {
      NoPadAtEnd(s[D..], D);
    }
  }

  /** Receiving the frames of m, whatever follows them, yields m cut at its first PAD-ended chunk and trimmed. */
  lemma {:induction false} TransportResult(m: seq<byte>, rest: seq<byte>, D: nat)
    requires D > 0
    ensures Received(Wire(m, D) + rest, D) == Trim(Cut(m, D))
    ensures NoChunkEndsInPad(m, D) ==> Taken(Wire(m, D) + rest, D) == |Wire(m, D)|
    ensures !NoChunkEndsInPad(m, D) ==> Taken(Wire(m, D) + rest, D) == |Cut(m, D)| < |Wire(m, D)|
  {
    TakenFromWire(m, rest, D);
    CutMeaning(m, D);
    var pads := WireIsPadded(m, D);
    var q := Wire(m, D) + rest;
    if NoChunkEndsInPad(m, D) {
      assert q[..Taken(q, D)] == m + Pads(pads);
      TrimDropsPads(m, pads);
    } else {
      assert q[..Taken(q, D)] == Cut(m, D);
    }
  }

  lemma WireIsPadded(m: seq<byte>, D: nat) returns (pads: nat)
    requires D > 0
    ensures pads > 0 && Wire(m, D) == m + Pads(pads)
  {
    WireLength(m, D);
    pads := D - |m| % D;
  }

  lemma {:induction false} TakenFromWire(m: seq<byte>, rest: seq<byte>, D: nat)
    requires D > 0
    ensures NoChunkEndsInPad(m, D) ==> Taken(Wire(m, D) + rest, D) == |Wire(m, D)|
    ensures !NoChunkEndsInPad(m, D) ==> Taken(Wire(m, D) + rest, D) == |Cut(m, D)|
  {
    var q := Wire(m, D) + rest;
    if |m| < D {
      ShortMessage(m, D);
      assert q[D - 1] == PAD;
    } else {
      NoChunkEndsInPadUnfold(m, D);
      assert q[D - 1] == m[D - 1];
      assert q[D..] == Wire(m[D..], D) + rest;
      TakenFromWire(m[D..], rest, D);
    }
  }

  /** A non-empty message comes back unchanged if and only if it is clean. */
  lemma RoundTripIffClean(m: seq<byte>, rest: seq<byte>, D: nat)
    requires D > 0 && m != []
    ensures Received(Wire(m, D) + rest, D) == m <==> Clean(m, D)
  {
    TransportResult(m, rest, D);
    CutMeaning(m, D);
    TrimMeaning(Cut(m, D));
  }

  /** The two ways to be unclean, on the smallest messages. */
  lemma UncleanExamples()
    ensures Wire([1, 4], 3) == [1, 4, 4] && Received(Wire([1, 4], 3), 3) == [1]
    ensures Received(Wire([1, 4, 2], 2), 2) == [1]
  {
    assert Wire([1, PAD], 3) == [1, PAD, PAD];
    assert [1, PAD, PAD][..3] == [1, PAD] + Pads(1) && [1, PAD] == [1] + Pads(1);
    TrimDropsPads([1, PAD], 1);
    TrimDropsPads([1], 1);
    assert Wire([1, PAD, 2], 2)[..2] == [1, PAD];
  }

  /**
   The source's trimming loop has no lower bound and needs a byte that is not PAD. Receiving m supplies one exactly
   when the part of m that arrives has one ...
   */
  lemma TrimmingStopsIff(m: seq<byte>, rest: seq<byte>, D: nat)
    requires D > 0
    ensures var q := Wire(m, D) + rest; Taken(q, D) > 0 && (HasStop(q[..Taken(q, D)]) <==> HasStop(Cut(m, D)))
  {
    TransportResult(m, rest, D);
    WireLength(m, D);
    CutMeaning(m, D);
    var q := Wire(m, D) + rest;
    TrimIsEmptyIff(Cut(m, D));
    TrimIsEmptyIff(q[..Taken(q, D)]);
  }

  lemma TrimIsEmptyIff(s: seq<byte>)
    ensures HasStop(s) <==> Trim(s) != []
  {
    TrimMeaning(s);
    if Trim(s) != [] {
      assert s[|Trim(s)| - 1] != PAD;
    }
  }

  /** ... and so for every clean message. */
  lemma CleanSuppliesStop(m: seq<byte>, rest: seq<byte>, D: nat)
    requires D > 0 && Clean(m, D)
    ensures var q := Wire(m, D) + rest; HasStop(q[..Taken(q, D)])
  {
    CutMeaning(m, D);
    TrimmingStopsIff(m, rest, D);
    assert m[|m| - 1] != PAD;
  }

  // ---------- several messages on one connection ----------

  function WireAll(ms: seq<seq<byte>>, D: nat): (w: seq<byte>)
    requires D > 0
  {
    if ms == [] then [] else Wire(ms[0], D) + WireAll(ms[1..], D)
  }

  /** n successive receives on one stream: the messages and what is left of the stream. */
  function ReceiveMany(q: seq<byte>, n: nat, D: nat): (r: (seq<seq<byte>>, seq<byte>))
    requires D > 0
  {
    if n == 0 then ([], q)
    else
      var later := ReceiveMany(q[Taken(q, D)..], n - 1, D);
      ([Received(q, D)] + later.0, later.1)
  }

  /** Clean messages sent back to back are received one by one, in order, and nothing of what follows is touched. */
  lemma {:induction false} StreamIsSelfDelimiting(ms: seq<seq<byte>>, rest: seq<byte>, D: nat)
    requires D > 0 && forall i :: 0 <= i < |ms| ==> Clean(ms[i], D)
    ensures ReceiveMany(WireAll(ms, D) + rest, |ms|, D) == (ms, rest)
  {
    if ms == [] {
      assert WireAll(ms, D) + rest == rest;
    } else {
      StreamIsSelfDelimiting(ms[1..], rest, D);
      OneMoreMessage(ms[0], ms[1..], rest, D);
      assert [ms[0]] + ms[1..] == ms;
    }
  }

  lemma OneMoreMessage(m: seq<byte>, later: seq<seq<byte>>, rest: seq<byte>, D: nat)
    requires D > 0 && Clean(m, D) && ReceiveMany(WireAll(later, D) + rest, |later|, D) == (later, rest)
    ensures ReceiveMany(WireAll([m] + later, D) + rest, |later| + 1, D) == ([m] + later, rest)
  {
    WireAllUnfold([m] + later, rest, D);
    FirstOfMany(m, WireAll(later, D) + rest, |later| + 1, D);
  }

  lemma WireAllUnfold(ms: seq<seq<byte>>, rest: seq<byte>, D: nat)
    requires D > 0 && ms != []
    ensures WireAll(ms, D) + rest == Wire(ms[0], D) + (WireAll(ms[1..], D) + rest)
  {
  }

  lemma FirstOfMany(m: seq<byte>, tail: seq<byte>, n: nat, D: nat)
    requires D > 0 && n > 0 && Clean(m, D)
    ensures var later := ReceiveMany(tail, n - 1, D);
            ReceiveMany(Wire(m, D) + tail, n, D) == ([m] + later.0, later.1)
  {
    RoundTripIffClean(m, tail, D);
    TransportResult(m, tail, D);
    var q := Wire(m, D) + tail;
    assert q[Taken(q, D)..] == tail;
  }

  /** Each of those receives reads exactly the |m| / D + 1 frames of its own message. */
  lemma ReceiveConsumesOwnFrames(m: seq<byte>, rest: seq<byte>, D: nat)
    requires D > 0 && Clean(m, D)
    ensures Taken(Wire(m, D) + rest, D) == D * (|m| / D + 1)
  {
    TransportResult(m, rest, D);
    WireLength(m, D);
  }

  // ---------- the write length in the source ----------

  /**
   The wire when each frame drags along what lies behind its D-byte chunk buffer, as it does when more than D bytes
   are sent from it: slack[i] follows the data of frame i (nothing where slack is too short).
   */
  function WireWithSlack(m: seq<byte>, D: nat, slack: seq<seq<byte>>): (w: seq<byte>)
    requires D > 0
  {
    var behind := if slack == [] then [] else slack[0];
    if |m| < D then m + Pads(D - |m|) + behind
    else m[..D] + behind + WireWithSlack(m[D..], D, if slack == [] then [] else slack[1..])
  }

  ghost predicate AllOfLength(slack: seq<seq<byte>>, n: nat) {
    forall i :: 0 <= i < |slack| ==> |slack[i]| == n
  }

  /** As many frames as the message takes, all of the length that is written. */
  lemma {:induction false} SlackedWireLength(m: seq<byte>, D: nat, slack: seq<seq<byte>>, E: nat)
    requires D > 0 && |slack| == |m| / D + 1 && AllOfLength(slack, E)
    ensures |WireWithSlack(m, D, slack)| == (D + E) * (|m| / D + 1)
  {
    if |m| < D {
      DivisionIsUnique(|m|, D, 0, |m|);
    } else {
      PrefixChunk(|m|, D);
      SlackedWireLength(m[D..], D, slack[1..], E);
      OneMoreTimes(D + E, |m| / D);
    }
  }

  lemma OneMoreTimes(a: nat, k: nat)
    ensures a * (k + 1) == a + a * k
  {
  }

  lemma {:induction false} NoSlack(m: seq<byte>, D: nat, slack: seq<seq<byte>>)
    requires D > 0 && AllOfLength(slack, 0)
    ensures WireWithSlack(m, D, slack) == Wire(m, D)
  {
    if |m| >= D {
      NoSlack(m[D..], D, if slack == [] then [] else slack[1..]);
    }
  }

  lemma PrefixChunk(n: nat, D: nat)
    requires D > 0 && n >= D
    ensures (n - D) / D + 1 == n / D
  {
    var q, r := (n - D) / D, (n - D) % D;
    assert n == D * (q + 1) + r;
    DivisionIsUnique(n, D, q + 1, r);
  }

  /**
   With the source's write length (frames of D + E bytes on the wire, E > 0 of them not the sender's), a clean
   message shorter than a chunk comes back unchanged if and only if those E bytes all happen to be PAD ...
   */
  lemma OverlongWriteOneFrame(m: seq<byte>, D: nat, slack: seq<byte>)
    requires D > 0 && Clean(m, D) && |m| < D && slack != []
    ensures Received(WireWithSlack(m, D, [slack]), D + |slack|) == m <==> slack == Pads(|slack|)
  {
    var W := D + |slack|;
    var q := WireWithSlack(m, D, [slack]);
    assert q[W..] == [];
    assert Taken(q, W) == W && q[..W] == q;
    if slack == Pads(|slack|) {
      assert q == m + Pads(W - |m|);
      TrimDropsPads(m, W - |m|);
    } else {
      var i :| 0 <= i < |slack| && slack[i] != PAD;
      assert q[D + i] == slack[i];
      TrimMeaning(q);
    }
  }

  /** ... with that luck on the first frame, anything longer than one chunk is cut to its first chunk ... */
  lemma OverlongWriteCutsToOneChunk(m: seq<byte>, D: nat, E: nat, slack: seq<seq<byte>>)
    requires D > 0 && E > 0 && |m| >= D && slack != [] && slack[0] == Pads(E)
    ensures Received(WireWithSlack(m, D, slack), D + E) == Trim(m[..D])
  {
    var q := WireWithSlack(m, D, slack);
    assert q[D + E - 1] == slack[0][E - 1] == PAD;
    assert q[..D + E] == m[..D] + Pads(E);
    TrimDropsPads(m[..D], E);
  }

  /** ... and no message at all is safe: leftovers that are not PAD are always received as part of it. */
  lemma OverlongWriteIsNeverSafe(m: seq<byte>, D: nat, E: nat) returns (slack: seq<seq<byte>>)
    requires D > 0 && E > 0
    ensures |slack| == |m| / D + 1 && AllOfLength(slack, E)
    ensures Received(WireWithSlack(m, D, slack), D + E) != m
  {
    var junk := SomeJunk(E);
    slack := JunkSlack(m, D, junk);
    JunkSlackLength(m, D, junk);
    JunkIsReceived(m, D, junk);
  }

  lemma SomeJunk(E: nat) returns (junk: seq<byte>)
    requires E > 0
    ensures |junk| == E && junk[E - 1] != PAD
  {
    junk := Pads(E - 1) + [NUL];
  }

  lemma JunkIsReceived(m: seq<byte>, D: nat, junk: seq<byte>)
    requires D > 0 && junk != [] && junk[|junk| - 1] != PAD
    ensures Received(WireWithSlack(m, D, JunkSlack(m, D, junk)), D + |junk|) != m
  {
    WireOfJunk(m, D, junk);
    JunkGoesOn(m, D, junk);
    AllIsReceived(JunkFrames(m, D, junk), D + |junk|);
    JunkFramesAreLonger(m, D, junk);
  }

  /** A stream of whole frames without a PAD at their ends is received as it is. */
  lemma AllIsReceived(q: seq<byte>, W: nat)
    requires W > 0 && GoesOn(q, W) && q != []
    ensures Received(q, W) == q
  {
    ReadBehind(q, [], W);
    assert q + [] == q && q[..|q|] == q;
    NoPadAtEnd(q, W);
  }

  function JunkSlack(m: seq<byte>, D: nat, junk: seq<byte>): (slack: seq<seq<byte>>)
    requires D > 0
    ensures slack != [] && AllOfLength(slack, |junk|)
  {
    if |m| < D then [junk] else [junk] + JunkSlack(m[D..], D, junk)
  }

  lemma {:induction false} JunkSlackLength(m: seq<byte>, D: nat, junk: seq<byte>)
    requires D > 0
    ensures |JunkSlack(m, D, junk)| == |m| / D + 1
  {
    if |m| < D {
      DivisionIsUnique(|m|, D, 0, |m|);
    } else {
      JunkSlackLength(m[D..], D, junk);
      PrefixChunk(|m|, D);
    }
  }

  /** The same wire, frame by frame. */
  function JunkFrames(m: seq<byte>, D: nat, junk: seq<byte>): (w: seq<byte>)
    requires D > 0
  {
    if |m| < D then m + Pads(D - |m|) + junk else m[..D] + junk + JunkFrames(m[D..], D, junk)
  }

  lemma {:induction false} WireOfJunk(m: seq<byte>, D: nat, junk: seq<byte>)
    requires D > 0
    ensures WireWithSlack(m, D, JunkSlack(m, D, junk)) == JunkFrames(m, D, junk)
  {
    if |m| >= D {
      WireOfJunk(m[D..], D, junk);
      assert JunkSlack(m, D, junk)[1..] == JunkSlack(m[D..], D, junk);
    }
  }

  lemma {:induction false} JunkGoesOn(m: seq<byte>, D: nat, junk: seq<byte>)
    requires D > 0 && junk != [] && junk[|junk| - 1] != PAD
    ensures GoesOn(JunkFrames(m, D, junk), D + |junk|)
  {
    if |m| < D {
      FrameBefore(m + Pads(D - |m|) + junk, [], D + |junk|);
    } else {
      JunkGoesOn(m[D..], D, junk);
      FrameBefore(m[..D] + junk, JunkFrames(m[D..], D, junk), D + |junk|);
    }
  }

  lemma FrameBefore(frame: seq<byte>, later: seq<byte>, W: nat)
    requires |frame| == W > 0 && frame[W - 1] != PAD && GoesOn(later, W)
    ensures GoesOn(frame + later, W) && frame + [] == frame
  {
    assert (frame + later)[W..] == later;
  }

  lemma {:induction false} JunkFramesAreLonger(m: seq<byte>, D: nat, junk: seq<byte>)
    requires D > 0 && junk != []
    ensures |JunkFrames(m, D, junk)| > |m|
  {
    if |m| >= D {
      JunkFramesAreLonger(m[D..], D, junk);
    }
  }
}
