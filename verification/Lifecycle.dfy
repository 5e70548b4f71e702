/**
 The one-shot life of a transmission instance (lib/PP/transmission.c): flags and data as transmit, receive and
 close_transmission change them, and what that means for every sequence of calls on one instance.
 */
module Lifecycle {
  import opened Bytes

  datatype Life = Life(open: bool, error: bool, readUsed: bool, writeUsed: bool,
                       data: Option<seq<byte>>, bytes: nat,
                       errMsg: Option<string>, errorLen: nat)

  const WRITE_USED := "Transmission instance already used for writing."
  const READ_USED := "Transmission instance already used for reading."
  const ERRONEOUS := "Erroneous transmission instance used."
  const CLOSED := "Transmission instance is closed."
  const NO_DATA := "Data to transmit is NULL."
  const CHUNK_TOO_SMALL := "Chunk size too small for transmission."

  /** close_transmission. */
  function Closed(l: Life): Life {
    l.(data := None, open := false, bytes := 0)
  }

  /** TRANS_ERR. */
  function Failed(l: Life, msg: string): Life {
    Closed(l).(error := true, errMsg := Some(msg), errorLen := |msg|)
  }

  /** transmit: the new state and the returned flag. */
  function Transmitted(l: Life): (r: (Life, bool)) {
    if l.writeUsed then (Failed(l, WRITE_USED), false)
    else if l.error then (Failed(l, ERRONEOUS), false)
    else if !l.open then (Failed(l, CLOSED), false)
    else if l.data.None? then (Failed(l, NO_DATA), false)
    else (l.(writeUsed := true), true)
  }

  /** receive, when the loop got either nothing at all or the trimmed bytes got. */
  function ReceivedInto(l: Life, got: Option<seq<byte>>): (r: (Life, bool)) {
    if l.readUsed then (Failed(l, READ_USED), false)
    else if l.error then (Failed(l, ERRONEOUS), false)
    else if !l.open then (Failed(l, CLOSED), false)
    else if got.None? then (l.(readUsed := true), false)
    else (l.(readUsed := true, data := got, bytes := |got.value|), true)
  }

  datatype Event = Transmit | Receive(got: Option<seq<byte>>) | Close

  function Apply(l: Life, e: Event): (r: (Life, bool)) {
    match e
    case Transmit => Transmitted(l)
    case Receive(got) => ReceivedInto(l, got)
    case Close => (Closed(l), false)
  }

  function After(l: Life, es: seq<Event>): Life {
    if es == [] then l else Apply(After(l, es[..|es| - 1]), es[|es| - 1]).0
  }

  /** Call k of the sequence returns 1. */
  predicate Succeeds(l: Life, es: seq<Event>, k: nat)
    requires k < |es|
  {
    Apply(After(l, es[..k]), es[k]).1
  }

  /** An instance as init_transmission makes it. */
  predicate Fresh(l: Life) {
    l.open && !l.readUsed && !l.writeUsed && (l.data.Some? ==> l.bytes == |l.data.value|)
  }

  /** What a failing transmit records, in the order of the checks; a successful one keeps the data. */
  lemma TransmitMessages(l: Life)
    ensures var (after, ok) := Apply(l, Transmit);
            if l.writeUsed then !ok && after.errMsg == Some("Transmission instance already used for writing.")
            else if l.error then !ok && after.errMsg == Some("Erroneous transmission instance used.")
            else if !l.open then !ok && after.errMsg == Some("Transmission instance is closed.")
            else if l.data.None? then !ok && after.errMsg == Some("Data to transmit is NULL.")
            else ok && after == l.(writeUsed := true)
  {
  }

  /** The same for a receive; a successful one holds what arrived. */
  lemma ReceiveMessages(l: Life, got: Option<seq<byte>>)
    ensures var (after, ok) := Apply(l, Receive(got));
            if l.readUsed then !ok && after.errMsg == Some("Transmission instance already used for reading.")
            else if l.error then !ok && after.errMsg == Some("Erroneous transmission instance used.")
            else if !l.open then !ok && after.errMsg == Some("Transmission instance is closed.")
            else
              && ok == got.Some? && after.readUsed && after.open && !after.error
              && (ok ==> after.data == got && after.bytes == |got.value|)
              && (!ok ==> after.data == l.data && after.bytes == l.bytes)
  {
  }

  /** Closing drops the data and nothing else. */
  lemma CloseKeepsTheRest(l: Life)
    ensures var (after, ok) := Apply(l, Close);
            && !ok && !after.open && after.data.None? && after.bytes == 0
            && after.error == l.error && after.errMsg == l.errMsg && after.errorLen == l.errorLen
            && after.readUsed == l.readUsed && after.writeUsed == l.writeUsed
  {
  }

  /**
   Over call sequences: which check a call that breaks the protocol runs into. Once the instance is unusable, a kind of
   call that has not succeeded yet is told so.
   */
  lemma WhyItFails(l: Life, es: seq<Event>, k: nat)
    requires Fresh(l) && k < |es|
    ensures var s, message := After(l, es[..k]), After(l, es[..k + 1]).errMsg;
            && (es[k].Transmit? && !s.writeUsed && s.error ==> message == Some("Erroneous transmission instance used."))
            && (es[k].Receive? && !s.readUsed && s.error ==> message == Some("Erroneous transmission instance used."))
            && (es[k].Transmit? && !s.writeUsed && !s.error && !s.open ==>
                  message == Some("Transmission instance is closed."))
            && (es[k].Receive? && !s.readUsed && !s.error && !s.open ==>
                  message == Some("Transmission instance is closed."))
            && (es[k].Transmit? && Proper(l, es, k) && TransmitBefore(es, k) ==>
                  message == Some("Transmission instance already used for writing."))
            && (es[k].Transmit? && Proper(l, es, k) && !TransmitBefore(es, k) && !DataBefore(l, es, k) ==>
                  message == Some("Data to transmit is NULL."))
            && (es[k].Receive? && Proper(l, es, k) && ReceiveBefore(es, k) ==>
                  message == Some("Transmission instance already used for reading."))
  {
    HealthyIffProper(l, es, k);
    AfterOneMore(l, es, k);
    match es[k]
    case Transmit => TransmitMessages(After(l, es[..k]));
    case Receive(got) => ReceiveMessages(After(l, es[..k]), got);
    case Close =>
  }

  // ---------- the protocol a caller has to follow ----------

  /** Before call k there is data to send: given at creation or by an earlier receive that read something. */
  ghost predicate DataBefore(l: Life, es: seq<Event>, k: nat)
    requires k <= |es|
  {
    l.data.Some? || exists i :: 0 <= i < k && es[i].Receive? && es[i].got.Some?
  }

  ghost predicate TransmitBefore(es: seq<Event>, k: nat)
    requires k <= |es|
  {
    exists i :: 0 <= i < k && es[i].Transmit?
  }

  ghost predicate ReceiveBefore(es: seq<Event>, k: nat)
    requires k <= |es|
  {
    exists i :: 0 <= i < k && es[i].Receive?
  }

  /** Call k keeps to the protocol: not a close, the first of its kind, and a transmit only with data. */
  ghost predicate Allowed(l: Life, es: seq<Event>, k: nat)
    requires k < |es|
  {
    match es[k]
    case Close => false
    case Transmit => DataBefore(l, es, k) && !TransmitBefore(es, k)
    case Receive(_) => !ReceiveBefore(es, k)
  }

  /** The instance was created without error and the first n calls kept to the protocol. */
  ghost predicate Proper(l: Life, es: seq<Event>, n: nat)
    requires n <= |es|
  {
    !l.error && forall k :: 0 <= k < n ==> Allowed(l, es, k)
  }

  predicate Healthy(l: Life) {
    l.open && !l.error
  }

  lemma {:induction false} HealthyIffProper(l: Life, es: seq<Event>, n: nat)
    requires Fresh(l) && n <= |es|
    ensures var s := After(l, es[..n]);
            && (Healthy(s) <==> Proper(l, es, n))
            && (Healthy(s) ==>
                  && (s.writeUsed <==> TransmitBefore(es, n))
                  && (s.readUsed <==> ReceiveBefore(es, n))
                  && (s.data.Some? <==> DataBefore(l, es, n)))
            && (s.data.Some? ==> s.bytes == |s.data.value|)
  {
    if n == 0 {
      assert es[..0] == [];
    } else {
      HealthyIffProper(l, es, n - 1);
      AfterOneMore(l, es, n - 1);
      BeforeOneMore(l, es, n - 1);
    }
  }

  lemma BeforeOneMore(l: Life, es: seq<Event>, k: nat)
    requires k < |es|
    ensures TransmitBefore(es, k + 1) <==> TransmitBefore(es, k) || es[k].Transmit?
    ensures ReceiveBefore(es, k + 1) <==> ReceiveBefore(es, k) || es[k].Receive?
    ensures DataBefore(l, es, k + 1) <==> DataBefore(l, es, k) || (es[k].Receive? && es[k].got.Some?)
    ensures Proper(l, es, k + 1) <==> Proper(l, es, k) && Allowed(l, es, k)
  {
  }

  /**
   A call returns 1 exactly when every call up to and including it kept to the protocol
   (and, for a receive, something arrived).
   */
  lemma SucceedsIffProper(l: Life, es: seq<Event>, k: nat)
    requires Fresh(l) && k < |es|
    ensures Succeeds(l, es, k) <==> Proper(l, es, k + 1) && (es[k].Receive? ==> es[k].got.Some?)
  {
    HealthyIffProper(l, es, k);
    BeforeOneMore(l, es, k);
  }

  /** At most one transmit and at most one receive ever succeed. */
  lemma AtMostOneOfEach(l: Life, es: seq<Event>, j: nat, k: nat)
    requires Fresh(l) && j < k < |es|
    requires Succeeds(l, es, j) && Succeeds(l, es, k)
    ensures es[j].Transmit? != es[k].Transmit? && es[j].Receive? != es[k].Receive?
  {
    SucceedsIffProper(l, es, j);
    SucceedsIffProper(l, es, k);
    assert Allowed(l, es, j) && Allowed(l, es, k);
  }

  /** Error and closed are absorbing, nothing succeeds after either, and a closed instance holds no data. */
  lemma ErrorAndClosedAbsorb(l: Life, es: seq<Event>, j: nat, k: nat)
    requires Fresh(l) && j <= k <= |es|
    ensures var s, t := After(l, es[..j]), After(l, es[..k]);
            && (s.error ==> t.error)
            && (!s.open ==> !t.open)
            && (!t.open ==> t.data.None? && t.bytes == 0)
            && (!Healthy(s) && k < |es| ==> !Succeeds(l, es, k))
  {
    ClosedIsEmpty(l, es, j);
    NothingRecovers(l, es, j, k);
    ClosedIsEmpty(l, es, k);
  }

  lemma {:induction false} ClosedIsEmpty(l: Life, es: seq<Event>, k: nat)
    requires Fresh(l) && k <= |es|
    ensures var t := After(l, es[..k]); !t.open ==> t.data.None? && t.bytes == 0
  {
    if k == 0 {
      assert es[..0] == [];
    } else {
      ClosedIsEmpty(l, es, k - 1);
      AfterOneMore(l, es, k - 1);
    }
  }

  lemma {:induction false} NothingRecovers(l: Life, es: seq<Event>, j: nat, k: nat)
    requires j <= k <= |es|
    ensures After(l, es[..j]).error ==> After(l, es[..k]).error
    ensures !After(l, es[..j]).open ==> !After(l, es[..k]).open
    decreases k
  {
    if j < k {
      NothingRecovers(l, es, j, k - 1);
      AfterOneMore(l, es, k - 1);
    }
  }

  lemma AfterOneMore(l: Life, es: seq<Event>, k: nat)
    requires k < |es|
    ensures After(l, es[..k + 1]) == Apply(After(l, es[..k]), es[k]).0
  {
    assert es[..k + 1][..k] == es[..k];
  }

  /**
   A call that returns 0 closes the instance and records an error of the stated length, except for one case: a first
   receive in good order on a stream that is at its end only uses up the receive.
   */
  lemma UnsuccessfulCallCloses(l: Life, es: seq<Event>, k: nat)
    requires Fresh(l) && k < |es| && !es[k].Close? && !Succeeds(l, es, k)
    ensures var s := After(l, es[..k + 1]);
            if Proper(l, es, k + 1) then es[k] == Receive(None) && Healthy(s) && s.readUsed
            else !s.open && s.error && s.data.None? && s.errMsg.Some? && s.errorLen == |s.errMsg.value|
  {
    SucceedsIffProper(l, es, k);
    HealthyIffProper(l, es, k + 1);
    assert es[..k + 1][..k] == es[..k];
  }
}
