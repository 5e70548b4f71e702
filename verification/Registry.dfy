/**
 The worker registry as a plain sequence: what add, remove and the ping sweep of src/server_table.c and
 src/worker_admin.c make of it. failed(w) stands for a worker that does not answer a ping properly.
 */
module Registry {
  import opened Bytes

  datatype Location = Location(ip: seq<byte>, port: nat)

  datatype Server = Server(id: nat, location: Location)

  /** The table's counter is an unsigned short. */
  const MAX_SERVERS := 65535

  /**
   add_server. At the last entry the counter can hold it wraps to zero: the table is gone, and the new entry is written
   in front of it.
   */
  function Added(s: seq<Server>, w: Server): (r: seq<Server>) {
    if |s| < MAX_SERVERS then s + [w] else []
  }

  /** indexof: position of the first entry with that id, or -1. */
  function IndexOfId(s: seq<Server>, id: nat): (i: int)
    ensures -1 <= i < |s|
    ensures i >= 0 ==> s[i].id == id
    ensures forall k :: 0 <= k < (if i < 0 then |s| else i) ==> s[k].id != id
  {
    if s == [] then -1
    else if s[0].id == id then 0
    else
      var i := IndexOfId(s[1..], id);
      if i < 0 then -1 else i + 1
  }

  function WithoutIndex(s: seq<Server>, i: nat): (r: seq<Server>)
    requires i < |s|
    ensures |r| == |s| - 1
  {
    s[..i] + s[i + 1..]
  }

  /** remove_server. */
  function Without(s: seq<Server>, id: nat): (r: seq<Server>) {
    var i := IndexOfId(s, id);
    if i < 0 then s else WithoutIndex(s, i)
  }

  ghost predicate UniqueIds(s: seq<Server>) {
    forall i, j :: 0 <= i < j < |s| ==> s[i].id != s[j].id
  }

  ghost predicate Increasing(s: seq<Server>) {
    forall i, j :: 0 <= i < j < |s| ==> s[i].id < s[j].id
  }

  ghost predicate AllBelow(s: seq<Server>, bound: nat) {
    forall i :: 0 <= i < |s| ==> s[i].id < bound
  }

  lemma IncreasingIsUnique(s: seq<Server>)
    requires Increasing(s)
    ensures UniqueIds(s)
  {
  }

  /** With unique ids, removing an entry's id removes that entry. */
  lemma WithoutOwnId(s: seq<Server>, i: nat)
    requires UniqueIds(s) && i < |s|
    ensures Without(s, s[i].id) == WithoutIndex(s, i) && UniqueIds(Without(s, s[i].id))
  {
  }

  /** A second removal of the same id finds nothing. */
  lemma RemoveTwice(s: seq<Server>, id: nat)
    requires UniqueIds(s)
    ensures Without(Without(s, id), id) == Without(s, id)
  {
  }

  // ---------- one sweep ----------

  /**
   One pass of for_each_server(ping_server): after a removal the next entry has moved to the visited position,
   so it is passed over.
   */
  function Sweep(s: seq<Server>, failed: Server -> bool): (r: seq<Server>) {
    if s == [] then []
    else if !failed(s[0]) then [s[0]] + Sweep(s[1..], failed)
    else if |s| == 1 then []
    else [s[1]] + Sweep(s[2..], failed)
  }

  /** The answering workers, in table order. */
  function Live(s: seq<Server>, failed: Server -> bool): (r: seq<Server>)
    ensures forall w :: w in r ==> !failed(w)
  {
    if s == [] then []
    else if failed(s[0]) then Live(s[1..], failed)
    else [s[0]] + Live(s[1..], failed)
  }

  function CountFailed(s: seq<Server>, failed: Server -> bool): (n: nat)
    ensures n <= |s|
  {
    if s == [] then 0 else (if failed(s[0]) then 1 else 0) + CountFailed(s[1..], failed)
  }

  /** The number an entry has in its own maximal run of failed workers (1, 2, 3, ...); 0 for a live worker. */
  function Rank(s: seq<Server>, i: nat, failed: Server -> bool): (n: nat)
    requires i < |s|
  {
    if !failed(s[i]) then 0 else if i == 0 then 1 else 1 + Rank(s, i - 1, failed)
  }

  /** The entries among the first n whose rank is even, in order. */
  function EvenRanked(s: seq<Server>, n: nat, failed: Server -> bool): (r: seq<Server>)
    requires n <= |s|
  {
    if n == 0 then []
    else EvenRanked(s, n - 1, failed) + (if Rank(s, n - 1, failed) % 2 == 0 then [s[n - 1]] else [])
  }

  /** A sweep removes exactly the 1st, 3rd, 5th, ... entry of every maximal run of failed workers. */
  lemma SweepRemovesOddRanks(s: seq<Server>, failed: Server -> bool)
    ensures Sweep(s, failed) == EvenRanked(s, |s|, failed)
  {
    SweepFrom(s, 0, failed);
    assert Sweep(s[0..], failed) == Sweep(s, failed) by {
      assert s[0..] == s;
    }
    NothingInFront(Sweep(s, failed));
  }

  lemma NothingInFront(s: seq<Server>)
    ensures [] + s == s
  {
  }

  lemma {:induction false} SweepFrom(s: seq<Server>, i: nat, failed: Server -> bool)
    requires i <= |s| && (i > 0 ==> Rank(s, i - 1, failed) % 2 == 0)
    ensures EvenRanked(s, i, failed) + Sweep(s[i..], failed) == EvenRanked(s, |s|, failed)
    decreases |s| - i
  {
    if i < |s| {
      SweepUnfold(s, i, failed);
      var kept := EvenRanked(s, i, failed);
      if !failed(s[i]) {
        SweepFrom(s, i + 1, failed);
        Regroup(kept, s[i], Sweep(s[i + 1..], failed));
      } else if i + 1 < |s| {
        SweepFrom(s, i + 2, failed);
        Regroup(kept, s[i + 1], Sweep(s[i + 2..], failed));
      }
    }
  }

  lemma Regroup(front: seq<Server>, w: Server, back: seq<Server>)
    ensures front + [w] + back == front + ([w] + back)
  {
  }

  /** One visit of the sweep, seen from the front and from the ranks. */
  lemma SweepUnfold(s: seq<Server>, i: nat, failed: Server -> bool)
    requires i < |s| && (i > 0 ==> Rank(s, i - 1, failed) % 2 == 0)
    ensures var kept := EvenRanked(s, i, failed);
            if !failed(s[i]) then
              && Sweep(s[i..], failed) == [s[i]] + Sweep(s[i + 1..], failed)
              && EvenRanked(s, i + 1, failed) == kept + [s[i]] && Rank(s, i, failed) == 0
            else if i + 1 == |s| then
              Sweep(s[i..], failed) == [] && EvenRanked(s, i + 1, failed) == kept
            else
              && Sweep(s[i..], failed) == [s[i + 1]] + Sweep(s[i + 2..], failed)
              && EvenRanked(s, i + 2, failed) == kept + [s[i + 1]] && Rank(s, i + 1, failed) % 2 == 0
  {
    var rest := s[i..];
    assert rest[1..] == s[i + 1..];
    if failed(s[i]) {
      assert Rank(s, i, failed) % 2 == 1;
      if i + 1 < |s| {
        assert rest[2..] == s[i + 2..];
      }
    }
  }

  /** A sweep never drops a live worker, keeps their order, and leaves at most half of the failed ones. */
  lemma {:induction false} SweepKeepsLiveAndHalves(s: seq<Server>, failed: Server -> bool)
    ensures Live(Sweep(s, failed), failed) == Live(s, failed)
    ensures 2 * CountFailed(Sweep(s, failed), failed) <= CountFailed(s, failed)
    ensures |Sweep(s, failed)| <= |s|
  {
    if s != [] {
      if !failed(s[0]) {
        SweepKeepsLiveAndHalves(s[1..], failed);
        assert Sweep(s, failed)[1..] == Sweep(s[1..], failed);
      } else if |s| > 1 {
        assert s[1..][1..] == s[2..];
        SweepKeepsLiveAndHalves(s[2..], failed);
        assert Sweep(s, failed)[1..] == Sweep(s[2..], failed);
      }
    }
  }

  /** A sweep neither reorders entries nor invents any. */
  ghost predicate Subsequence(r: seq<Server>, s: seq<Server>) {
    if r == [] then true
    else s != [] && ((r[0] == s[0] && Subsequence(r[1..], s[1..])) || Subsequence(r, s[1..]))
  }

  lemma {:induction false} SweepIsSubsequence(s: seq<Server>, failed: Server -> bool)
    ensures Subsequence(Sweep(s, failed), s)
  {
    if s != [] {
      if !failed(s[0]) {
        SweepIsSubsequence(s[1..], failed);
        assert Sweep(s, failed)[1..] == Sweep(s[1..], failed);
      } else if |s| > 1 {
        assert s[1..][1..] == s[2..];
        SweepIsSubsequence(s[2..], failed);
        assert Sweep(s, failed)[1..] == Sweep(s[2..], failed);
        assert Subsequence(Sweep(s, failed), s[1..]);
      }
    }
  }

  // ---------- how many sweeps it takes ----------

  function Sweeps(s: seq<Server>, k: nat, failed: Server -> bool): (r: seq<Server>)
    decreases k
  {
    if k == 0 then s else Sweeps(Sweep(s, failed), k - 1, failed)
  }

  /** Length of the run of failed workers at the front. */
  function Lead(s: seq<Server>, failed: Server -> bool): (n: nat)
    ensures n <= |s|
  {
    if s == [] || !failed(s[0]) then 0 else 1 + Lead(s[1..], failed)
  }

  function Max(a: nat, b: nat): nat {
    if a < b then b else a
  }

  function LongestRun(s: seq<Server>, failed: Server -> bool): (n: nat)
    ensures Lead(s, failed) <= n <= |s|
  {
    if s == [] then 0 else Max(Lead(s, failed), LongestRun(s[1..], failed))
  }

  /** n neighbours from position i on that have all failed. */
  ghost predicate IsRun(s: seq<Server>, i: nat, n: nat, failed: Server -> bool) {
    i + n <= |s| && forall k :: i <= k < i + n ==> failed(s[k])
  }

  /** LongestRun is the length of some run of failed neighbours, and of none longer. */
  lemma {:induction false} LongestRunMeaning(s: seq<Server>, failed: Server -> bool)
    ensures exists i: nat :: IsRun(s, i, LongestRun(s, failed), failed)
    ensures forall i: nat, n: nat :: IsRun(s, i, n, failed) ==> n <= LongestRun(s, failed)
    ensures forall n: nat :: IsRun(s, 0, n, failed) ==> n <= Lead(s, failed)
    ensures IsRun(s, 0, Lead(s, failed), failed)
  {
    if s == [] {
      assert IsRun(s, 0, LongestRun(s, failed), failed);
    } else {
      var t := s[1..];
      LongestRunMeaning(t, failed);
      LeadRuns(s, failed);
      var j: nat :| IsRun(t, j, LongestRun(t, failed), failed);
      assert forall k | j + 1 <= k < j + 1 + LongestRun(t, failed) :: s[k] == t[k - 1];
      assert IsRun(s, j + 1, LongestRun(t, failed), failed);
      forall i: nat, n: nat | IsRun(s, i, n, failed)
        ensures n <= LongestRun(s, failed)
      {
        if i > 0 {
          assert IsRun(t, i - 1, n, failed) by {
            assert forall k | i - 1 <= k < i - 1 + n :: t[k] == s[k + 1];
          }
        }
      }
    }
  }

  lemma {:induction false} LeadRuns(s: seq<Server>, failed: Server -> bool)
    ensures forall n: nat :: IsRun(s, 0, n, failed) ==> n <= Lead(s, failed)
    ensures IsRun(s, 0, Lead(s, failed), failed)
  {
    if s != [] && failed(s[0]) {
      LeadRuns(s[1..], failed);
      forall n: nat | IsRun(s, 0, n, failed)
        ensures n <= Lead(s, failed)
      {
        if n > 0 {
          assert IsRun(s[1..], 0, n - 1, failed);
        }
      }
      assert forall k | 1 <= k < Lead(s, failed) :: s[k] == s[1..][k - 1];
    }
  }

  /** Every run, and so the longest one, is halved, rounding down. */
  lemma {:induction false} SweepHalvesRuns(s: seq<Server>, failed: Server -> bool)
    ensures Lead(Sweep(s, failed), failed) == Lead(s, failed) / 2
    ensures LongestRun(Sweep(s, failed), failed) == LongestRun(s, failed) / 2
  {
    if s != [] {
      if !failed(s[0]) {
        SweepHalvesRuns(s[1..], failed);
        assert Sweep(s, failed)[1..] == Sweep(s[1..], failed);
      } else if |s| == 1 {
        assert s[1..] == [];
      } else {
        assert s[1..][1..] == s[2..];
        SweepHalvesRuns(s[2..], failed);
        assert Sweep(s, failed)[1..] == Sweep(s[2..], failed);
      }
    }
  }

  function Pow2(k: nat): (n: nat)
    ensures n >= 1
  {
    if k == 0 then 1 else 2 * Pow2(k - 1)
  }

  lemma HalveTwice(n: nat, p: nat)
    requires p > 0
    ensures n / 2 / p == n / (2 * p)
  {
    var q, r := n / (2 * p), n % (2 * p);
    assert n == 2 * (p * q) + r;
    assert n / 2 == p * q + r / 2 && r / 2 < p;
    var d := n / 2 / p - q;
    assert p * d == r / 2 - n / 2 % p;
    assert (d >= 1 ==> p * d >= p) && (d <= -1 ==> p * d + p <= 0);
  }

  lemma DoubleProduct(p: nat, n: nat)
    ensures (2 * p) * n == 2 * (p * n)
  {
  }

  lemma QuotientZero(n: nat, p: nat)
    requires p > 0
    ensures n / p == 0 <==> n < p
  {
    assert n == p * (n / p) + n % p;
    assert n / p >= 1 ==> p * (n / p) >= p;
  }

  lemma {:induction false} SweepsDivide(s: seq<Server>, k: nat, failed: Server -> bool)
    ensures LongestRun(Sweeps(s, k, failed), failed) == LongestRun(s, failed) / Pow2(k)
    ensures Live(Sweeps(s, k, failed), failed) == Live(s, failed)
    ensures Pow2(k) * CountFailed(Sweeps(s, k, failed), failed) <= CountFailed(s, failed)
    decreases k
  {
    if k > 0 {
      var t := Sweep(s, failed);
      SweepHalvesRuns(s, failed);
      SweepKeepsLiveAndHalves(s, failed);
      SweepsDivide(t, k - 1, failed);
      HalveTwice(LongestRun(s, failed), Pow2(k - 1));
      DoubleProduct(Pow2(k - 1), CountFailed(Sweeps(t, k - 1, failed), failed));
    }
  }

  lemma {:induction false} AllLive(s: seq<Server>, failed: Server -> bool)
    ensures Live(s, failed) == s <==> LongestRun(s, failed) == 0
    ensures |Live(s, failed)| <= |s|
  {
    if s != [] {
      AllLive(s[1..], failed);
      assert [s[0]] + s[1..] == s;
    }
  }

  /** k sweeps leave exactly the live workers if and only if no run of failed workers has 2^k entries. */
  lemma SweepsSufficeIff(s: seq<Server>, k: nat, failed: Server -> bool)
    ensures Sweeps(s, k, failed) == Live(s, failed) <==> LongestRun(s, failed) < Pow2(k)
  {
    SweepsDivide(s, k, failed);
    AllLive(Sweeps(s, k, failed), failed);
    QuotientZero(LongestRun(s, failed), Pow2(k));
  }

  /** Sixteen sweeps are enough for every table, and for a full table of failed workers none fewer is. */
  lemma SixteenSweeps(s: seq<Server>, failed: Server -> bool)
    requires |s| <= MAX_SERVERS
    ensures Sweeps(s, 16, failed) == Live(s, failed)
    ensures |s| == MAX_SERVERS && CountFailed(s, failed) == |s| ==> Sweeps(s, 15, failed) != Live(s, failed)
  {
    assert Pow2(8) == 256;
    assert Pow2(15) == 0x8000 && Pow2(16) == 0x1_0000 by {
      assert Pow2(12) == 16 * Pow2(8);
      assert Pow2(16) == 16 * Pow2(12);
    }
    SweepsSufficeIff(s, 16, failed);
    SweepsSufficeIff(s, 15, failed);
    if CountFailed(s, failed) == |s| {
      AllFailed(s, failed);
    }
  }

  lemma EnoughSweeps(s: seq<Server>, k: nat, failed: Server -> bool)
    requires |s| <= MAX_SERVERS && k >= 16
    ensures Sweeps(s, k, failed) == Live(s, failed)
  {
    SixteenSweeps(s, failed);
    SweepsSufficeIff(s, 16, failed);
    SweepsSufficeIff(s, k, failed);
    Pow2Grows(16, k);
  }

  lemma {:induction false} Pow2Grows(j: nat, k: nat)
    requires j <= k
    ensures Pow2(j) <= Pow2(k)
  {
    if j < k {
      Pow2Grows(j, k - 1);
    }
  }

  lemma {:induction false} AllFailed(s: seq<Server>, failed: Server -> bool)
    requires CountFailed(s, failed) == |s|
    ensures Lead(s, failed) == |s|
  {
    if s != [] {
      AllFailed(s[1..], failed);
    }
  }
}
