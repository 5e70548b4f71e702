/** What a client's write or delete does to the workers' stores: which worker it reaches, and what changes there. */
module Requests {
  import opened Bytes
  import opened Packets
  import opened Text
  import opened Registry
  import opened Workers

  const WORKER_READ_LEN := 5000

  type Stores = map<Location, Files>

  predicate Reachable(loc: Location, stores: Stores, answering: set<Location>) {
    loc in stores && loc in answering
  }

  /** The workers that do not answer. */
  function Silenced(stores: Stores, answering: set<Location>): Server -> bool {
    (w: Server) => !Reachable(w.location, stores, answering)
  }

  // ---------- write ----------

  /** worker_write of a "name;data" argument: the stores afterwards and the count, -1 without an answering worker. */
  function WriteOutcome(table: seq<Server>, stores: Stores, answering: set<Location>, arg: seq<byte>)
    : (r: (Stores, int))
    requires SEP in arg
  {
    if table == [] || !Reachable(table[0].location, stores, answering) then (stores, -1)
    else
      var loc := table[0].location;
      (stores[loc := stores[loc][BeforeSep(arg) := AfterSep(arg)]], |AfterSep(arg)|)
  }

  // ---------- listings ----------

  /** Some entry of the worker's directory contains the name. */
  ghost predicate Lists(files: Files, name: Name) {
    exists e :: (e in files || e == DOT || e == DOT_DOT) && Contains(e, name)
  }

  /** The worker's listing, in whatever order, fits the master's read buffer. */
  ghost predicate ListingFits(files: Files) {
    forall names :: IsListing(names, files) ==> HEADER + |Join(names)| <= WORKER_READ_LEN + SIZEOF_PACKET
  }

  ghost predicate NamesAreText(files: Files) {
    forall n :: n in files ==> NoNul(n)
  }

  /** A directory as the file operations leave it, with a listing whose length fits its 32-bit field. */
  ghost predicate Ordinary(files: Files) {
    NamesAreText(files) && forall names :: IsListing(names, files) ==> |Join(names)| < Span(4)
  }

  function TotalLength(names: seq<Name>): (n: nat) {
    if names == [] then 0 else |names[0]| + TotalLength(names[1..])
  }

  lemma {:induction false} JoinLength(names: seq<Name>)
    ensures |Join(names)| == TotalLength(names) + if names == [] then 0 else |names| - 1
  {
    if |names| > 1 {
      JoinLength(names[1..]);
    }
  }

  lemma {:induction false} TotalLengthWithout(names: seq<Name>, i: nat)
    requires i < |names|
    ensures TotalLength(names) == |names[i]| + TotalLength(names[..i] + names[i + 1..])
  {
    if i == 0 {
      assert names[..0] + names[1..] == names[1..];
    } else {
      TotalLengthWithout(names[1..], i - 1);
      assert (names[..i] + names[i + 1..])[1..] == names[1..][..i - 1] + names[1..][i..];
    }
  }

  ghost predicate Distinct(names: seq<Name>) {
    forall i, j :: 0 <= i < j < |names| ==> names[i] != names[j]
  }

  /** The same names in another order are as many and as long. */
  lemma {:induction false} OrderDoesNotMatter(a: seq<Name>, b: seq<Name>)
    requires Distinct(a) && Distinct(b) && forall n :: n in a <==> n in b
    ensures |a| == |b| && TotalLength(a) == TotalLength(b)
  {
    if a == [] {
      if b != [] {
        var n := SomeName(b);
      }
    } else {
      assert a[0] in b;
      var i :| 0 <= i < |b| && b[i] == a[0];
      var a', b' := a[1..], b[..i] + b[i + 1..];
      DropOne(a, 0);
      DropOne(b, i);
      assert a[..0] + a[1..] == a';
      TotalLengthWithout(b, i);
      OrderDoesNotMatter(a', b');
    }
  }

  lemma SomeName(names: seq<Name>) returns (n: Name)
    requires names != []
    ensures n in names
  {
    n := names[0];
  }

  lemma DropOne(names: seq<Name>, i: nat)
    requires i < |names| && Distinct(names)
    ensures var rest := names[..i] + names[i + 1..];
            Distinct(rest) && forall n :: n in rest <==> n in names && n != names[i]
  {
    var rest := names[..i] + names[i + 1..];
    forall n
      ensures n in rest <==> n in names && n != names[i]
    {
      if n in names && n != names[i] {
        var k :| 0 <= k < |names| && names[k] == n;
        assert n == rest[if k < i then k else k - 1];
      }
      if n in rest {
        var k :| 0 <= k < |rest| && rest[k] == n;
        assert n == names[if k < i then k else k + 1];
      }
    }
  }

  /** All listings of a directory are equally long, so whether one fits does not depend on the order. */
  lemma ListingFitsIff(files: Files, listing: seq<Name>)
    requires IsListing(listing, files)
    ensures ListingFits(files) <==> 22 + |Join(listing)| <= 5000 + 40
  {
    forall names | IsListing(names, files)
      ensures |Join(names)| == |Join(listing)|
    {
      OrderDoesNotMatter(names, listing);
      JoinLength(names);
      JoinLength(listing);
    }
  }

  lemma {:induction false} JoinIsText(names: seq<Name>)
    requires forall n :: n in names ==> NoNul(n)
    ensures NoNul(Join(names))
  {
    if names != [] {
      assert names[0] in names;
      JoinIsText(names[1..]);
    }
  }

  lemma ListingIsText(files: Files, listing: seq<Name>)
    requires IsListing(listing, files) && Ordinary(files)
    ensures NoNul(Join(listing)) && CStr(Join(listing)) == Join(listing) && |Join(listing)| < Span(4)
  {
    JoinIsText(listing);
  }

  /** strstr on a joined listing finds a newline-free name exactly when some entry contains it. */
  lemma ListingMatch(files: Files, listing: seq<Name>, name: Name)
    requires IsListing(listing, files) && NEWLINE !in name
    ensures Contains(Join(listing), name) <==> Lists(files, name)
  {
    if name == [] {
      assert OccursAt(Join(listing), name, 0) && OccursAt(DOT, name, 0);
      assert Contains(DOT, name);
    } else {
      MatchIsInOneEntry(listing, name);
      if e :| (e in files || e == DOT || e == DOT_DOT) && Contains(e, name) {
        assert e in listing;
        var i :| 0 <= i < |listing| && listing[i] == e;
        assert Contains(listing[i], name);
      }
      if i :| 0 <= i < |listing| && Contains(listing[i], name) {
        assert listing[i] in listing;
      }
    }
  }

  // ---------- delete ----------

  /** What find_by_file comes back with; Lost is a search in a listing the master does not have. */
  datatype Found = At(index: nat) | Nowhere | Lost

  /** The worker answers and its listing fits. */
  ghost predicate Heard(loc: Location, stores: Stores, answering: set<Location>) {
    Reachable(loc, stores, answering) && ListingFits(stores[loc])
  }

  /** find_by_file goes on past the first i workers: each is heard and lists no entry with the name. */
  ghost predicate PassesOver(table: seq<Server>, i: nat, stores: Stores, answering: set<Location>, name: Name)
    requires i <= |table|
  {
    forall k :: 0 <= k < i ==>
      Heard(table[k].location, stores, answering) && !Lists(stores[table[k].location], name)
  }

  /** find_by_file. */
  ghost function Verdict(table: seq<Server>, stores: Stores, answering: set<Location>, name: Name): (f: Found)
    ensures f.At? ==> f.index < |table| && Heard(table[f.index].location, stores, answering)
  {
    if table == [] then Nowhere
    else if !Heard(table[0].location, stores, answering) then Lost
    else if Lists(stores[table[0].location], name) then At(0)
    else
      match Verdict(table[1..], stores, answering, name)
      case At(i) => At(i + 1)
      case other => other
  }

  /**
   The three ways the search ends, by the workers asked alone: at a heard worker with a containing entry, at a worker
   that is not heard, or behind the last one. What stands behind that worker does not matter.
   */
  lemma {:induction false} VerdictMeaning(table: seq<Server>, i: nat, stores: Stores, answering: set<Location>,
                                          name: Name)
    requires i <= |table| && PassesOver(table, i, stores, answering, name)
    ensures var v := Verdict(table, stores, answering, name);
            if i == |table| then v == Nowhere
            else if !Heard(table[i].location, stores, answering) then v == Lost
            else Lists(stores[table[i].location], name) ==> v == At(i)
  {
    if i > 0 {
      assert forall k | 0 <= k < i - 1 :: table[1..][k] == table[k + 1];
      VerdictMeaning(table[1..], i - 1, stores, answering, name);
    }
  }

  /** And one of them always happens. */
  lemma {:induction false} SearchEnds(table: seq<Server>, stores: Stores, answering: set<Location>, name: Name)
    returns (i: nat)
    ensures i <= |table| && PassesOver(table, i, stores, answering, name)
    ensures i < |table| ==>
              !Heard(table[i].location, stores, answering) || Lists(stores[table[i].location], name)
  {
    i := 0;
    if table != [] && Heard(table[0].location, stores, answering) && !Lists(stores[table[0].location], name) {
      var j := SearchEnds(table[1..], stores, answering, name);
      i := j + 1;
      assert forall k | 1 <= k < i :: table[k] == table[1..][k - 1];
    }
  }

  function Erased(stores: Stores, loc: Location, name: Name): Stores
    requires loc in stores
  {
    stores[loc := stores[loc] - {name}]
  }

  /** worker_delete. */
  ghost function DeleteOutcome(table: seq<Server>, stores: Stores, answering: set<Location>, name: Name): (r: Stores) {
    match Verdict(table, stores, answering, name)
    case At(i) => Erased(stores, table[i].location, name)
    case _ => stores
  }

  /** Nothing changed, or one worker of the table lost the file of that name. */
  ghost predicate AtMostErased(table: seq<Server>, before: Stores, after: Stores, name: Name) {
    || after == before
    || exists i :: 0 <= i < |table| && table[i].location in before && after == Erased(before, table[i].location, name)
  }

  /** The cases in which the outcome does not depend on the order of a listing. */
  ghost predicate Plain(table: seq<Server>, stores: Stores, name: Name) {
    && NEWLINE !in name
    && forall i :: 0 <= i < |table| && table[i].location in stores ==> Ordinary(stores[table[i].location])
  }

  lemma {:induction false} ContainsItself(s: seq<byte>)
    ensures Contains(s, s)
  {
    assert s[0..0 + |s|] == s;
    assert OccursAt(s, s, 0);
  }

  /**
   h being the first worker that holds the name: the file goes from there if and only if h and every worker before it
   is heard and none before it lists an entry that merely contains the name. Otherwise nothing changes at all.
   */
  lemma DeleteTargets(table: seq<Server>, stores: Stores, answering: set<Location>, name: Name, h: nat)
    requires h < |table| && table[h].location in stores && name in stores[table[h].location]
    requires forall k :: 0 <= k < h && table[k].location in stores ==> name !in stores[table[k].location]
    ensures Verdict(table, stores, answering, name) != Nowhere
    ensures DeleteOutcome(table, stores, answering, name)
         == if PassesOver(table, h, stores, answering, name) && Heard(table[h].location, stores, answering)
            then Erased(stores, table[h].location, name) else stores
    ensures Erased(stores, table[h].location, name) != stores
  {
    ContainsItself(name);
    assert Lists(stores[table[h].location], name);
    assert name !in Erased(stores, table[h].location, name)[table[h].location];
    var i := SearchEnds(table, stores, answering, name);
    VerdictMeaning(table, i, stores, answering, name);
    if i < h && Heard(table[i].location, stores, answering) {
      var loc := table[i].location;
      assert stores[loc] - {name} == stores[loc];
      assert Erased(stores, loc, name) == stores;
    }
  }

  /** With "ab" on the first worker and "b" on the second, deleting "b" deletes nothing, whoever answers. */
  lemma DeleteMisses(first: Server, second: Server, answering: set<Location>)
    requires first.location != second.location
    ensures var stores: Stores := map[first.location := map[[97, 98] := []], second.location := map[[98] := []]];
            DeleteOutcome([first, second], stores, answering, [98]) == stores
  {
    var stores: Stores := map[first.location := map[[97, 98] := []], second.location := map[[98] := []]];
    var ab, b: Name := [97, 98], [98];
    assert OccursAt(ab, b, 1);
    assert ab in stores[first.location] && Contains(ab, b);
    assert Lists(stores[first.location], b);
    DeleteTargets([first, second], stores, answering, b, 1);
  }
}
