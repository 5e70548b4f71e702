/** The table of src/server_table.c: an array grown and shrunk by realloc, with shift-left removal. */
module ServerTables {
  import opened Bytes
  import opened Registry
  import opened Packets

  class Table {
    var cells: array<Server>
    var count: nat

    ghost predicate Valid()
      reads this
    {
      cells.Length == count <= MAX_SERVERS
    }

    ghost function Contents(): (s: seq<Server>)
      reads this, cells
    {
      cells[..]
    }

    constructor ()
      ensures Valid() && fresh(cells) && Contents() == []
    {
      cells := new Server[0];
      count := 0;
    }

    /** The reallocation both operations end with: the first size entries are kept. */
    method Resize(size: nat, filler: Server)
      requires cells.Length > 0 || size > 0
      modifies this`cells
      ensures fresh(cells) && cells.Length == size
      ensures size <= old(cells.Length) ==> cells[..] == old(cells[..])[..size]
      ensures size >= old(cells.Length) ==> cells[..old(cells.Length)] == old(cells[..])
    {
      var was := cells;
      cells := new Server[size](i requires 0 <= i reads was => if i < was.Length then was[i] else filler);
    }

    /** add_server; false when the counter wraps, and the entry would be written in front of the empty table. */
    method Add(server: Server) returns (inside: bool)
      requires Valid()
      modifies this
      ensures Valid() && fresh(cells)
      ensures Contents() == Added(old(Contents()), server)
      ensures inside <==> |old(Contents())| < MAX_SERVERS
    {
      count := (count + 1) % (MAX_SERVERS + 1);
      Resize(count, server);
      inside := count > 0;
      if inside {
        cells[count - 1] := server;
      }
    }

    /** indexof. */
    method IndexOf(id: nat) returns (r: int)
      requires Valid()
      ensures r == IndexOfId(Contents(), id)
    {
      var i := 0;
      while i < count
        invariant 0 <= i <= count
        invariant forall k :: 0 <= k < i ==> cells[k].id != id
      {
        if cells[i].id == id {
          return i;
        }
        i := i + 1;
      }
      return -1;
    }

    /** remove_server. */
    method Remove(id: nat)
      requires Valid()
      modifies this, cells
      ensures Valid() && (cells == old(cells) || fresh(cells))
      ensures Contents() == Without(old(Contents()), id)
    {
      var at := IndexOf(id);
      if at < 0 {
        return;
      }
      ghost var was := Contents();
      ShiftLeft(at);
      ShiftedFront(was, at);
      var filler := cells[0];
      count := count - 1;
      Resize(count, filler);
    }

    /** The shifting loop of remove_server: everything behind position first moves one to the left. */
    method ShiftLeft(first: nat)
      requires Valid() && first < count
      modifies cells
      ensures Contents() == Shifted(old(Contents()), first, count - 1)
    {
      var at := first;
      while at + 1 < count
        invariant first <= at < count
        invariant forall k :: 0 <= k < first ==> cells[k] == old(cells[k])
        invariant forall k :: first <= k < at ==> cells[k] == old(cells[k + 1])
        invariant forall k :: at <= k < count ==> cells[k] == old(cells[k])
      {
        cells[at] := cells[at + 1];
        at := at + 1;
      }
      ShiftedAt(old(cells[..]), first, at);
    }

    /** getfs_id. */
    method GetById(id: nat) returns (r: Option<Server>)
      requires Valid()
      ensures r.None? <==> forall w :: w in Contents() ==> w.id != id
      ensures r.Some? ==> r.value == Contents()[IndexOfId(Contents(), id)]
    {
      var at := IndexOf(id);
      r := if at < 0 then None else Some(cells[at]);
    }

    /** getfs_index. */
    method GetByIndex(index: nat) returns (r: Option<Server>)
      requires Valid()
      ensures r == if index < |Contents()| then Some(Contents()[index]) else None
    {
      if index >= count {
        return None;
      }
      return Some(cells[index]);
    }

    /** getfs_pred: the first entry that satisfies the predicate. */
    method GetByPred(pred: Server -> bool) returns (r: Option<Server>)
      requires Valid()
      ensures r.None? ==> forall w :: w in Contents() ==> !pred(w)
      ensures r.Some? ==> exists i :: 0 <= i < |Contents()| && Contents()[i] == r.value && pred(r.value)
                                      && forall k :: 0 <= k < i ==> !pred(Contents()[k])
    {
      var i := 0;
      while i < count
        invariant 0 <= i <= count
        invariant forall k :: 0 <= k < i ==> !pred(cells[k])
      {
        if pred(cells[i]) {
          assert Contents()[i] == cells[i];
          return Some(cells[i]);
        }
        i := i + 1;
      }
      return None;
    }

    /** least_load of src/balance.c. */
    method LeastLoad() returns (r: Option<Server>)
      requires Valid()
      ensures r == if Contents() == [] then None else Some(Contents()[0])
    {
      if count == 0 {
        return None;
      }
      r := GetByIndex(0);
    }

    /** handle_ping_response: no bytes, or a first message that is not a PING, costs the worker its entry. */
    method HandlePingResponse(response: seq<byte>, server: Server)
      requires Valid() && UniqueIds(Contents())
      requires Recognisable(response)
      modifies this, cells
      ensures Valid() && (cells == old(cells) || fresh(cells))
      ensures Contents()
           == if response != [] && response[8..12] == [0, 0, 0, 0] then old(Contents())
              else Without(old(Contents()), server.id)
    {
      var buffer := new byte[SIZEOF_PACKET + 10];
      MemCpy(buffer, 0, response);
      RemoveTwice(Contents(), server.id);
      if |response| == 0 {
        Remove(server.id);
      }
      assert response != [] ==> buffer[..][8..12] == buffer[..|response|][8..12] == response[8..12];
      if response != [] {
        ZeroField(response[8..12]);
      }
      if MsgType(buffer[..]) != PING {
        Remove(server.id);
      }
    }

    /** ping_server on the entry at position i, with the worker's answer. */
    method PingServer(i: nat, answer: seq<byte>)
      requires Valid() && UniqueIds(Contents()) && i < count && Recognisable(answer)
      modifies this, cells
      ensures Valid() && (cells == old(cells) || fresh(cells)) && UniqueIds(Contents())
      ensures Contents()
           == if answer != [] && answer[8..12] == [0, 0, 0, 0] then old(Contents())
              else WithoutIndex(old(Contents()), i)
    {
      WithoutOwnId(Contents(), i);
      assert Contents()[i] == cells[i];
      HandlePingResponse(answer, cells[i]);
    }
  }

  /** Mid-removal: the entries up to at have been overwritten by their successors. */
  ghost function Shifted(s: seq<Server>, first: nat, at: nat): (r: seq<Server>)
    requires first <= at < |s|
    ensures |r| == |s|
  {
    s[..first] + s[first + 1..at + 1] + s[at..]
  }

  lemma ShiftedAt(s: seq<Server>, first: nat, at: nat)
    requires first <= at < |s|
    ensures forall k :: 0 <= k < |s| ==>
              Shifted(s, first, at)[k] == if first <= k < at then s[k + 1] else s[k]
  {
  }

  lemma ShiftedFront(s: seq<Server>, first: nat)
    requires first < |s|
    ensures Shifted(s, first, |s| - 1)[..|s| - 1] == WithoutIndex(s, first)
  {
  }

  /** What a read gives: nothing, or enough to hold a message type. */
  predicate Recognisable(response: seq<byte>) {
    response == [] || 12 <= |response| <= SIZEOF_PACKET + 10
  }

  /** The handler removes the entry. */
  predicate PingFailed(response: seq<byte>) {
    |response| < 12 || MsgType(response) != PING
  }

  lemma ZeroField(s: seq<byte>)
    requires |s| == 4
    ensures FromLe(s) == 0 <==> s == [0, 0, 0, 0]
  {
    assert FromLe(s) == 0 <==> s[0] == 0 && FromLe(s[1..]) == 0;
    assert FromLe(s[1..]) == 0 <==> s[1] == 0 && FromLe(s[1..][1..]) == 0;
    assert s[1..][1..] == s[2..] && s[2..][1..] == s[3..] && s[3..][1..] == [];
    assert FromLe(s[2..]) == 0 <==> s[2] == 0 && FromLe(s[3..]) == 0;
    assert FromLe(s[3..]) == 0 <==> s[3] == 0;
  }

  lemma PingFailedIff(response: seq<byte>)
    requires Recognisable(response)
    ensures PingFailed(response) <==> response == [] || response[8..12] != [0, 0, 0, 0]
  {
    if response != [] {
      ZeroField(response[8..12]);
    }
  }

  /** Table t with the first i positions visited will end up as swept. */
  ghost predicate SweptTo(t: seq<Server>, i: nat, failed: Server -> bool, swept: seq<Server>) {
    swept == if i <= |t| then t[..i] + Sweep(t[i..], failed) else t
  }

  lemma SweepStep(s: seq<Server>, i: nat, failed: Server -> bool, swept: seq<Server>)
    requires i < |s| && SweptTo(s, i, failed, swept)
    ensures SweptTo(if failed(s[i]) then WithoutIndex(s, i) else s, i + 1, failed, swept)
  {
    assert s[i..][1..] == s[i + 1..];
    if failed(s[i]) {
      var t := WithoutIndex(s, i);
      if i + 1 < |s| {
        assert s[i..][2..] == s[i + 2..] == t[i + 1..];
        assert t[..i + 1] == s[..i] + [s[i + 1]];
      }
    } else {
      assert s[..i + 1] == s[..i] + [s[i]];
    }
  }
}
