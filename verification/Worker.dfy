/**
 A worker: its files (src/fs/fs.c), the file operations (src/server/file_exec.c) and its client handler
 (src/server/server.c).
 */
module Workers {
  import opened Bytes
  import opened Packets
  import opened Text

  type Name = seq<byte>
  type Files = map<Name, seq<byte>>

  /** The two build-time tokens. */
  datatype Tokens = Tokens(master: nat, worker: nat)

  const READ_SIZE := 10000

  const FILE_READ: bv8 := 1
  const FILE_WRITE: bv8 := 2
  const FILE_APPEND: bv8 := 4
  const FILE_DELETE: bv8 := 8

  const DOT: Name := [46]
  const DOT_DOT: Name := [46, 46]

  // ---------- what the operations do ----------

  /** fs_write_file: the files afterwards and the returned count. */
  function Written(files: Files, name: Name, data: seq<byte>, append: bool): (r: (Files, int)) {
    if append && name !in files then (files, -1)
    else if append then (files[name := files[name] + data], |data|)
    else (files[name := data], |data|)
  }

  /** Fault: the source would follow a null pointer or run off the end of the argument. */
  datatype Outcome = Done(files: Files, out: seq<byte>) | Fault

  /** f_exec for the operation of a message type. */
  function Executed(files: Files, msgType: nat, arg: seq<byte>): (r: Outcome) {
    if msgType == READ then
      var name := CStr(arg);
      if name in files then Done(files, CStr(files[name])) else Fault
    else if msgType == WRITE || msgType == APPEND then
      if SEP !in arg then Fault
      else
        var (after, count) := Written(files, CStr(BeforeSep(arg)), CStr(AfterSep(arg)), msgType == APPEND);
        Done(after, Show(count))
    else if msgType == DELETE then Done(files - {CStr(arg)}, [])
    else Fault
  }

  /** A directory listing: every file and the two dot entries, each once, in some order. */
  ghost predicate IsListing(names: seq<Name>, files: Files) {
    && (forall n :: n in names <==> n in files || n == DOT || n == DOT_DOT)
    && forall i, j :: 0 <= i < j < |names| ==> names[i] != names[j]
  }

  datatype Served = Served(files: Files, reply: Option<Packet>) | Crashed

  function NextSeq(n: nat): (r: nat) {
    (n + 1) % INT_SPAN
  }

  /** handle_client once a packet has been decoded; listing is what readdir gives. */
  function Serve(files: Files, p: Packet, listing: seq<Name>, t: Tokens): (r: Served) {
    if p.token != t.master then Served(files, None)
    else if p.msgType == PING then Served(files, Some(Init(NextSeq(p.seqNumber), [ZERO + 1], PING)))
    else if p.msgType == LS then Served(files, Some(Init(NextSeq(p.seqNumber), Join(listing), LS)))
    else
      match Executed(files, p.msgType, p.arg)
      case Fault => Crashed
      case Done(after, out) => Served(after, Some(WithToken(Init(NextSeq(p.seqNumber), out, p.msgType), t.worker)))
  }

  /** How many bytes the handler writes for a reply. */
  function ReplyLength(reply: Packet): (n: nat) {
    if reply.msgType == PING then 13
    else if reply.msgType == LS then |reply.arg| + SIZEOF_PACKET
    else SIZEOF_PACKET + |reply.arg| + 1
  }

  // ---------- the code ----------

  datatype Reply = Silent | Sent(bytes: seq<byte>) | Down

  /** file_name: the source scans for ';' without looking at the length. */
  method FileName(ptr: seq<byte>) returns (name: Name)
    requires SEP in ptr
    ensures name == CStr(BeforeSep(ptr))
  {
    var counter := 0;
    while ptr[counter] != SEP
      invariant 0 <= counter <= IndexOf(ptr, SEP)
      decreases |ptr| - counter
    {
      counter := counter + 1;
    }
    counter := counter + 1;
    name := CStr(ptr[..counter - 1]);
  }

  /** buffer. */
  method Buffer(ptr: seq<byte>) returns (data: seq<byte>)
    requires SEP in ptr
    ensures data == AfterSep(ptr)
  {
    var counter := 0;
    while ptr[counter] != SEP
      invariant 0 <= counter <= IndexOf(ptr, SEP)
      decreases |ptr| - counter
    {
      counter := counter + 1;
    }
    counter := counter + 1;
    data := ptr[counter..];
  }

  class Worker {
    var files: Files
    const tokens: Tokens

    constructor (files: Files, tokens: Tokens)
      ensures this.files == files && this.tokens == tokens
    {
      this.files, this.tokens := files, tokens;
    }

    /** fs_create_file: opening for writing truncates. */
    method CreateFile(name: Name)
      modifies this
      ensures files == old(files)[name := []]
    {
      files := files[name := []];
    }

    /** fs_write_file. */
    method FsWriteFile(name: Name, data: seq<byte>, append: bool) returns (count: int)
      modifies this
      ensures (files, count) == Written(old(files), name, CStr(data), append)
    {
      if append && name !in files {
        return -1;
      } else if name !in files {
        CreateFile(name);
      }
      var text := CStr(data);
      if append {
        files := files[name := files[name] + text];
      } else {
        files := files[name := text];
        assert files == old(files)[name := text];
      }
      return |text|;
    }

    /** fs_delete_file. */
    method FsDeleteFile(name: Name)
      modifies this
      ensures files == old(files) - {name}
    {
      if name !in files {
        return;
      }
      files := files - {name};
    }

    /** f_exec, with the single operation flags handle_client passes. */
    method FExec(op: bv8, arg: seq<byte>, ghost msgType: nat) returns (ok: bool, out: seq<byte>)
      requires (op, msgType) in {(FILE_READ, READ), (FILE_WRITE, WRITE), (FILE_APPEND, APPEND), (FILE_DELETE, DELETE)}
      modifies this
      ensures ok ==> Executed(old(files), msgType, arg) == Done(files, out)
      ensures !ok ==> Executed(old(files), msgType, arg) == Fault && files == old(files)
    {
      out := [];
      if op & FILE_READ != 0 {
        var name := CStr(arg);
        if name !in files {
          return false, [];
        }
        out := CStr(files[name]);
      }
      if op & FILE_WRITE != 0 {
        if SEP !in arg {
          return false, [];
        }
        out := WriteFile(arg, false);
      }
      if op & FILE_APPEND != 0 {
        if SEP !in arg {
          return false, [];
        }
        out := WriteFile(arg, true);
      }
      if op & FILE_DELETE != 0 {
        FsDeleteFile(CStr(arg));
      }
      ok := true;
    }

    /** write_file, applied to file_name(arg) and buffer(arg). */
    method WriteFile(arg: seq<byte>, append: bool) returns (out: seq<byte>)
      requires SEP in arg
      modifies this
      ensures Executed(old(files), if append then APPEND else WRITE, arg) == Done(files, out)
    {
      var name := FileName(arg);
      var data := Buffer(arg);
      var count := FsWriteFile(name, data, append);
      out := Show(count);
    }

    /** file_list: the readdir loop, in the directory's own order. */
    method FileList() returns (names: seq<Name>)
      ensures IsListing(names, files)
      ensures forall n :: n in names <==> n in files || n == [46 as byte] || n == [46 as byte, 46]
    {
      var rest := files.Keys + {DOT, DOT_DOT};
      names := [];
      while rest != {}
        invariant rest <= files.Keys + {DOT, DOT_DOT}
        invariant forall n :: n in names <==> n in files.Keys + {DOT, DOT_DOT} - rest
        invariant forall i, j :: 0 <= i < j < |names| ==> names[i] != names[j]
        decreases rest
      {
        var d :| d in rest;
        assert d !in names;
        names := names + [d];
        rest := rest - {d};
      }
    }

    /**
     handle_client on what a client has sent. The ghost results are the read buffer, which holds junk behind the
     bytes that arrived, and the directory order a listing used.
     */
    method HandleClient(input: seq<byte>) returns (reply: Reply, ghost buf: seq<byte>, ghost listing: seq<Name>)
      modifies this
      ensures IsListing(listing, old(files))
      ensures input == [] ==> reply == Silent && files == old(files)
      ensures input != [] ==> |buf| == 10000 && ReadFrom(input, buf)
      ensures input != [] ==>
                match Decoding(buf)
                case None => reply == Down && files == old(files)
                case Some(p) =>
                  && Answered(old(files), p, listing, tokens, files, reply)
                  && (p.token != tokens.master ==> reply == Silent && files == old(files))
    {
      var names := FileList();
      listing := names;
      buf := [];
      if |input| == 0 {
        return Silent, buf, listing;
      }
      var buffer := ReadInto(input, READ_SIZE);
      buf := buffer[..];
      if Decoding(buffer[..]).None? {
        return Down, buf, listing;
      }
      var p := Decode(buffer);
      reply := Dispatch(p, names);
    }

    /** The token gate and the dispatch on the message type. */
    method Dispatch(p: Packet, names: seq<Name>) returns (reply: Reply)
      modifies this
      ensures Answered(old(files), p, names, tokens, files, reply)
    {
      if p.token != tokens.master {
        return Silent;
      } else if p.msgType == PING {
        var bytes := Send(Init(NextSeq(p.seqNumber), [ZERO + 1], PING), 13);
        return Sent(bytes);
      } else if p.msgType == LS {
        var ls := FileListToStr(names);
        var q := Init(NextSeq(p.seqNumber), ls, LS);
        var bytes := Send(q, |q.arg| + SIZEOF_PACKET);
        return Sent(bytes);
      }
      var op: bv8 := 0;
      match p.msgType {
        case 3 => op := FILE_READ;
        case 2 => op := FILE_WRITE;
        case 4 => op := FILE_APPEND;
        case 6 => op := FILE_DELETE;
        case _ => return Down;
      }
      var ok, out := FExec(op, p.arg, p.msgType);
      if !ok {
        return Down;
      }
      var q := WithToken(Init(NextSeq(p.seqNumber), out, p.msgType), tokens.worker);
      var bytes := Send(q, SIZEOF_PACKET + |q.arg| + 1);
      return Sent(bytes);
    }
  }

  /** The files and the bytes written are those Serve describes. */
  ghost predicate Answered(before: Files, p: Packet, listing: seq<Name>, t: Tokens, after: Files, reply: Reply) {
    match Serve(before, p, listing, t)
    case Crashed => reply == Down && after == before
    case Served(files, None) => reply == Silent && after == files
    case Served(files, Some(q)) => reply.Sent? && SentFrom(q, ReplyLength(q), reply.bytes) && after == files
  }
}
