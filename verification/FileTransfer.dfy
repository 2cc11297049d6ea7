/** Streaming a file: the message stream a delta or a whole file becomes, and the receiver
    that rebuilds it into a temporary file, digests it as it goes, and puts it in place
    only when the digest is the announced one. SHA-256 is an arbitrary function; its
    running context is the bytes it has absorbed. */
module FileTransfer {
  import opened Types
  import D = Delta
  import W = SendWindow

  datatype Message =
    | FileStart(xid: nat, path: Path, mtime: i64, mode: u32, isDelta: bool)
    | FileLiteral(xid: nat, data: Bytes)
    | FileCopy(xid: nat, offset: nat, len: u32)
    | FileEnd(xid: nat, hash: Hash)

  // ----- The sending side -------------------------------------------------------

  /** A literal run, cut into messages of at most chunk bytes. */
  function LiteralMessages(xid: nat, data: Bytes, chunk: nat): seq<Message>
    requires 0 < chunk
    decreases |data|
  {
    if data == [] then [] else
      var n := D.Min(chunk, |data|);
      [FileLiteral(xid, data[..n])] + LiteralMessages(xid, data[n..], chunk)
  }

  function OpMessages(xid: nat, op: D.DeltaOp, chunk: nat): seq<Message>
    requires 0 < chunk
  {
    match op
    case Copy(offset, len) => [FileCopy(xid, offset, len)]
    case Literal(data) => LiteralMessages(xid, data, chunk)
  }

  function OpsMessages(xid: nat, ops: seq<D.DeltaOp>, chunk: nat): seq<Message>
    requires 0 < chunk
  {
    if ops == [] then [] else OpsMessages(xid, ops[..|ops| - 1], chunk) + OpMessages(xid, ops[|ops| - 1], chunk)
  }

  function DeltaStream(xid: nat, path: Path, mtime: i64, mode: u32, ops: seq<D.DeltaOp>, hash: Hash, chunk: nat): seq<Message>
    requires 0 < chunk
  {
    [FileStart(xid, path, mtime, mode, true)] + OpsMessages(xid, ops, chunk) + [FileEnd(xid, hash)]
  }

  function WholeStream(xid: nat, path: Path, mtime: i64, mode: u32, file: Bytes, hash: Hash, chunk: nat): seq<Message>
    requires 0 < chunk
  {
    [FileStart(xid, path, mtime, mode, false)] + LiteralMessages(xid, file, chunk) + [FileEnd(xid, hash)]
  }

  lemma LiteralMessagesUnfold(xid: nat, data: Bytes, off: nat, chunk: nat)
    requires 0 < chunk && off < |data|
    ensures var n := D.Min(chunk, |data| - off);
            off + n <= |data| &&
            LiteralMessages(xid, data[off..], chunk) ==
            [FileLiteral(xid, data[off..off + n])] + LiteralMessages(xid, data[off + n..], chunk)
  {
    var n := D.Min(chunk, |data| - off);
    assert data[off..][..n] == data[off..off + n] && data[off..][n..] == data[off + n..];
  }

  /** One more message sent leaves the rest of the data to send. */
  lemma OneMoreChunk(xid: nat, sent: seq<Message>, data: Bytes, off: nat, chunk: nat)
    requires 0 < chunk && off < |data|
    ensures var n := D.Min(chunk, |data| - off);
            && 0 < n <= |data| - off
            && sent + LiteralMessages(xid, data[off..], chunk) ==
               sent + [FileLiteral(xid, data[off..off + n])] + LiteralMessages(xid, data[off + n..], chunk)
            && data[..off + n] == data[..off] + data[off..off + n]
  {
    LiteralMessagesUnfold(xid, data, off, chunk);
    hide LiteralMessages;
  }

  lemma AllSent(xid: nat, sent: seq<Message>, data: Bytes, chunk: nat)
    requires 0 < chunk
    ensures sent + LiteralMessages(xid, data[|data|..], chunk) == sent && data[0..] == data[..|data|] == data
  {
  }

  method SendLiteral(xid: nat, data: Bytes, chunk: u32) returns (sent: seq<Message>)
    requires 0 < chunk
    ensures sent == LiteralMessages(xid, data, chunk)
  {
    hide *;
    sent := [];
    var off: nat := 0;
    AllSent(xid, sent, data, chunk);
    while off < |data|
      invariant off <= |data|
      invariant sent + LiteralMessages(xid, data[off..], chunk) == LiteralMessages(xid, data, chunk)
      decreases |data| - off
    {
      OneMoreChunk(xid, sent, data, off, chunk);
      var n := D.Min(chunk, |data| - off);
      sent := sent + [FileLiteral(xid, data[off..off + n])];
      off := off + n;
    }
    AllSent(xid, sent, data, chunk);
  }

  lemma MinBounds(a: nat, b: nat)
    ensures D.Min(a, b) <= a && D.Min(a, b) <= b && (0 < a && 0 < b ==> 0 < D.Min(a, b))
    ensures D.Min(a, b) == a || D.Min(a, b) == b
  {
  }

  method ServeDelta(strong: Bytes -> Strong, sha256: Bytes -> Hash, xid: nat, path: Path, mtime: i64, mode: u32,
                    sig: D.Signature, data: Bytes, chunk: u32)
    returns (sent: seq<Message>, d: D.Delta, ghost trace: seq<D.Step>)
    requires 0 < chunk
    ensures D.Greedy(strong, sig, data, trace, |data|) && d.ops == D.Emit(sig.blockSize, trace)
    ensures sent == DeltaStream(xid, path, mtime, mode, d.ops, sha256(data), chunk)
  {
    d, trace := D.ComputeDelta(strong, sig, data);
    StreamLayout(xid, path, mtime, mode, d.ops, data, sha256(data), chunk);
    hide *;
    ghost var ops := d.ops;
    var start := [FileStart(xid, path, mtime, mode, true)];
    var body: seq<Message> := [];
    for k := 0 to |d.ops|
      invariant body == OpsMessages(xid, ops[..k], chunk)
    {
      OneMoreOp(xid, ops, k, chunk);
      match d.ops[k] {
        case Copy(offset, len) =>
          body := body + [FileCopy(xid, offset, len)];
        case Literal(run) =>
          var messages := SendLiteral(xid, run, chunk);
          body := body + messages;
      }
    }
    assert ops[..|ops|] == ops;
    sent := start + body + [FileEnd(xid, sha256(data))];
  }

  lemma StreamLayout(xid: nat, path: Path, mtime: i64, mode: u32, ops: seq<D.DeltaOp>, file: Bytes, hash: Hash, chunk: nat)
    requires 0 < chunk
    ensures DeltaStream(xid, path, mtime, mode, ops, hash, chunk) ==
            [FileStart(xid, path, mtime, mode, true)] + OpsMessages(xid, ops, chunk) + [FileEnd(xid, hash)]
    ensures WholeStream(xid, path, mtime, mode, file, hash, chunk) ==
            [FileStart(xid, path, mtime, mode, false)] + LiteralMessages(xid, file, chunk) + [FileEnd(xid, hash)]
  {
  }

  lemma OneMoreOp(xid: nat, ops: seq<D.DeltaOp>, k: nat, chunk: nat)
    requires 0 < chunk && k < |ops|
    ensures OpsMessages(xid, ops[..k + 1], chunk) == OpsMessages(xid, ops[..k], chunk) + OpMessages(xid, ops[k], chunk)
    ensures ops[k].Copy? ==> OpMessages(xid, ops[k], chunk) == [FileCopy(xid, ops[k].offset, ops[k].len)]
    ensures ops[k].Literal? ==> OpMessages(xid, ops[k], chunk) == LiteralMessages(xid, ops[k].data, chunk)
  {
    assert ops[..k + 1][..k] == ops[..k];
  }

  /** A whole file, read, digested and sent a chunk at a time. A read that returns less than
      a chunk ends the loop, at the end of the file or, short, before it. */
  method SendWhole(xid: nat, file: Bytes, chunk: u32) returns (body: seq<Message>, digested: Bytes, short: bool)
    requires 0 < chunk
    ensures digested <= file && (!short ==> digested == file)
    ensures body == LiteralMessages(xid, digested, chunk)
  {
    hide *;
    body, digested, short := [], [], false;
    Nothing(xid, chunk);
    var pos: nat := 0;
    ghost var k: nat := 0;
    D.NextOffset(chunk, 0);
    while true
      invariant pos <= |file| && digested == file[..pos] && pos == D.Offset(chunk, k) && !short
      invariant body == LiteralMessages(xid, digested, chunk)
      decreases |file| - pos
    {
      var want := D.Min(chunk, |file| - pos);
      MinBounds(chunk, |file| - pos);
      var n: nat :| n <= want && (n == 0 ==> want == 0);
      short := n < want;
      if n == 0 {
        break;
      }
      ReadOn(xid, file, pos, n, chunk, k);
      digested := digested + file[pos..pos + n];
      body := body + [FileLiteral(xid, file[pos..pos + n])];
      pos := pos + n;
      if n < chunk {
        break;
      }
      D.NextOffset(chunk, k);
      k := k + 1;
    }
    assert pos == |file| ==> file[..pos] == file;
  }

  lemma Nothing(xid: nat, chunk: nat)
    requires 0 < chunk
    ensures LiteralMessages(xid, [], chunk) == []
  {
  }

  /** Whole chunks, then one read: the messages are those of what has been read. */
  lemma ReadOn(xid: nat, file: Bytes, pos: nat, n: nat, chunk: nat, k: nat)
    requires 0 < n <= chunk && pos + n <= |file| && pos == D.Offset(chunk, k)
    ensures LiteralMessages(xid, file[..pos + n], chunk) ==
            LiteralMessages(xid, file[..pos], chunk) + [FileLiteral(xid, file[pos..pos + n])]
    ensures file[..pos] + file[pos..pos + n] == file[..pos + n]
  {
    hide D.Offset;
    assert file[..pos + n] == file[..pos] + file[pos..pos + n];
    ChunksThenRest(xid, file[..pos], file[pos..pos + n], chunk, k);
  }

  lemma FirstChunk(xid: nat, data: Bytes, chunk: nat)
    requires 0 < chunk <= |data|
    ensures LiteralMessages(xid, data, chunk) == [FileLiteral(xid, data[..chunk])] + LiteralMessages(xid, data[chunk..], chunk)
  {
  }

  lemma {:induction false} ChunksThenRest(xid: nat, whole: Bytes, rest: Bytes, chunk: nat, k: nat)
    requires 0 < chunk && |whole| == D.Offset(chunk, k) && 0 < |rest| <= chunk
    ensures LiteralMessages(xid, whole + rest, chunk) == LiteralMessages(xid, whole, chunk) + [FileLiteral(xid, rest)]
    decreases k
  {
    hide D.Offset;
    if k == 0 {
      D.NextOffset(chunk, 0);
      assert whole == [] && [] + rest == rest && rest[..|rest|] == rest && rest[|rest|..] == [];
    } else {
      D.NextOffset(chunk, k - 1);
      ChunksThenRest(xid, whole[chunk..], rest, chunk, k - 1);
      assert (whole + rest)[..chunk] == whole[..chunk] && (whole + rest)[chunk..] == whole[chunk..] + rest;
      FirstChunk(xid, whole, chunk);
      FirstChunk(xid, whole + rest, chunk);
      hide *;
    }
  }

  method ServeWhole(sha256: Bytes -> Hash, xid: nat, path: Path, mtime: i64, mode: u32, file: Bytes, chunk: u32)
    returns (sent: seq<Message>, read: Bytes, short: bool)
    requires 0 < chunk
    ensures read <= file && (!short ==> read == file)
    ensures sent == WholeStream(xid, path, mtime, mode, read, sha256(read), chunk)
  {
    var body;
    body, read, short := SendWhole(xid, file, chunk);
    sent := [FileStart(xid, path, mtime, mode, false)] + body + [FileEnd(xid, sha256(read))];
  }

  // ----- The receiving side -----------------------------------------------------

  /** A file on its way in. base is what the destination held when the transfer began.
      named says that the temporary file still has its name, which depends on the xid
      alone; without it the file can be written but not moved. */
  datatype Incoming = Incoming(path: Path, mtime: i64, mode: u32, isDelta: bool, base: Bytes,
                               temp: Bytes, absorbed: Bytes, onWire: nat, lastAck: nat, named: bool)

  /** How the disk serves one message: well, or with an error, gone telling whether the file
      that the error path removes is gone after it, or with a read that fails. */
  datatype Io = Fine | Fails(gone: bool) | Unreadable

  predicate Gone(io: Io) {
    io.Fails? && io.gone
  }

  /** What the receiver tells others: wire bytes acked, a whole file asked for again, a
      pull reservation handed back. */
  datatype Reply = Acks(xid: nat, bytes: nat) | Retry(path: Path) | Release(path: Path)

  datatype Receiver = Receiver(files: map<Path, Bytes>, local: Tree, incoming: map<nat, Incoming>, out: seq<Reply>)

  function Append(t: Incoming, data: Bytes): Incoming {
    t.(temp := t.temp + data, absorbed := t.absorbed + data)
  }

  function Fail(r: Receiver, xid: nat, reply: Reply): Receiver {
    r.(incoming := r.incoming - {xid}, out := r.out + [reply])
  }

  function HandleLiteral(r: Receiver, xid: nat, data: Bytes, io: Io): Receiver {
    if xid !in r.incoming then r
    else if !io.Fine? then Fail(r, xid, Release(r.incoming[xid].path))
    else
      var t := Append(r.incoming[xid], data).(onWire := r.incoming[xid].onWire + |data|);
      if t.onWire - t.lastAck >= W.ACK_INTERVAL then
        r.(incoming := r.incoming[xid := t.(lastAck := t.onWire)], out := r.out + [Acks(xid, t.onWire)])
      else r.(incoming := r.incoming[xid := t])
  }

  function HandleCopy(r: Receiver, xid: nat, offset: nat, len: nat, io: Io): Receiver {
    if xid !in r.incoming || !r.incoming[xid].isDelta || (len == 0 && io.Fine?) then r
    else if !io.Fine? || offset + len > |r.incoming[xid].base| then Fail(r, xid, Release(r.incoming[xid].path))
    else r.(incoming := r.incoming[xid := Append(r.incoming[xid], r.incoming[xid].base[offset..offset + len])])
  }

  /** A start clears the temporary name and opens it afresh. On an xid that is open already
      the transfer it takes over from removes that name as it goes, so the new one's file
      is left without it; a start that fails can take the open one's name too. */
  function HandleStart(r: Receiver, m: Message, io: Io, safe: Path -> bool): Receiver
    requires m.FileStart?
  {
    if !safe(m.path) then r.(out := r.out + [Release(m.path)])
    else if io.Fails? then Unname(r, m.xid, io).(out := r.out + [Release(m.path)])
    else if m.isDelta && (m.path !in r.files || io.Unreadable?) then Fail(r, m.xid, Release(m.path))
    else
      var base := if m.isDelta then r.files[m.path] else [];
      r.(incoming := r.incoming[m.xid :=
           Incoming(m.path, m.mtime, m.mode, m.isDelta, base, [], [], 0, 0, m.xid !in r.incoming)])
  }

  function Unname(r: Receiver, xid: nat, io: Io): Receiver {
    if xid in r.incoming && Gone(io) then r.(incoming := r.incoming[xid := r.incoming[xid].(named := false)]) else r
  }

  function PlacedMeta(t: Incoming, hash: Hash): FileMeta {
    FileMeta(|t.temp| % MOD64, t.mtime, t.mode, hash)
  }

  /** A move that fails may have removed the old copy to make room; one whose source has no
      name fails whatever the disk does, and removes it unless that fails as well. */
  predicate LosesCopy(t: Incoming, io: Io) {
    Gone(io) || (!t.named && io.Fine?)
  }

  function HandleEnd(r: Receiver, xid: nat, hash: Hash, io: Io, sha256: Bytes -> Hash): Receiver {
    if xid !in r.incoming then r
    else
      var t := r.incoming[xid];
      if sha256(t.absorbed) != hash then Fail(r, xid, if t.isDelta then Retry(t.path) else Release(t.path))
      else
        var closed := Fail(r.(out := r.out + [Acks(xid, t.onWire)]), xid, Release(t.path));
        if t.named && io.Fine? then
          closed.(files := r.files[t.path := t.temp], local := r.local[t.path := PlacedMeta(t, hash)])
        else if LosesCopy(t, io) then closed.(files := r.files - {t.path})
        else closed
  }

  function Handle(r: Receiver, m: Message, io: Io, sha256: Bytes -> Hash, safe: Path -> bool): Receiver {
    match m
    case FileStart(_, _, _, _, _) => HandleStart(r, m, io, safe)
    case FileLiteral(xid, data) => HandleLiteral(r, xid, data, io)
    case FileCopy(xid, offset, len) => HandleCopy(r, xid, offset, len, io)
    case FileEnd(xid, hash) => HandleEnd(r, xid, hash, io, sha256)
  }

  function WriteAt(file: Bytes, pos: nat, data: Bytes): Bytes
    requires pos <= |file|
  {
    file[..pos] + data + (if pos + |data| < |file| then file[pos + |data|..] else [])
  }

  lemma WriteAtEnd(file: Bytes, data: Bytes)
    ensures WriteAt(file, |file|, data) == file + data
  {
  }

  lemma CopyGrows(t: Incoming, offset: nat, src: nat, got: nat)
    requires offset <= src && src + got <= |t.base|
    ensures Append(Append(t, t.base[offset..src]), t.base[src..src + got]) == Append(t, t.base[offset..src + got])
  {
    var a, b := t.base[offset..src], t.base[src..src + got];
    assert t.base[offset..src + got] == a + b;
    assert t.temp + a + b == t.temp + (a + b) && t.absorbed + a + b == t.absorbed + (a + b);
  }

  /** What one rename comes to. */
  datatype Renamed = Moved | CrossesDevice | Refused

  /** The receive-side handlers of a session. Each reports how the disk served it. */
  class Session {
    var files: map<Path, Bytes>
    var local: Tree
    var incoming: map<nat, Incoming>
    var out: seq<Reply>

    constructor (files: map<Path, Bytes>, local: Tree)
      ensures View() == Receiver(files, local, map[], [])
    {
      this.files, this.local, incoming, out := files, local, map[], [];
    }

    ghost function View(): Receiver
      reads this
    {
      Receiver(files, local, incoming, out)
    }

    method FailIncoming(xid: nat, reply: Reply)
      modifies this
      ensures View() == Fail(old(View()), xid, reply)
    {
      incoming := incoming - {xid};
      out := out + [reply];
    }

    method HandleFileStart(m: Message, safe: Path -> bool) returns (io: Io)
      requires m.FileStart?
      modifies this
      ensures View() == HandleStart(old(View()), m, io, safe)
    {
      io := *;
      if !safe(m.path) {
        out := out + [Release(m.path)];
        return;
      }
      if io.Fails? {
        if m.xid in incoming && io.gone {
          incoming := incoming[m.xid := incoming[m.xid].(named := false)];
        }
        out := out + [Release(m.path)];
        return;
      }
      if m.isDelta && (m.path !in files || io.Unreadable?) {
        FailIncoming(m.xid, Release(m.path));
        return;
      }
      var base := if m.isDelta then files[m.path] else [];
      var replaced := m.xid in incoming;
      incoming := incoming[m.xid := Incoming(m.path, m.mtime, m.mode, m.isDelta, base, [], [], 0, 0, true)];
      if replaced {
        incoming := incoming[m.xid := incoming[m.xid].(named := false)];
      }
    }

    method HandleFileLiteral(xid: nat, data: Bytes) returns (io: Io)
      modifies this
      ensures View() == HandleLiteral(old(View()), xid, data, io)
    {
      io := *;
      if xid !in incoming {
        return;
      }
      var t := incoming[xid];
      if !io.Fine? {
        FailIncoming(xid, Release(t.path));
        return;
      }
      WriteAtEnd(t.temp, data);
      t := t.(temp := WriteAt(t.temp, |t.temp|, data), absorbed := t.absorbed + data, onWire := t.onWire + |data|);
      if t.onWire - t.lastAck >= W.ACK_INTERVAL {
        t := t.(lastAck := t.onWire);
        out := out + [Acks(xid, t.onWire)];
      }
      incoming := incoming[xid := t];
    }

    /** Copies through a 64 KiB buffer; a read may return less than asked for, and
        returns nothing only at the end of the base or on an error. */
    method HandleFileCopy(xid: nat, offset: nat, len: u32) returns (io: Io)
      modifies this
      ensures View() == HandleCopy(old(View()), xid, offset, len, io)
    {
      io := Fine;
      if xid !in incoming || !incoming[xid].isDelta {
        return;
      }
      var t := incoming[xid];
      var buffer := D.Min(len, 64 * 1024);
      var left: nat, src: nat := len, offset;
      ghost var t0 := t;
      while left > 0
        invariant View() == old(View()) && io.Fine?
        invariant left <= len && src == offset + (len - left)
        invariant left < len ==> src <= |t0.base|
        invariant t == if left == len then t0 else Append(t0, t0.base[offset..src])
      {
        io := *;
        if !io.Fine? {
          FailIncoming(xid, Release(t.path));
          return;
        }
        var want := D.Min(buffer, left);
        if src >= |t.base| {
          FailIncoming(xid, Release(t.path));
          return;
        }
        var got: nat :| 1 <= got <= want && src + got <= |t.base|;
        var piece := t.base[src..src + got];
        WriteAtEnd(t.temp, piece);
        CopyGrows(t0, offset, src, got);
        t := t.(temp := WriteAt(t.temp, |t.temp|, piece), absorbed := t.absorbed + piece);
        src, left := src + got, left - got;
      }
      assert incoming[xid := t0] == incoming;
      incoming := incoming[xid := t];
    }

    /** One rename onto the destination, from the temporary file or from a copy of it; without
        the file it is from it cannot succeed. */
    method Rename(t: Incoming, present: bool) returns (result: Renamed)
      modifies this`files
      ensures result.Moved? ==> present && files == old(files)[t.path := t.temp]
      ensures !result.Moved? ==> files == old(files)
      ensures result.CrossesDevice? ==> present
    {
      result := *;
      if !present {
        return Refused;
      }
      if result.Moved? {
        files := files[t.path := t.temp];
      }
    }

    /** Removing the old copy, which may be held open. */
    method RemoveFile(p: Path) returns (gone: bool)
      modifies this`files
      ensures files == if gone then old(files) - {p} else old(files)
    {
      gone := *;
      if gone {
        files := files - {p};
      }
    }

    /** Move the temporary file onto the destination: rename it, or across devices a copy of
        it; and where that is refused, drop the old copy and try once more. */
    method MoveReplace(t: Incoming) returns (moved: bool, io: Io)
      modifies this`files
      ensures moved <==> t.named && io.Fine?
      ensures files == if moved then old(files)[t.path := t.temp]
                       else if LosesCopy(t, io) then old(files) - {t.path} else old(files)
    {
      var result := Rename(t, t.named);
      if result.Moved? {
        return true, Fine;
      }
      if result.CrossesDevice? {
        var copied: bool := *;
        if !copied {
          return false, Fails(false);
        }
        result := Rename(t, true);
        if result.Moved? {
          return true, Fine;
        }
      }
      var gone := RemoveFile(t.path);
      result := Rename(t, t.named);
      if result.Moved? {
        assert old(files)[t.path := t.temp] == (old(files) - {t.path})[t.path := t.temp];
        return true, Fine;
      }
      moved := false;
      io := if !t.named && gone then Fine else Fails(gone);
    }

    method HandleFileEnd(xid: nat, expected: Hash, sha256: Bytes -> Hash) returns (io: Io)
      modifies this
      ensures View() == HandleEnd(old(View()), xid, expected, io, sha256)
    {
      io := Fine;
      if xid !in incoming {
        return;
      }
      var t := incoming[xid];
      var got := sha256(t.absorbed);
      if got != expected {
        FailIncoming(xid, if t.isDelta then Retry(t.path) else Release(t.path));
        return;
      }
      out := out + [Acks(xid, t.onWire)];
      var moved;
      moved, io := MoveReplace(t);
      if moved {
        local := local[t.path := PlacedMeta(t, got)];
      }
      FailIncoming(xid, Release(t.path));
    }
  }

  // ----- Any messages, any errors -----------------------------------------------

  datatype Event = Event(message: Message, io: Io)

  function HandleAll(r: Receiver, events: seq<Event>, sha256: Bytes -> Hash, safe: Path -> bool): Receiver {
    if events == [] then r else
      var last := events[|events| - 1];
      Handle(HandleAll(r, events[..|events| - 1], sha256, safe), last.message, last.io, sha256, safe)
  }

  // ----- A sound stream, no errors ----------------------------------------------

  function Clean(messages: seq<Message>): seq<Event> {
    seq(|messages|, i requires 0 <= i < |messages| => Event(messages[i], Fine))
  }

  lemma {:induction false} HandleConcat(r: Receiver, xs: seq<Event>, ys: seq<Event>, sha256: Bytes -> Hash, safe: Path -> bool)
    ensures HandleAll(r, xs + ys, sha256, safe) == HandleAll(HandleAll(r, xs, sha256, safe), ys, sha256, safe)
  {
    if ys == [] {
      assert xs + ys == xs;
    } else {
      HandleConcat(r, xs, ys[..|ys| - 1], sha256, safe);
      assert (xs + ys)[..|xs + ys| - 1] == xs + ys[..|ys| - 1];
    }
  }

  /** r' is r with data appended to transfer xid, up to acks. */
  ghost predicate Grew(r: Receiver, r': Receiver, xid: nat, data: Bytes) {
    && xid in r.incoming && xid in r'.incoming
    && r'.files == r.files && r'.local == r.local
    && var t, t' := r.incoming[xid], r'.incoming[xid];
       t'.path == t.path && t'.mtime == t.mtime && t'.mode == t.mode && t'.isDelta == t.isDelta && t'.base == t.base && t'.named == t.named &&
       t'.temp == t.temp + data && t'.absorbed == t.absorbed + data
  }

  lemma GrewTwice(r: Receiver, r': Receiver, r'': Receiver, xid: nat, a: Bytes, b: Bytes)
    requires Grew(r, r', xid, a) && Grew(r', r'', xid, b)
    ensures Grew(r, r'', xid, a + b)
  {
    var t := r.incoming[xid];
    assert t.temp + a + b == t.temp + (a + b) && t.absorbed + a + b == t.absorbed + (a + b);
  }

  lemma OneMessage(r: Receiver, m: Message, sha256: Bytes -> Hash, safe: Path -> bool)
    ensures HandleAll(r, Clean([m]), sha256, safe) == Handle(r, m, Fine, sha256, safe)
  {
    assert Clean([m])[..0] == [];
  }

  lemma CleanConcat(xs: seq<Message>, ys: seq<Message>)
    ensures Clean(xs + ys) == Clean(xs) + Clean(ys)
  {
  }

  /** However a literal run is chunked, all of it arrives, in order. */
  lemma {:induction false} LiteralArrives(r: Receiver, xid: nat, data: Bytes, chunk: nat, sha256: Bytes -> Hash, safe: Path -> bool)
    requires 0 < chunk && xid in r.incoming
    ensures Grew(r, HandleAll(r, Clean(LiteralMessages(xid, data, chunk)), sha256, safe), xid, data)
    decreases |data|
  {
    if data == [] {
      var t := r.incoming[xid];
      assert t.temp + [] == t.temp && t.absorbed + [] == t.absorbed;
    } else {
      var n := D.Min(chunk, |data|);
      var m := FileLiteral(xid, data[..n]);
      var r' := Handle(r, m, Fine, sha256, safe);
      assert Grew(r, r', xid, data[..n]);
      var rest := LiteralMessages(xid, data[n..], chunk);
      hide LiteralMessages, Handle, Grew;
      OneMessage(r, m, sha256, safe);
      CleanConcat([m], rest);
      HandleConcat(r, Clean([m]), Clean(rest), sha256, safe);
      StillComing(r, r', xid, data[..n]);
      LiteralArrives(r', xid, data[n..], chunk, sha256, safe);
      GrewTwice(r, r', HandleAll(r', Clean(rest), sha256, safe), xid, data[..n], data[n..]);
      assert LiteralMessages(xid, data, chunk) == [m] + rest;
      assert data[..n] + data[n..] == data;
    }
  }

  lemma StillComing(r: Receiver, r': Receiver, xid: nat, data: Bytes)
    requires Grew(r, r', xid, data)
    ensures xid in r'.incoming && r'.incoming[xid].isDelta == r.incoming[xid].isDelta
    ensures r'.incoming[xid].base == r.incoming[xid].base
  {
  }

  /** The transfer was dropped: nothing more of it can reach the tree. */
  ghost predicate Dropped(r: Receiver, r': Receiver, xid: nat) {
    r'.files == r.files && r'.local == r.local && xid !in r'.incoming
  }

  lemma {:induction false} DroppedStaysDropped(r: Receiver, messages: seq<Message>, xid: nat, sha256: Bytes -> Hash, safe: Path -> bool)
    requires xid !in r.incoming
    requires forall k :: 0 <= k < |messages| ==> !messages[k].FileStart? && messages[k].xid == xid
    ensures HandleAll(r, Clean(messages), sha256, safe) == r
  {
    if messages != [] {
      var n := |messages| - 1;
      assert Clean(messages)[..n] == Clean(messages[..n]);
      DroppedStaysDropped(r, messages[..n], xid, sha256, safe);
    }
  }

  /** The sizes the send window counts: never empty, and a chunk, but for the last one at most
      that. */
  lemma {:induction false} LiteralMessagesAreLiteral(xid: nat, data: Bytes, chunk: nat)
    requires 0 < chunk
    ensures forall k :: 0 <= k < |LiteralMessages(xid, data, chunk)| ==>
              var m := LiteralMessages(xid, data, chunk)[k];
              m.FileLiteral? && m.xid == xid && 1 <= |m.data| <= chunk
    ensures forall k :: 0 <= k < |LiteralMessages(xid, data, chunk)| - 1 ==> |LiteralMessages(xid, data, chunk)[k].data| == chunk
    decreases |data|
  {
    if data != [] {
      LiteralMessagesAreLiteral(xid, data[D.Min(chunk, |data|)..], chunk);
    }
  }

  /** One instruction of a delta: its bytes arrive, or, reaching past the base, it drops
      the transfer. */
  lemma OpArrives(r: Receiver, xid: nat, op: D.DeltaOp, chunk: nat, sha256: Bytes -> Hash, safe: Path -> bool)
    requires 0 < chunk && xid in r.incoming && r.incoming[xid].isDelta
    ensures var r' := HandleAll(r, Clean(OpMessages(xid, op, chunk)), sha256, safe);
            var base := r.incoming[xid].base;
            match op
            case Copy(offset, len) =>
              if len == 0 then Grew(r, r', xid, [])
              else if offset + len > |base| then Dropped(r, r', xid)
              else Grew(r, r', xid, base[offset..offset + len])
            case Literal(data) => Grew(r, r', xid, data)
  {
    match op
    case Copy(offset, len) =>
      OneMessage(r, FileCopy(xid, offset, len), sha256, safe);
      var t := r.incoming[xid];
      assert t.temp + [] == t.temp && t.absorbed + [] == t.absorbed;
    case Literal(data) => LiteralArrives(r, xid, data, chunk, sha256, safe);
  }

  lemma OpMessagesAreMine(xid: nat, op: D.DeltaOp, chunk: nat)
    requires 0 < chunk
    ensures forall k :: 0 <= k < |OpMessages(xid, op, chunk)| ==>
              !OpMessages(xid, op, chunk)[k].FileStart? && OpMessages(xid, op, chunk)[k].xid == xid
  {
    if op.Literal? {
      LiteralMessagesAreLiteral(xid, op.data, chunk);
    }
  }

  // An empty COPY is read back as nothing wherever it points, while the patcher calls one
  // past the end of the base malformed.

  predicate Overruns(base: Bytes, op: D.DeltaOp) {
    op.Copy? && op.len > 0 && op.offset + op.len > |base|
  }

  predicate Strays(base: Bytes, op: D.DeltaOp) {
    op.Copy? && op.len == 0 && op.offset > |base|
  }

  /** What streaming the instructions rebuilds; None when a COPY overruns the base. */
  function Streamed(base: Bytes, ops: seq<D.DeltaOp>): Option<Bytes> {
    if ops == [] then Some([])
    else
      var out, op := Streamed(base, ops[..|ops| - 1]), ops[|ops| - 1];
      if out.None? || Overruns(base, op) then None
      else Some(out.value + (match op case Copy(offset, len) => if len == 0 then [] else base[offset..offset + len]
                                      case Literal(data) => data))
  }

  lemma {:induction false} StreamedFailsExactly(base: Bytes, ops: seq<D.DeltaOp>)
    ensures Streamed(base, ops).None? <==> exists k :: 0 <= k < |ops| && Overruns(base, ops[k])
    ensures D.ApplyOps(base, ops).None? <==> exists k :: 0 <= k < |ops| && (Overruns(base, ops[k]) || Strays(base, ops[k]))
    ensures Streamed(base, ops).Some? && D.ApplyOps(base, ops).Some? ==> Streamed(base, ops) == D.ApplyOps(base, ops)
  {
    if ops != [] {
      var before := ops[..|ops| - 1];
      StreamedFailsExactly(base, before);
      var last := ops[|ops| - 1];
      assert forall k :: 0 <= k < |before| ==> before[k] == ops[k];
      assert forall k :: 0 <= k < |ops| ==> k == |ops| - 1 || ops[k] == before[k];
      assert ops[|ops| - 1] == last;
      if last.Copy? && last.len == 0 && last.offset <= |base| {
        assert base[last.offset..last.offset + last.len] == [];
      }
    }
  }

  /** Streaming refines the whole-buffer patch, exactly unless an empty COPY points past the
      base in a delta that is otherwise well formed. */
  lemma StreamedIsPatchedExactly(base: Bytes, ops: seq<D.DeltaOp>)
    ensures Streamed(base, ops) == D.ApplyOps(base, ops) <==>
            ((exists k :: 0 <= k < |ops| && Strays(base, ops[k])) ==> exists k :: 0 <= k < |ops| && Overruns(base, ops[k]))
  {
    StreamedFailsExactly(base, ops);
    hide *;
    if k :| 0 <= k < |ops| && Strays(base, ops[k]) {
      assert Overruns(base, ops[k]) || Strays(base, ops[k]);
      assert D.ApplyOps(base, ops).None?;
    }
    if D.ApplyOps(base, ops).None? {
      var k :| 0 <= k < |ops| && (Overruns(base, ops[k]) || Strays(base, ops[k]));
    }
  }

  /** Consuming the messages of a delta appends exactly what streaming it rebuilds, or drops
      the transfer. */
  lemma {:induction false} OpsArrive(r: Receiver, xid: nat, ops: seq<D.DeltaOp>, chunk: nat, sha256: Bytes -> Hash, safe: Path -> bool)
    requires 0 < chunk && xid in r.incoming && r.incoming[xid].isDelta
    ensures var r', streamed := HandleAll(r, Clean(OpsMessages(xid, ops, chunk)), sha256, safe), Streamed(r.incoming[xid].base, ops);
            if streamed.Some? then Grew(r, r', xid, streamed.value) else Dropped(r, r', xid)
  {
    if ops == [] {
      var t := r.incoming[xid];
      assert t.temp + [] == t.temp && t.absorbed + [] == t.absorbed;
    } else {
      var n := |ops| - 1;
      var before, op, base := ops[..n], ops[n], r.incoming[xid].base;
      OpsArrive(r, xid, before, chunk, sha256, safe);
      var first, last := OpsMessages(xid, before, chunk), OpMessages(xid, op, chunk);
      assert OpsMessages(xid, ops, chunk) == first + last;
      var mid := HandleAll(r, Clean(first), sha256, safe);
      CleanConcat(first, last);
      HandleConcat(r, Clean(first), Clean(last), sha256, safe);
      if Streamed(base, before).None? {
        OpMessagesAreMine(xid, op, chunk);
        DroppedStaysDropped(mid, last, xid, sha256, safe);
      } else {
        OneOpFurther(r, mid, xid, ops, chunk, sha256, safe);
      }
    }
  }

  lemma OneOpFurther(r: Receiver, mid: Receiver, xid: nat, ops: seq<D.DeltaOp>, chunk: nat, sha256: Bytes -> Hash, safe: Path -> bool)
    requires 0 < chunk && xid in r.incoming && r.incoming[xid].isDelta && ops != []
    requires var out := Streamed(r.incoming[xid].base, ops[..|ops| - 1]); out.Some? && Grew(r, mid, xid, out.value)
    ensures var r' := HandleAll(mid, Clean(OpMessages(xid, ops[|ops| - 1], chunk)), sha256, safe);
            var streamed := Streamed(r.incoming[xid].base, ops);
            if streamed.Some? then Grew(r, r', xid, streamed.value) else Dropped(r, r', xid)
  {
    var op, base := ops[|ops| - 1], r.incoming[xid].base;
    var out := Streamed(base, ops[..|ops| - 1]).value;
    StillComing(r, mid, xid, out);
    OpArrives(mid, xid, op, chunk, sha256, safe);
    var r' := HandleAll(mid, Clean(OpMessages(xid, op, chunk)), sha256, safe);
    match op
    case Copy(offset, len) =>
      if len == 0 {
        GrewTwice(r, mid, r', xid, out, []);
      } else if offset + len <= |base| {
        GrewTwice(r, mid, r', xid, out, base[offset..offset + len]);
      }
    case Literal(data) =>
      GrewTwice(r, mid, r', xid, out, data);
  }

  // ----- How the receiver appears to the other machines -------------------------

  function AcksOf(out: seq<Reply>): seq<W.Ack> {
    if out == [] then []
    else AcksOf(out[..|out| - 1]) + (if out[|out| - 1].Acks? then [W.Ack(out[|out| - 1].xid, out[|out| - 1].bytes)] else [])
  }

  /** The window's receiver stands where this transfer stands. */
  ghost predicate InStep(r: Receiver, xid: nat, s: W.System) {
    && xid in r.incoming && s.counters.xid == xid
    && s.onWire == r.incoming[xid].onWire && s.lastAck == r.incoming[xid].lastAck && s.acks == AcksOf(r.out)
  }

  lemma AcksSnoc(out: seq<Reply>, reply: Reply)
    ensures AcksOf(out + [reply]) == AcksOf(out) + (if reply.Acks? then [W.Ack(reply.xid, reply.bytes)] else [])
  {
    assert (out + [reply])[..|out|] == out;
  }

  /** A literal that arrives moves the counters and sends the acks the send window's
      theorems are about. */
  lemma LiteralsAckAsTheWindowExpects(r: Receiver, xid: nat, s: W.System, data: Bytes)
    requires InStep(r, xid, s)
    ensures InStep(HandleLiteral(r, xid, data, Fine), xid, W.Received(s, W.Lit(|data|)))
  {
    AcksSnoc(r.out, Acks(xid, r.incoming[xid].onWire + |data|));
    hide AcksOf;
  }

  /** So does the end of a transfer that verifies. */
  lemma EndAcksAsTheWindowExpects(r: Receiver, xid: nat, s: W.System, hash: Hash, sha256: Bytes -> Hash)
    requires InStep(r, xid, s) && sha256(r.incoming[xid].absorbed) == hash
    ensures AcksOf(HandleEnd(r, xid, hash, Fine, sha256).out) == W.Received(s, W.End).acks
  {
    var t := r.incoming[xid];
    AcksSnoc(r.out, Acks(xid, t.onWire));
    AcksSnoc(r.out + [Acks(xid, t.onWire)], Release(t.path));
    hide AcksOf;
    assert HandleEnd(r, xid, hash, Fine, sha256).out == r.out + [Acks(xid, t.onWire)] + [Release(t.path)];
  }

  // ----- A whole transfer -------------------------------------------------------

  /** r' is r with content at path, described by this metadata. */
  ghost predicate Placed(r: Receiver, r': Receiver, path: Path, content: Bytes, mtime: i64, mode: u32, hash: Hash) {
    && r'.files == r.files[path := content]
    && r'.local == r.local[path := FileMeta(|content| % MOD64, mtime, mode, hash)]
  }

  /** r' is r without the file at path, though its manifest still describes it. */
  ghost predicate Lost(r: Receiver, r': Receiver, path: Path) {
    r'.files == r.files - {path} && r'.local == r.local
  }

  /** What verified content comes to: it is put in place if its transfer has its temporary
      file's name, and takes the old copy with it if not. */
  ghost predicate Settled(r: Receiver, r': Receiver, named: bool, path: Path, content: Bytes, mtime: i64, mode: u32, hash: Hash) {
    if named then Placed(r, r', path, content, mtime, mode, hash) else Lost(r, r', path)
  }

  ghost predicate AskedAgain(r: Receiver, path: Path) {
    r.out != [] && r.out[|r.out| - 1] == Retry(path)
  }

  lemma StreamSplits(r: Receiver, start: Message, body: seq<Message>, end: Message, sha256: Bytes -> Hash, safe: Path -> bool)
    ensures HandleAll(r, Clean([start] + body + [end]), sha256, safe) ==
            Handle(HandleAll(Handle(r, start, Fine, sha256, safe), Clean(body), sha256, safe), end, Fine, sha256, safe)
  {
    CleanConcat([start] + body, [end]);
    CleanConcat([start], body);
    HandleConcat(r, Clean([start] + body), Clean([end]), sha256, safe);
    HandleConcat(r, Clean([start]), Clean(body), sha256, safe);
    OneMessage(r, start, sha256, safe);
    OneMessage(HandleAll(r, Clean([start] + body), sha256, safe), end, sha256, safe);
  }

  lemma EndOfGrown(r: Receiver, r': Receiver, xid: nat, data: Bytes, hash: Hash, sha256: Bytes -> Hash)
    requires Grew(r, r', xid, data) && r.incoming[xid].temp == [] && r.incoming[xid].absorbed == []
    ensures var t, r'' := r.incoming[xid], HandleEnd(r', xid, hash, Fine, sha256);
            && xid !in r''.incoming
            && (sha256(data) == hash ==> Settled(r, r'', t.named, t.path, data, t.mtime, t.mode, hash))
            && (sha256(data) != hash ==> Dropped(r, r'', xid) && (t.isDelta ==> AskedAgain(r'', t.path)))
  {
    assert [] + data == data;
  }

  /** What a delta stream comes to, for any base and any instructions: the content rebuilt
      is put in place exactly when it has the announced hash and the xid was free, and lost
      with the old copy when it was not; with another hash the tree is untouched and a
      whole file is asked for, or, if the delta overruns the base, the pull is given up. */
  lemma {:induction false} DeltaTransfer(r: Receiver, xid: nat, path: Path, mtime: i64, mode: u32, ops: seq<D.DeltaOp>, hash: Hash, chunk: nat,
                      sha256: Bytes -> Hash, safe: Path -> bool)
    requires 0 < chunk && path in r.files && safe(path)
    ensures var r', rebuilt := HandleAll(r, Clean(DeltaStream(xid, path, mtime, mode, ops, hash, chunk)), sha256, safe),
                               Streamed(r.files[path], ops);
            && xid !in r'.incoming
            && (rebuilt.Some? && sha256(rebuilt.value) == hash ==>
                  Settled(r, r', xid !in r.incoming, path, rebuilt.value, mtime, mode, hash))
            && (rebuilt.Some? && sha256(rebuilt.value) != hash ==> r'.files == r.files && AskedAgain(r', path))
            && (rebuilt.None? ==> r'.files == r.files)
            && (rebuilt.None? || sha256(rebuilt.value) != hash ==> r'.local == r.local)
  {
    var start, end := FileStart(xid, path, mtime, mode, true), FileEnd(xid, hash);
    StreamSplits(r, start, OpsMessages(xid, ops, chunk), end, sha256, safe);
    var r1 := HandleStart(r, start, Fine, safe);
    OpsArrive(r1, xid, ops, chunk, sha256, safe);
    var r2 := HandleAll(r1, Clean(OpsMessages(xid, ops, chunk)), sha256, safe);
    var rebuilt := Streamed(r.files[path], ops);
    if rebuilt.Some? {
      EndOfGrown(r1, r2, xid, rebuilt.value, hash, sha256);
    }
  }

  /** A delta for a file that is not there comes to nothing but the reservation handed back. */
  lemma DeltaWithoutBase(r: Receiver, xid: nat, path: Path, mtime: i64, mode: u32, ops: seq<D.DeltaOp>, hash: Hash, chunk: nat,
                         sha256: Bytes -> Hash, safe: Path -> bool)
    requires 0 < chunk && path !in r.files && xid !in r.incoming
    ensures HandleAll(r, Clean(DeltaStream(xid, path, mtime, mode, ops, hash, chunk)), sha256, safe) ==
            r.(out := r.out + [Release(path)])
  {
    var start, end := FileStart(xid, path, mtime, mode, true), FileEnd(xid, hash);
    var r1 := Handle(r, start, Fine, sha256, safe);
    assert r.incoming - {xid} == r.incoming;
    assert r1 == r.(out := r.out + [Release(path)]) && Handle(r1, end, Fine, sha256, safe) == r1;
    hide *;
    StreamSplits(r, start, OpsMessages(xid, ops, chunk), end, sha256, safe);
    OpsMessagesAreMine(xid, ops, chunk);
    DroppedStaysDropped(r1, OpsMessages(xid, ops, chunk), xid, sha256, safe);
    StreamIs(xid, path, mtime, mode, ops, hash, chunk);
  }

  lemma StreamIs(xid: nat, path: Path, mtime: i64, mode: u32, ops: seq<D.DeltaOp>, hash: Hash, chunk: nat)
    requires 0 < chunk
    ensures DeltaStream(xid, path, mtime, mode, ops, hash, chunk) ==
            [FileStart(xid, path, mtime, mode, true)] + OpsMessages(xid, ops, chunk) + [FileEnd(xid, hash)]
  {
  }

  lemma {:induction false} OpsMessagesAreMine(xid: nat, ops: seq<D.DeltaOp>, chunk: nat)
    requires 0 < chunk
    ensures forall k :: 0 <= k < |OpsMessages(xid, ops, chunk)| ==>
              !OpsMessages(xid, ops, chunk)[k].FileStart? && OpsMessages(xid, ops, chunk)[k].xid == xid
  {
    if ops != [] {
      OpsMessagesAreMine(xid, ops[..|ops| - 1], chunk);
      OpMessagesAreMine(xid, ops[|ops| - 1], chunk);
    }
  }

  /** A whole file sent with its own hash lands, on an xid that is free. */
  lemma {:induction false} WholeTransfer(r: Receiver, xid: nat, path: Path, mtime: i64, mode: u32, file: Bytes, chunk: nat,
                      sha256: Bytes -> Hash, safe: Path -> bool)
    requires 0 < chunk && safe(path)
    ensures var r' := HandleAll(r, Clean(WholeStream(xid, path, mtime, mode, file, sha256(file), chunk)), sha256, safe);
            xid !in r'.incoming && Settled(r, r', xid !in r.incoming, path, file, mtime, mode, sha256(file))
  {
    var start, end := FileStart(xid, path, mtime, mode, false), FileEnd(xid, sha256(file));
    StreamSplits(r, start, LiteralMessages(xid, file, chunk), end, sha256, safe);
    var r1 := HandleStart(r, start, Fine, safe);
    LiteralArrives(r1, xid, file, chunk, sha256, safe);
    EndOfGrown(r1, HandleAll(r1, Clean(LiteralMessages(xid, file, chunk)), sha256, safe), xid, file, sha256(file), sha256);
  }

  /** A delta the patcher accepts is streamed as it is patched. */
  lemma AcceptedIsStreamed(base: Bytes, ops: seq<D.DeltaOp>)
    requires D.ApplyOps(base, ops).Some?
    ensures Streamed(base, ops) == D.ApplyOps(base, ops)
  {
    StreamedFailsExactly(base, ops);
    hide *;
  }

  /** Pulling a changed file end to end: the receiver signs its copy, the sender scans its
      own against the signature, and the messages that follow leave the receiver with the
      sender's content, for any chunk size, when the strong hash does not collide. */
  lemma {:induction false} DeltaPullDelivers(strong: Bytes -> Strong, sha256: Bytes -> Hash, safe: Path -> bool, r: Receiver, xid: nat, path: Path,
                          mtime: i64, mode: u32, sig: D.Signature, trace: seq<D.Step>, target: Bytes, chunk: nat)
    requires 0 < chunk && path in r.files && safe(path) && |target| < MOD32
    requires D.ScanOf(strong, sig, r.files[path], target, trace)
    requires D.NoCollision(strong, sig.blockSize, r.files[path], target)
    ensures var ops := D.Emit(sig.blockSize, trace);
            Settled(r, HandleAll(r, Clean(DeltaStream(xid, path, mtime, mode, ops, sha256(target), chunk)), sha256, safe),
                    xid !in r.incoming, path, target, mtime, mode, sha256(target))
  {
    D.RoundTrip(strong, sig, r.files[path], target, trace);
    AcceptedIsStreamed(r.files[path], D.Emit(sig.blockSize, trace));
    DeltaTransfer(r, xid, path, mtime, mode, D.Emit(sig.blockSize, trace), sha256(target), chunk, sha256, safe);
  }

  /** Whatever the delta did, even against a base that has changed since it was signed: if
      the receiver asked again, the whole file that answers lands; and content that passed
      is the sender's unless SHA-256 itself collides. */
  lemma {:induction false} RetryRecovers(sha256: Bytes -> Hash, safe: Path -> bool, r: Receiver, xid: nat, xid': nat, path: Path,
                      mtime: i64, mode: u32, ops: seq<D.DeltaOp>, target: Bytes, chunk: nat)
    requires 0 < chunk && path in r.files && safe(path)
    requires forall x :: sha256(x) == sha256(target) ==> x == target
    ensures var r1 := HandleAll(r, Clean(DeltaStream(xid, path, mtime, mode, ops, sha256(target), chunk)), sha256, safe);
            var r2 := HandleAll(r1, Clean(WholeStream(xid', path, mtime, mode, target, sha256(target), chunk)), sha256, safe);
            && (r1.files == r.files || Settled(r, r1, xid !in r.incoming, path, target, mtime, mode, sha256(target)))
            && (Streamed(r.files[path], ops).Some? && r1.files == r.files && r.files[path] != target ==> AskedAgain(r1, path))
            && (xid' !in r1.incoming ==> r2.files == r.files[path := target])
  {
    var stream := DeltaStream(xid, path, mtime, mode, ops, sha256(target), chunk);
    DeltaTransfer(r, xid, path, mtime, mode, ops, sha256(target), chunk, sha256, safe);
    var r1 := HandleAll(r, Clean(stream), sha256, safe);
    WholeTransfer(r1, xid', path, mtime, mode, target, chunk, sha256, safe);
    hide HandleAll, DeltaStream, WholeStream, Streamed, Clean;
  }
}
