/** NBD transmission: requests decoded from the wire, served by the write-through cache, answered on the wire. */
module Request {
  import opened Bytes
  import opened Wire
  import opened CachePolicy
  import opened OriginCache

  const REQUEST_MAGIC: nat := 0x2560_9513
  const SIMPLE_REPLY_MAGIC: nat := 0x6744_6698
  const REQUEST_LEN: nat := 28
  const CMD_FLAG_FUA: nat := 1
  const OK: u32 := 0
  const EIO: u32 := 5
  const EACCES: u32 := 13
  const EINVAL: u32 := 22
  const ERANGE: u32 := 34
  /** The cache takes the default of its backend interface: it is writable. */
  const READ_ONLY: bool := false

  datatype Command = Read | Write | Disc | Flush | Trim | Other(code: u16)

  datatype Request = Request(flags: u16, cmd: Command, handle: u64, offset: u64, len: u32)

  datatype ProtocolError = Truncated(got: nat) | InvalidHeader(magic: nat)

  // ---------------------------------------------------------------- the wire

  function CommandOf(v: u16): Command {
    if v == 0 then Read else if v == 1 then Write else if v == 2 then Disc else if v == 3 then Flush
    else if v == 4 then Trim else Other(v)
  }

  function CodeOf(c: Command): u16 {
    match c
    case Read => 0
    case Write => 1
    case Disc => 2
    case Flush => 3
    case Trim => 4
    case Other(v) => v
  }

  /** `parse_request`: the 28-byte header; bytes after it are not looked at. */
  function ParseRequest(b: seq<byte>): Result<Request, ProtocolError> {
    if |b| < REQUEST_LEN then Err(Truncated(|b|))
    else if FromBe(b[..4]) != REQUEST_MAGIC then Err(InvalidHeader(FromBe(b[..4])))
    else
      PowersOf256();
      Ok(Request(FromBe(b[4..6]), CommandOf(FromBe(b[6..8])), FromBe(b[8..16]), FromBe(b[16..24]), FromBe(b[24..28])))
  }

  /** The header as a client writes it. */
  function EncodeRequest(q: Request): (b: seq<byte>)
    ensures |b| == REQUEST_LEN
  {
    Be(REQUEST_MAGIC, 4) + Be(q.flags, 2) + Be(CodeOf(q.cmd), 2) + Be(q.handle, 8) + Be(q.offset, 8) + Be(q.len, 4)
  }

  /** Every request a client can write is read back as it was meant; an unassigned code stays as it is. */
  lemma RequestRoundTrip(q: Request, rest: seq<byte>)
    requires CommandOf(CodeOf(q.cmd)) == q.cmd
    ensures ParseRequest(EncodeRequest(q) + rest) == Ok(q)
  {
    var b := EncodeRequest(q) + rest;
    assert b[..4] == Be(REQUEST_MAGIC, 4) && b[4..6] == Be(q.flags, 2) && b[6..8] == Be(CodeOf(q.cmd), 2);
    assert b[8..16] == Be(q.handle, 8) && b[16..24] == Be(q.offset, 8) && b[24..28] == Be(q.len, 4);
    U32(REQUEST_MAGIC);
    U16(q.flags);
    U16(CodeOf(q.cmd));
    U64(q.handle);
    U64(q.offset);
    U32(q.len);
  }

  /** And every header the server accepts is one a client could have written, byte for byte. */
  lemma RequestUnique(b: seq<byte>)
    requires |b| == REQUEST_LEN && ParseRequest(b).Ok?
    ensures EncodeRequest(ParseRequest(b).value) == b
  {
    FieldBack(b, 0, 4, 4);
    FieldBack(b, 4, 6, 2);
    FieldBack(b, 6, 8, 2);
    FieldBack(b, 8, 16, 8);
    FieldBack(b, 16, 24, 8);
    FieldBack(b, 24, 28, 4);
    CodeBack(b[6..8]);
    SixFields(b);
  }

  lemma FieldBack(b: seq<byte>, i: nat, j: nat, w: nat)
    requires i <= j <= |b| && w == j - i
    ensures Be(FromBe(b[i..j]), w) == b[i..j]
  {
    FromBeRoundTrip(b[i..j]);
  }

  lemma CodeBack(b: seq<byte>)
    requires |b| == 2
    ensures FromBe(b) < 0x1_0000 && CodeOf(CommandOf(FromBe(b))) == FromBe(b)
  {
    PowersOf256();
  }

  lemma SixFields(b: seq<byte>)
    requires |b| == REQUEST_LEN
    ensures b[0..4] + b[4..6] + b[6..8] + b[8..16] + b[16..24] + b[24..28] == b && b[..4] == b[0..4]
  {
    Cut(b, 0, 4, 6, 8, 16);
    Cut(b, 0, 16, 24, 28, 28);
  }

  /** `encode_simple_reply`. */
  function EncodeSimpleReply(error: u32, handle: u64): (b: seq<byte>)
    ensures |b| == 16
  {
    Be(SIMPLE_REPLY_MAGIC, 4) + Be(error, 4) + Be(handle, 8)
  }

  /** What a client reads in a reply: the error and the handle it chose. */
  function DecodeReply(b: seq<byte>): Option<(nat, nat)> {
    if |b| != 16 || FromBe(b[..4]) != SIMPLE_REPLY_MAGIC then None else Some((FromBe(b[4..8]), FromBe(b[8..])))
  }

  lemma ReplyRoundTrip(error: u32, handle: u64)
    ensures DecodeReply(EncodeSimpleReply(error, handle)) == Some((error, handle))
  {
    var b := EncodeSimpleReply(error, handle);
    assert b[..4] == Be(SIMPLE_REPLY_MAGIC, 4) && b[4..8] == Be(error, 4) && b[8..] == Be(handle, 8);
    U32(SIMPLE_REPLY_MAGIC);
    U32(error);
    U64(handle);
  }

  // ---------------------------------------------------------------- service

  /** Aligned, and inside the device. */
  predicate InRange(q: Request, block: nat, size: nat) {
    && 0 < block && Aligned(q.offset, block) && Aligned(q.len, block)
    && q.offset + q.len <= size
  }

  predicate Aligned(n: nat, block: nat)
    requires 0 < block
  {
    n % block == 0
  }

  /** `validate`: alignment, then range, then permission. */
  function Validate(q: Request, block: nat, size: u64, readOnly: bool): (r: Option<u32>)
    ensures r.None? <==> InRange(q, block, size) && !(readOnly && q.cmd.Write?)
    ensures r == Some(EINVAL) <==> block == 0 || !Aligned(q.offset, block) || !Aligned(q.len, block)
    ensures r == Some(EACCES) <==> InRange(q, block, size) && readOnly && q.cmd.Write?
    ensures r.Some? ==> r.value == EINVAL || r.value == ERANGE || r.value == EACCES
  {
    if block == 0 then Some(EINVAL)
    else if !Aligned(q.offset, block) || !Aligned(q.len, block) then Some(EINVAL)
    else if q.offset + q.len > U64_MAX || q.offset + q.len > size then Some(ERANGE)
    else if q.cmd.Write? && readOnly then Some(EACCES)
    else None
  }

  /** `validate_command_flags`: the only flag is FUA, and only on a write. */
  function FuaOf(q: Request): (r: Option<bool>)
    ensures r.Some? <==> q.flags == 0 || (q.cmd.Write? && q.flags == CMD_FLAG_FUA)
    ensures r.Some? ==> (r.value <==> q.flags == CMD_FLAG_FUA)
  {
    if q.cmd.Write? then (if q.flags <= CMD_FLAG_FUA then Some(q.flags == CMD_FLAG_FUA) else None)
    else if q.flags == 0 then Some(false) else None
  }

  /** Requests that must not reach the backend. */
  predicate Malformed(q: Request, payload: seq<byte>, block: nat, size: nat) {
    || FuaOf(q).None? || q.cmd.Other?
    || ((q.cmd.Read? || q.cmd.Write? || q.cmd.Trim?) && !InRange(q, block, size))
    || (q.cmd.Write? && |payload| != q.len)
  }

  datatype ServeOutcome = ServeOutcome(reply: seq<byte>, readData: seq<byte>, disconnect: bool)

  /** How a data request is answered: an invalid one by the right error without reaching the cache, a valid one by
      success or an I/O error, as the cache served it or not. */
  ghost predicate Answered(status: u32, valid: bool, log0: seq<Event>, log1: seq<Event>) {
    if !valid then (status == EINVAL || status == ERANGE) && log1 == log0
    else (status == OK && log1 == log0 + [Served]) || (status == EIO && log1 != log0)
  }

  /** A read: the origin's own bytes, whatever the cache held, or none. */
  method ServeRead(q: Request, cache: WriteThroughCache) returns (status: u32, data: seq<byte>)
    requires cache.Valid()
    modifies cache`chunks, cache`accessClock, cache`originState, cache`probeSuccesses, cache`originDirty, cache`log
    modifies cache.origin`calls, cache.vram
    ensures cache.Valid() && (old(cache.InStep()) ==> cache.InStep())
    ensures Answered(status, InRange(q, cache.g.block, cache.g.size), old(cache.log), cache.log)
    ensures status == OK && old(cache.InStep()) ==>
              q.offset + q.len <= |cache.origin.readable| && data == cache.origin.readable[q.offset..q.offset + q.len]
    ensures status != OK ==> data == []
  {
    var bad := Validate(q, cache.g.block, cache.g.size, READ_ONLY);
    if bad.Some? {
      return bad.value, [];
    }
    var r := cache.ReadAt(q.offset, q.len);
    return if r.Ok? then OK else EIO, if r.Ok? then r.value else [];
  }

  /** A write: whole, and durable if so requested, or an error. */
  method ServeWrite(q: Request, payload: seq<byte>, fua: bool, cache: WriteThroughCache) returns (status: u32)
    requires cache.Valid()
    modifies cache`chunks, cache`accessClock, cache`originState, cache`probeSuccesses, cache`originDirty, cache`log
    modifies cache.origin, cache.vram
    ensures cache.Valid() && (old(cache.InStep()) ==> cache.InStep())
    ensures Answered(status, |payload| == q.len && InRange(q, cache.g.block, cache.g.size), old(cache.log), cache.log)
    ensures status == EINVAL || status == ERANGE ==>
              cache.origin.readable == old(cache.origin.readable) && cache.origin.durable == old(cache.origin.durable)
    ensures status == OK ==>
              && q.offset + |payload| <= |old(cache.origin.readable)|
              && cache.origin.readable == Splice(old(cache.origin.readable), q.offset, payload)
              && (fua && payload != [] ==> cache.origin.durable == cache.origin.readable)
  {
    if |payload| != q.len {
      return EINVAL;
    }
    var bad := Validate(q, cache.g.block, cache.g.size, READ_ONLY);
    if bad.Some? {
      return bad.value;
    }
    var ok, _ := cache.WriteAtWithOptions(q.offset, payload, fua);
    return if ok then OK else EIO;
  }

  /** What a client may conclude from a reply without error. */
  ghost predicate Means(q: Request, payload: seq<byte>, data: seq<byte>, before: seq<byte>, after: seq<byte>,
                        durable: seq<byte>)
  {
    match q.cmd
    case Read => after == before && q.offset + q.len <= |after| && data == after[q.offset..q.offset + q.len]
    case Write =>
      && data == [] && q.offset + |payload| <= |before| && after == Splice(before, q.offset, payload)
      && (q.flags == CMD_FLAG_FUA && payload != [] ==> durable == after)
    case Flush => data == [] && after == before && durable == after
    case _ => data == [] && after == before
  }

  /** The status of a request whose flags are in order, and the data of a read. */
  method Execute(q: Request, payload: seq<byte>, cache: WriteThroughCache) returns (status: u32, data: seq<byte>)
    requires cache.Valid() && FuaOf(q).Some?
    modifies cache`chunks, cache`accessClock, cache`originState, cache`probeSuccesses, cache`originDirty, cache`log
    modifies cache.origin, cache.vram
    ensures cache.Valid() && (old(cache.InStep()) ==> cache.InStep())
    ensures if Malformed(q, payload, cache.g.block, cache.g.size) then status == EINVAL || status == ERANGE
            else status == OK || status == EIO
    ensures status == EINVAL || status == ERANGE ==>
              cache.log == old(cache.log) && cache.origin.readable == old(cache.origin.readable) &&
                cache.origin.durable == old(cache.origin.durable)
    ensures status == OK && (old(cache.InStep()) || !q.cmd.Read?) ==>
              Means(q, payload, data, old(cache.origin.readable), cache.origin.readable, cache.origin.durable)
    ensures status != OK ==> data == []
  {
    status, data := EINVAL, [];
    match q.cmd {
      case Read =>
        status, data := ServeRead(q, cache);
      case Write =>
        status := ServeWrite(q, payload, FuaOf(q).value, cache);
      case Flush =>
        var ok := cache.Flush();
        status := if ok then OK else EIO;
      case Trim =>
        var bad := Validate(q, cache.g.block, cache.g.size, READ_ONLY);
        status := if bad.Some? then bad.value else OK;
      case Disc =>
        status := OK;
      case Other(_) =>
    }
  }

  /** `serve`.  The reply carries the client's handle; a malformed request never reaches the backend; and a reply
      without error means what the protocol says of the origin itself.  Only a read depends on the cache for that:
      it tells the truth as long as the cache is in step. */
  method Serve(q: Request, payload: seq<byte>, cache: WriteThroughCache) returns (o: ServeOutcome, ghost error: u32)
    requires cache.Valid()
    modifies cache`chunks, cache`accessClock, cache`originState, cache`probeSuccesses, cache`originDirty, cache`log
    modifies cache.origin, cache.vram
    ensures cache.Valid() && (old(cache.InStep()) ==> cache.InStep())
    ensures DecodeReply(o.reply) == Some((error, q.handle))
    ensures o.disconnect <==> q.cmd.Disc? && FuaOf(q).Some?
    ensures if Malformed(q, payload, cache.g.block, cache.g.size) then error == EINVAL || error == ERANGE
            else error == OK || error == EIO
    ensures error == EINVAL || error == ERANGE ==>
              cache.log == old(cache.log) && cache.origin.readable == old(cache.origin.readable) &&
                cache.origin.durable == old(cache.origin.durable)
    ensures error == OK && (old(cache.InStep()) || !q.cmd.Read?) ==>
              Means(q, payload, o.readData, old(cache.origin.readable), cache.origin.readable, cache.origin.durable)
    ensures error != OK ==> o.readData == []
  {
    var fua := FuaOf(q);
    var status, data := EINVAL, [];
    if fua.Some? {
      status, data := Execute(q, payload, cache);
    }
    ReplyRoundTrip(status, q.handle);
    return ServeOutcome(EncodeSimpleReply(status, q.handle), data, q.cmd.Disc? && fua.Some?), status;
  }
}
