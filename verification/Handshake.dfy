/** The server side of the NBD "fixed newstyle" negotiation, and the client that reads its replies. */
module Handshake {
  import opened Bytes
  import opened Wire

  const NBDMAGIC: nat := 0x4e42_444d_4147_4943
  const IHAVEOPT: nat := 0x4948_4156_454f_5054
  const HANDSHAKE_FLAGS: nat := 3
  const OPT_EXPORT_NAME: nat := 1
  const OPT_ABORT: nat := 2
  const OPT_INFO: nat := 6
  const OPT_GO: nat := 7
  const REP_MAGIC: nat := 0x0003_e889_0455_65a9
  const REP_ACK: nat := 1
  const REP_INFO: nat := 3
  const REP_ERR_UNSUP: nat := 0x8000_0001
  const REP_ERR_UNKNOWN: nat := 0x8000_0006
  const INFO_EXPORT: nat := 0
  const MAX_OPT_LEN: nat := 4096

  datatype Export = Export(name: seq<byte>, size: u64)

  /** An option as the client sends it. */
  datatype Opt = Opt(code: u32, data: seq<byte>)

  /** What the client learns from one group of replies. */
  datatype Answer =
    | Acknowledged(code: u32)
    | Unsupported(code: u32)
    | Unknown(code: u32)
    | Described(code: u32, size: u64, flags: u16)

  datatype Error = Io | Aborted | IncompatibleVersion | UnsupportedFeature | InvalidFormat

  // ---------------------------------------------------------------- replies, as the server writes them

  function Greeting(): (b: seq<byte>)
    ensures |b| == 18
  {
    Be(NBDMAGIC, 8) + Be(IHAVEOPT, 8) + Be(HANDSHAKE_FLAGS, 2)
  }

  /** `write_opt_reply`. */
  function Reply(code: u32, kind: u32, data: seq<byte>): (b: seq<byte>)
    requires |data| < 0x1_0000_0000
    ensures |b| == 20 + |data|
  {
    Be(REP_MAGIC, 8) + Be(code, 4) + Be(kind, 4) + Be(|data|, 4) + data
  }

  function ExportInfo(size: u64, flags: u16): (b: seq<byte>)
    ensures |b| == 12
  {
    Be(INFO_EXPORT, 2) + Be(size, 8) + Be(flags, 2)
  }

  /** The replies that carry one answer; a description is an information reply and an acknowledgement. */
  function Encode(a: Answer): (b: seq<byte>)
  {
    match a
    case Acknowledged(c) => Reply(c, REP_ACK, [])
    case Unsupported(c) => Reply(c, REP_ERR_UNSUP, [])
    case Unknown(c) => Reply(c, REP_ERR_UNKNOWN, [])
    case Described(c, size, flags) => Reply(c, REP_INFO, ExportInfo(size, flags)) + Reply(c, REP_ACK, [])
  }

  function Encoded(answers: seq<Answer>): (r: seq<seq<byte>>)
    ensures |r| == |answers|
  {
    seq(|answers|, i requires 0 <= i < |answers| => Encode(answers[i]))
  }

  // ---------------------------------------------------------------- replies, as a client reads them

  datatype Parsed = Parsed(code: nat, kind: nat, data: seq<byte>, rest: seq<byte>)

  /** One reply off the stream. */
  function ReadReply(b: seq<byte>): Option<Parsed> {
    if |b| < 20 || FromBe(b[..8]) != REP_MAGIC then None
    else
      var len := FromBe(b[16..20]);
      if |b| < 20 + len then None
      else Some(Parsed(FromBe(b[8..12]), FromBe(b[12..16]), b[20..20 + len], b[20 + len..]))
  }

  /** One group of replies: an acknowledgement, an error, or an export description closed by its acknowledgement. */
  function ReadAnswer(b: seq<byte>): Option<(Answer, seq<byte>)> {
    var r := ReadReply(b);
    if r.None? || 0x1_0000_0000 <= r.value.code then None
    else
      var (c, p) := (r.value.code, r.value);
      if p.kind == REP_ACK && p.data == [] then Some((Acknowledged(c), p.rest))
      else if p.kind == REP_ERR_UNSUP && p.data == [] then Some((Unsupported(c), p.rest))
      else if p.kind == REP_ERR_UNKNOWN && p.data == [] then Some((Unknown(c), p.rest))
      else if p.kind == REP_INFO && |p.data| == 12 && FromBe(p.data[..2]) == INFO_EXPORT then
        var q := ReadReply(p.rest);
        var (size, flags) := (FromBe(p.data[2..10]), FromBe(p.data[10..]));
        if q.Some? && q.value.code == c && q.value.kind == REP_ACK && q.value.data == [] && size <= U64_MAX &&
          flags < 0x1_0000
        then Some((Described(c, size, flags), q.value.rest)) else None
      else None
  }

  /** A client that has sent `n` options reads `n` groups. */
  function ReadAnswers(b: seq<byte>, n: nat): Option<(seq<Answer>, seq<byte>)> {
    if n == 0 then Some(([], b))
    else
      var first := ReadAnswer(b);
      if first.None? then None
      else
        var more := ReadAnswers(first.value.1, n - 1);
        if more.None? then None else Some(([first.value.0] + more.value.0, more.value.1))
  }

  lemma ReplyReads(code: u32, kind: u32, data: seq<byte>, rest: seq<byte>)
    requires |data| < 0x1_0000_0000
    ensures ReadReply(Reply(code, kind, data) + rest) == Some(Parsed(code, kind, data, rest))
  {
    HeaderFields(Be(REP_MAGIC, 8), Be(code, 4), Be(kind, 4), Be(|data|, 4), data, rest);
    U64(REP_MAGIC);
    U32(code);
    U32(kind);
    U32(|data|);
  }

  lemma PlainReads(a: Answer, rest: seq<byte>)
    requires !a.Described?
    ensures ReadAnswer(Encode(a) + rest) == Some((a, rest))
  {
    var kind := if a.Acknowledged? then REP_ACK else if a.Unsupported? then REP_ERR_UNSUP else REP_ERR_UNKNOWN;
    ReplyReads(a.code, kind, [], rest);
  }

  lemma InfoReads(size: u64, flags: u16)
    ensures var info := ExportInfo(size, flags);
            FromBe(info[..2]) == INFO_EXPORT && FromBe(info[2..10]) == size && FromBe(info[10..]) == flags
  {
    var info := ExportInfo(size, flags);
    assert info[..2] == Be(INFO_EXPORT, 2) && info[2..10] == Be(size, 8) && info[10..] == Be(flags, 2);
    U16(INFO_EXPORT);
    U64(size);
    U16(flags);
  }

  lemma DescriptionReads(a: Answer, rest: seq<byte>)
    requires a.Described?
    ensures ReadAnswer(Encode(a) + rest) == Some((a, rest))
  {
    var info, ack := ExportInfo(a.size, a.flags), Reply(a.code, REP_ACK, []);
    Assoc(Reply(a.code, REP_INFO, info), ack, rest);
    ReplyReads(a.code, REP_INFO, info, ack + rest);
    ReplyReads(a.code, REP_ACK, [], rest);
    InfoReads(a.size, a.flags);
  }

  /** The client recovers one answer from the bytes written for it. */
  lemma AnswerReads(a: Answer, rest: seq<byte>)
    ensures ReadAnswer(Encode(a) + rest) == Some((a, rest))
  {
    if a.Described? {
      DescriptionReads(a, rest);
    } else {
      PlainReads(a, rest);
    }
  }

  lemma OneMoreRead(b: seq<byte>, n: nat, a: Answer, tail: seq<byte>, more: seq<Answer>, rest: seq<byte>)
    requires ReadAnswer(b) == Some((a, tail)) && ReadAnswers(tail, n) == Some((more, rest))
    ensures ReadAnswers(b, n + 1) == Some(([a] + more, rest))
  {
  }

  /** A client reads back every answer, in order, whatever follows. */
  lemma {:induction false} AnswersRead(answers: seq<Answer>, rest: seq<byte>)
    ensures ReadAnswers(Flat(Encoded(answers)) + rest, |answers|) == Some((answers, rest))
  {
    if answers == [] {
      assert Flat(Encoded(answers)) + rest == rest;
    } else {
      var a, more := answers[0], answers[1..];
      var tail := Flat(Encoded(more)) + rest;
      AnswersRead(more, rest);
      AnswerReads(a, tail);
      OneMoreRead(Encode(a) + tail, |more|, a, tail, more, rest);
      FirstEncoded(answers, rest);
      assert [a] + more == answers;
    }
  }

  lemma FirstEncoded(answers: seq<Answer>, rest: seq<byte>)
    requires answers != []
    ensures Flat(Encoded(answers)) + rest == Encode(answers[0]) + (Flat(Encoded(answers[1..])) + rest)
  {
    var parts := Encoded(answers);
    FlatThen(parts, rest);
    assert parts[1..] == Encoded(answers[1..]);
  }

  // ---------------------------------------------------------------- options

  /** The bytes of an option. */
  function EncodeOpt(o: Opt): seq<byte>
    requires |o.data| < 0x1_0000_0000
  {
    Be(IHAVEOPT, 8) + Be(o.code, 4) + Be(|o.data|, 4) + o.data
  }

  ghost predicate Fit(opts: seq<Opt>) {
    forall i :: 0 <= i < |opts| ==> |opts[i].data| <= MAX_OPT_LEN
  }

  ghost function EncodedOpts(opts: seq<Opt>): (r: seq<seq<byte>>)
    requires Fit(opts)
    ensures |r| == |opts|
  {
    seq(|opts|, i requires 0 <= i < |opts| => EncodeOpt(opts[i]))
  }

  /** `go_export_name`: the name inside a GO or INFO payload, which must be followed by an information count. */
  function GoExportName(data: seq<byte>): (r: Option<seq<byte>>)
  {
    if |data| < 4 then None
    else
      var end := 4 + FromBe(data[..4]);
      if |data| < end + 2 then None else Some(data[4..end])
  }

  /** The payload is read as a name exactly when it is a length, that many bytes, and at least two more. */
  lemma GoNameExact(name: seq<byte>, data: seq<byte>)
    requires |name| < 0x1_0000_0000
    ensures GoExportName(data) == Some(name) <==> CarriesName(name, data)
  {
    U32(|name|);
    if GoExportName(data) == Some(name) {
      var end := 4 + FromBe(data[..4]);
      FromBeRoundTrip(data[..4]);
      assert data == Be(|name|, 4) + name + data[end..];
    } else if 4 <= |data| && data[..4] == Be(|name|, 4) {
      assert |data| < 4 + |name| + 2 || data[4..4 + |name|] != name;
    }
  }

  ghost predicate CarriesName(name: seq<byte>, data: seq<byte>) {
    6 + |name| <= |data| && data[..4] == Be(|name|, 4) && data[4..4 + |name|] == name
  }

  /** `find_export`: the first export of that name; the empty name means export zero. */
  method FindExport(exports: seq<Export>, name: seq<byte>) returns (r: Option<nat>)
    ensures r.Some? ==> Resolves(exports, name, r.value)
    ensures r.None? ==> forall i :: !Resolves(exports, name, i)
  {
    if name == [] {
      return if exports != [] then Some(0) else None;
    }
    for i := 0 to |exports|
      invariant forall k :: 0 <= k < i ==> exports[k].name != name
    {
      if exports[i].name == name {
        return Some(i);
      }
    }
    return None;
  }

  ghost predicate Resolves(exports: seq<Export>, name: seq<byte>, i: int) {
    && 0 <= i < |exports|
    && if name == [] then i == 0 else exports[i].name == name && forall k :: 0 <= k < i ==> exports[k].name != name
  }

  /** The name an option asks for, if it is well-formed UTF-8. */
  function RequestedName(utf8: seq<byte> -> bool, o: Opt): Option<seq<byte>> {
    var name := if o.code == OPT_EXPORT_NAME then Some(o.data)
      else if o.code == OPT_GO || o.code == OPT_INFO then GoExportName(o.data) else None;
    if name.Some? && utf8(name.value) then name else None
  }

  /** The server's offer: its exports, transmission flags, and what counts as UTF-8. */
  datatype Server = Server(exports: seq<Export>, flags: u16, utf8: seq<byte> -> bool)

  ghost predicate Names(s: Server, o: Opt, i: int) {
    RequestedName(s.utf8, o).Some? && Resolves(s.exports, RequestedName(s.utf8, o).value, i)
  }

  ghost predicate NamesNothing(s: Server, o: Opt) {
    RequestedName(s.utf8, o).Some? && forall i :: !Names(s, o, i)
  }

  predicate IsKnown(code: u32) {
    code == OPT_EXPORT_NAME || code == OPT_ABORT || code == OPT_INFO || code == OPT_GO
  }

  /** The answer an option deserves; only EXPORT_NAME and malformed names get none. */
  ghost predicate Deserves(s: Server, o: Opt, a: Answer) {
    match a
    case Acknowledged(c) => c == o.code == OPT_ABORT
    case Unsupported(c) => c == o.code && !IsKnown(c)
    case Unknown(c) => c == o.code && (c == OPT_GO || c == OPT_INFO) && NamesNothing(s, o)
    case Described(c, size, flags) =>
      && c == o.code && (c == OPT_GO || c == OPT_INFO) && flags == s.flags
      && exists i :: Names(s, o, i) && size == s.exports[i].size
  }

  /** The negotiation goes on after this option: an unsupported one, an unknown name, or a description without GO. */
  ghost predicate GoesOn(a: Answer) {
    a.Unsupported? || a.Unknown? || (a.Described? && a.code == OPT_INFO)
  }

  /** What keeps the bytes from being read as an option: a wrong magic, an excessive length, or their end. */
  function ReadFault(rest: seq<byte>): Option<Error> {
    if |rest| < 8 then Some(Io)
    else if FromBe(rest[..8]) != IHAVEOPT then Some(IncompatibleVersion)
    else if |rest| < 16 then Some(Io)
    else if FromBe(rest[12..16]) > MAX_OPT_LEN then Some(UnsupportedFeature)
    else if |rest| < 16 + FromBe(rest[12..16]) then Some(Io)
    else None
  }

  // ---------------------------------------------------------------- the connection

  /** A byte stream in each direction.  The input ends where it ends; any write may fail, having sent a part. */
  class Connection {
    const input: seq<byte>
    /** Which write fails, and after how many bytes. */
    const faults: nat -> Option<nat>
    var pos: nat
    var output: seq<byte>
    var writes: nat
    var broken: bool

    constructor (input: seq<byte>, faults: nat -> Option<nat>)
      ensures Valid() && this.input == input && this.faults == faults && pos == 0 && output == [] && !broken
    {
      this.input, this.faults := input, faults;
      pos, output, writes, broken := 0, [], 0, false;
    }

    ghost predicate Valid()
      reads this
    {
      pos <= |input| && (broken <==> 0 < writes && faults(writes - 1).Some?)
    }

    /** `read_exact`: all or an error. */
    method ReadExact(n: nat) returns (r: Option<seq<byte>>)
      requires Valid()
      modifies this`pos
      ensures Valid() && (r.Some? <==> old(pos) + n <= |input|)
      ensures r.Some? ==> pos == old(pos) + n && r.value == input[old(pos)..pos]
    {
      if pos + n <= |input| {
        r := Some(input[pos..pos + n]);
        pos := pos + n;
      } else {
        r := None;
      }
    }

    /** `write_all` and the flush after it: all, or a part and an error. */
    method Write(data: seq<byte>) returns (ok: bool, ghost part: seq<byte>)
      requires Valid() && !broken
      modifies this`output, this`writes, this`broken
      ensures Valid() && (ok <==> !broken)
      ensures output == old(output) + part && part <= data && (ok ==> part == data)
    {
      var fault := faults(writes);
      writes, broken, ok := writes + 1, fault.Some?, fault.None?;
      var sent := if fault.Some? && fault.value < |data| then fault.value else |data|;
      part := data[..sent];
      output := output + data[..sent];
    }

    /** Reads one option, or says what is wrong with the rest of the input. */
    method ReadOption() returns (r: Result<Opt, Error>)
      requires Valid()
      modifies this`pos
      ensures Valid()
      ensures r.Ok? ==>
                |r.value.data| <= MAX_OPT_LEN && old(pos) + 16 <= pos && input[old(pos)..pos] == EncodeOpt(r.value)
      ensures if r.Ok? then ReadFault(input[old(pos)..]).None? else ReadFault(input[old(pos)..]) == Some(r.error)
    {
      ghost var start := pos;
      ghost var rest := input[start..];
      var magic := ReadExact(8);
      if magic.None? {
        return Err(Io);
      }
      assert rest[..8] == magic.value;
      IsMagic(magic.value);
      if FromBe(magic.value) != IHAVEOPT {
        return Err(IncompatibleVersion);
      }
      var code := ReadExact(4);
      if code.None? {
        return Err(Io);
      }
      var len := ReadExact(4);
      if len.None? {
        return Err(Io);
      }
      assert rest[12..16] == len.value;
      if FromBe(len.value) > MAX_OPT_LEN {
        return Err(UnsupportedFeature);
      }
      var data := ReadExact(FromBe(len.value));
      if data.None? {
        return Err(Io);
      }
      OptionFields(input, start, pos);
      return Ok(Opt(FromBe(code.value), data.value));
    }
  }

  /** Eight bytes decode to the option magic exactly when they are its encoding. */
  lemma IsMagic(b: seq<byte>)
    requires |b| == 8
    ensures FromBe(b) == IHAVEOPT <==> b == Be(IHAVEOPT, 8)
  {
    U64(IHAVEOPT);
    FromBeRoundTrip(b);
  }

  /** Header fields and payload, as read, are the encoding of the option. */
  lemma OptionFields(input: seq<byte>, start: nat, pos: nat)
    requires start + 16 <= pos <= |input| && input[start..start + 8] == Be(IHAVEOPT, 8)
    requires FromBe(input[start + 12..start + 16]) == pos - (start + 16)
    ensures FromBe(input[start + 8..start + 12]) < 0x1_0000_0000 && pos - (start + 16) < 0x1_0000_0000
    ensures input[start..pos] == EncodeOpt(Opt(FromBe(input[start + 8..start + 12]), input[start + 16..pos]))
  {
    var code, len := input[start + 8..start + 12], input[start + 12..start + 16];
    PowersOf256();
    FromBeRoundTrip(code);
    FromBeRoundTrip(len);
    Cut(input, start, start + 8, start + 12, start + 16, pos);
  }

  // ---------------------------------------------------------------- the negotiation

  datatype Step = Onward | Stop(result: Result<nat, Error>)

  /** The reply to EXPORT_NAME, which has no header: size, flags and, for old clients, padding. */
  function LegacyReply(size: u64, flags: u16, noZeroes: bool): (b: seq<byte>)
    ensures |b| == if noZeroes then 10 else 134
  {
    Be(size, 8) + Be(flags, 2) + if noZeroes then [] else seq(124, _ => 0)
  }

  /** What the server sends for one option: an answer, the headerless reply, or nothing. */
  datatype Said = Answered(answer: Answer) | Legacy(size: u64) | Silent

  function OnWire(s: Server, noZeroes: bool, said: Said): seq<byte> {
    match said
    case Answered(a) => Encode(a)
    case Legacy(size) => LegacyReply(size, s.flags, noZeroes)
    case Silent => []
  }

  /** How an option that ends the negotiation ends it. */
  ghost predicate Settled(s: Server, o: Opt, r: Result<nat, Error>, said: Said) {
    match r
    case Ok(i) =>
      && Names(s, o, i)
      && if o.code == OPT_GO then said == Answered(Described(OPT_GO, s.exports[i].size, s.flags))
         else o.code == OPT_EXPORT_NAME && said == Legacy(s.exports[i].size)
    case Err(Aborted) => said == Answered(Acknowledged(OPT_ABORT))
    case Err(InvalidFormat) =>
      && (o.code == OPT_EXPORT_NAME || o.code == OPT_GO || o.code == OPT_INFO)
      && RequestedName(s.utf8, o).None? && said == Silent
    case Err(UnsupportedFeature) => o.code == OPT_EXPORT_NAME && NamesNothing(s, o) && said == Silent
    case _ => false
  }

  /** What the server owes an option: the answer it deserves, or the headerless reply. */
  ghost predicate Due(s: Server, o: Opt, said: Said) {
    match said
    case Answered(a) => Deserves(s, o, a)
    case Legacy(size) => o.code == OPT_EXPORT_NAME && exists i :: Names(s, o, i) && size == s.exports[i].size
    case Silent => false
  }

  /** The decision on one option. */
  method Decide(s: Server, o: Opt) returns (step: Step, said: Said)
    ensures said.Silent? || Due(s, o, said)
    ensures step.Onward? ==> said.Answered? && GoesOn(said.answer)
    ensures step.Stop? ==> Settled(s, o, step.result, said)
  {
    if !IsKnown(o.code) {
      return Onward, Answered(Unsupported(o.code));
    }
    if o.code == OPT_ABORT {
      return Stop(Err(Aborted)), Answered(Acknowledged(o.code));
    }
    var name := RequestedName(s.utf8, o);
    if name.None? {
      return Stop(Err(InvalidFormat)), Silent;
    }
    var found := FindExport(s.exports, name.value);
    if o.code == OPT_EXPORT_NAME {
      if found.None? {
        return Stop(Err(UnsupportedFeature)), Silent;
      }
      return Stop(Ok(found.value)), Legacy(s.exports[found.value].size);
    }
    if found.None? {
      return Onward, Answered(Unknown(o.code));
    }
    assert Names(s, o, found.value);
    step := if o.code == OPT_GO then Stop(Ok(found.value)) else Onward;
    said := Answered(Described(o.code, s.exports[found.value].size, s.flags));
  }

  /** The writes for one option. */
  method Say(c: Connection, s: Server, noZeroes: bool, said: Said) returns (ok: bool, ghost part: seq<byte>)
    requires c.Valid() && !c.broken
    modifies c`output, c`writes, c`broken
    ensures c.Valid() && (ok <==> !c.broken) && (said.Silent? ==> ok)
    ensures c.output == old(c.output) + part && part <= OnWire(s, noZeroes, said)
    ensures ok ==> part == OnWire(s, noZeroes, said)
  {
    ok, part := true, [];
    match said {
      case Answered(Described(code, size, flags)) =>
        var info, ack := Reply(code, REP_INFO, ExportInfo(size, flags)), Reply(code, REP_ACK, []);
        ok, part := c.Write(info);
        if ok {
          ghost var more;
          ok, more := c.Write(ack);
          Assoc(old(c.output), info, more);
          part := info + more;
        }
      case Answered(a) =>
        ok, part := c.Write(Encode(a));
      case Legacy(size) =>
        ok, part := c.Write(LegacyReply(size, s.flags, noZeroes));
      case Silent =>
    }
  }

  /** The conversation so far: the options read, in order, and one answer to each, all of which let it go on. */
  ghost predicate Conversing(s: Server, input: seq<byte>, pos: nat, output: seq<byte>, opts: seq<Opt>,
                             answers: seq<Answer>)
  {
    && 4 <= pos <= |input| && Fit(opts) && Replied(s, opts, answers)
    && input[4..pos] == Flat(EncodedOpts(opts))
    && output == Greeting() + Flat(Encoded(answers))
  }

  /** Each option has the answer it deserves, and none of them ended the negotiation. */
  ghost predicate Replied(s: Server, opts: seq<Opt>, answers: seq<Answer>) {
    && |answers| == |opts|
    && forall i :: 0 <= i < |opts| ==> Deserves(s, opts[i], answers[i]) && GoesOn(answers[i])
  }

  lemma OneMoreOption(input: seq<byte>, start: nat, mid: nat, pos: nat, opts: seq<Opt>, o: Opt)
    requires start <= mid <= pos <= |input| && Fit(opts) && |o.data| <= MAX_OPT_LEN
    requires input[start..mid] == Flat(EncodedOpts(opts)) && input[mid..pos] == EncodeOpt(o)
    ensures Fit(opts + [o]) && input[start..pos] == Flat(EncodedOpts(opts + [o]))
  {
    EncodedOptsAppend(opts, o);
    FlatAppend(EncodedOpts(opts), EncodeOpt(o));
    Joined(input, start, mid, pos);
  }

  lemma EncodedOptsAppend(opts: seq<Opt>, o: Opt)
    requires Fit(opts) && |o.data| <= MAX_OPT_LEN
    ensures Fit(opts + [o]) && EncodedOpts(opts + [o]) == EncodedOpts(opts) + [EncodeOpt(o)]
  {
  }

  lemma EncodedAppend(answers: seq<Answer>, a: Answer)
    ensures Encoded(answers + [a]) == Encoded(answers) + [Encode(a)]
  {
  }

  lemma OneMoreAnswer(output: seq<byte>, answers: seq<Answer>, a: Answer)
    requires output == Greeting() + Flat(Encoded(answers))
    ensures output + Encode(a) == Greeting() + Flat(Encoded(answers + [a]))
  {
    EncodedAppend(answers, a);
    FlatAppend(Encoded(answers), Encode(a));
    Assoc(Greeting(), Flat(Encoded(answers)), Encode(a));
  }

  lemma OneMoreReplied(s: Server, opts: seq<Opt>, answers: seq<Answer>, o: Opt, a: Answer)
    requires Replied(s, opts, answers) && Deserves(s, o, a) && GoesOn(a)
    ensures Replied(s, opts + [o], answers + [a])
  {
  }

  lemma ConversationGoesOn(s: Server, input: seq<byte>, mid: nat, pos: nat, output: seq<byte>, opts: seq<Opt>,
                           answers: seq<Answer>, o: Opt, a: Answer)
    requires Conversing(s, input, mid, output, opts, answers) && mid <= pos <= |input|
    requires |o.data| <= MAX_OPT_LEN && input[mid..pos] == EncodeOpt(o) && Deserves(s, o, a) && GoesOn(a)
    ensures Conversing(s, input, pos, output + Encode(a), opts + [o], answers + [a])
  {
    OneMoreOption(input, 4, mid, pos, opts, o);
    OneMoreAnswer(output, answers, a);
    OneMoreReplied(s, opts, answers, o, a);
  }

  /** The whole negotiation: the options before the last and their answers, the last option and what was said to it,
      if it was the last option that ended it, and how far the input was used. */
  datatype Transcript = Transcript(noZeroes: bool, opts: seq<Opt>, answers: seq<Answer>, last: Option<(Opt, Said)>,
                                   end: nat)

  /** Every option but the last got the answer it deserved; the last one ended the negotiation; input that is no
      further option ends it without a word. */
  ghost predicate Finished(s: Server, input: seq<byte>, output: seq<byte>, t: Transcript, r: Result<nat, Error>) {
    && Fit(t.opts) && Replied(s, t.opts, t.answers)
    && match t.last
       case None =>
         && output == Greeting() + Flat(Encoded(t.answers)) && r.Err?
         && if |input| < 4 then r == Err(Io) && t.opts == []
            else
              && 4 <= t.end <= |input| && input[4..t.end] == Flat(EncodedOpts(t.opts))
              && ReadFault(input[t.end..]) == Some(r.error)
       case Some((o, said)) =>
         && Fit(t.opts + [o]) && 4 <= t.end <= |input| && input[4..t.end] == Flat(EncodedOpts(t.opts + [o]))
         && t.noZeroes == HasNoZeroes(FromBe(input[..4]))
         && Settled(s, o, r, said) && (said.Answered? ==> Deserves(s, o, said.answer))
         && output == Greeting() + Flat(Encoded(t.answers)) + OnWire(s, t.noZeroes, said)
  }

  /** A write failed: the greeting, or the reply to the last option.  The client has all earlier answers, and a part
      of what was due. */
  ghost predicate CutShort(s: Server, input: seq<byte>, output: seq<byte>, t: Transcript, r: Result<nat, Error>) {
    && r == Err(Io) && Fit(t.opts) && Replied(s, t.opts, t.answers)
    && match t.last
       case None => t.opts == [] && output <= Greeting()
       case Some((o, said)) =>
         && Fit(t.opts + [o]) && 4 <= t.end <= |input| && input[4..t.end] == Flat(EncodedOpts(t.opts + [o]))
         && t.noZeroes == HasNoZeroes(FromBe(input[..4])) && Due(s, o, said)
         && Greeting() + Flat(Encoded(t.answers)) <= output
         && output <= Greeting() + Flat(Encoded(t.answers)) + OnWire(s, t.noZeroes, said)
  }

  /** The input ends, or is no further option. */
  lemma FaultAt(s: Server, input: seq<byte>, pos: nat, output: seq<byte>, opts: seq<Opt>, answers: seq<Answer>,
                noZeroes: bool, e: Error)
    requires Conversing(s, input, pos, output, opts, answers) && ReadFault(input[pos..]) == Some(e)
    ensures Finished(s, input, output, Transcript(noZeroes, opts, answers, None, pos), Err(e))
  {
  }

  /** One option ends the negotiation. */
  lemma StopAt(s: Server, input: seq<byte>, mid: nat, pos: nat, output: seq<byte>, opts: seq<Opt>,
               answers: seq<Answer>, o: Opt, said: Said, noZeroes: bool, r: Result<nat, Error>)
    requires Conversing(s, input, mid, output, opts, answers) && mid <= pos <= |input|
    requires |o.data| <= MAX_OPT_LEN && input[mid..pos] == EncodeOpt(o)
    requires Settled(s, o, r, said) && (said.Silent? || Due(s, o, said))
    requires noZeroes == HasNoZeroes(FromBe(input[..4]))
    ensures Finished(s, input, output + OnWire(s, noZeroes, said),
                     Transcript(noZeroes, opts, answers, Some((o, said)), pos), r)
  {
    OneMoreOption(input, 4, mid, pos, opts, o);
  }

  /** A write fails in the middle of a reply. */
  lemma CutAt(s: Server, input: seq<byte>, mid: nat, pos: nat, output: seq<byte>, opts: seq<Opt>,
              answers: seq<Answer>, o: Opt, said: Said, noZeroes: bool, part: seq<byte>)
    requires Conversing(s, input, mid, output, opts, answers) && mid <= pos <= |input|
    requires |o.data| <= MAX_OPT_LEN && input[mid..pos] == EncodeOpt(o) && Due(s, o, said)
    requires noZeroes == HasNoZeroes(FromBe(input[..4]))
    requires part <= OnWire(s, noZeroes, said)
    ensures CutShort(s, input, output + part, Transcript(noZeroes, opts, answers, Some((o, said)), pos), Err(Io))
  {
    OneMoreOption(input, 4, mid, pos, opts, o);
  }

  /** `server_handshake`: every input stream is answered to its end, each round consuming at least an option header,
      unless a write fails; what a client then has is a part of what it was due. */
  method ServerHandshake(c: Connection, s: Server) returns (r: Result<nat, Error>, ghost t: Transcript)
    requires c.Valid() && c.pos == 0 && c.output == [] && !c.broken
    modifies c
    ensures c.Valid()
    ensures if c.broken then CutShort(s, c.input, c.output, t, r) else Finished(s, c.input, c.output, t, r)
  {
    var greeted;
    ghost var part;
    greeted, part := c.Write(Greeting());
    assert [] + part == part;
    if !greeted {
      return Err(Io), Transcript(false, [], [], None, 0);
    }
    var flags := c.ReadExact(4);
    if flags.None? {
      assert Greeting() + Flat(Encoded([])) == Greeting();
      return Err(Io), Transcript(false, [], [], None, 0);
    }
    r, t := Negotiate(c, s, HasNoZeroes(FromBe(flags.value)));
  }

  /** One round: the option just read is decided and answered. */
  method AnswerOption(c: Connection, s: Server, noZeroes: bool, o: Opt, ghost mid: nat, ghost opts: seq<Opt>,
                      ghost answers: seq<Answer>)
    returns (end: Option<Result<nat, Error>>, ghost t: Transcript, ghost said: Said)
    requires c.Valid() && !c.broken && Conversing(s, c.input, mid, c.output, opts, answers) && mid <= c.pos
    requires |o.data| <= MAX_OPT_LEN && c.input[mid..c.pos] == EncodeOpt(o)
    requires noZeroes == HasNoZeroes(FromBe(c.input[..4]))
    modifies c`output, c`writes, c`broken
    ensures c.Valid()
    ensures end.Some? ==>
              if c.broken then CutShort(s, c.input, c.output, t, end.value)
              else Finished(s, c.input, c.output, t, end.value)
    ensures end.None? ==>
              && !c.broken && said.Answered?
              && Conversing(s, c.input, c.pos, c.output, opts + [o], answers + [said.answer])
  {
    ghost var output := c.output;
    var step, reply := Decide(s, o);
    said, t := reply, Transcript(noZeroes, opts, answers, Some((o, reply)), c.pos);
    var sent;
    ghost var part;
    sent, part := Say(c, s, noZeroes, reply);
    if !sent {
      CutAt(s, c.input, mid, c.pos, output, opts, answers, o, said, noZeroes, part);
      end := Some(Err(Io));
    } else if step.Stop? {
      StopAt(s, c.input, mid, c.pos, output, opts, answers, o, said, noZeroes, step.result);
      end := Some(step.result);
    } else {
      ConversationGoesOn(s, c.input, mid, c.pos, output, opts, answers, o, said.answer);
      end := None;
    }
  }

  /** The rounds of the negotiation, one option each. */
  method Negotiate(c: Connection, s: Server, noZeroes: bool) returns (r: Result<nat, Error>, ghost t: Transcript)
    requires c.Valid() && c.pos == 4 && c.output == Greeting() && !c.broken
    requires noZeroes == HasNoZeroes(FromBe(c.input[..4]))
    modifies c
    ensures c.Valid()
    ensures if c.broken then CutShort(s, c.input, c.output, t, r) else Finished(s, c.input, c.output, t, r)
  {
    ghost var opts: seq<Opt>, answers: seq<Answer> := [], [];
    assert Conversing(s, c.input, c.pos, c.output, opts, answers);
    while true
      invariant c.Valid() && !c.broken && Conversing(s, c.input, c.pos, c.output, opts, answers)
      decreases |c.input| - c.pos
    {
      ghost var mid := c.pos;
      var o := c.ReadOption();
      if o.Err? {
        FaultAt(s, c.input, mid, c.output, opts, answers, noZeroes, o.error);
        return Err(o.error), Transcript(noZeroes, opts, answers, None, mid);
      }
      var end;
      ghost var said;
      end, t, said := AnswerOption(c, s, noZeroes, o.value, mid, opts, answers);
      if end.Some? {
        return end.value, t;
      }
      opts, answers := opts + [o.value], answers + [said.answer];
    }
  }

  predicate HasNoZeroes(clientFlags: nat) {
    clientFlags / 2 % 2 == 1
  }

  // ---------------------------------------------------------------- what the client knows afterwards

  /** From the bytes it received, a client recovers one group of replies per answered option, in order and under the
      option's own code. */
  lemma ClientRecovers(s: Server, input: seq<byte>, output: seq<byte>, t: Transcript, r: Result<nat, Error>)
    requires Finished(s, input, output, t, r)
    ensures 18 <= |output| && output[..18] == Greeting()
    ensures forall i :: 0 <= i < |t.opts| ==> t.answers[i].code == t.opts[i].code
    ensures ReadAnswers(output[18..], |t.answers|) == Some((t.answers, Rest(s, t)))
    ensures t.last.Some? && t.last.value.1.Answered? ==>
              && t.last.value.1.answer.code == t.last.value.0.code
              && ReadAnswers(output[18..], |t.answers| + 1) == Some((t.answers + [t.last.value.1.answer], []))
  {
    NothingAfter(Greeting() + Flat(Encoded(t.answers)));
    EarlierAnswers(output, t.answers, Rest(s, t));
    if t.last.Some? && t.last.value.1.Answered? {
      AllAnswers(output, t.answers, t.last.value.1.answer);
    }
  }

  lemma Remainder(a: seq<byte>, b: seq<byte>, rest: seq<byte>) returns (part: seq<byte>)
    requires a <= b <= a + rest
    ensures b == a + part && part <= rest
  {
    part := b[|a|..];
  }

  /** A client cut off in the middle still recovers every earlier answer, in order, and then the part that came. */
  lemma CutRecovers(s: Server, input: seq<byte>, output: seq<byte>, t: Transcript, r: Result<nat, Error>)
    requires CutShort(s, input, output, t, r) && t.last.Some?
    ensures 18 <= |output| && output[..18] == Greeting()
    ensures forall i :: 0 <= i < |t.opts| ==> t.answers[i].code == t.opts[i].code
    ensures exists part :: part <= Rest(s, t) && ReadAnswers(output[18..], |t.answers|) == Some((t.answers, part))
  {
    var read := Flat(Encoded(t.answers));
    var part := Remainder(Greeting() + read, output, Rest(s, t));
    EarlierAnswers(output, t.answers, part);
  }

  /** What was said to the option that ended the negotiation. */
  function Rest(s: Server, t: Transcript): seq<byte> {
    if t.last.Some? then OnWire(s, t.noZeroes, t.last.value.1) else []
  }

  lemma EarlierAnswers(output: seq<byte>, answers: seq<Answer>, rest: seq<byte>)
    requires output == Greeting() + Flat(Encoded(answers)) + rest
    ensures 18 <= |output| && output[..18] == Greeting()
    ensures ReadAnswers(output[18..], |answers|) == Some((answers, rest))
  {
    var read := Flat(Encoded(answers));
    Assoc(Greeting(), read, rest);
    AfterGreeting(output, read + rest);
    AnswersRead(answers, rest);
  }

  lemma AllAnswers(output: seq<byte>, answers: seq<Answer>, last: Answer)
    requires output == Greeting() + Flat(Encoded(answers)) + Encode(last)
    ensures 18 <= |output| && ReadAnswers(output[18..], |answers| + 1) == Some((answers + [last], []))
  {
    var read := Flat(Encoded(answers));
    Assoc(Greeting(), read, Encode(last));
    AfterGreeting(output, read + Encode(last));
    LastAnswerRead(answers, last);
  }

  lemma AfterGreeting(output: seq<byte>, rest: seq<byte>)
    requires output == Greeting() + rest
    ensures 18 <= |output| && output[..18] == Greeting() && output[18..] == rest
  {
  }

  /** The export size and flags as a client decodes them from the reply to the last option it sent. */
  function LastSize(code: u32, bytes: seq<byte>): Option<(nat, nat)> {
    if code == OPT_EXPORT_NAME then (if 10 <= |bytes| then Some((FromBe(bytes[..8]), FromBe(bytes[8..10]))) else None)
    else
      var a := ReadAnswer(bytes);
      if a.Some? && a.value.0.Described? then Some((a.value.0.size, a.value.0.flags)) else None
  }

  /** The whole decoder of a client that sent these options: past the greeting and one group of replies for each
      option but the last. */
  function ClientSize(opts: seq<Opt>, output: seq<byte>): Option<(nat, nat)>
    requires opts != []
  {
    if |output| < 18 then None
    else
      var earlier := ReadAnswers(output[18..], |opts| - 1);
      if earlier.None? then None else LastSize(opts[|opts| - 1].code, earlier.value.1)
  }

  lemma LegacySize(size: u64, flags: u16, noZeroes: bool)
    ensures LastSize(OPT_EXPORT_NAME, LegacyReply(size, flags, noZeroes)) == Some((size, flags))
  {
    var b := LegacyReply(size, flags, noZeroes);
    assert b[..8] == Be(size, 8) && b[8..10] == Be(flags, 2);
    U64(size);
    U16(flags);
  }

  lemma GoSize(size: u64, flags: u16)
    ensures LastSize(OPT_GO, Encode(Described(OPT_GO, size, flags))) == Some((size, flags))
  {
    var a := Described(OPT_GO, size, flags);
    AnswerReads(a, []);
    NothingAfter(Encode(a));
    DescribedSize(Encode(a), a, []);
  }

  lemma DescribedSize(bytes: seq<byte>, a: Answer, rest: seq<byte>)
    requires ReadAnswer(bytes) == Some((a, rest)) && a.Described?
    ensures LastSize(OPT_GO, bytes) == Some((a.size, a.flags))
  {
  }

  /** After success the last option named the export chosen, and the size and flags the client decodes from the bytes
      it received are that export's and the server's. */
  lemma SizeRecovered(s: Server, input: seq<byte>, output: seq<byte>, t: Transcript, r: Result<nat, Error>)
    requires Finished(s, input, output, t, r) && r.Ok?
    ensures t.last.Some? && Names(s, t.last.value.0, r.value)
    ensures ClientSize(t.opts + [t.last.value.0], output) == Some((s.exports[r.value].size, s.flags))
  {
    ClientRecovers(s, input, output, t, r);
    SizeAfter(t.opts, t.last.value.0, output, t.answers, Rest(s, t));
    LastSaid(s, t, r);
  }

  lemma SizeAfter(opts: seq<Opt>, o: Opt, output: seq<byte>, answers: seq<Answer>, rest: seq<byte>)
    requires 18 <= |output| && ReadAnswers(output[18..], |opts|) == Some((answers, rest))
    ensures ClientSize(opts + [o], output) == LastSize(o.code, rest)
  {
  }

  lemma LastSaid(s: Server, t: Transcript, r: Result<nat, Error>)
    requires r.Ok? && t.last.Some? && Settled(s, t.last.value.0, r, t.last.value.1)
    ensures LastSize(t.last.value.0.code, Rest(s, t)) == Some((s.exports[r.value].size, s.flags))
  {
    var size := s.exports[r.value].size;
    if t.last.value.0.code == OPT_GO {
      GoSize(size, s.flags);
    } else {
      LegacySize(size, s.flags, t.noZeroes);
    }
  }

  lemma LastAnswerRead(answers: seq<Answer>, a: Answer)
    ensures ReadAnswers(Flat(Encoded(answers)) + Encode(a), |answers| + 1) == Some((answers + [a], []))
  {
    EncodedAppend(answers, a);
    FlatAppend(Encoded(answers), Encode(a));
    AnswersRead(answers + [a], []);
    NothingAfter(Flat(Encoded(answers + [a])));
  }

  /** One option off the stream, for comparing two readings of it. */
  function ReadOpt(b: seq<byte>): Option<(Opt, seq<byte>)> {
    if |b| < 16 then None
    else
      var len := FromBe(b[12..16]);
      if |b| < 16 + len then None
      else
        PowersOf256(); Some((Opt(FromBe(b[8..12]), b[16..16 + len]), b[16 + len..]))
  }

  lemma OptReads(o: Opt, rest: seq<byte>)
    requires |o.data| <= MAX_OPT_LEN
    ensures ReadOpt(EncodeOpt(o) + rest) == Some((o, rest))
  {
    var b := EncodeOpt(o) + rest;
    assert b[8..12] == Be(o.code, 4) && b[12..16] == Be(|o.data|, 4);
    U32(o.code);
    U32(|o.data|);
    assert b[16..16 + |o.data|] == o.data && b[16 + |o.data|..] == rest;
  }

  lemma FirstOption(opts: seq<Opt>, rest: seq<byte>)
    requires Fit(opts) && opts != []
    ensures Flat(EncodedOpts(opts)) + rest == EncodeOpt(opts[0]) + (Flat(EncodedOpts(opts[1..])) + rest)
  {
    var parts := EncodedOpts(opts);
    FlatThen(parts, rest);
    assert parts[1..] == EncodedOpts(opts[1..]);
  }

  /** Streams that start alike start with the same option and go on alike. */
  lemma SameFirst(o: Opt, x: seq<byte>, p: Opt, y: seq<byte>)
    requires |o.data| <= MAX_OPT_LEN && |p.data| <= MAX_OPT_LEN && EncodeOpt(o) + x == EncodeOpt(p) + y
    ensures o == p && x == y
  {
    OptReads(o, x);
    OptReads(p, y);
  }

  /** The options the server read are the options the client sent: two readings of one stream agree. */
  lemma {:induction false} SameOptions(a: seq<Opt>, x: seq<byte>, b: seq<Opt>, y: seq<byte>)
    requires Fit(a) && Fit(b) && |a| <= |b| && Flat(EncodedOpts(a)) + x == Flat(EncodedOpts(b)) + y
    ensures a == b[..|a|]
  {
    if a != [] {
      FirstOption(a, x);
      FirstOption(b, y);
      SameFirst(a[0], Flat(EncodedOpts(a[1..])) + x, b[0], Flat(EncodedOpts(b[1..])) + y);
      SameOptions(a[1..], x, b[1..], y);
      forall i | 0 <= i < |a| ensures a[i] == b[i] {
        if i > 0 {
          assert a[1..][i - 1] == b[1..][..|a| - 1][i - 1];
        }
      }
    }
  }
}
