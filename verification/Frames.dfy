/**
 The binary API's requests: how a client lays them out (docs/BINARY-API.md,
 "Request Formats") and how the server reads them from a byte stream.
 */
module Frames {
  import opened Wrappers
  import opened Bits
  import opened ByteWindow

  const MAX_WORD_COUNT: nat := 256

  datatype Command =
    | CmdDpRead | CmdDpWrite | CmdApRead | CmdApWrite | CmdApBulkRead | CmdApBulkWrite | CmdMultiRegWrite
    | CmdPing | CmdResetTarget | CmdClock | CmdSetSpeed | CmdDisconnect
  {
    static function FromByte(b: u8): Option<Command> {
      match b
      case 0x00 => Some(CmdDpRead)
      case 0x01 => Some(CmdDpWrite)
      case 0x02 => Some(CmdApRead)
      case 0x03 => Some(CmdApWrite)
      case 0x12 => Some(CmdApBulkRead)
      case 0x13 => Some(CmdApBulkWrite)
      case 0x14 => Some(CmdMultiRegWrite)
      case 0xF0 => Some(CmdPing)
      case 0xF1 => Some(CmdResetTarget)
      case 0xF2 => Some(CmdClock)
      case 0xF3 => Some(CmdSetSpeed)
      case 0xFF => Some(CmdDisconnect)
      case _ => None
    }

    /** Bytes that follow the command byte in any case. */
    function RemainingBytes(): nat {
      match this
      case CmdDpRead => 1
      case CmdDpWrite => 5
      case CmdApRead => 1
      case CmdApWrite => 5
      case CmdApBulkRead => 3
      case CmdApBulkWrite => 3
      case CmdMultiRegWrite => 2
      case CmdPing => 0
      case CmdResetTarget => 0
      case CmdDisconnect => 0
      case CmdClock => 3
      case CmdSetSpeed => 1
    }

    /** Bytes that follow those, for a count. */
    function VarBytes(count: u16): Option<nat> {
      match this
      case CmdApBulkRead => if count > MAX_WORD_COUNT then None else Some(count * 4)
      case CmdApBulkWrite => if count > MAX_WORD_COUNT then None else Some(count * 4)
      case CmdMultiRegWrite => if count > MAX_WORD_COUNT then None else Some(count * 6)
      case _ => Some(0)
    }
  }

  datatype RegType = Dp | Ap
  datatype MultiReg = MultiReg(regType: RegType, reg: u8, data: u32)
  datatype LineLevel = Low | High | Input
  datatype Speed = Turbo | Fast | Medium | Slow

  datatype Op =
    | DpRead(reg: u8) | DpWrite(reg: u8, data: u32)
    | ApRead(reg: u8) | ApWrite(reg: u8, data: u32)
    | ApBulkRead(reg: u8, count: u16) | ApBulkWrite(reg: u8, words: seq<u32>)
    | MultiRegWrite(count: u16, regs: seq<MultiReg>)
    | Ping | ResetTarget | Clock(level: LineLevel, post: LineLevel, cycles: u16) | SetSpeed(speed: Speed) | Disconnect
  {
    /** Bulk writes carry a count that fits, and agrees with the data. */
    predicate Valid() {
      match this
      case ApBulkWrite(_, words) => |words| <= MAX_WORD_COUNT
      case MultiRegWrite(count, regs) => count == |regs| <= MAX_WORD_COUNT
      case _ => true
    }
  }

  function HalfBytes(n: u16): (b: seq<u8>)
    ensures |b| == 2
  {
    [n % 0x100, n / 0x100]
  }

  function HalfOf(b: seq<u8>): u16
    requires |b| == 2
  {
    var (lo: nat, hi: nat) := (b[0], b[1]);
    lo + hi * 0x100
  }

  function LevelCode(l: LineLevel): nat { match l case Low => 0 case High => 1 case Input => 2 }

  function LevelOf(n: nat): Option<LineLevel> {
    match n case 0 => Some(Low) case 1 => Some(High) case 2 => Some(Input) case _ => None
  }

  function LevelsFromByte(b: u8): Option<(LineLevel, LineLevel)> {
    var (level, post) := (LevelOf(b % 16), LevelOf(b / 16));
    if level.None? || post.None? then None else Some((level.value, post.value))
  }

  function SpeedCode(s: Speed): u8 { match s case Turbo => 0 case Fast => 1 case Medium => 2 case Slow => 3 }

  function SpeedFromByte(b: u8): Option<Speed> {
    match b case 0 => Some(Turbo) case 1 => Some(Fast) case 2 => Some(Medium) case 3 => Some(Slow) case _ => None
  }

  function RegBytes(r: MultiReg): (b: seq<u8>)
    ensures |b| == 6
  {
    [match r.regType case Dp => 0 case Ap => 1, r.reg] + WordBytes(r.data)
  }

  function RegsBytes(regs: seq<MultiReg>): (b: seq<u8>)
    ensures |b| == 6 * |regs|
  {
    if regs == [] then [] else RegBytes(regs[0]) + RegsBytes(regs[1..])
  }

  function WordsBytes(words: seq<u32>): (b: seq<u8>)
    ensures |b| == 4 * |words|
  {
    if words == [] then [] else WordBytes(words[0]) + WordsBytes(words[1..])
  }

  /** What a client sends. */
  function Encode(op: Op): (b: seq<u8>)
    requires op.Valid()
    ensures b != []
  {
    match op
    case DpRead(reg) => [0x00, reg]
    case DpWrite(reg, data) => [0x01, reg] + WordBytes(data)
    case ApRead(reg) => [0x02, reg]
    case ApWrite(reg, data) => [0x03, reg] + WordBytes(data)
    case ApBulkRead(reg, count) => [0x12, reg] + HalfBytes(count)
    case ApBulkWrite(reg, words) => [0x13, reg] + HalfBytes(|words|) + WordsBytes(words)
    case MultiRegWrite(count, regs) => [0x14] + HalfBytes(count) + RegsBytes(regs)
    case Ping => [0xF0]
    case ResetTarget => [0xF1]
    case Clock(level, post, cycles) => [0xF2, LevelCode(level) + 16 * LevelCode(post)] + HalfBytes(cycles)
    case SetSpeed(speed) => [0xF3, SpeedCode(speed)]
    case Disconnect => [0xFF]
  }

  ghost predicate AllValid(ops: seq<Op>) { forall op | op in ops :: op.Valid() }

  function EncodeAll(ops: seq<Op>): seq<u8>
    requires AllValid(ops)
  {
    if ops == [] then [] else Encode(ops[0]) + EncodeAll(ops[1..])
  }

  datatype ParseError = Transport | BadCommand(byte: u8) | BadArg

  /** The words in a run of bytes, four at a time. */
  function WordsIn(b: seq<u8>): seq<u32> {
    if |b| < 4 then [] else [WordOf(b[..4])] + WordsIn(b[4..])
  }

  function RegIn(b: seq<u8>): Option<MultiReg>
    requires |b| == 6
  {
    var data := WordOf(b[2..]);
    if b[0] == 0 then Some(MultiReg(Dp, b[1], data)) else if b[0] == 1 then Some(MultiReg(Ap, b[1], data)) else None
  }

  function RegsIn(b: seq<u8>): Option<seq<MultiReg>> {
    if |b| < 6 then Some([]) else
    var first := RegIn(b[..6]);
    if first.None? then None else
    var rest := RegsIn(b[6..]);
    if rest.None? then None else Some([first.value] + rest.value)
  }

  /** What follows the command byte: the operation, and how many bytes it takes. */
  function Body(c: Command, s: seq<u8>): (p: (Result<Op, ParseError>, nat))
    ensures p.1 <= |s|
  {
    var n := c.RemainingBytes();
    if |s| < n then (Err(Transport), |s|) else
    var fixed := s[..n];
    match c
    case CmdDpRead => (Ok(DpRead(fixed[0])), n)
    case CmdDpWrite => (Ok(DpWrite(fixed[0], WordOf(fixed[1..5]))), n)
    case CmdApRead => (Ok(ApRead(fixed[0])), n)
    case CmdApWrite => (Ok(ApWrite(fixed[0], WordOf(fixed[1..5]))), n)
    case CmdApBulkRead => (Ok(ApBulkRead(fixed[0], HalfOf(fixed[1..3]))), n)
    case CmdApBulkWrite =>
      (match c.VarBytes(HalfOf(fixed[1..3]))
       case None => (Err(BadArg), n)
       case Some(v) =>
         if |s| < n + v then (Err(Transport), |s|) else (Ok(ApBulkWrite(fixed[0], WordsIn(s[n..n + v]))), n + v))
    case CmdMultiRegWrite =>
      var count := HalfOf(fixed[0..2]);
      (match c.VarBytes(count)
       case None => (Err(BadArg), n)
       case Some(v) =>
         if |s| < n + v then (Err(Transport), |s|) else
         match RegsIn(s[n..n + v])
         case None => (Err(BadArg), n + v)
         case Some(regs) => (Ok(MultiRegWrite(count, regs)), n + v))
    case CmdPing => (Ok(Ping), n)
    case CmdResetTarget => (Ok(ResetTarget), n)
    case CmdClock =>
      (match LevelsFromByte(fixed[0])
       case None => (Err(BadArg), n)
       case Some(levels) => (Ok(Clock(levels.0, levels.1, HalfOf(fixed[1..3]))), n))
    case CmdSetSpeed =>
      (match SpeedFromByte(fixed[0])
       case None => (Err(BadArg), n)
       case Some(speed) => (Ok(SetSpeed(speed)), n))
    case CmdDisconnect => (Ok(Disconnect), n)
  }

  /** A whole request at the front of a stream. */
  function Frame(s: seq<u8>): (p: (Result<Op, ParseError>, nat))
    ensures p.1 <= |s| && (p.0.Ok? ==> p.1 > 0)
  {
    if s == [] then (Err(Transport), 0) else
    match Command.FromByte(s[0])
    case None => (Err(BadCommand(s[0])), 1)
    case Some(c) => var (r, k) := Body(c, s[1..]); (r, k + 1)
  }

  /** The bytes a client has sent and still will, and how many were taken. */
  class Reader {
    const stream: seq<u8>
    var pos: nat

    constructor (stream: seq<u8>)
      ensures this.stream == stream && pos == 0
    {
      this.stream, pos := stream, 0;
    }

    ghost predicate Valid() reads this { pos <= |stream| }

    function Left(): seq<u8>
      requires Valid()
      reads this
    {
      stream[pos..]
    }

    /** Take `n` bytes; if the stream ends before, all that is left is lost. */
    method ReadExact(n: nat) returns (r: Result<seq<u8>, ParseError>)
      requires Valid()
      modifies this
      ensures Valid()
      ensures if n <= |old(Left())| then r == Ok(old(Left())[..n]) && Left() == old(Left())[n..] && pos == old(pos) + n
              else r == Err(Transport) && pos == |stream|
    {
      if n <= |stream| - pos {
        assert stream[pos..][..n] == stream[pos..pos + n];
        r := Ok(stream[pos..pos + n]);
        pos := pos + n;
      } else {
        r := Err(Transport);
        pos := |stream|;
      }
    }

    method RecvCmd() returns (r: Result<Command, ParseError>)
      requires Valid()
      modifies this
      ensures Valid()
      ensures match r
              case Ok(c) => old(Left()) != [] && Command.FromByte(old(Left())[0]) == Some(c)
                            && Left() == old(Left())[1..] && pos == old(pos) + 1
              case Err(Transport) => old(Left()) == []
              case Err(BadCommand(b)) => old(Left()) != [] && old(Left())[0] == b && Command.FromByte(b) == None
              case Err(BadArg) => false
    {
      var cmd := ReadExact(1);
      if cmd.Err? {
        return Err(cmd.error);
      }
      var c := Command.FromByte(cmd.value[0]);
      r := if c.Some? then Ok(c.value) else Err(BadCommand(cmd.value[0]));
    }

    /** The rest of a request whose command byte was read. */
    method AsyncRecv(c: Command) returns (r: Result<Op, ParseError>)
      requires Valid()
      modifies this
      ensures Valid()
      ensures r == Body(c, old(Left())).0
      ensures r.Ok? || r == Err(BadArg) ==>
                Left() == old(Left())[Body(c, old(Left())).1..] && pos == old(pos) + Body(c, old(Left())).1
    {
      ghost var s := Left();
      hide WordOf, HalfOf;
      var n := c.RemainingBytes();
      var buf := [];
      if n > 0 {
        var fixed := ReadExact(n);
        if fixed.Err? {
          return Err(fixed.error);
        }
        buf := fixed.value;
      }
      match c
      case CmdDpRead => return Ok(DpRead(buf[0]));
      case CmdDpWrite => return Ok(DpWrite(buf[0], WordOf(buf[1..5])));
      case CmdApRead => return Ok(ApRead(buf[0]));
      case CmdApWrite => return Ok(ApWrite(buf[0], WordOf(buf[1..5])));
      case CmdApBulkRead => return Ok(ApBulkRead(buf[0], HalfOf(buf[1..3])));
      case CmdApBulkWrite =>
        var dataBytes := c.VarBytes(HalfOf(buf[1..3]));
        if dataBytes.None? {
          return Err(BadArg);
        }
        var data := ReadExact(dataBytes.value);
        if data.Err? {
          return Err(data.error);
        }
        assert data.value == s[n..n + dataBytes.value];
        var words := CollectWords(data.value);
        return Ok(ApBulkWrite(buf[0], words));
      case CmdMultiRegWrite =>
        var count := HalfOf(buf[0..2]);
        var dataBytes := c.VarBytes(count);
        if dataBytes.None? {
          return Err(BadArg);
        }
        var data := ReadExact(dataBytes.value);
        if data.Err? {
          return Err(data.error);
        }
        assert data.value == s[n..n + dataBytes.value];
        var regs := CollectRegs(data.value);
        if regs.None? {
          return Err(BadArg);
        }
        return Ok(MultiRegWrite(count, regs.value));
      case CmdPing => return Ok(Ping);
      case CmdResetTarget => return Ok(ResetTarget);
      case CmdClock =>
        var levels := LevelsFromByte(buf[0]);
        if levels.None? {
          return Err(BadArg);
        }
        return Ok(Clock(levels.value.0, levels.value.1, HalfOf(buf[1..3])));
      case CmdSetSpeed =>
        var speed := SpeedFromByte(buf[0]);
        if speed.None? {
          return Err(BadArg);
        }
        return Ok(SetSpeed(speed.value));
      case CmdDisconnect => return Ok(Disconnect);
    }
  }

  method CollectWords(b: seq<u8>) returns (words: seq<u32>)
    ensures words == WordsIn(b)
  {
    hide WordOf;
    words := [];
    var i := 0;
    while i + 4 <= |b|
      invariant i <= |b| && words + WordsIn(b[i..]) == WordsIn(b)
    {
      assert b[i..][..4] == b[i..i + 4] && b[i..][4..] == b[i + 4..];
      words := words + [WordOf(b[i..i + 4])];
      i := i + 4;
    }
  }

  ghost function Prepend(data: seq<MultiReg>, rest: Option<seq<MultiReg>>): Option<seq<MultiReg>> {
    if rest.None? then None else Some(data + rest.value)
  }

  lemma PrependMore(data: seq<MultiReg>, r: MultiReg, rest: Option<seq<MultiReg>>)
    ensures Prepend(data, Prepend([r], rest)) == Prepend(data + [r], rest)
  {
    if rest.Some? { assert data + ([r] + rest.value) == data + [r] + rest.value; }
  }

  method CollectRegs(b: seq<u8>) returns (regs: Option<seq<MultiReg>>)
    ensures regs == RegsIn(b)
  {
    hide RegIn;
    var data := [];
    var i := 0;
    assert b[0..] == b && forall rest: seq<MultiReg> :: data + rest == rest;
    while i + 6 <= |b|
      invariant i <= |b|
      invariant RegsIn(b) == Prepend(data, RegsIn(b[i..]))
    {
      assert b[i..][..6] == b[i..i + 6] && b[i..][6..] == b[i + 6..];
      var reg := RegIn(b[i..i + 6]);
      if reg.None? {
        return None;
      }
      PrependMore(data, reg.value, RegsIn(b[i + 6..]));
      data := data + [reg.value];
      i := i + 6;
    }
    assert data + [] == data;
    regs := Some(data);
  }

  lemma HalfRoundTrip(n: u16)
    ensures HalfOf(HalfBytes(n)) == n
  {
  }

  lemma HalfBack(b: seq<u8>)
    requires |b| == 2
    ensures HalfBytes(HalfOf(b)) == b
  {
  }

  lemma LevelsRoundTrip(level: LineLevel, post: LineLevel)
    ensures LevelsFromByte(LevelCode(level) + 16 * LevelCode(post)) == Some((level, post))
  {
  }

  lemma LevelsBack(b: u8)
    ensures var p := LevelsFromByte(b); p.Some? ==> LevelCode(p.value.0) + 16 * LevelCode(p.value.1) == b
  {
  }

  lemma {:induction false} WordsRoundTrip(words: seq<u32>)
    ensures WordsIn(WordsBytes(words)) == words
  {
    hide WordOf, WordBytes;
    if words == [] {
    } else {
      var b := WordsBytes(words);
      assert b[..4] == WordBytes(words[0]) && b[4..] == WordsBytes(words[1..]);
      BytesRoundTrip(words[0]);
      WordsRoundTrip(words[1..]);
    }
  }

  lemma {:induction false} WordsBack(b: seq<u8>)
    requires |b| % 4 == 0
    ensures WordsBytes(WordsIn(b)) == b && |WordsIn(b)| == |b| / 4
  {
    hide WordOf, WordBytes;
    if b == [] {
    } else {
      assert |b| >= 4;
      WordRoundTrip(b[..4]);
      WordsBack(b[4..]);
      assert WordsIn(b)[1..] == WordsIn(b[4..]);
    }
  }

  lemma RegRoundTrip(r: MultiReg)
    ensures RegIn(RegBytes(r)) == Some(r)
  {
    hide WordOf, WordBytes;
    BytesRoundTrip(r.data);
    assert RegBytes(r)[2..] == WordBytes(r.data);
  }

  lemma RegBack(b: seq<u8>)
    requires |b| == 6 && RegIn(b).Some?
    ensures RegBytes(RegIn(b).value) == b
  {
    hide WordOf, WordBytes;
    WordRoundTrip(b[2..]);
    assert b == [b[0], b[1]] + b[2..];
  }

  lemma {:induction false} RegsRoundTrip(regs: seq<MultiReg>)
    ensures RegsIn(RegsBytes(regs)) == Some(regs)
  {
    hide RegIn, RegBytes;
    if regs == [] {
    } else {
      var b := RegsBytes(regs);
      assert b[..6] == RegBytes(regs[0]) && b[6..] == RegsBytes(regs[1..]);
      RegRoundTrip(regs[0]);
      RegsRoundTrip(regs[1..]);
      assert [regs[0]] + regs[1..] == regs;
    }
  }

  lemma {:induction false} RegsBack(b: seq<u8>)
    requires |b| % 6 == 0 && RegsIn(b).Some?
    ensures RegsBytes(RegsIn(b).value) == b && |RegsIn(b).value| == |b| / 6
  {
    hide RegIn, RegBytes;
    if b == [] {
    } else {
      assert |b| >= 6;
      RegBack(b[..6]);
      RegsBack(b[6..]);
      assert RegsIn(b).value[1..] == RegsIn(b[6..]).value;
    }
  }

  /** A request parses back to itself, whatever follows, and takes exactly its own bytes. */
  lemma FrameRoundTrip(op: Op, rest: seq<u8>)
    requires op.Valid()
    ensures Frame(Encode(op) + rest) == (Ok(op), |Encode(op)|)
  {
    hide WordOf, WordBytes, HalfOf, HalfBytes, LevelsFromByte, LevelCode;
    match op
    case ApBulkWrite(reg, words) => BulkRoundTrip(reg, words, rest);
    case MultiRegWrite(count, regs) => MultiRoundTrip(regs, rest);
    case DpWrite(reg, data) => WordField(Encode(op) + rest, reg, data);
    case ApWrite(reg, data) => WordField(Encode(op) + rest, reg, data);
    case ApBulkRead(reg, count) => CountField(Encode(op) + rest, reg, count);
    case Clock(level, post, cycles) =>
      LevelsRoundTrip(level, post);
      CountField(Encode(op) + rest, Encode(op)[1], cycles);
    case DpRead(reg) => ByteField(Encode(op) + rest);
    case ApRead(reg) => ByteField(Encode(op) + rest);
    case SetSpeed(speed) => ByteField(Encode(op) + rest);
    case _ =>
  }

  lemma ByteField(s: seq<u8>)
    requires |s| >= 2
    ensures s[1..][..1][0] == s[1]
  {
  }

  lemma Middle(pre: seq<u8>, mid: seq<u8>, post: seq<u8>)
    ensures (pre + mid + post)[|pre|..|pre| + |mid|] == mid
  {
  }

  /** A field among the fixed bytes of a request, and one after them. */
  lemma Field(s: seq<u8>, n: nat, a: nat, b: nat)
    requires a <= b < |s|
    ensures b <= n < |s| ==> s[1..][..n][a..b] == s[1 + a..1 + b]
    ensures s[1..][a..b] == s[1 + a..1 + b]
  {
  }

  lemma BulkRoundTrip(reg: u8, words: seq<u32>, rest: seq<u8>)
    requires |words| <= MAX_WORD_COUNT
    ensures var b := Encode(ApBulkWrite(reg, words)); Frame(b + rest) == (Ok(ApBulkWrite(reg, words)), |b|)
  {
    hide HalfOf, HalfBytes, WordsIn, WordsBytes;
    var s := Encode(ApBulkWrite(reg, words)) + rest;
    CountField(s, reg, |words|);
    WordsRoundTrip(words);
    Middle([0x13, reg] + HalfBytes(|words|), WordsBytes(words), rest);
    Field(s, 3, 3, 3 + 4 * |words|);
  }

  lemma MultiRoundTrip(regs: seq<MultiReg>, rest: seq<u8>)
    requires |regs| <= MAX_WORD_COUNT
    ensures var b := Encode(MultiRegWrite(|regs|, regs)); Frame(b + rest) == (Ok(MultiRegWrite(|regs|, regs)), |b|)
  {
    hide HalfOf, HalfBytes, RegsIn, RegsBytes, Body;
    var s := HalfBytes(|regs|) + RegsBytes(regs) + rest;
    assert Encode(MultiRegWrite(|regs|, regs)) + rest == [0x14] + s;
    assert ([0x14] + s)[1..] == s;
    Middle(HalfBytes(|regs|), RegsBytes(regs), rest);
    MultiBody(s, regs);
  }

  lemma MultiBody(s: seq<u8>, regs: seq<MultiReg>)
    requires |regs| <= MAX_WORD_COUNT && |s| >= 2 + 6 * |regs|
    requires s[..2] == HalfBytes(|regs|) && s[2..2 + 6 * |regs|] == RegsBytes(regs)
    ensures Body(CmdMultiRegWrite, s) == (Ok(MultiRegWrite(|regs|, regs)), 2 + 6 * |regs|)
  {
    hide HalfOf, HalfBytes, RegsIn, RegsBytes;
    HalfRoundTrip(|regs|);
    RegsRoundTrip(regs);
    assert s[..2][0..2] == s[..2];
  }

  lemma WordField(s: seq<u8>, reg: u8, data: u32)
    requires |s| >= 6 && s[1] == reg && s[2..6] == WordBytes(data)
    ensures var fixed := s[1..][..5]; fixed[0] == reg && WordOf(fixed[1..5]) == data
  {
    BytesRoundTrip(data);
    Field(s, 5, 1, 5);
  }

  lemma CountField(s: seq<u8>, reg: u8, count: u16)
    requires |s| >= 4 && s[1] == reg && s[2..4] == HalfBytes(count)
    ensures var fixed := s[1..][..3]; fixed[0] == reg && HalfOf(fixed[1..3]) == count
  {
    HalfRoundTrip(count);
    Field(s, 3, 1, 3);
  }

  /** Whatever parses is the layout of what it parses to: nothing else is taken for a request. */
  lemma FrameConverse(s: seq<u8>)
    requires Frame(s).0.Ok?
    ensures var (r, k) := Frame(s); r.value.Valid() && Encode(r.value) == s[..k]
  {
    hide WordOf, WordBytes, HalfOf, HalfBytes, LevelsFromByte, LevelCode;
    var c := Command.FromByte(s[0]).value;
    var t := s[1..];
    match c
    case CmdDpWrite => WordBack(s);
    case CmdApWrite => WordBack(s);
    case CmdApBulkRead => CountBack(s);
    case CmdApBulkWrite => BulkBack(s);
    case CmdMultiRegWrite => MultiBack(s);
    case CmdClock =>
      CountBack(s);
      LevelsBack(s[1]);
    case _ =>
  }

  lemma WordBack(s: seq<u8>)
    requires |s| >= 6
    ensures var fixed := s[1..][..5]; [s[0], fixed[0]] + WordBytes(WordOf(fixed[1..5])) == s[..6]
  {
    hide WordOf, WordBytes;
    WordRoundTrip(s[1..][..5][1..5]);
    Field(s, 5, 1, 5);
    assert s[..6] == [s[0], s[1]] + s[2..6];
  }

  lemma CountBack(s: seq<u8>)
    requires |s| >= 4
    ensures var fixed := s[1..][..3]; [s[0], s[1]] + HalfBytes(HalfOf(fixed[1..3])) == s[..4]
  {
    hide HalfOf, HalfBytes;
    HalfBack(s[1..][..3][1..3]);
    Field(s, 3, 1, 3);
    assert s[..4] == [s[0], s[1]] + s[2..4];
  }

  lemma BulkBack(s: seq<u8>)
    requires s != [] && s[0] == 0x13 && Frame(s).0.Ok?
    ensures var (r, k) := Frame(s); r.value.Valid() && Encode(r.value) == s[..k]
  {
    hide HalfOf, HalfBytes, WordsIn, WordsBytes;
    var k := Frame(s).1;
    CountBack(s);
    var data := s[1..][3..k - 1];
    WordsBack(data);
    Field(s, 3, 3, k - 1);
    assert s[..k] == s[..4] + s[4..k];
  }

  lemma MultiBack(s: seq<u8>)
    requires s != [] && s[0] == 0x14 && Frame(s).0.Ok?
    ensures var (r, k) := Frame(s); r.value.Valid() && Encode(r.value) == s[..k]
  {
    hide HalfOf, HalfBytes, RegsIn, RegsBytes;
    var k := Frame(s).1;
    HalfBack(s[1..][..2][0..2]);
    var data := s[1..][2..k - 1];
    RegsBack(data);
    Field(s, 2, 0, 2);
    Field(s, 2, 2, k - 1);
    assert s[..k] == s[..1] + s[1..3] + s[3..k];
  }

  const COMMANDS: set<u8> := {0x00, 0x01, 0x02, 0x03, 0x12, 0x13, 0x14, 0xF0, 0xF1, 0xF2, 0xF3, 0xFF}

  /**
   A whole request but for an argument out of range: a count above 256, a
   register type other than 0 and 1, a line level other than 0, 1 and 2 in
   either half of its byte, or a speed above 3.
   */
  ghost predicate BadArguments(s: seq<u8>) {
    s != [] &&
    if s[0] == 0x13 then |s| >= 4 && Number(s[2], s[3]) > 256
    else if s[0] == 0x14 then
      && |s| >= 3
      && (|| Number(s[1], s[2]) > 256
          || (|s| >= 3 + 6 * Number(s[1], s[2]) && exists i | 0 <= i < Number(s[1], s[2]) :: UnknownType(s, 3, i)))
    else if s[0] == 0xF2 then |s| >= 4 && (s[1] % 16 > 2 || s[1] / 16 > 2)
    else s[0] == 0xF3 && |s| >= 2 && s[1] > 3
  }

  function Number(lo: nat, hi: nat): nat { lo + 0x100 * hi }

  /** Entry `i` of the list that starts at `at` has a register type other than 0 and 1. */
  predicate UnknownType(s: seq<u8>, at: nat, i: nat)
    requires at + 6 * i < |s|
  {
    s[at + 6 * i] > 1
  }

  /** Why a request is refused: an unknown command byte, an argument out of range, and otherwise only the end of the stream. */
  lemma WhyRefused(s: seq<u8>)
    ensures Frame(s).0.Err? && Frame(s).0.error.BadCommand? <==> s != [] && s[0] !in COMMANDS
    ensures Frame(s).0 == Err(BadArg) <==> BadArguments(s)
  {
    if s == [] || s[0] !in COMMANDS {
    } else {
      CommandKnown(s[0]);
      var c := Command.FromByte(s[0]).value;
      var t := s[1..];
      if c.CmdApBulkWrite? {
        BulkRefused(s);
      } else if c.CmdMultiRegWrite? {
        MultiRefused(s);
      } else {
        hide WordOf, HalfOf, WordsIn, RegsIn;
        if |s| >= 4 { assert t[..3][0] == s[1]; }
        if |s| >= 2 { assert t[..1][0] == s[1]; }
      }
    }
  }

  lemma CommandKnown(b: u8)
    ensures Command.FromByte(b).Some? <==> b in COMMANDS
  {
  }

  lemma BulkRefused(s: seq<u8>)
    requires s != [] && s[0] == 0x13
    ensures Frame(s).0.Err? ==> !Frame(s).0.error.BadCommand?
    ensures Frame(s).0 == Err(BadArg) <==> BadArguments(s)
  {
    hide WordsIn;
    if |s| >= 4 {
      Field(s, 3, 1, 3);
      assert s[2..4] == [s[2], s[3]];
    }
  }

  lemma MultiRefused(s: seq<u8>)
    requires s != [] && s[0] == 0x14
    ensures Frame(s).0.Err? ==> !Frame(s).0.error.BadCommand?
    ensures Frame(s).0 == Err(BadArg) <==> BadArguments(s)
  {
    hide RegsIn;
    if |s| >= 3 {
      Field(s, 2, 0, 2);
      assert s[1..3] == [s[1], s[2]];
      var n := Number(s[1], s[2]);
      if n <= 256 && |s| >= 3 + 6 * n {
        if n > 0 { Field(s, 2, 2, 2 + 6 * n); }
        var regs := s[1..][2..2 + 6 * n];
        RegsInFails(regs);
        SameTypes(s, regs, n);
      }
    }
  }

  lemma SameTypes(s: seq<u8>, regs: seq<u8>, n: nat)
    requires |s| >= 3 + 6 * n && regs == s[1..][2..2 + 6 * n]
    ensures (exists i | 0 <= i < n :: UnknownType(regs, 0, i)) <==> (exists i | 0 <= i < n :: UnknownType(s, 3, i))
  {
    forall i | 0 <= i < n
      ensures UnknownType(regs, 0, i) == UnknownType(s, 3, i)
    {
    }
    if i :| 0 <= i < n && UnknownType(regs, 0, i) { assert UnknownType(s, 3, i); }
    if i :| 0 <= i < n && UnknownType(s, 3, i) { assert UnknownType(regs, 0, i); }
  }

  lemma {:induction false} RegsInFails(b: seq<u8>)
    requires |b| % 6 == 0
    ensures RegsIn(b).None? <==> exists i | 0 <= i < |b| / 6 :: UnknownType(b, 0, i)
  {
    hide WordOf;
    if b == [] {
    } else {
      var rest := b[6..];
      RegsInFails(rest);
      if b[0] > 1 { assert UnknownType(b, 0, 0); }
      forall i | 0 <= i < |rest| / 6
        ensures UnknownType(rest, 0, i) == UnknownType(b, 0, i + 1)
      {
        assert rest[6 * i] == b[6 * (i + 1)];
      }
      if i :| 0 <= i < |rest| / 6 && UnknownType(rest, 0, i) { assert UnknownType(b, 0, i + 1); }
      if i :| 0 <= i < |b| / 6 && UnknownType(b, 0, i) && i > 0 { assert UnknownType(rest, 0, i - 1); }
    }
  }

  /** Parse to the end of the stream. */
  function DecodeAll(s: seq<u8>): Option<seq<Op>> {
    if s == [] then Some([]) else
    var (r, k) := Frame(s);
    if r.Err? then None else
    var rest := DecodeAll(s[k..]);
    if rest.None? then None else Some([r.value] + rest.value)
  }

  /** Any list of requests, sent one after the other, comes out as that list. */
  lemma {:induction false} StreamRoundTrip(ops: seq<Op>)
    requires AllValid(ops)
    ensures DecodeAll(EncodeAll(ops)) == Some(ops)
  {
    hide Frame, Encode;
    if ops == [] {
    } else {
      var b := Encode(ops[0]);
      FrameRoundTrip(ops[0], EncodeAll(ops[1..]));
      StreamRoundTrip(ops[1..]);
      assert (b + EncodeAll(ops[1..]))[|b|..] == EncodeAll(ops[1..]);
      assert [ops[0]] + ops[1..] == ops;
    }
  }

  /** A bulk write that announces too many words is refused before any of them is taken. */
  lemma TooManyRefused(first: u8, s: seq<u8>)
    requires if first == 0x13 then |s| >= 3 && HalfOf(s[1..3]) > MAX_WORD_COUNT
             else first == 0x14 && |s| >= 2 && HalfOf(s[..2]) > MAX_WORD_COUNT
    ensures Frame([first] + s) == (Err(BadArg), if first == 0x13 then 4 else 3)
  {
    hide HalfOf;
    var t := [first] + s;
    assert t[1..] == s;
    if first == 0x13 {
      assert s[..3][1..3] == s[1..3];
    } else {
      assert s[..2][0..2] == s[..2];
    }
  }

  lemma {:induction false} EncodeAllSnoc(ops: seq<Op>, op: Op)
    requires AllValid(ops) && op.Valid()
    ensures AllValid(ops + [op]) && EncodeAll(ops + [op]) == EncodeAll(ops) + Encode(op)
  {
    hide Encode;
    if ops == [] {
      assert [op][1..] == [];
    } else {
      assert (ops + [op])[1..] == ops[1..] + [op];
      EncodeAllSnoc(ops[1..], op);
    }
  }
}
