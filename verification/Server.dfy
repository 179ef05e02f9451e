/** The binary API server: one reply per request, in order, until the session ends. */
module Server {
  import opened Wrappers
  import opened Bits
  import opened ByteWindow
  import opened Frames
  import opened DebugPort

  const VERSION: u8 := 0x01
  const DRW_ADDRESS: u8 := 0x0C

  const RSP_OK: u8 := 0x00
  const RSP_ERR_SWD: u8 := 0x82
  const RSP_ERR_TIMEOUT: u8 := 0x83
  const RSP_ERR_NET: u8 := 0x84
  const RSP_ERR_API: u8 := 0x85

  /** A call to the debug interface. */
  datatype Call =
    | ReadDp(reg: u8) | WriteDp(reg: u8, data: u32) | ReadAp(reg: u8) | WriteAp(reg: u8, data: u32)
    | AddrIncOn | BulkReadAp(reg: u8, count: u16) | BulkWriteAp(reg: u8, words: seq<u32>)
    | Reset(v2: bool) | ClockRaw(level: LineLevel, post: LineLevel, cycles: u16) | SwdSpeed(speed: Speed)
  {
    /** How many words a successful call returns. */
    function Words(): nat {
      match this case ReadDp(_) => 1 case ReadAp(_) => 1 case BulkReadAp(_, count) => count case _ => 0
    }

    predicate CannotFail() { ClockRaw? || SwdSpeed? }
  }

  /**
   What came of a call. `Panic` is a raw bulk read of no words that gets as
   far as storing its last one (`Interface.SwdInterface.ReadApRegisterRawBulk`).
   */
  datatype Outcome = Good(words: seq<u32>) | Bad(error: SwdError) | Panic

  /** What the debug interface does with one call: fail, or return words. */
  datatype Fate = Fate(fails: bool, error: SwdError, words: nat -> u32)

  datatype Attempt = Attempt(call: Call, outcome: Outcome)

  /** Any call may fail in any way, but for those that only drive lines. */
  function OutcomeOf(fate: Fate, c: Call): Outcome {
    if fate.fails && !c.CannotFail() then Bad(fate.error)
    else if c.BulkReadAp? && c.count == 0 then Panic
    else Good(seq(c.Words(), i requires 0 <= i < c.Words() => fate.words(i)))
  }

  class Swd {
    const env: nat -> Fate
    var attempts: seq<Attempt>

    constructor (env: nat -> Fate)
      ensures this.env == env && attempts == []
    {
      this.env, attempts := env, [];
    }

    method Run(c: Call) returns (o: Outcome)
      modifies this
      ensures o == OutcomeOf(env(|old(attempts)|), c)
      ensures attempts == old(attempts) + [Attempt(c, o)]
    {
      o := OutcomeOf(env(|attempts|), c);
      attempts := attempts + [Attempt(c, o)];
    }
  }

  /** How an operation went, for the main loop. */
  datatype Handled = Data(bytes: seq<u8>) | Nothing | Failed(error: SwdError) | Panicked

  /** The calls an operation makes, one after the other, when all goes well. */
  function Plan(op: Op): seq<Call> {
    match op
    case DpRead(reg) => [ReadDp(reg)]
    case DpWrite(reg, data) => [WriteDp(reg, data)]
    case ApRead(reg) => [ReadAp(reg)]
    case ApWrite(reg, data) => [WriteAp(reg, data)]
    case ApBulkRead(reg, count) => [AddrIncOn, BulkReadAp(reg, count)]
    case ApBulkWrite(reg, words) => [AddrIncOn, BulkWriteAp(reg, words)]
    case MultiRegWrite(_, regs) => RegCalls(regs)
    case Clock(level, post, cycles) => [ClockRaw(level, post, cycles)]
    case SetSpeed(speed) => [SwdSpeed(speed)]
    case ResetTarget => [Reset(false)]
    case _ => []
  }

  function RegCall(r: MultiReg): Call { match r.regType case Dp => WriteDp(r.reg, r.data) case Ap => WriteAp(r.reg, r.data) }

  function RegCalls(regs: seq<MultiReg>): seq<Call> {
    seq(|regs|, i requires 0 <= i < |regs| => RegCall(regs[i]))
  }

  /** Calls made from call number `n` on, up to the first that does not succeed. */
  function Tries(env: nat -> Fate, n: nat, calls: seq<Call>): seq<Attempt>
    decreases calls
  {
    if calls == [] then [] else
    var first := Attempt(calls[0], OutcomeOf(env(n), calls[0]));
    if first.outcome.Good? then [first] + Tries(env, n + 1, calls[1..]) else [first]
  }

  /** What an operation does from call number `n` on. A target reset that fails is tried once more the other way. */
  function TriesOf(env: nat -> Fate, n: nat, op: Op): seq<Attempt> {
    var tries := Tries(env, n, Plan(op));
    if op.ResetTarget? && !AllGood(tries) then tries + Tries(env, n + 1, [Reset(true)]) else tries
  }

  predicate AllGood(tries: seq<Attempt>) { tries == [] || tries[|tries| - 1].outcome.Good? }

  /** How an operation went, by its last call. */
  function ResultOf(op: Op, tries: seq<Attempt>): Handled {
    if tries == [] then Nothing else
    match tries[|tries| - 1].outcome
    case Bad(e) => Failed(e)
    case Panic => Panicked
    case Good(words) => if op.DpRead? || op.ApRead? || op.ApBulkRead? then Data(ReplyData(op, words)) else Nothing
  }

  /** What a successful read sends back after the status. */
  function ReplyData(op: Op, words: seq<u32>): seq<u8> {
    (if op.ApBulkRead? then HalfBytes(op.count) else []) + WordsBytes(words)
  }

  /** The calls made are the planned ones, in order, all but the last successful; all of them if the last is. */
  lemma {:induction false} TriesFollow(env: nat -> Fate, n: nat, calls: seq<Call>)
    ensures var tries := Tries(env, n, calls);
            && |tries| <= |calls|
            && (forall i | 0 <= i < |tries| :: tries[i] == Attempt(calls[i], OutcomeOf(env(n + i), calls[i])))
            && (forall i | 0 <= i < |tries| - 1 :: tries[i].outcome.Good?)
            && (AllGood(tries) ==> |tries| == |calls|) && (calls != [] ==> tries != [])
    decreases calls
  {
    hide OutcomeOf;
    if calls == [] {
    } else {
      var rest := Tries(env, n + 1, calls[1..]);
      TriesFollow(env, n + 1, calls[1..]);
      var tries := Tries(env, n, calls);
      assert tries[0].outcome.Good? ==> tries == [tries[0]] + rest;
    }
  }

  /** One more call after calls that all succeeded. */
  lemma {:induction false} TriesSnoc(env: nat -> Fate, n: nat, calls: seq<Call>, c: Call)
    requires AllGood(Tries(env, n, calls))
    ensures |Tries(env, n, calls)| == |calls|
    ensures Tries(env, n, calls + [c]) == Tries(env, n, calls) + [Attempt(c, OutcomeOf(env(n + |calls|), c))]
    decreases calls
  {
    hide OutcomeOf;
    if calls == [] {
      assert Tries(env, n + 1, [c][1..]) == [];
    } else {
      assert (calls + [c])[1..] == calls[1..] + [c] && (calls + [c])[0] == calls[0];
      TriesFollow(env, n, calls);
      assert AllGood(Tries(env, n + 1, calls[1..]));
      TriesSnoc(env, n + 1, calls[1..], c);
    }
  }

  /** Calls after the first that fails are not made. */
  lemma {:induction false} TriesStop(env: nat -> Fate, n: nat, calls: seq<Call>, more: seq<Call>)
    requires !AllGood(Tries(env, n, calls))
    ensures Tries(env, n, calls + more) == Tries(env, n, calls)
    decreases calls
  {
    hide OutcomeOf;
    if calls == [] {
    } else {
      assert (calls + more)[1..] == calls[1..] + more && (calls + more)[0] == calls[0];
      if OutcomeOf(env(n), calls[0]).Good? { TriesStop(env, n + 1, calls[1..], more); }
    }
  }

  /**
   The calls an operation makes, register by register: a DP request reaches
   the DP register it names and nothing else, an AP request the AP register
   it names, and each with its own data, up to the first call that fails.
   */
  ghost predicate Reaches(op: Op, tries: seq<Attempt>) {
    match op
    case DpRead(reg) => |tries| == 1 && tries[0].call == ReadDp(reg)
    case DpWrite(reg, data) => |tries| == 1 && tries[0].call == WriteDp(reg, data)
    case ApRead(reg) => |tries| == 1 && tries[0].call == ReadAp(reg)
    case ApWrite(reg, data) => |tries| == 1 && tries[0].call == WriteAp(reg, data)
    case ApBulkRead(reg, count) => AfterAddrInc(tries, BulkReadAp(reg, count))
    case ApBulkWrite(reg, words) => AfterAddrInc(tries, BulkWriteAp(reg, words))
    case MultiRegWrite(_, regs) =>
      && |tries| <= |regs|
      && (forall i | 0 <= i < |tries| ::
            && (regs[i].regType.Dp? ==> tries[i].call == WriteDp(regs[i].reg, regs[i].data))
            && (regs[i].regType.Ap? ==> tries[i].call == WriteAp(regs[i].reg, regs[i].data)))
      && (forall i | 0 <= i < |tries| - 1 :: tries[i].outcome.Good?)
      && (|tries| < |regs| ==> tries != [] && !tries[|tries| - 1].outcome.Good?)
    case Clock(level, post, cycles) => |tries| == 1 && tries[0].call == ClockRaw(level, post, cycles)
    case SetSpeed(speed) => |tries| == 1 && tries[0].call == SwdSpeed(speed)
    case ResetTarget =>
      && 1 <= |tries| <= 2 && tries[0].call == Reset(false)
      && (|tries| == 2 <==> !tries[0].outcome.Good?) && (|tries| == 2 ==> tries[1].call == Reset(true))
    case Ping => tries == []
    case Disconnect => true
  }

  /** Auto-increment is switched on, and only then the bulk call made. */
  ghost predicate AfterAddrInc(tries: seq<Attempt>, c: Call) {
    && 1 <= |tries| <= 2 && tries[0].call == AddrIncOn
    && (|tries| == 2 <==> tries[0].outcome.Good?) && (|tries| == 2 ==> tries[1].call == c)
  }

  /** What is sent back: the words of the last call byte by byte, the low byte of each first, or its error. */
  ghost predicate Replies(op: Op, tries: seq<Attempt>, h: Handled) {
    && (h.Failed? ==> tries != [] && tries[|tries| - 1].outcome == Bad(h.error))
    && (h.Nothing? ==> !op.DpRead? && !op.ApRead? && !op.ApBulkRead? && AllGood(tries))
    && (h.Data? ==>
          && (op.DpRead? || op.ApRead? || op.ApBulkRead?)
          && tries != [] && tries[|tries| - 1].outcome.Good?
          && var words := tries[|tries| - 1].outcome.words;
             if op.ApBulkRead? then
               && |words| == op.count && |h.bytes| == 2 + 4 * |words|
               && h.bytes[0] == op.count % 0x100 && h.bytes[1] == op.count / 0x100
               && Carries(h.bytes[2..], words)
             else |words| == 1 && |h.bytes| == 4 && Carries(h.bytes, words))
  }

  ghost predicate Carries(bytes: seq<u8>, words: seq<u32>) {
    |bytes| == 4 * |words| && forall i, k | 0 <= i < |words| && 0 <= k < 4 :: bytes[4 * i + k] == ByteOf(words[i], k)
  }

  lemma {:induction false} WordsCarry(words: seq<u32>)
    ensures Carries(WordsBytes(words), words)
  {
    if words == [] {
    } else {
      WordsCarry(words[1..]);
      var (b, rest) := (WordsBytes(words), WordsBytes(words[1..]));
      forall i, k | 0 <= i < |words| && 0 <= k < 4
        ensures b[4 * i + k] == ByteOf(words[i], k)
      {
        if i == 0 {
          BytesAre(words[0], k);
        } else {
          assert rest[4 * (i - 1) + k] == ByteOf(words[1..][i - 1], k);
        }
      }
    }
  }

  /** The calls of an operation reach what it names, and its reply is what they returned. */
  lemma ServesItsOp(env: nat -> Fate, n: nat, op: Op)
    requires !op.Disconnect?
    ensures var tries := TriesOf(env, n, op);
            Reaches(op, tries) && Replies(op, tries, ResultOf(op, tries))
  {
    var tries := TriesOf(env, n, op);
    match op
    case DpRead(reg) =>
      OneTry(env, n, ReadDp(reg));
      OneWord(tries);
    case ApRead(reg) =>
      OneTry(env, n, ReadAp(reg));
      OneWord(tries);
    case ApBulkRead(reg, count) =>
      TwoTries(env, n, AddrIncOn, BulkReadAp(reg, count));
      ManyWords(op, tries);
    case _ => ServesQuietly(env, n, op);
  }

  /** The operations that return no words. */
  lemma ServesQuietly(env: nat -> Fate, n: nat, op: Op)
    requires !op.Disconnect? && !op.DpRead? && !op.ApRead? && !op.ApBulkRead?
    ensures var tries := TriesOf(env, n, op);
            Reaches(op, tries) && Replies(op, tries, ResultOf(op, tries))
  {
    TriesFollow(env, n, Plan(op));
    match op
    case ApBulkWrite(reg, words) => TwoTries(env, n, AddrIncOn, BulkWriteAp(reg, words));
    case ResetTarget =>
      OneTry(env, n, Reset(false));
      OneTry(env, n + 1, Reset(true));
    case _ => hide Tries, OutcomeOf;
  }

  lemma OneWord(tries: seq<Attempt>)
    ensures tries != [] && tries[|tries| - 1].outcome.Good? ==> Carries(WordsBytes(tries[|tries| - 1].outcome.words), tries[|tries| - 1].outcome.words)
  {
    if tries != [] && tries[|tries| - 1].outcome.Good? { WordsCarry(tries[|tries| - 1].outcome.words); }
  }

  lemma ManyWords(op: Op, tries: seq<Attempt>)
    requires op.ApBulkRead?
    ensures tries != [] && tries[|tries| - 1].outcome.Good? ==>
              var words := tries[|tries| - 1].outcome.words;
              && Carries(ReplyData(op, words)[2..], words)
              && ReplyData(op, words)[0] == op.count % 0x100 && ReplyData(op, words)[1] == op.count / 0x100
  {
    OneWord(tries);
    if tries != [] && tries[|tries| - 1].outcome.Good? {
      var words := tries[|tries| - 1].outcome.words;
      assert ReplyData(op, words)[2..] == WordsBytes(words);
    }
  }

  /** A raw bulk read of no words. */
  predicate EmptyRead(op: Op) { op.ApBulkRead? && op.count == 0 }

  /**
   The server panics on exactly one kind of request, and exactly when both its
   calls get through: a bulk read of no words. Such a request is never
   answered with success.
   */
  lemma PanicsOnEmptyRead(env: nat -> Fate, n: nat, op: Op)
    ensures var h := ResultOf(op, TriesOf(env, n, op));
            && (h.Panicked? <==> EmptyRead(op) && !env(n).fails && !env(n + 1).fails)
            && (EmptyRead(op) ==> h.Panicked? || h.Failed?)
  {
    if op.ApBulkRead? {
      TwoTries(env, n, AddrIncOn, BulkReadAp(op.reg, op.count));
    } else {
      OthersNeverPanic(env, n, op);
    }
  }

  lemma OthersNeverPanic(env: nat -> Fate, n: nat, op: Op)
    requires !op.ApBulkRead?
    ensures !ResultOf(op, TriesOf(env, n, op)).Panicked?
  {
    var calls := Plan(op);
    assert forall i | 0 <= i < |calls| :: !calls[i].BulkReadAp?;
    TriesFollow(env, n, calls);
    OneTry(env, n + 1, Reset(true));
    hide Plan, Tries;
  }

  lemma OneTry(env: nat -> Fate, n: nat, c: Call)
    ensures Tries(env, n, [c]) == [Attempt(c, OutcomeOf(env(n), c))]
  {
    assert [c][1..] == [];
  }

  lemma TwoTries(env: nat -> Fate, n: nat, a: Call, b: Call)
    ensures var (x, y) := (Attempt(a, OutcomeOf(env(n), a)), Attempt(b, OutcomeOf(env(n + 1), b)));
            Tries(env, n, [a, b]) == if x.outcome.Good? then [x, y] else [x]
  {
    hide OutcomeOf;
    assert [a, b][1..] == [b] && [b][1..] == [];
    assert Tries(env, n + 2, []) == [];
    assert Tries(env, n + 1, [b]) == [Attempt(b, OutcomeOf(env(n + 1), b))];
  }

  /** The status byte for an error: top bit set, and network, timeout and caller errors told apart from the rest. */
  function StatusOf(e: SwdError): (s: u8)
    ensures s >= 0x80 && s != RSP_OK
    ensures (s == RSP_ERR_NET <==> e.Network?) && (s == RSP_ERR_TIMEOUT <==> e.Timeout?)
    ensures s == RSP_ERR_API <==> e.Api? || e.Unsupported?
    ensures s in {RSP_ERR_NET, RSP_ERR_TIMEOUT, RSP_ERR_API, RSP_ERR_SWD}
  {
    match e
    case Network => RSP_ERR_NET
    case Timeout => RSP_ERR_TIMEOUT
    case Api => RSP_ERR_API
    case Unsupported => RSP_ERR_API
    case _ => RSP_ERR_SWD
  }

  datatype Reply = Reply(status: u8, data: seq<u8>)
  {
    function Wire(): seq<u8> { [status] + data }
  }

  function ReplyTo(h: Handled): Reply
    requires !h.Panicked?
  {
    match h
    case Data(bytes) => Reply(RSP_OK, bytes)
    case Nothing => Reply(RSP_OK, [])
    case Failed(e) => Reply(StatusOf(e), [])
  }

  /** How many bytes follow the status: fixed by the request and the status. */
  function DataLength(op: Op, status: u8): nat {
    if status != RSP_OK then 0 else
    match op case DpRead(_) => 4 case ApRead(_) => 4 case ApBulkRead(_, count) => 2 + 4 * count case _ => 0
  }

  /** The replies as they go over the wire. */
  function Join(replies: seq<Reply>): seq<u8> {
    if replies == [] then [] else replies[0].Wire() + Join(replies[1..])
  }

  /** One reply per request, each of the length its request and status fix. */
  ghost predicate Shaped(ops: seq<Op>, replies: seq<Reply>) {
    |ops| == |replies| && forall i | 0 <= i < |ops| :: |replies[i].data| == DataLength(ops[i], replies[i].status)
  }

  /** How a client cuts the reply stream, knowing what it asked: the replies and what is left over. */
  function Cut(ops: seq<Op>, stream: seq<u8>): (seq<Reply>, seq<u8>) {
    if ops == [] || stream == [] then ([], stream) else
    var n := DataLength(ops[0], stream[0]);
    if |stream| < 1 + n then ([], stream) else
    var (rest, left) := Cut(ops[1..], stream[1 + n..]);
    ([Reply(stream[0], stream[1..1 + n])] + rest, left)
  }

  /** Cutting recovers exactly the replies sent, whatever follows them. */
  lemma {:induction false} CutRecovers(ops: seq<Op>, replies: seq<Reply>, tail: seq<u8>)
    requires Shaped(ops, replies)
    ensures Cut(ops, Join(replies) + tail) == (replies, tail)
  {
    hide DataLength;
    if ops == [] {
      assert Join(replies) + tail == tail;
    } else {
      var r := replies[0];
      var s := Join(replies) + tail;
      var n := |r.data|;
      assert s[0] == r.status && s[1..1 + n] == r.data;
      assert s[1 + n..] == Join(replies[1..]) + tail;
      CutRecovers(ops[1..], replies[1..], tail);
      assert [r] + replies[1..] == replies;
    }
  }

  lemma {:induction false} JoinSnoc(replies: seq<Reply>, r: Reply)
    ensures Join(replies + [r]) == Join(replies) + r.Wire()
  {
    hide Reply.Wire;
    if replies == [] {
      assert [r][1..] == [];
    } else {
      assert (replies + [r])[1..] == replies[1..] + [r];
      JoinSnoc(replies[1..], r);
    }
  }

  /** All that the operations of a session did to the debug interface, one operation after the other. */
  function Flat(tries: seq<seq<Attempt>>): seq<Attempt> {
    if tries == [] then [] else tries[0] + Flat(tries[1..])
  }

  lemma {:induction false} FlatSnoc(tries: seq<seq<Attempt>>, t: seq<Attempt>)
    ensures Flat(tries + [t]) == Flat(tries) + t
  {
    if tries == [] {
      assert [t][1..] == [];
    } else {
      assert (tries + [t])[1..] == tries[1..] + [t];
      FlatSnoc(tries[1..], t);
    }
  }

  datatype End = Refused | Disconnected | BadArgument | Dropped | Panicking

  /** The last byte of a session that ends with one. */
  function Farewell(end: End): seq<u8> {
    match end case Disconnected => [RSP_OK] case BadArgument => [RSP_ERR_API] case _ => []
  }

  /** A session's record: what was asked, answered and done. */
  datatype Log = Log(ops: seq<Op>, replies: seq<Reply>, tries: seq<seq<Attempt>>)
  {
    function Then(more: Log): Log { Log(ops + more.ops, replies + more.replies, tries + more.tries) }
  }

  const NOTHING := Log([], [], [])

  function Entry(op: Op, tries: seq<Attempt>): Log
    requires !ResultOf(op, tries).Panicked?
  {
    Log([op], [ReplyTo(ResultOf(op, tries))], [tries])
  }

  /**
   What a session is, from call number `n` on, for the requests in `s`: the
   record, what was done for a request that got no answer, and how it ended.
   */
  function Session(env: nat -> Fate, n: nat, s: seq<u8>): (Log, seq<Attempt>, End)
    decreases |s|
  {
    var (r, k) := Frame(s);
    match r
    case Err(BadArg) => (NOTHING, [], BadArgument)
    case Err(_) => (NOTHING, [], Dropped)
    case Ok(op) =>
      if op.Disconnect? then (NOTHING, [], Disconnected) else
      var tries := TriesOf(env, n, op);
      if ResultOf(op, tries).Panicked? then (NOTHING, tries, Panicking) else
      var (log, last, end) := Session(env, n + |tries|, s[k..]);
      (Entry(op, tries).Then(log), last, end)
  }

  /** Why the session ended where it did: what stands next in the stream. */
  ghost predicate Ended(end: End, rest: seq<u8>) {
    match end
    case Disconnected => Frame(rest).0 == Ok(Disconnect)
    case BadArgument => Frame(rest).0 == Err(BadArg)
    case Dropped => Frame(rest).0.Err? && !Frame(rest).0.error.BadArg?
    case Panicking => Frame(rest).0.Ok? && EmptyRead(Frame(rest).0.value)
    case Refused => false
  }

  /**
   In a session every request before its end is answered, in order and with
   one reply each of the length its status fixes; the requests answered are
   just the bytes before the end, the end has its reason in what follows, and
   nothing is done for any request after it.
   */
  lemma {:induction false} SessionAnswers(env: nat -> Fate, n: nat, s: seq<u8>)
    ensures var (log, last, end) := Session(env, n, s);
            && AllValid(log.ops) && Disconnect !in log.ops
            && Shaped(log.ops, log.replies) && |log.tries| == |log.ops|
            && EncodeAll(log.ops) <= s && Ended(end, s[|EncodeAll(log.ops)|..])
            && (last != [] ==> end.Panicking?)
    decreases |s|
  {
    hide Session, Frame, Encode, TriesOf, ResultOf, DataLength, EncodeAll, EmptyRead;
    EncodeNone();
    SessionStep(env, n, s);
    assert s[0..] == s;
    if Frame(s).0.Err? || Frame(s).0.value.Disconnect? {
    } else {
      var (op, k) := (Frame(s).0.value, Frame(s).1);
      var tries := TriesOf(env, n, op);
      PanicsOnEmptyRead(env, n, op);
      if !ResultOf(op, tries).Panicked? {
        var rest := Session(env, n + |tries|, s[k..]);
        SessionAnswers(env, n + |tries|, s[k..]);
        FrameConverse(s);
        ReplyLength(env, n, op);
        OneMoreRequest(s, k, op, rest.0.ops);
        ShapedMore(op, ReplyTo(ResultOf(op, tries)), rest.0.ops, rest.0.replies);
      }
    }
  }

  lemma ShapedMore(op: Op, r: Reply, ops: seq<Op>, replies: seq<Reply>)
    requires Shaped(ops, replies) && |r.data| == DataLength(op, r.status)
    ensures Shaped([op] + ops, [r] + replies)
  {
    hide DataLength;
  }

  lemma EncodeNone()
    ensures EncodeAll([]) == []
  {
  }

  lemma OneMoreRequest(s: seq<u8>, k: nat, op: Op, ops: seq<Op>)
    requires op.Valid() && AllValid(ops) && k <= |s| && Encode(op) == s[..k] && EncodeAll(ops) <= s[k..]
    ensures AllValid([op] + ops) && EncodeAll([op] + ops) <= s
    ensures s[|EncodeAll([op] + ops)|..] == s[k..][|EncodeAll(ops)|..]
  {
    hide Encode;
    assert ([op] + ops)[1..] == ops;
    assert s == s[..k] + s[k..];
  }

  /** A reply's length is fixed by the request and the status. */
  lemma ReplyLength(env: nat -> Fate, n: nat, op: Op)
    requires !ResultOf(op, TriesOf(env, n, op)).Panicked?
    ensures var r := ReplyTo(ResultOf(op, TriesOf(env, n, op)));
            |r.data| == DataLength(op, r.status)
  {
    match op
    case ApBulkRead(reg, count) =>
      TwoTries(env, n, AddrIncOn, BulkReadAp(reg, count));
      hide Tries, WordsBytes, HalfBytes;
    case DpRead(reg) => OneTry(env, n, ReadDp(reg));
    case ApRead(reg) => OneTry(env, n, ReadAp(reg));
    case _ => hide Tries, Plan, OutcomeOf;
  }

  /** Does some request in the list go unanswered? */
  ghost predicate SomeUnanswered(env: nat -> Fate, n: nat, ops: seq<Op>)
    decreases ops
  {
    if ops == [] then false else
    || (EmptyRead(ops[0]) && !env(n).fails && !env(n + 1).fails)
    || SomeUnanswered(env, n + |TriesOf(env, n, ops[0])|, ops[1..])
  }

  /**
   A well-formed stream is answered request by request up to and including
   its disconnect, unless some bulk read of no words gets through to the debug
   interface: then exactly the requests before the first such read are.
   */
  lemma {:induction false} ServesAll(env: nat -> Fate, n: nat, ops: seq<Op>, tail: seq<u8>)
    requires AllValid(ops) && Disconnect !in ops
    ensures var (log, last, end) := Session(env, n, EncodeAll(ops) + Encode(Disconnect) + tail);
            && log.ops <= ops
            && (end.Disconnected? <==> log.ops == ops)
            && (end.Panicking? <==> SomeUnanswered(env, n, ops))
            && (end.Disconnected? || end.Panicking?)
            && (end.Panicking? ==> |log.ops| < |ops| && EmptyRead(ops[|log.ops|]))
    decreases ops
  {
    hide Session, Frame, Encode, EncodeAll, TriesOf, ResultOf;
    var s := EncodeAll(ops) + Encode(Disconnect) + tail;
    FirstOf(ops, tail);
    SessionStep(env, n, s);
    if ops == [] {
    } else {
      assert ops[0] in ops;
      PanicsOnEmptyRead(env, n, ops[0]);
      var tries := TriesOf(env, n, ops[0]);
      if !ResultOf(ops[0], tries).Panicked? {
        ServesAll(env, n + |tries|, ops[1..], tail);
        assert [ops[0]] + ops[1..] == ops;
      }
    }
  }

  /** With no such read in it, a stream is served to its end, whatever fails. */
  lemma {:induction false} NoEmptyRead(env: nat -> Fate, n: nat, ops: seq<Op>)
    requires forall op | op in ops :: !EmptyRead(op)
    ensures !SomeUnanswered(env, n, ops)
    decreases ops
  {
    hide TriesOf;
    if ops == [] {
    } else {
      assert ops[0] in ops;
      NoEmptyRead(env, n + |TriesOf(env, n, ops[0])|, ops[1..]);
    }
  }

  /** A session that ends without an answer: a bulk read of no words, and nothing fails. */
  lemma PanickingSession(env: nat -> Fate)
    requires !env(0).fails && !env(1).fails
    ensures Session(env, 0, Encode(ApBulkRead(DRW_ADDRESS, 0))).2 == Panicking
    ensures Session(env, 0, Encode(ApBulkRead(DRW_ADDRESS, 0))).0 == NOTHING
  {
    var op := ApBulkRead(DRW_ADDRESS, 0);
    FrameRoundTrip(op, []);
    assert Encode(op) + [] == Encode(op);
    PanicsOnEmptyRead(env, 0, op);
    hide Frame, Encode, TriesOf, ResultOf;
  }

  lemma FirstOf(ops: seq<Op>, tail: seq<u8>)
    requires AllValid(ops)
    ensures var s := EncodeAll(ops) + Encode(Disconnect) + tail;
            && Frame(s).0 == Ok(if ops == [] then Disconnect else ops[0])
            && (ops != [] ==> s[Frame(s).1..] == EncodeAll(ops[1..]) + Encode(Disconnect) + tail)
  {
    hide Frame, Encode;
    var s := EncodeAll(ops) + Encode(Disconnect) + tail;
    if ops == [] {
      FrameRoundTrip(Disconnect, tail);
      assert s == Encode(Disconnect) + tail;
    } else {
      var (b, e) := (Encode(ops[0]), EncodeAll(ops[1..]));
      FrameRoundTrip(ops[0], e + Encode(Disconnect) + tail);
      Regroup(b, e, Encode(Disconnect), tail);
    }
  }

  lemma Regroup(b: seq<u8>, e: seq<u8>, d: seq<u8>, tail: seq<u8>)
    ensures b + e + d + tail == b + (e + d + tail)
    ensures (b + e + d + tail)[|b|..] == e + d + tail
  {
  }

  class Api {
    var binaryApiCalls: nat

    constructor ()
      ensures binaryApiCalls == 0
    {
      binaryApiCalls := 0;
    }

    /** Perform one operation. */
    method HandleOp(swd: Swd, op: Op) returns (h: Handled, ghost tries: seq<Attempt>)
      requires op.Valid() && !op.Disconnect?
      modifies swd
      ensures tries == TriesOf(swd.env, |old(swd.attempts)|, op) && h == ResultOf(op, tries)
      ensures swd.attempts == old(swd.attempts) + tries
      ensures EmptyRead(op) ==> h.Failed? || h.Panicked?
      ensures Reaches(op, tries) && Replies(op, tries, h)
    {
      ghost var n := |swd.attempts|;
      ServesItsOp(swd.env, n, op);
      PanicsOnEmptyRead(swd.env, n, op);
      match op
      case DpRead(reg) =>
        var o := swd.Run(ReadDp(reg));
        OneTry(swd.env, n, ReadDp(reg));
        return (if o.Bad? then Failed(o.error) else Data(WordsBytes(o.words))), [Attempt(ReadDp(reg), o)];
      case ApRead(reg) =>
        var o := swd.Run(ReadAp(reg));
        OneTry(swd.env, n, ReadAp(reg));
        return (if o.Bad? then Failed(o.error) else Data(WordsBytes(o.words))), [Attempt(ReadAp(reg), o)];
      case DpWrite(reg, data) => h, tries := PlainCall(swd, op, WriteDp(reg, data));
      case ApWrite(reg, data) => h, tries := PlainCall(swd, op, WriteAp(reg, data));
      case Clock(level, post, cycles) => h, tries := PlainCall(swd, op, ClockRaw(level, post, cycles));
      case SetSpeed(speed) => h, tries := PlainCall(swd, op, SwdSpeed(speed));
      case ApBulkRead(reg, count) => h, tries := BulkRead(swd, reg, count);
      case ApBulkWrite(reg, words) => h, tries := BulkWrite(swd, reg, words);
      case MultiRegWrite(_, regs) => h, tries := WriteRegs(swd, op);
      case Ping => return Nothing, [];
      case ResetTarget => h, tries := ResetEither(swd);
    }

    static method PlainCall(swd: Swd, ghost op: Op, c: Call) returns (h: Handled, ghost tries: seq<Attempt>)
      requires Plan(op) == [c] && !op.DpRead? && !op.ApRead? && !op.ApBulkRead? && !op.ResetTarget? && !c.BulkReadAp?
      modifies swd
      ensures tries == TriesOf(swd.env, |old(swd.attempts)|, op) && h == ResultOf(op, tries)
      ensures swd.attempts == old(swd.attempts) + tries
    {
      OneTry(swd.env, |swd.attempts|, c);
      var o := swd.Run(c);
      tries := [Attempt(c, o)];
      h := if o.Bad? then Failed(o.error) else Nothing;
    }

    static method BulkRead(swd: Swd, reg: u8, count: u16) returns (h: Handled, ghost tries: seq<Attempt>)
      modifies swd
      ensures var op := ApBulkRead(reg, count);
              tries == TriesOf(swd.env, |old(swd.attempts)|, op) && h == ResultOf(op, tries)
      ensures swd.attempts == old(swd.attempts) + tries
    {
      TwoTries(swd.env, |swd.attempts|, AddrIncOn, BulkReadAp(reg, count));
      var on := swd.Run(AddrIncOn);
      tries := [Attempt(AddrIncOn, on)];
      if on.Bad? {
        return Failed(on.error), tries;
      }
      var o := swd.Run(BulkReadAp(reg, count));
      tries := tries + [Attempt(BulkReadAp(reg, count), o)];
      match o {
        case Panic => return Panicked, tries;
        case Bad(e) => return Failed(e), tries;
        case Good(words) => return Data(HalfBytes(count) + WordsBytes(words)), tries;
      }
    }

    static method BulkWrite(swd: Swd, reg: u8, words: seq<u32>) returns (h: Handled, ghost tries: seq<Attempt>)
      modifies swd
      ensures var op := ApBulkWrite(reg, words);
              tries == TriesOf(swd.env, |old(swd.attempts)|, op) && h == ResultOf(op, tries)
      ensures swd.attempts == old(swd.attempts) + tries
    {
      TwoTries(swd.env, |swd.attempts|, AddrIncOn, BulkWriteAp(reg, words));
      var on := swd.Run(AddrIncOn);
      tries := [Attempt(AddrIncOn, on)];
      if on.Bad? {
        return Failed(on.error), tries;
      }
      var o := swd.Run(BulkWriteAp(reg, words));
      tries := tries + [Attempt(BulkWriteAp(reg, words), o)];
      h := if o.Bad? then Failed(o.error) else Nothing;
    }

    /** Try a reset one way, then the other. */
    static method ResetEither(swd: Swd) returns (h: Handled, ghost tries: seq<Attempt>)
      modifies swd
      ensures tries == TriesOf(swd.env, |old(swd.attempts)|, ResetTarget) && h == ResultOf(ResetTarget, tries)
      ensures swd.attempts == old(swd.attempts) + tries
    {
      OneTry(swd.env, |swd.attempts|, Reset(false));
      OneTry(swd.env, |swd.attempts| + 1, Reset(true));
      var v1 := swd.Run(Reset(false));
      tries := [Attempt(Reset(false), v1)];
      if v1.Good? {
        return Nothing, tries;
      }
      var v2 := swd.Run(Reset(true));
      tries := tries + [Attempt(Reset(true), v2)];
      h := if v2.Bad? then Failed(v2.error) else Nothing;
    }

    /** Write registers in order, up to the first that fails. */
    static method WriteRegs(swd: Swd, op: Op) returns (h: Handled, ghost tries: seq<Attempt>)
      requires op.MultiRegWrite?
      modifies swd
      ensures tries == TriesOf(swd.env, |old(swd.attempts)|, op) && h == ResultOf(op, tries)
      ensures swd.attempts == old(swd.attempts) + tries
    {
      hide OutcomeOf, RegCall, Tries;
      ghost var n, calls := |swd.attempts|, RegCalls(op.regs);
      NoTries(swd.env, n);
      tries := [];
      for i := 0 to |op.regs|
        invariant swd.attempts == old(swd.attempts) + tries && |tries| == i
        invariant tries == Tries(swd.env, n, calls[..i]) && AllGood(tries)
      {
        RegOutcome(swd.env(n + i), op.regs[i]);
        var o := swd.Run(RegCall(op.regs[i]));
        TriesSnoc(swd.env, n, calls[..i], calls[i]);
        assert calls[..i + 1] == calls[..i] + [calls[i]];
        tries := tries + [Attempt(RegCall(op.regs[i]), o)];
        if !o.Good? {
          TriesStop(swd.env, n, calls[..i + 1], calls[i + 1..]);
          SplitCalls(calls, i + 1);
          return Failed(o.error), tries;
        }
      }
      assert calls[..|op.regs|] == calls;
      h := Nothing;
    }

    static lemma NoTries(env: nat -> Fate, n: nat)
      ensures Tries(env, n, []) == []
    {
    }

    static lemma SplitCalls(calls: seq<Call>, k: nat)
      requires k <= |calls|
      ensures calls[..k] + calls[k..] == calls
    {
    }

    static lemma RegOutcome(fate: Fate, r: MultiReg)
      ensures !OutcomeOf(fate, RegCall(r)).Panic?
    {
    }

    /**
     A session over the byte stream of a client: handshake, requests and their
     replies, and the last byte if it ends with one.
     */
    method Serve(swd: Swd, reader: Reader) returns (out: seq<u8>, end: End, ghost log: Log, ghost last: seq<Attempt>)
      requires reader.pos == 0
      modifies this, swd, reader
      ensures end.Refused? <==> reader.stream == [] || reader.stream[0] != VERSION
      ensures if end.Refused? then log == NOTHING && last == []
              else (log, last, end) == Session(swd.env, |old(swd.attempts)|, reader.stream[1..])
      ensures out == [VERSION] + Join(log.replies) + Farewell(end)
      ensures swd.attempts == old(swd.attempts) + Flat(log.tries) + last
      ensures binaryApiCalls == old(binaryApiCalls) + |log.ops|
    {
      hide Session;
      out, log, last := [VERSION], NOTHING, [];
      end := Refused;
      var ack := reader.ReadExact(1);
      if ack.Err? || ack.value[0] != VERSION {
        return;
      }
      out, end, log, last := MainLoop(swd, reader);
    }

    method MainLoop(swd: Swd, reader: Reader) returns (out: seq<u8>, end: End, ghost log: Log, ghost last: seq<Attempt>)
      requires reader.Valid()
      modifies this, swd, reader
      ensures (log, last, end) == Session(swd.env, |old(swd.attempts)|, old(reader.Left())) && !end.Refused?
      ensures out == [VERSION] + Join(log.replies) + Farewell(end)
      ensures swd.attempts == old(swd.attempts) + Flat(log.tries) + last
      ensures binaryApiCalls == old(binaryApiCalls) + |log.ops|
    {
      hide Session, Join, Flat, Frame, TriesOf, ResultOf, Encode, Reply.Wire;
      ghost var n, s := |swd.attempts|, reader.Left();
      out, log, last := [VERSION], NOTHING, [];
      NothingYet(Session(swd.env, n, s));
      while true
        invariant reader.Valid()
        invariant Session(swd.env, n, s) == Continued(log, Session(swd.env, |swd.attempts|, reader.Left()))
        invariant out == [VERSION] + Join(log.replies)
        invariant swd.attempts == old(swd.attempts) + Flat(log.tries) && n == |old(swd.attempts)|
        invariant binaryApiCalls == old(binaryApiCalls) + |log.ops|
        invariant last == []
        decreases |reader.stream| - reader.pos
      {
        ghost var rest, m := reader.Left(), |swd.attempts|;
        SessionStep(swd.env, m, rest);
        EndsHere(log);
        var got := NextOp(reader);
        if got.Err? {
          if got.error == BadArg {
            out := out + [RSP_ERR_API];
            end := BadArgument;
          } else {
            end := Dropped;
          }
          return;
        }
        var op := got.value;
        if op.Disconnect? {
          out := out + [RSP_OK];
          end := Disconnected;
          return;
        }
        var more, alive;
        more, alive, last := Answer(swd, op);
        if !alive {
          end := Panicking;
          return;
        }
        out := out + more;
        LogMore(log, Entry(op, last), Session(swd.env, |swd.attempts|, reader.Left()), more);
        log := log.Then(Entry(op, last));
        last := [];
      }
    }

    /** Perform an operation and answer it. */
    method Answer(swd: Swd, op: Op) returns (more: seq<u8>, alive: bool, ghost tries: seq<Attempt>)
      requires op.Valid() && !op.Disconnect?
      modifies `binaryApiCalls, swd
      ensures tries == TriesOf(swd.env, |old(swd.attempts)|, op) && swd.attempts == old(swd.attempts) + tries
      ensures alive == !ResultOf(op, tries).Panicked?
      ensures alive ==> more == ReplyTo(ResultOf(op, tries)).Wire()
      ensures binaryApiCalls == old(binaryApiCalls) + (if alive then 1 else 0)
    {
      hide TriesOf, ResultOf;
      more, alive := [], false;
      var h;
      h, tries := HandleOp(swd, op);
      if h.Panicked? {
        return;
      }
      var reply := ReplyTo(h);
      more := [reply.status];
      more := more + reply.data;
      binaryApiCalls := binaryApiCalls + 1;
      alive := true;
    }

    /** Read a command byte, then the rest of the request. */
    static method NextOp(reader: Reader) returns (r: Result<Op, ParseError>)
      requires reader.Valid()
      modifies reader
      ensures reader.Valid()
      ensures r == Frame(old(reader.Left())).0
      ensures r.Ok? ==>
                && r.value.Valid() && old(reader.pos) < reader.pos
                && reader.Left() == old(reader.Left())[Frame(old(reader.Left())).1..]
                && reader.stream[old(reader.pos)..reader.pos] == Encode(r.value)
    {
      hide Body, Encode;
      ghost var rest := reader.Left();
      var cmd := reader.RecvCmd();
      if cmd.Err? {
        return Err(cmd.error);
      }
      r := reader.AsyncRecv(cmd.value);
      if r.Ok? {
        FrameConverse(rest);
        assert rest[..Frame(rest).1] == reader.stream[old(reader.pos)..reader.pos];
      }
    }
  }

  /** A session so far, and the rest of it. */
  function Continued(log: Log, rest: (Log, seq<Attempt>, End)): (Log, seq<Attempt>, End) {
    (log.Then(rest.0), rest.1, rest.2)
  }

  lemma NothingYet(rest: (Log, seq<Attempt>, End))
    ensures Continued(NOTHING, rest) == rest && Join([]) == [] && Flat([]) == []
  {
    var log := rest.0;
    assert [] + log.ops == log.ops && [] + log.replies == log.replies && [] + log.tries == log.tries;
  }

  lemma EndsHere(log: Log)
    ensures log.Then(NOTHING) == log
  {
  }

  /** A session's first step. */
  lemma SessionStep(env: nat -> Fate, n: nat, s: seq<u8>)
    ensures match Frame(s).0
            case Err(e) => Session(env, n, s) == (NOTHING, [], if e == BadArg then BadArgument else Dropped)
            case Ok(op) =>
              if op.Disconnect? then Session(env, n, s) == (NOTHING, [], Disconnected) else
              var tries := TriesOf(env, n, op);
              if ResultOf(op, tries).Panicked? then Session(env, n, s) == (NOTHING, tries, Panicking)
              else Session(env, n, s) == Continued(Entry(op, tries), Session(env, n + |tries|, s[Frame(s).1..]))
  {
    hide Frame, TriesOf, ResultOf, Entry;
  }

  lemma LogMore(log: Log, entry: Log, rest: (Log, seq<Attempt>, End), more: seq<u8>)
    requires |entry.ops| == |entry.replies| == |entry.tries| == 1 && more == entry.replies[0].Wire()
    ensures Continued(log, Continued(entry, rest)) == Continued(log.Then(entry), rest)
    ensures Join(log.Then(entry).replies) == Join(log.replies) + more
    ensures Flat(log.Then(entry).tries) == Flat(log.tries) + entry.tries[0]
  {
    JoinSnoc(log.replies, entry.replies[0]);
    FlatSnoc(log.tries, entry.tries[0]);
    hide Join, Flat;
    assert log.replies + entry.replies == log.replies + [entry.replies[0]];
    assert log.tries + entry.tries == log.tries + [entry.tries[0]];
    assert log.ops + (entry.ops + rest.0.ops) == log.ops + entry.ops + rest.0.ops;
    assert log.replies + (entry.replies + rest.0.replies) == log.replies + entry.replies + rest.0.replies;
    assert log.tries + (entry.tries + rest.0.tries) == log.tries + entry.tries + rest.0.tries;
  }
}
