/**
 The target's debug access port, packet by packet.

 The behaviour is that of ADIv5 (IHI 0031): posted AP accesses, TAR
 auto-increment inside a 1 KB page (section C2.2), and OK, WAIT and FAULT
 responses (section B4.2). What the target is free to do is left to `Env`.
 */
module DebugPort {
  import opened Wrappers
  import opened Bits
  import opened Registers

  datatype Ack = AckOk | AckWait | AckFault

  /**
   Everything the target decides on its own:
   - `noise(n)`: a WAIT or FAULT it gives packet `n` for reasons of its own
   - `busy(n)`: whether the posted access is still running when packet `n` arrives
   - `bad(i)`: whether memory access `i` ends in a bus error
   - `other(n)`: the value read by packet `n` from a register not modelled here
   - `tarOf(v)`, `cswOf(v)`: what TAR and CSW hold after a write of `v`
   - `debugUp(n)`, `systemUp(n)`: whether a power domain that was requested is up when packet `n` is answered
   */
  datatype Env = Env(
    noise: nat -> Ack, busy: nat -> bool, bad: nat -> bool, other: nat -> u32,
    tarOf: u32 -> u32, cswOf: u32 -> u32, debugUp: nat -> bool, systemUp: nat -> bool)
  {
    /** Every access completes before the next packet arrives. */
    ghost predicate Prompt() { forall n :: !busy(n) }

    /** Nothing goes wrong. */
    ghost predicate Clean() {
      Prompt() && (forall n :: noise(n) == AckOk) && (forall i :: !bad(i)) && (forall n :: debugUp(n) && systemUp(n))
      && KeepsTar() && forall v :: cswOf(v) == v
    }

    /** TAR holds what is written to it. */
    ghost predicate KeepsTar() { forall v :: tarOf(v) == v }
  }

  /** A memory bus access made by the MEM-AP. */
  datatype Access = Access(write: bool, addr: u32, ok: bool)

  const PAGE: nat := 0x400

  type Memory = map<u32, u32>

  function MemAt(mem: Memory, addr: u32): u32 { if addr in mem then mem[addr] else 0 }

  /** AddrInc SINGLE adds four inside the 1 KB page and wraps there. */
  function NextTar(csw: u32, tar: u32): u32 {
    if AddrInc(csw) == ADDRINC_SINGLE then tar - tar % PAGE + (tar + 4) % PAGE else tar
  }

  datatype Request = ReadCsw | ReadTar | ReadDrw | ReadOther(v: u32) | WriteCsw(v: u32) | WriteTar(v: u32) | WriteDrw(v: u32)

  /** MEM-AP state once no access is in flight. */
  datatype MemAp = MemAp(csw: u32, tar: u32, mem: Memory, rdbuff: u32, sticky: bool, trace: seq<Access>)
  {
    /** Carry one AP request out, start to finish. */
    function Perform(env: Env, req: Request): MemAp {
      match req
      case ReadCsw => this.(rdbuff := csw)
      case ReadTar => this.(rdbuff := tar)
      case ReadOther(v) => this.(rdbuff := v)
      case WriteCsw(v) => this.(csw := env.cswOf(v))
      case WriteTar(v) => this.(tar := env.tarOf(v))
      case ReadDrw =>
        if env.bad(|trace|) then this.(sticky := true, trace := trace + [Access(false, tar, false)])
        else this.(rdbuff := MemAt(mem, tar), tar := NextTar(csw, tar), trace := trace + [Access(false, tar, true)])
      case WriteDrw(v) =>
        if env.bad(|trace|) then this.(sticky := true, trace := trace + [Access(true, tar, false)])
        else this.(mem := mem[tar := v], tar := NextTar(csw, tar), trace := trace + [Access(true, tar, true)])
    }
  }

  /** A packet the target answered: the request, SELECT at that moment, and the response. */
  datatype Packet = Packet(hdr: Hdr, select: Select, ack: Ack)

  /** A write the target accepted: the request, SELECT at that moment, and the word. */
  datatype WriteRecord = WriteRecord(hdr: Hdr, select: Select, word: u32)

  /** The power domains requested. */
  datatype Power = Power(debug: bool, system: bool)

  /** `checks` counts the accepted reads of CTRL/STAT's address. */
  datatype Dap = Dap(
    env: Env, core: MemAp, pending: Option<Request>, select: Select, readok: bool, log: seq<Packet>,
    power: Power, writes: seq<WriteRecord>, checks: nat)
  {
    /** The AP state once the access in flight, if any, has run. */
    function Final(): MemAp {
      if pending.Some? then core.Perform(env, pending.value) else core
    }

    function Settle(): Dap {
      if pending.Some? && !env.busy(|log|) then this.(core := Final(), pending := None) else this
    }

    /** The response to a request that finds the target in this state. */
    function AckFor(h: Hdr): Ack {
      if env.noise(|log|) != AckOk then env.noise(|log|)
      else if !h.ap && (if h.read then h.a <= 1 else h.a == 0) then AckOk
      else if pending.Some? && (h.ap || (h.read && h.a == 3)) then AckWait
      else if core.sticky then AckFault
      else AckOk
    }

    /** A request arrives: what may have completed, the response, and the bookkeeping. */
    function Arrive(h: Hdr): (Dap, Ack) {
      var d := Settle();
      var ack := d.AckFor(h);
      var ok := if h.read && (h.ap || h.a == 3) then ack == AckOk else readok;
      (d.(readok := ok, log := log + [Packet(h, select, ack)]), ack)
    }

    /** A domain's two bits of CTRL/STAT: requested, and up. */
    function Domain(requested: bool, up: bool): nat { if !requested then 0 else if up then 3 else 1 }

    function CtrlStat(): u32 {
      Domain(power.system, env.systemUp(|log|)) * 0x4000_0000 + Domain(power.debug, env.debugUp(|log|)) * 0x1000_0000
      + (if readok then 0x40 else 0) + (if core.sticky then 0x20 else 0)
    }

    /** The AP register a request names: APSEL and APBANKSEL from SELECT, A[3:2] from the header. */
    function Register(h: Hdr): nat { select.apsel * 0x100 + select.apbank * 0x10 + h.a % 4 * 4 }

    function ReadRequest(h: Hdr): Request {
      var reg := Register(h);
      if reg == CSW then ReadCsw
      else if reg == TAR then ReadTar
      else if reg == DRW then ReadDrw
      else ReadOther(env.other(|log|))
    }

    /** The DP register a request names: only A[3:2] = 1 is banked, by DPBANKSEL. */
    function DpRegister(h: Hdr): nat { (if h.a == 1 then select.dpbank * 0x10 else 0) + h.a % 4 * 4 }

    /** The data phase of an accepted read. An AP read returns the previous AP read's result. */
    function ReadValue(h: Hdr): u32 {
      if h.ap || h.a == 3 then core.rdbuff
      else if DpRegister(h) == CTRL_STAT then CtrlStat()
      else env.other(|log|)
    }

    function AfterRead(h: Hdr): Dap {
      if h.ap then this.(pending := Some(ReadRequest(h)))
      else if h.a == 1 then this.(checks := checks + 1)
      else this
    }

    /** An accepted write is recorded and carried out. */
    function AfterWrite(h: Hdr, v: u32): Dap { Carried(h, v).(writes := writes + [WriteRecord(h, select, v)]) }

    function Carried(h: Hdr, v: u32): Dap {
      var reg := Register(h);
      if h.ap then
        if reg == CSW then this.(pending := Some(WriteCsw(v)))
        else if reg == TAR then this.(pending := Some(WriteTar(v)))
        else if reg == DRW then this.(pending := Some(WriteDrw(v)))
        else this
      else if h.a == 2 then this.(select := SelectOf(v))
      else if h.a == 0 && v / 4 % 2 == 1 then this.(core := core.(sticky := false))
      else if DpRegister(h) == CTRL_STAT then this.(power := Power(CDbgPwrUpReq(v), CSysPwrUpReq(v)))
      else this
    }
  }

  datatype SwdError =
    | WaitAck | FaultAck | NoAck(ack: nat) | ReadParity | DpError | OperationFailed | NotReady | Api | Unsupported | Network | Timeout

  /** One read packet. */
  function ReadPacket(d: Dap, h: Hdr): (Dap, Result<u32, SwdError>) {
    var (a, ack) := d.Arrive(h);
    match ack
    case AckOk => (a.AfterRead(h), Ok(a.ReadValue(h)))
    case AckWait => (a, Err(WaitAck))
    case AckFault => (a, Err(FaultAck))
  }

  /** One write packet. */
  function WritePacket(d: Dap, h: Hdr, v: u32): (Dap, Result<(), SwdError>) {
    var (a, ack) := d.Arrive(h);
    match ack
    case AckOk => (a.AfterWrite(h, v), Ok(()))
    case AckWait => (a, Err(WaitAck))
    case AckFault => (a, Err(FaultAck))
  }

  /** The state in which the last attempt at a request is made: WAIT is retried up to `retries` times. */
  function Retry(d: Dap, h: Hdr, retries: nat): Dap
    decreases retries
  {
    var (a, ack) := d.Arrive(h);
    if ack == AckWait && retries > 0 then Retry(a, h, retries - 1) else d
  }

  function ReadTxn(d: Dap, h: Hdr, retries: nat): (Dap, Result<u32, SwdError>) {
    ReadPacket(Retry(d, h, retries), h)
  }

  function WriteTxn(d: Dap, h: Hdr, v: u32, retries: nat): (Dap, Result<(), SwdError>) {
    WritePacket(Retry(d, h, retries), h, v)
  }

  /** `d'` is `d` after packets that changed nothing the caller asked for; an access in flight may have landed. */
  ghost predicate Idles(d: Dap, d': Dap) {
    && d'.env == d.env && d'.select == d.select && d'.Final() == d.Final() && d'.power == d.power && d'.writes == d.writes
    && (d' == d.(log := d'.log, readok := d'.readok, checks := d'.checks) || (d'.pending.None? && d'.core == d.Final()))
    && |d.log| <= |d'.log| && d'.log[..|d.log|] == d.log
  }

  lemma IdlesTrans(a: Dap, b: Dap, c: Dap)
    requires Idles(a, b) && Idles(b, c)
    ensures Idles(a, c)
  {
    assert c.log[..|a.log|] == c.log[..|b.log|][..|a.log|];
  }

  lemma ArriveIdles(d: Dap, h: Hdr)
    ensures Idles(d, d.Arrive(h).0)
  {
  }

  /** All packets from `d` on are for `h`, in the bank SELECT names, and were answered WAIT. */
  ghost predicate OnlyWaits(d: Dap, h: Hdr, d': Dap) {
    && Idles(d, d') && d'.checks == d.checks
    && forall i | |d.log| <= i < |d'.log| :: d'.log[i] == Packet(h, d.select, AckWait)
  }

  /**
   The attempts before the last were all answered WAIT and changed nothing;
   there are at most `retries` of them, and exactly `retries` when the last
   attempt is answered WAIT as well.
   */
  lemma {:induction false} RetryOnlyWaits(d: Dap, h: Hdr, retries: nat)
    ensures var d0 := Retry(d, h, retries);
            && OnlyWaits(d, h, d0)
            && |d0.log| <= |d.log| + retries
            && (d0.Arrive(h).1 == AckWait ==> |d0.log| == |d.log| + retries)
    decreases retries
  {
    var (a, ack) := d.Arrive(h);
    if ack != AckWait || retries == 0 {
    } else {
      ArriveIdles(d, h);
      RetryOnlyWaits(a, h, retries - 1);
      IdlesTrans(d, a, Retry(a, h, retries - 1));
    }
  }

  /** What follows an accepted request adds no packet. */
  lemma SameLog(d: Dap, h: Hdr, v: u32)
    ensures d.AfterRead(h).log == d.log && d.AfterWrite(h, v).log == d.log
    ensures d.AfterRead(h).writes == d.writes && d.AfterWrite(h, v).writes == d.writes + [WriteRecord(h, d.select, v)]
    ensures d.AfterWrite(h, v).checks == d.checks
  {
  }

  /**
   WAIT handling is exactly-once, for a read. The packets sent are `WAIT`ed
   ones and one more. The result is WaitAck precisely when that one is also
   answered WAIT, which takes `retries + 1` packets, and then the request had
   no effect; it takes effect only on the packet answered OK.
   */
  lemma ReadTxnExactlyOnce(d: Dap, h: Hdr, retries: nat)
    ensures var (d', r) := ReadTxn(d, h, retries);
            var d0 := Retry(d, h, retries);
            && OnlyWaits(d, h, d0)
            && |d.log| < |d'.log| <= |d.log| + retries + 1
            && d'.log == d0.log + [Packet(h, d.select, d0.Arrive(h).1)]
            && (r == Err(WaitAck) <==> forall i | |d.log| <= i < |d'.log| :: d'.log[i].ack == AckWait)
            && (r == Err(WaitAck) ==> |d'.log| == |d.log| + retries + 1)
            && (r.Err? ==> Idles(d, d'))
            && (r.Ok? ==> d'.log[|d'.log| - 1].ack == AckOk)
  {
    RetryOnlyWaits(d, h, retries);
    var d0 := Retry(d, h, retries);
    ArriveIdles(d0, h);
    IdlesTrans(d, d0, d0.Arrive(h).0);
    SameLog(d0.Arrive(h).0, h, 0);
    hide Dap.AfterRead, Dap.ReadValue, MemAp.Perform, Dap.AckFor, Retry;
    var d' := ReadTxn(d, h, retries).0;
    assert d'.log[|d'.log| - 1] == Packet(h, d.select, d0.Arrive(h).1);
  }

  lemma WriteTxnExactlyOnce(d: Dap, h: Hdr, v: u32, retries: nat)
    ensures var (d', r) := WriteTxn(d, h, v, retries);
            var d0 := Retry(d, h, retries);
            && OnlyWaits(d, h, d0)
            && |d.log| < |d'.log| <= |d.log| + retries + 1
            && d'.log == d0.log + [Packet(h, d.select, d0.Arrive(h).1)]
            && (r == Err(WaitAck) <==> forall i | |d.log| <= i < |d'.log| :: d'.log[i].ack == AckWait)
            && (r == Err(WaitAck) ==> |d'.log| == |d.log| + retries + 1)
            && (r.Err? ==> Idles(d, d'))
            && (r.Ok? ==> d'.log[|d'.log| - 1].ack == AckOk)
            && d'.writes == d.writes + (if r.Ok? then [WriteRecord(h, d.select, v)] else []) && d'.checks == d.checks
  {
    RetryOnlyWaits(d, h, retries);
    var d0 := Retry(d, h, retries);
    ArriveIdles(d0, h);
    IdlesTrans(d, d0, d0.Arrive(h).0);
    SameLog(d0.Arrive(h).0, h, v);
    hide Dap.AfterWrite, SelectOf, MemAp.Perform, Dap.AckFor, Retry;
    var d' := WriteTxn(d, h, v, retries).0;
    assert d'.log[|d'.log| - 1] == Packet(h, d.select, d0.Arrive(h).1);
  }
}
