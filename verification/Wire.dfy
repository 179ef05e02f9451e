/**
 The target's end of the two-wire link: a machine stepped by rising edges of
 SWCLK (ADIv5, IHI 0031, section B4.2). It samples SWDIO on the edge and
 changes what it drives on the edge.
 */
module Wire {
  import opened Wrappers
  import opened Bits
  import opened Registers
  import opened DebugPort

  /** Where the target is inside a packet. */
  datatype Port =
    | Idle
    | Header(bits: seq<bool>)
    | TurnToTarget(h: Hdr)
    | SendAck(h: Hdr, ack: Ack, value: u32, k: nat)
    | SendData(bits: seq<bool>, k: nat)
    | TurnToHost
    | TurnToWrite(h: Hdr)
    | RecvData(h: Hdr, bits: seq<bool>)
    | LockedOut
  {
    predicate Drives() { SendAck? || SendData? }

    /** The level driven, while driving. */
    function Out(): bool {
      match this
      case SendAck(_, ack, _, k) => k < 3 && AckBits(ack)[k]
      case SendData(bits, k) => k < |bits| && bits[k]
      case _ => false
    }
  }

  datatype Target = Target(port: Port, dap: Dap)

  /** OK, WAIT and FAULT as sent, first bit first. */
  function AckBits(ack: Ack): (bits: seq<bool>)
    ensures |bits| == 3
  {
    match ack
    case AckOk => [true, false, false]
    case AckWait => [false, true, false]
    case AckFault => [false, false, true]
  }

  /** A data word and its parity bit, as sent. */
  function DataBits(v: u32): (bits: seq<bool>)
    ensures |bits| == 33
  {
    ToBits(v, 32) + [Parity(v)]
  }

  /** A word with its parity put in bit 32: the 33-bit number shifted out. */
  function Framed(v: u32): nat { if Parity(v) then v + 0x1_0000_0000 else v }

  lemma FramedBits(v: u32, w: nat)
    requires w == 33
    ensures ToBits(Framed(v), w) == DataBits(v)
  {
    hide ToBits, Pow2;
    Pow2At32();
    ToBitsTop(v, w - 1, Parity(v));
  }

  /** What a receiver makes of 33 received bits: the word, if the parity bit agrees with it. */
  function CheckWord(bits: seq<bool>): Result<u32, SwdError>
    requires |bits| == 33
  {
    FromBitsBound(bits[..32]);
    Pow2At32();
    var v: u32 := FromBits(bits[..32]);
    if Parity(v) == bits[32] then Ok(v) else Err(ReadParity)
  }

  /** One rising edge, with SWDIO at `line`. */
  function Step(t: Target, line: bool): Target {
    match t.port
    case Idle => if line then t.(port := Header([true])) else t
    case Header(bits) =>
      var b := bits + [line];
      if |b| != 8 then t.(port := Header(b))
      else if DecodeHeader(b).0 then t.(port := TurnToTarget(DecodeHeader(b).1))
      else t.(port := LockedOut)
    case TurnToTarget(h) =>
      var (d, ack) := t.dap.Arrive(h);
      if ack == AckOk && h.read then Target(SendAck(h, ack, d.ReadValue(h), 0), d.AfterRead(h))
      else Target(SendAck(h, ack, 0, 0), d)
    case SendAck(h, ack, v, k) =>
      if k < 2 then t.(port := SendAck(h, ack, v, k + 1))
      else if ack != AckOk then t.(port := TurnToHost)
      else if h.read then t.(port := SendData(DataBits(v), 0))
      else t.(port := TurnToWrite(h))
    case SendData(bits, k) => t.(port := if k < 32 then SendData(bits, k + 1) else TurnToHost)
    case TurnToHost => t.(port := Idle)
    case TurnToWrite(h) => t.(port := RecvData(h, []))
    case RecvData(h, bits) =>
      var b := bits + [line];
      if |b| != 33 then t.(port := RecvData(h, b))
      else if CheckWord(b).Ok? then Target(Idle, t.dap.AfterWrite(h, CheckWord(b).value))
      else t.(port := Idle)
    case LockedOut => t
  }

  /** Rising edges with the given levels, in order. */
  function Run(t: Target, levels: seq<bool>): Target {
    if levels == [] then t else Step(Run(t, levels[..|levels| - 1]), levels[|levels| - 1])
  }

  /** The target does not drive at any moment while these levels are clocked in. */
  ghost predicate Quiet(t: Target, levels: seq<bool>) {
    && !Run(t, levels).port.Drives()
    && (levels != [] ==> Quiet(t, levels[..|levels| - 1]))
  }

  lemma RunSnoc(t: Target, levels: seq<bool>, b: bool)
    ensures Run(t, levels + [b]) == Step(Run(t, levels), b)
  {
    assert (levels + [b])[..|levels|] == levels;
  }

  lemma QuietSnoc(t: Target, levels: seq<bool>, b: bool)
    requires Quiet(t, levels) && !Step(Run(t, levels), b).port.Drives()
    ensures Quiet(t, levels + [b])
  {
    RunSnoc(t, levels, b);
    assert (levels + [b])[..|levels|] == levels;
  }

  /** Running levels one after the other, seen from the first of them. */
  lemma {:induction false} RunCons(t: Target, b: bool, rest: seq<bool>)
    ensures Run(t, [b] + rest) == Run(Step(t, b), rest)
    ensures Quiet(t, [b] + rest) ==> Quiet(Step(t, b), rest) && !Step(t, b).port.Drives()
  {
    hide Step;
    var all := [b] + rest;
    var n := |all| - 1;
    if rest == [] {
      assert all[..0] == [];
    } else {
      assert all[..n] == [b] + rest[..n - 1];
      RunCons(t, b, rest[..n - 1]);
    }
  }

  /** A header fills up bit by bit and nothing is driven meanwhile. */
  lemma {:induction false} HeaderFills(t: Target, bits: seq<bool>)
    requires t.port.Idle? && 1 <= |bits| < 8 && bits[0]
    ensures Run(t, bits) == t.(port := Header(bits))
    ensures Quiet(t, bits)
  {
    var n := |bits| - 1;
    assert bits == bits[..n] + [bits[n]];
    if n == 0 {
      assert Run(t, []) == t;
      assert Quiet(t, []);
      assert bits == [true];
    } else {
      HeaderFills(t, bits[..n]);
    }
    RunSnoc(t, bits[..n], bits[n]);
    QuietSnoc(t, bits[..n], bits[n]);
  }

  /** Eight header bits bring an idle target to the turnaround with the host's request decoded. */
  lemma HeaderReceived(t: Target, op: SwdOp)
    requires t.port.Idle?
    ensures Run(t, ToBits(op.ToCmd(), 8)) == t.(port := TurnToTarget(HdrOf(op)))
    ensures Quiet(t, ToBits(op.ToCmd(), 8))
  {
    CommandDecodes(op);
    var bits := ToBits(op.ToCmd(), 8);
    HeaderFills(t, bits[..7]);
    assert bits == bits[..7] + [bits[7]];
    RunSnoc(t, bits[..7], bits[7]);
    QuietSnoc(t, bits[..7], bits[7]);
  }

  lemma {:induction false} DataFills(t: Target, h: Hdr, bits: seq<bool>)
    requires t.port == RecvData(h, []) && |bits| < 33
    ensures Run(t, bits) == t.(port := RecvData(h, bits))
    ensures Quiet(t, bits)
  {
    if bits == [] {
    } else {
      var n := |bits| - 1;
      assert bits == bits[..n] + [bits[n]];
      DataFills(t, h, bits[..n]);
      RunSnoc(t, bits[..n], bits[n]);
      QuietSnoc(t, bits[..n], bits[n]);
    }
  }

  /** A word and its parity, sent by the host, are written by the target. */
  lemma DataReceived(t: Target, h: Hdr, v: u32)
    requires t.port == RecvData(h, [])
    ensures Run(t, DataBits(v)) == Target(Idle, t.dap.AfterWrite(h, v))
    ensures Quiet(t, DataBits(v))
  {
    var bits := DataBits(v);
    DataFills(t, h, bits[..32]);
    assert bits == bits[..32] + [bits[32]];
    RunSnoc(t, bits[..32], bits[32]);
    CheckWordRoundTrip(v);
    QuietSnoc(t, bits[..32], bits[32]);
  }

  /** What a sender emits for a word, a receiver reads back as that word. */
  lemma CheckWordRoundTrip(v: u32)
    ensures CheckWord(DataBits(v)) == Ok(v)
  {
    assert DataBits(v)[..32] == ToBits(v, 32);
    Pow2At32();
    BitsRoundTrip(v, 32);
  }

  /** Corrupting an odd number of the 33 bits of a data phase is always detected. */
  lemma OddFlipsDetected(v: u32, received: seq<bool>)
    requires |received| == 33 && Distance(DataBits(v), received) % 2 == 1
    ensures CheckWord(received) == Err(ReadParity)
  {
    OnesEven(v);
    DistanceParity(DataBits(v), received);
    AcceptedMeansEven(received);
  }

  /** A data phase is accepted exactly when its 33 bits hold an even number of ones. */
  lemma AcceptedMeansEven(bits: seq<bool>)
    requires |bits| == 33
    ensures CheckWord(bits).Ok? <==> Ones(bits) % 2 == 0
  {
    hide FromBits, ToBits, Pow2, CountOnes;
    var low := bits[..32];
    FromBitsBound(low);
    BitsRoundTripBack(low);
    OnesOfBits(FromBits(low), 32);
    assert bits == low + [bits[32]];
    OnesConcat(low, [bits[32]]);
    assert [bits[32]][1..] == [];
  }

  lemma OnesEven(v: u32)
    ensures Ones(DataBits(v)) % 2 == 0
  {
    CheckWordRoundTrip(v);
    AcceptedMeansEven(DataBits(v));
  }
}
