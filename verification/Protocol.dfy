/**
 The probe's pin-level SWD protocol, with the target at the other end of the
 wires. `contended` records whether both ends ever drove SWDIO at once;
 `lowClocks` counts the clocks given since SWDIO was last anything but
 driven low by the probe.
 */
module Protocol {
  import opened Wrappers
  import opened Bits
  import opened Registers
  import opened DebugPort
  import opened Wire

  /** Clocks owed to the target after a lone operation. */
  const POST_SINGLE_OPERATION_CYCLES: nat := 8

  function FromAck(ack: nat): Result<(), SwdError> {
    if ack == 1 then Ok(())
    else if ack == 2 then Err(WaitAck)
    else if ack == 4 then Err(FaultAck)
    else Err(NoAck(ack))
  }

  /** The host's reading of a response. */
  function AckResult(ack: Ack): Result<(), SwdError> {
    match ack
    case AckOk => Ok(())
    case AckWait => Err(WaitAck)
    case AckFault => Err(FaultAck)
  }

  class SwdProtocol {
    var swdioOut: bool
    var swdioHigh: bool
    var swclk: bool
    var target: Target
    ghost var contended: bool
    ghost var lowClocks: nat

    /** Pins as at power-on, facing a target that is between packets. */
    constructor (dap: Dap)
      ensures Between() && !contended && target.dap == dap
    {
      swdioOut, swdioHigh, swclk := false, false, false;
      target := Target(Idle, dap);
      contended, lowClocks := false, 0;
    }

    /** Between packets: clock low, both ends waiting for a start bit. */
    ghost predicate Between()
      reads this
    {
      !swclk && target.port.Idle?
    }

    method SetSwdioOutput()
      modifies this`swdioOut, this`contended
      ensures swdioOut
      ensures contended == (old(contended) || target.port.Drives())
    {
      swdioOut := true;
      contended := contended || target.port.Drives();
    }

    method SetSwdioInput()
      modifies this`swdioOut
      ensures !swdioOut
    {
      swdioOut := false;
    }

    method SetSwdioHigh()
      modifies this`swdioHigh
      ensures swdioHigh
    {
      swdioHigh := true;
    }

    method SetSwdioLow()
      modifies this`swdioHigh
      ensures !swdioHigh
    {
      swdioHigh := false;
    }

    method SetSwclkLow()
      modifies this`swclk
      ensures !swclk
    {
      swclk := false;
    }

    /** A rising edge steps the target. With nobody driving, the level it samples is anything. */
    method SetSwclkHigh()
      modifies this`swclk, this`target, this`contended, this`lowClocks
      ensures swclk
      ensures old(swclk) ==> target == old(target) && contended == old(contended) && lowClocks == old(lowClocks)
      ensures !old(swclk) ==>
                && target in {Step(old(target), false), Step(old(target), true)}
                && (swdioOut ==> target == Step(old(target), swdioHigh))
                && (!swdioOut && old(target).port.Drives() ==> target == Step(old(target), old(target).port.Out()))
                && contended == (old(contended) || (swdioOut && target.port.Drives()))
                && lowClocks == (if swdioOut && !swdioHigh then old(lowClocks) + 1 else 0)
    {
      if !swclk {
        var floating: bool := *;
        var level := if swdioOut then swdioHigh else if target.port.Drives() then target.port.Out() else floating;
        target := Step(target, level);
        contended := contended || (swdioOut && target.port.Drives());
        lowClocks := if swdioOut && !swdioHigh then lowClocks + 1 else 0;
      }
      swclk := true;
    }

    method WriteBit(bit: bool)
      requires swdioOut
      modifies this`swdioHigh, this`swclk, this`target, this`contended, this`lowClocks
      ensures swclk && swdioHigh == bit
      ensures target == Step(old(target), bit)
      ensures contended == (old(contended) || target.port.Drives())
    {
      if bit {
        SetSwdioHigh();
      } else {
        SetSwdioLow();
      }
      SetSwclkLow();
      SetSwclkHigh();
    }

    /** Sample SWDIO, then raise the clock. */
    method ReadBit() returns (bit: bool)
      requires !swdioOut
      modifies this`swclk, this`target, this`contended, this`lowClocks
      ensures swclk && contended == old(contended)
      ensures old(target).port.Drives() ==> bit == old(target).port.Out() && target == Step(old(target), bit)
    {
      SetSwclkLow();
      var floating: bool := *;
      bit := if target.port.Drives() then target.port.Out() else floating;
      SetSwclkHigh();
    }

    method WriteBits(count: nat, data: nat)
      requires swdioOut
      modifies this`swdioHigh, this`swclk, this`target, this`contended, this`lowClocks
      ensures !swclk
      ensures target == Run(old(target), ToBits(data, count))
      ensures Quiet(old(target), ToBits(data, count)) ==> contended == old(contended)
    {
      var d := data;
      ghost var t := target;
      for i := 0 to count
        invariant Run(target, ToBits(d, count - i)) == Run(t, ToBits(data, count))
        invariant Quiet(t, ToBits(data, count)) ==> Quiet(target, ToBits(d, count - i)) && contended == old(contended)
      {
        RunCons(target, d % 2 == 1, ToBits(d / 2, count - i - 1));
        WriteBit(d % 2 == 1);
        d := d / 2;
      }
      SetSwclkLow();
    }

    method Clock(cycles: nat)
      modifies this`swclk, this`target, this`contended, this`lowClocks
      ensures !swclk
      ensures cycles == 1 ==>
                && target in {Step(old(target), false), Step(old(target), true)}
                && contended == (old(contended) || (swdioOut && target.port.Drives()))
      ensures swdioOut && !swdioHigh ==>
                && lowClocks == old(lowClocks) + cycles
                && (old(target).port.Idle? ==> target == old(target) && contended == old(contended))
    {
      for i := 0 to cycles
        invariant i == 0 ==> target == old(target) && contended == old(contended)
        invariant i == 1 ==>
                    && target in {Step(old(target), false), Step(old(target), true)}
                    && contended == (old(contended) || (swdioOut && target.port.Drives()))
        invariant swdioOut && !swdioHigh ==>
                    && lowClocks == old(lowClocks) + i
                    && (old(target).port.Idle? ==> target == old(target) && contended == old(contended))
      {
        SetSwclkLow();
        SetSwclkHigh();
      }
      SetSwclkLow();
    }

    /** Send a request and hand the line over. The target has then made up its mind how to answer. */
    method WriteCmdTurnaround(op: SwdOp)
      requires swdioOut && target.port.Idle?
      modifies this
      ensures !swclk && !swdioOut && contended == old(contended)
      ensures var (d, ack) := old(target).dap.Arrive(HdrOf(op));
              target == if ack == AckOk && op.IsRead()
                        then Target(SendAck(HdrOf(op), ack, d.ReadValue(HdrOf(op)), 0), d.AfterRead(HdrOf(op)))
                        else Target(SendAck(HdrOf(op), ack, 0, 0), d)
    {
      HeaderReceived(target, op);
      WriteBits(8, op.ToCmd());
      SetSwdioInput();
      Clock(1);
    }

    /** One clock for the line to change hands, after which the probe drives it low. */
    method TurnaroundToOutput()
      requires !swdioOut
      modifies this
      ensures swdioOut && !swdioHigh && !swclk
      ensures target in {Step(old(target), false), Step(old(target), true)}
      ensures contended == (old(contended) || target.port.Drives())
    {
      Clock(1);
      SetSwdioOutput();
      SetSwdioLow();
      SetSwclkLow();
    }

    /** Read the three response bits. After WAIT or FAULT the line is taken back. */
    method ReadAck() returns (r: Result<(), SwdError>)
      requires !swdioOut
      modifies this
      ensures old(target).port.SendAck? && old(target).port.k == 0 ==>
                && r == AckResult(old(target).port.ack)
                && contended == old(contended)
                && (if r.Ok?
                    then !swdioOut && target == old(target).(port := if old(target).port.h.read
                                                                     then SendData(DataBits(old(target).port.value), 0)
                                                                     else TurnToWrite(old(target).port.h))
                    else swdioOut && !swdioHigh && !swclk && target == old(target).(port := Idle))
    {
      ghost var p := old(target).port;
      var ack: nat := 0;
      for ii := 0 to 3
        invariant !swdioOut && contended == old(contended)
        invariant p.SendAck? && p.k == 0 ==>
                    && ack == FromBits(AckBits(p.ack)[..ii])
                    && (ii < 3 ==> target == old(target).(port := SendAck(p.h, p.ack, p.value, ii)))
                    && (ii == 3 ==> target == Step(old(target).(port := SendAck(p.h, p.ack, p.value, 2)), true))
      {
        ghost var bits := if p.SendAck? then AckBits(p.ack) else [false, false, false];
        var bit := ReadBit();
        FromBitsSnoc(bits[..ii], bit);
        assert bits[..ii + 1] == bits[..ii] + [bits[ii]];
        if bit {
          ack := ack + Pow2(ii);
        }
      }
      if p.SendAck? && p.k == 0 {
        AckValue(p.ack);
        assert AckBits(p.ack)[..3] == AckBits(p.ack);
      }
      r := FromAck(ack);
      match r {
        case Ok(_) =>
        case Err(WaitAck) => TurnaroundToOutput();
        case Err(FaultAck) => TurnaroundToOutput();
        case Err(_) =>
          SetSwdioLow();
          SetSwclkLow();
      }
    }

    static lemma AckValue(ack: Ack)
      ensures FromAck(FromBits(AckBits(ack))) == AckResult(ack)
    {
      var b := AckBits(ack);
      assert b[1..][1..] == b[2..] && b[2..][1..] == [];
      assert FromBits(b[2..]) == Bit(b[2]);
      assert FromBits(b[1..]) == Bit(b[1]) + 2 * Bit(b[2]);
    }

    /** Read a word and its parity, then take the line back. `sampled` is what was on the wire. */
    method ReadU32ParityTurnaround() returns (r: Result<u32, SwdError>, ghost sampled: seq<bool>)
      requires !swdioOut
      modifies this
      ensures |sampled| == 33 && r == CheckWord(sampled)
      ensures swdioOut && !swdioHigh && !swclk
      ensures old(target).port.SendData? && old(target).port.k == 0 && |old(target).port.bits| == 33 ==>
                && sampled == old(target).port.bits
                && target == old(target).(port := Idle)
                && contended == old(contended)
    {
      hide Pow2;
      ghost var p := old(target).port;
      ghost var c := p.SendData? && p.k == 0 && |p.bits| == 33;
      var data: nat := 0;
      sampled := [];
      for ii := 0 to 32
        invariant !swdioOut && contended == old(contended)
        invariant |sampled| == ii && data == FromBits(sampled)
        invariant c ==> sampled == p.bits[..ii] && target == old(target).(port := SendData(p.bits, ii))
      {
        var bit := ReadBit();
        FromBitsSnoc(sampled, bit);
        if bit {
          data := data + Pow2(ii);
        }
        sampled := sampled + [bit];
      }
      FromBitsBound(sampled);
      Pow2At32();
      var parity := ReadBit();
      ghost var word := sampled;
      sampled := sampled + [parity];
      assert sampled[..32] == word;
      assert c ==> sampled == p.bits;
      TurnaroundToOutput();
      if Parity(data) != parity {
        return Err(ReadParity), sampled;
      }
      return Ok(data), sampled;
    }

    method WriteU32Parity(data: u32)
      requires swdioOut
      modifies this`swdioHigh, this`swclk, this`target, this`contended, this`lowClocks
      ensures !swclk
      ensures target == Run(old(target), DataBits(data))
      ensures Quiet(old(target), DataBits(data)) ==> contended == old(contended)
    {
      FramedBits(data, 33);
      WriteBits(33, Framed(data));
    }

    /** Take the line back and send a word with its parity. */
    method TurnaroundWriteU32Parity(data: u32)
      requires !swdioOut && target.port.TurnToWrite?
      modifies this
      ensures swdioOut && !swclk && contended == old(contended)
      ensures target == Target(Idle, old(target).dap.AfterWrite(old(target).port.h, data))
    {
      TurnaroundToOutput();
      DataReceived(target, old(target).port.h, data);
      WriteU32Parity(data);
    }
  }
}
