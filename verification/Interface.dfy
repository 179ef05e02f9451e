/** The register-level SWD interface: requests with retries, SELECT tracking, error checks, memory transfers. */
module Interface {
  import opened Wrappers
  import opened Bits
  import opened Registers
  import opened DebugPort
  import opened Wire
  import opened Transfers
  import opened Protocol

  /** A bulk call's result: all done, or the error and how many words came through before it. */
  datatype BulkResult = Done | Failed(error: SwdError, count: nat) | Panicked

  /** How many words of a bulk read of `count` are stored. */
  function Stored(r: BulkResult, count: nat): nat {
    match r case Done => count case Failed(_, n) => n case Panicked => 0
  }

  function Value(r: Result<u32, SwdError>): Option<u32> { if r.Ok? then Some(r.value) else None }

  class SwdInterface {
    const protocol: SwdProtocol
    var poweredUp: bool
    var dpSelect: Select
    var waitRetries: nat
    var checkPower: bool
    /** Some AP packet was sent, while the shadow of SELECT was right, to a bank other than its address names. */
    ghost var misbanked: bool

    constructor (protocol: SwdProtocol)
      requires protocol.Between() && !protocol.contended
      ensures Valid() && this.protocol == protocol && checkPower && waitRetries == 2
    {
      this.protocol := protocol;
      poweredUp, dpSelect, waitRetries, checkPower := false, SELECT_DEFAULT, 2, true;
      misbanked := false;
    }

    ghost function D(): Dap
      reads this, protocol
    {
      protocol.target.dap
    }

    predicate Unpowered()
      reads this
    {
      checkPower && !poweredUp
    }

    /** SELECT as remembered and as it is. */
    ghost function S(): Selects
      reads this, protocol
    {
      Selects(dpSelect, D().select)
    }

    /** The word remembered is the one the target holds. */
    ghost predicate ShadowRight()
      reads this, protocol
    {
      dpSelect == D().select
    }

    /** Between requests: the link is quiet, was never contended, and no AP packet went to a wrong bank. */
    ghost predicate Valid()
      reads this, protocol
    {
      && protocol.Between() && !protocol.contended
      && !misbanked
    }

    /** Ready for MEM-AP work: SELECT known and leading there, debug domain powered. */
    ghost predicate Ready()
      reads this, protocol
    {
      Valid() && ShadowRight() && LeadsToMemAp(dpSelect) && !Unpowered()
    }

    /** Another AP than 0 selected, and its bank 0: memory calls find nothing to put right, and reach no memory. */
    ghost predicate Elsewhere()
      reads this, protocol
    {
      Valid() && ShadowRight() && dpSelect.apsel != 0 && dpSelect.apbank == 0
    }

    /** At least eight clocks with SWDIO driven low close the transfer. */
    ghost predicate IdleTail()
      reads protocol
    {
      protocol.swdioOut && !protocol.swdioHigh && !protocol.swclk && protocol.lowClocks >= 8
    }

    ghost predicate Banked(op: SwdOp)
      reads this, protocol
    {
      op.IsAp() && ShadowRight() ==> D().select.apbank == op.addr / 0x10
    }

    method DoWriteOp(op: SwdOp, data: u32, single: bool) returns (r: Result<(), SwdError>)
      requires protocol.Between() && !protocol.contended && !op.IsRead()
      modifies protocol, this`misbanked
      ensures protocol.Between() && !protocol.contended
      ensures (D(), r) == WriteTxn(old(D()), HdrOf(op), data, waitRetries)
      ensures misbanked == (old(misbanked) || !old(Banked(op)))
      ensures r.Ok? && single ==> IdleTail()
    {
      hide Dap.Arrive, Dap.AfterWrite, Dap.AfterRead, Dap.ReadValue, DataBits, CheckWord;
      misbanked := misbanked || !Banked(op);
      protocol.SetSwdioOutput();
      var attempt := 0;
      while true
        invariant protocol.Between() && !protocol.contended && protocol.swdioOut
        invariant misbanked == (old(misbanked) || !old(Banked(op)))
        invariant 0 <= attempt <= waitRetries
        invariant Retry(old(D()), HdrOf(op), waitRetries) == Retry(D(), HdrOf(op), waitRetries - attempt)
        decreases waitRetries - attempt
      {
        protocol.WriteCmdTurnaround(op);
        var ack := protocol.ReadAck();
        match ack {
          case Ok(_) =>
            protocol.TurnaroundWriteU32Parity(data);
            protocol.SetSwdioLow();
            protocol.Clock(2);
            if single {
              protocol.Clock(POST_SINGLE_OPERATION_CYCLES - 2);
            }
            return Ok(());
          case Err(WaitAck) =>
          case Err(e) => return Err(e);
        }
        attempt := attempt + 1;
        if attempt > waitRetries {
          return Err(WaitAck);
        }
      }
    }

    method DoReadOp(op: SwdOp, single: bool) returns (r: Result<u32, SwdError>)
      requires protocol.Between() && !protocol.contended && op.IsRead()
      modifies protocol, this`misbanked
      ensures protocol.Between() && !protocol.contended
      ensures (D(), r) == ReadTxn(old(D()), HdrOf(op), waitRetries)
      ensures misbanked == (old(misbanked) || !old(Banked(op)))
      ensures r.Ok? && single ==> IdleTail()
    {
      hide Dap.Arrive, Dap.AfterWrite, Dap.AfterRead, Dap.ReadValue, DataBits, CheckWord;
      misbanked := misbanked || !Banked(op);
      protocol.SetSwdioOutput();
      var attempt := 0;
      while true
        invariant protocol.Between() && !protocol.contended && protocol.swdioOut
        invariant misbanked == (old(misbanked) || !old(Banked(op)))
        invariant 0 <= attempt <= waitRetries
        invariant Retry(old(D()), HdrOf(op), waitRetries) == Retry(D(), HdrOf(op), waitRetries - attempt)
        decreases waitRetries - attempt
      {
        protocol.WriteCmdTurnaround(op);
        CheckWordRoundTrip(protocol.target.port.value);
        var ack := protocol.ReadAck();
        match ack {
          case Ok(_) =>
            var data, sampled := protocol.ReadU32ParityTurnaround();
            match data {
              case Ok(w) =>
                if single {
                  protocol.Clock(POST_SINGLE_OPERATION_CYCLES);
                }
                return Ok(w);
              case Err(e) => return Err(e);
            }
          case Err(WaitAck) =>
          case Err(e) => return Err(e);
        }
        attempt := attempt + 1;
        if attempt > waitRetries {
          return Err(WaitAck);
        }
      }
    }

    method ReadCtrlStat() returns (r: Result<u32, SwdError>)
      requires Valid()
      modifies protocol, this`misbanked
      ensures Valid()
      ensures (D(), r) == ReadTxn(old(D()), CTRL_STAT_READ, waitRetries)
      ensures r.Ok? ==> IdleTail()
    {
      ReadStatus(D(), waitRetries);
      r := DoReadOp(DpRead(CTRL_STAT), true);
    }

    /**
     Fail if CTRL/STAT shows a sticky error, or, when asked, does not show
     READOK. What is read is CTRL/STAT only in DP bank 0.
     */
    method CheckDpErrors(checkReadOk: bool) returns (r: Result<(), SwdError>)
      requires Valid()
      modifies protocol, this`misbanked
      ensures Valid()
      ensures Idles(old(D()), D()) && D().readok == old(D()).readok
      ensures S() == old(S()) && D().env == old(D()).env && D().Final() == old(D()).Final()
      ensures D() == ReadTxn(old(D()), CTRL_STAT_READ, waitRetries).0
      ensures r.Ok? ==> IdleTail()
      ensures r.Ok? <==> CheckPasses(old(D()), checkReadOk, waitRetries)
      ensures r.Ok? && D().select.dpbank == 0 ==> !D().core.sticky && (checkReadOk ==> D().readok)
      ensures D().env.Prompt() ==> D().pending.None?
      ensures D().env.Clean() && D().select.dpbank == 0 && !D().Final().sticky && (checkReadOk ==> D().readok) ==> r.Ok?
      ensures r.Ok? ==> D().checks == old(D()).checks + 1
    {
      ReadStatus(D(), waitRetries);
      ReadsWriteNothing(D(), CTRL_STAT_READ, waitRetries);
      var status := ReadCtrlStat();
      StatusMeans(D());
      match status {
        case Err(e) => return Err(e);
        case Ok(s) =>
          if HasErrors(s) || (checkReadOk && !ReadOk(s)) {
            return Err(DpError);
          }
          return Ok(());
      }
    }

    /**
     Write SELECT and remember it. When the error check after the write fails
     the shadow keeps the old word: it is then stale exactly when the write
     itself was acknowledged and changed SELECT.
     */
    method UpdateDpSelect(select: Select) returns (r: Result<(), SwdError>)
      requires Valid()
      modifies protocol, this`misbanked, this`dpSelect
      ensures Valid()
      ensures D().env == old(D()).env && D().Final() == old(D()).Final()
      ensures r.Ok? ==> dpSelect == select && D().select == select && IdleTail()
      ensures r.Err? ==> dpSelect == old(dpSelect)
      ensures (D(), dpSelect, r.Ok?) == UpdateTxn(old(D()), old(dpSelect), select, waitRetries)
      ensures D().env.Clean() && select.dpbank == 0 && !D().Final().sticky ==> r.Ok?
      ensures r.Ok? ==> D().checks == old(D()).checks + 1
    {
      hide ReadTxn, WriteTxn, Select.Word, MemAp.Perform;
      WriteSelect(D(), select, waitRetries);
      WriteSends(D(), SELECT_WRITE, select.Word(), waitRetries);
      r := DoWriteOp(DpWrite(SELECT), select.Word(), true);
      if r.Err? {
        return r;
      }
      r := CheckDpErrors(false);
      if r.Err? {
        return r;
      }
      dpSelect := select;
    }

    /** Make sure the bank an operation addresses is selected. */
    method CheckAndUpdateDpSelect(op: SwdOp) returns (r: Result<(), SwdError>)
      requires Valid()
      modifies protocol, this`misbanked, this`dpSelect
      ensures Valid()
      ensures D().env == old(D()).env && D().Final() == old(D()).Final()
      ensures !op.IsAp() && op.addr in {IDCODE, SELECT, RDBUFF} ==> r.Ok? && D() == old(D())
      ensures !op.NeedsBank() || op.CheckDpSelect(old(dpSelect)) ==>
                r.Ok? && D() == old(D()) && dpSelect == old(dpSelect)
      ensures (D(), dpSelect, r.Ok?) == BankTxn(old(D()), old(dpSelect), op, waitRetries)
      ensures r.Ok? && op.NeedsBank() ==> op.CheckDpSelect(dpSelect)
      ensures r.Ok? && old(ShadowRight()) ==> ShadowRight() && Banked(op)
      ensures D().env.Clean() && !D().Final().sticky && op.IsAp() ==> r.Ok?
      ensures op.NeedsBank() && !op.CheckDpSelect(old(dpSelect)) && r.Ok? ==> dpSelect == op.NewSelect() && ShadowRight()
      ensures op.IsAp() && op.addr < 0x10 ==> S() == InBankZero(old(D()), old(dpSelect), waitRetries)
      ensures r.Ok? ==> D().checks == old(D()).checks + BankChecks(old(dpSelect), op)
    {
      if op.IsAp() && op.addr < 0x10 { AllInBankZero(D(), dpSelect, op, waitRetries); }
      if !op.NeedsBank() {
        return Ok(());
      }
      if !op.CheckDpSelect(dpSelect) {
        r := UpdateDpSelect(op.NewSelect());
        return r;
      }
      return Ok(());
    }

    /** A register write: bank, write, error check. */
    method WriteOperation(op: SwdOp, data: u32, single: bool) returns (r: Result<(), SwdError>)
      requires Valid() && !op.IsRead()
      modifies protocol, this`misbanked, this`dpSelect
      ensures Valid() && D().env == old(D()).env
      ensures op.IsAp() && Unpowered() ==> r == Err(NotReady) && D() == old(D())
      ensures !op.IsAp() || HdrOf(op).a != 3 ==> D().Final().mem == old(D()).Final().mem
      ensures r.Ok? ==> IdleTail()
      ensures r.Ok? && (op.CheckDpSelect(old(dpSelect)) || !op.NeedsBank()) ==> dpSelect == old(dpSelect)
      ensures S() == if op.IsAp() && Unpowered() then old(S()) else AfterWrite(old(D()), old(dpSelect), op, data, waitRetries)
      ensures r.Ok? && old(ShadowRight()) ==> (ShadowRight() <==> HdrOf(op) != SELECT_WRITE || SelectOf(data) == dpSelect)
      ensures old(Ready()) && op.IsAp() && op.addr in {CSW, TAR, DRW} ==>
                && var f := old(D()).Final();
                   var g := WriteEffect(f, D().env, op.addr, data);
                && D().Final() in {f, g}
                && (r.Ok? ==> Ready() && D().Final() == g && !f.sticky && !D().core.sticky
                              && (D().env.Prompt() ==> D().pending.None?))
                && (D().env.Clean() && !f.sticky ==> r.Ok?)
      ensures old(Elsewhere()) && op.IsAp() && op.addr < 0x10 ==> Elsewhere() && Untouched(old(D()), D())
      ensures op.IsAp() && op.addr < 0x10 ==> S() == if Unpowered() then old(S()) else InBankZero(old(D()), old(dpSelect), waitRetries)
      ensures r.Ok? && op.NeedsBank() ==> op.CheckDpSelect(dpSelect)
      ensures HdrOf(op) != SELECT_WRITE && (!op.NeedsBank() || op.CheckDpSelect(old(dpSelect))) ==> S() == old(S())
      ensures !(op.IsAp() && Unpowered()) ==> (D(), dpSelect, r.Ok?) == RegWriteTxn(old(D()), old(dpSelect), op, data, waitRetries)
      ensures !(op.IsAp() && Unpowered()) ==> Sent(old(D()), old(dpSelect), op, data, D(), r.Ok?)
      ensures op == DpWrite(ABORT) && data / 4 % 2 == 1 && r.Ok? && D().select.dpbank == 0 ==> !D().core.sticky
      ensures op == DpWrite(ABORT) && data / 4 % 2 == 1 && D().env.Clean() && D().select.dpbank == 0 ==> r.Ok? && !D().Final().sticky
    {
      hide ReadTxn, WriteTxn, Select.Word, SelectOf, MemAp.Perform, UpdateTxn, InBankZero, CheckPasses;
      RegWriteSends(D(), dpSelect, op, data, waitRetries);
      if op == DpWrite(ABORT) && data / 4 % 2 == 1 { AbortWorks(D(), dpSelect, data, waitRetries); }
      if op.IsAp() && Unpowered() {
        return Err(NotReady);
      }
      r := CheckAndUpdateDpSelect(op);
      if r.Err? {
        return r;
      }
      if HdrOf(op) == SELECT_WRITE {
        r := WriteOverSelect(op, data, single);
        return r;
      }
      r := WriteSelected(op, data, single);
    }

    /** A register write in the bank selected, and its error check. */
    method WriteSelected(op: SwdOp, data: u32, single: bool) returns (r: Result<(), SwdError>)
      requires Valid() && !op.IsRead() && HdrOf(op) != SELECT_WRITE && (op.IsAp() ==> op.CheckDpSelect(dpSelect))
      modifies protocol, this`misbanked
      ensures Valid() && D().env == old(D()).env && D().select == old(D()).select
      ensures !op.IsAp() || HdrOf(op).a != 3 ==> D().Final().mem == old(D()).Final().mem
      ensures r.Ok? ==> IdleTail()
      ensures ShadowRight() && MemApSelected(dpSelect) && op.IsAp() && op.addr in {CSW, TAR, DRW} ==>
                && var f := old(D()).Final();
                   var g := WriteEffect(f, D().env, op.addr, data);
                && D().Final() in {f, g}
                && (r.Ok? ==> D().Final() == g && !f.sticky && !D().core.sticky && (D().env.Prompt() ==> D().pending.None?))
                && (D().env.Clean() && !f.sticky ==> r.Ok?)
      ensures ShadowRight() && dpSelect.apsel != 0 ==> Untouched(old(D()), D())
      ensures (D(), r.Ok?) == Checked(WriteTxn(old(D()), HdrOf(op), data, waitRetries), waitRetries)
    {
      hide ReadTxn, WriteTxn, Select.Word, SelectOf, MemAp.Perform;
      ghost var d := D();
      if d.select.apsel != 0 { WriteAway(d, HdrOf(op), data, waitRetries); }
      WriteKeepsSelect(d, HdrOf(op), data, waitRetries);
      if !op.IsAp() || HdrOf(op).a != 3 { WriteKeepsMemory(d, HdrOf(op), data, waitRetries); }
      if MemApSelected(dpSelect) && ShadowRight() && op.IsAp() && op.addr in {CSW, TAR, DRW} {
        WriteMemApRegister(d, op.addr, data, waitRetries);
        EffectsClean(d.Final(), d.env, op.addr, data);
      }
      r := DoWriteOp(op, data, single);
      if r.Err? {
        return r;
      }
      r := CheckDpErrors(false);
    }

    /** A write that reaches SELECT without the shadow being told. */
    method WriteOverSelect(op: SwdOp, data: u32, single: bool) returns (r: Result<(), SwdError>)
      requires Valid() && HdrOf(op) == SELECT_WRITE
      modifies protocol, this`misbanked
      ensures Valid() && D().env == old(D()).env && D().Final() == old(D()).Final()
      ensures r.Ok? ==> IdleTail() && D().select == SelectOf(data)
      ensures S() == Selects(dpSelect, if WriteTxn(old(D()), SELECT_WRITE, data, waitRetries).1.Ok? then SelectOf(data) else old(D()).select)
      ensures (D(), r.Ok?) == Checked(WriteTxn(old(D()), HdrOf(op), data, waitRetries), waitRetries)
    {
      hide ReadTxn, WriteTxn, SelectOf, MemAp.Perform;
      WriteSelectWord(D(), data, waitRetries);
      r := DoWriteOp(op, data, single);
      if r.Err? {
        return r;
      }
      r := CheckDpErrors(false);
    }

    /** Fetch the result of an AP read that was accepted. */
    method FetchResult(single: bool) returns (r: Result<u32, SwdError>)
      requires Valid()
      modifies protocol, this`misbanked
      ensures Valid() && Idles(old(D()), D())
      ensures r.Ok? && single ==> IdleTail()
      ensures r.Ok? ==> !D().Final().sticky && r.value == D().Final().rdbuff && D().core == D().Final() && D().pending.None?
      ensures D().env.Clean() && D().select.dpbank == 0 && old(D()).readok && !D().Final().sticky ==> r.Ok?
      ensures (D(), Value(r)) == Fetched(old(D()), waitRetries)
    {
      hide ReadTxn, WriteTxn, Select.Word, MemAp.Perform, Env.Clean, Env.Prompt;
      var c := CheckDpErrors(true);
      if c.Err? {
        return Err(c.error);
      }
      ReadRdBuff(D(), waitRetries);
      r := DoReadOp(DpRead(RDBUFF), single);
    }

    /** A register read. An AP read takes two packets: the access, then RDBUFF for its result. */
    method ReadOperation(op: SwdOp, single: bool) returns (r: Result<u32, SwdError>)
      requires Valid() && op.IsRead()
      modifies protocol, this`misbanked, this`dpSelect
      ensures op.IsAp() && Unpowered() ==> r == Err(NotReady) && D() == old(D())
      ensures Valid() && D().env == old(D()).env && D().Final().mem == old(D()).Final().mem
      ensures r.Ok? && single ==> IdleTail()
      ensures S() == if op.IsAp() && Unpowered() then old(S()) else InBank(old(D()), old(dpSelect), op, waitRetries)
      ensures r.Ok? && op.CheckDpSelect(old(dpSelect)) ==> dpSelect == old(dpSelect)
      ensures old(Ready()) && op.IsAp() && op.addr in {CSW, TAR, DRW} ==>
                && var f := old(D()).Final();
                   var g := ReadEffect(f, D().env, op.addr);
                && D().Final() in {f, g}
                && (r.Ok? ==> Ready() && D().Final() == g && !f.sticky && !g.sticky && r.value == g.rdbuff
                              && D().pending.None? && D().core == g)
                && (D().env.Clean() && !f.sticky ==> r.Ok?)
      ensures old(Elsewhere()) && op.IsAp() && op.addr < 0x10 ==> Elsewhere() && Untouched(old(D()), D())
      ensures op.IsAp() && op.addr < 0x10 ==> S() == if Unpowered() then old(S()) else InBankZero(old(D()), old(dpSelect), waitRetries)
      ensures r.Ok? && op.NeedsBank() ==> op.CheckDpSelect(dpSelect)
      ensures !op.NeedsBank() || op.CheckDpSelect(old(dpSelect)) ==> S() == old(S())
      ensures !(op.IsAp() && Unpowered()) ==> (D(), dpSelect, Value(r)) == RegReadTxn(old(D()), old(dpSelect), op, waitRetries)
      ensures r.Ok? && op.IsAp() ==> r.value == D().Final().rdbuff && !D().Final().sticky && D().pending.None?
      ensures r.Ok? && op.IsAp() ==> D().checks == old(D()).checks + BankChecks(old(dpSelect), op) + 1
    {
      hide ReadTxn, WriteTxn, Select.Word, MemAp.Perform, UpdateTxn, InBankZero, CheckPasses, Env.Clean, Env.Prompt;
      if op.IsAp() && Unpowered() {
        return Err(NotReady);
      }
      if op.IsAp() { RegReadChecks(D(), dpSelect, op, waitRetries); }
      var b := CheckAndUpdateDpSelect(op);
      if b.Err? {
        return Err(b.error);
      }
      if op.IsAp() {
        r := ReadSelected(op, single);
      } else {
        ReadKeepsSelect(D(), HdrOf(op), waitRetries);
        ReadKeepsMemory(D(), HdrOf(op), waitRetries);
        r := DoReadOp(op, single);
      }
    }

    /** An AP register read in the bank selected: the access, its check, and RDBUFF for its result. */
    method ReadSelected(op: SwdOp, single: bool) returns (r: Result<u32, SwdError>)
      requires Valid() && op.IsRead() && op.IsAp() && op.CheckDpSelect(dpSelect)
      modifies protocol, this`misbanked
      ensures Valid() && D().env == old(D()).env && S() == old(S()) && D().Final().mem == old(D()).Final().mem
      ensures r.Ok? && single ==> IdleTail()
      ensures ShadowRight() && MemApSelected(dpSelect) && op.addr in {CSW, TAR, DRW} ==>
                && var f := old(D()).Final();
                   var g := ReadEffect(f, D().env, op.addr);
                && D().Final() in {f, g}
                && (r.Ok? ==> D().Final() == g && !f.sticky && !g.sticky && r.value == g.rdbuff && D().core == g)
                && (D().env.Clean() && !f.sticky ==> r.Ok?)
      ensures ShadowRight() && dpSelect.apsel != 0 ==> Untouched(old(D()), D())
      ensures r.Ok? ==> r.value == D().Final().rdbuff && !D().Final().sticky && D().pending.None?
      ensures (D(), Value(r)) == var (d, v) := ReadTxn(old(D()), HdrOf(op), waitRetries);
                                 if v.Err? then (d, None) else Fetched(d, waitRetries)
    {
      hide ReadTxn, WriteTxn, Select.Word, MemAp.Perform, CheckPasses, Env.Clean, Env.Prompt;
      ghost var d := D();
      ReadKeepsSelect(d, HdrOf(op), waitRetries);
      ReadKeepsMemory(d, HdrOf(op), waitRetries);
      if d.select.apsel != 0 { ReadAway(d, HdrOf(op), waitRetries); }
      if MemApSelected(dpSelect) && ShadowRight() && op.addr in {CSW, TAR, DRW} {
        ReadMemApRegister(d, op.addr, waitRetries);
        EffectsClean(d.Final(), d.env, op.addr, 0);
      }
      r := DoReadOp(op, false);
      if r.Err? {
        return r;
      }
      r := FetchResult(single);
    }

    method ReadRdBuffFast(last: bool) returns (r: Result<u32, SwdError>)
      requires Valid()
      modifies protocol, this`misbanked
      ensures Valid()
      ensures (D(), r) == ReadTxn(old(D()), RDBUFF_READ, waitRetries)
    {
      ReadKeepsSelect(D(), RDBUFF_READ, waitRetries);
      r := DoReadOp(DpRead(RDBUFF), !last);
    }

    /** Assumes SELECT names bank 0. */
    method ReadDrwFast() returns (r: Result<u32, SwdError>)
      requires Valid() && (ShadowRight() ==> dpSelect.apbank == 0)
      modifies protocol, this`misbanked
      ensures Valid()
      ensures (D(), r) == ReadTxn(old(D()), DRW_READ, waitRetries)
    {
      ReadKeepsSelect(D(), DRW_READ, waitRetries);
      r := DoReadOp(ApRead(DRW), false);
    }

    /** Assumes SELECT names bank 0. */
    method WriteDrwFast(value: u32, last: bool) returns (r: Result<(), SwdError>)
      requires Valid() && (ShadowRight() ==> dpSelect.apbank == 0)
      modifies protocol, this`misbanked
      ensures Valid()
      ensures (D(), r) == WriteTxn(old(D()), DRW_WRITE, value, waitRetries)
    {
      WriteKeepsSelect(D(), DRW_WRITE, value, waitRetries);
      r := DoWriteOp(ApWrite(DRW), value, !last);
    }

    /**
     In the middle of a bulk read: `n` accesses started, bank 0 selected.
     `known` says that the MEM-AP was ready when the read began; without that,
     whatever SELECT names is read instead of memory.
     */
    ghost predicate Piped(known: bool, f: MemAp, env: Env, n: nat)
      reads this, protocol
    {
      && Valid() && dpSelect.apbank == 0 && D().env == env && D().Final().mem == f.mem
      && (known ==> Ready() && D().readok && D().Final() == ReadMany(f, env, n))
    }

    /** Select DRW's bank and make the first read, whose value belongs to whatever was read before. */
    method StartReads() returns (r: Result<(), SwdError>, ghost reached: nat)
      requires Valid()
      modifies protocol, this`misbanked, this`dpSelect
      ensures Valid() && D().env == old(D()).env && D().Final().mem == old(D()).Final().mem
      ensures r.Ok? ==> reached == 1 && Piped(old(Ready()), old(D()).Final(), D().env, 1)
      ensures old(Ready()) ==>
                && reached <= 1 && D().Final() == ReadMany(old(D()).Final(), D().env, reached)
                && (D().env.Clean() && !old(D()).Final().sticky ==> r.Ok?)
      ensures old(Elsewhere()) ==> Elsewhere() && Untouched(old(D()), D())
      ensures S() == InBankZero(old(D()), old(dpSelect), waitRetries)
      ensures r.Ok? ==> dpSelect.apbank == 0
      ensures old(dpSelect).apbank == 0 ==> S() == old(S())
      ensures r.Ok? ==> D().checks == old(D()).checks + BankChecks(old(dpSelect), ApRead(DRW))
    {
      hide ReadTxn, WriteTxn, MemAp.Perform, UpdateTxn, BankTxn, InBank, InBankZero, AfterWrite, CheckPasses, Env.Clean, Env.Prompt, RegWriteTxn, RegReadTxn, Value;
      ghost var f, env, known := D().Final(), D().env, Ready();
      assert ReadMany(f, env, 1) == ReadMany(f, env, 0).Perform(env, ReadDrw);
      r := CheckAndUpdateDpSelect(ApRead(DRW));
      if r.Err? {
        return r, 0;
      }
      if known { ReadMemApRegister(D(), DRW, waitRetries); }
      ReadKeepsMemory(D(), DRW_READ, waitRetries);
      if D().select.apsel != 0 { ReadAway(D(), DRW_READ, waitRetries); }
      ReadKeepsSelect(D(), DRW_READ, waitRetries);
      ReadsWriteNothing(D(), DRW_READ, waitRetries);
      var first := ReadDrwFast();
      if first.Err? {
        return Err(first.error), 0;
      }
      return Ok(()), 1;
    }

    /** One turn of the read pipeline: collect access `n - 1`, start access `n`, and check for errors unless in a hurry. */
    method CollectWord(fast: bool, ghost known: bool, ghost f: MemAp, ghost env: Env, ghost n: nat)
      returns (r: Result<u32, SwdError>, ghost reached: nat)
      requires n > 0 && Piped(known, f, env, n)
      modifies protocol, this`misbanked
      ensures Valid() && D().env == env && D().Final().mem == f.mem
      ensures r.Ok? ==> Piped(known, f, env, n + 1) && reached == n + 1
      ensures known ==>
                && n <= reached <= n + 1 && D().Final() == ReadMany(f, env, reached)
                && (r.Ok? ==> r.value == ReadWord(f, env, n - 1) && !ReadMany(f, env, n).sticky)
                && (env.Clean() && !f.sticky ==> r.Ok?)
      ensures old(Elsewhere()) ==> Elsewhere() && Untouched(old(D()), D())
      ensures S() == old(S())
      ensures r.Ok? ==> D().checks == old(D()).checks + if fast then 0 else 1
    {
      hide ReadTxn, WriteTxn, MemAp.Perform, UpdateTxn, BankTxn, InBank, InBankZero, AfterWrite, CheckPasses, Env.Clean, Env.Prompt;
      if env.Clean() && !f.sticky {
        ReadManyClean(f, env, n);
        ReadManyClean(f, env, n + 1);
      }
      if known { ReadMemApRegister(D(), DRW, waitRetries); }
      ReadKeepsMemory(D(), DRW_READ, waitRetries);
      if D().select.apsel != 0 { ReadAway(D(), DRW_READ, waitRetries); }
      ReadKeepsSelect(D(), DRW_READ, waitRetries);
      ReadsWriteNothing(D(), DRW_READ, waitRetries);
      r := ReadDrwFast();
      if r.Err? {
        return r, n;
      }
      if !fast {
        var c := CheckDpErrors(true);
        if c.Err? {
          return Err(c.error), n + 1;
        }
      }
      return r, n + 1;
    }

    /** The end of the pipeline: collect the last access from RDBUFF. */
    method CollectLast(fast: bool, ghost known: bool, ghost f: MemAp, ghost env: Env, ghost n: nat)
      returns (r: Result<u32, SwdError>)
      requires n > 0 && Piped(known, f, env, n)
      modifies protocol, this`misbanked
      ensures Valid() && D().env == env && D().Final().mem == f.mem
      ensures r.Ok? ==> Piped(known, f, env, n) && (!fast ==> IdleTail())
      ensures known ==>
                && D().Final() == ReadMany(f, env, n)
                && (r.Ok? ==> r.value == ReadWord(f, env, n - 1) && !ReadMany(f, env, n).sticky && D().pending.None?)
                && (env.Clean() && !f.sticky ==> r.Ok?)
      ensures old(Elsewhere()) ==> Elsewhere() && Untouched(old(D()), D())
      ensures S() == old(S())
      ensures r.Ok? ==> D().checks == old(D()).checks + if fast then 0 else 1
    {
      hide ReadTxn, WriteTxn, MemAp.Perform, UpdateTxn, BankTxn, InBank, InBankZero, AfterWrite, CheckPasses, Env.Clean, Env.Prompt;
      if env.Clean() && !f.sticky { ReadManyClean(f, env, n); }
      ReadRdBuff(D(), waitRetries);
      ReadsWriteNothing(D(), RDBUFF_READ, waitRetries);
      r := ReadRdBuffFast(true);
      if r.Ok? && !fast {
        var c := CheckDpErrors(true);
        if c.Err? {
          return Err(c.error);
        }
      }
    }

    /** All turns of the pipeline but the last word: word i comes from read i + 1. */
    method CollectWords(buf: array<u32>, from: nat, count: nat, fast: bool, ghost known: bool, ghost f: MemAp, ghost env: Env)
      returns (r: BulkResult, ghost reached: nat)
      requires from + count <= buf.Length && Piped(known, f, env, 1)
      modifies protocol, this`misbanked, buf
      ensures Valid() && D().env == env && D().Final().mem == f.mem && !r.Panicked?
      ensures r.Done? ==> reached == (if count == 0 then 1 else count) && Piped(known, f, env, reached)
      ensures var n := if r.Done? then reached - 1 else r.count;
              && n < (if count == 0 then 1 else count)
              && (forall k | 0 <= k < buf.Length && !(from <= k < from + n) :: buf[k] == old(buf[k]))
              && (known ==>
                    && n <= reached <= n + 2 && reached <= (if count == 0 then 1 else count)
                    && D().Final() == ReadMany(f, env, reached)
                    && (n > 0 ==> !ReadMany(f, env, n).sticky)
                    && (forall k | from <= k < from + n :: buf[k] == ReadWord(f, env, k - from))
                    && (env.Clean() && !f.sticky ==> r.Done?))
      ensures old(Elsewhere()) ==> Elsewhere() && Untouched(old(D()), D())
      ensures S() == old(S())
      ensures r.Done? ==> D().checks == old(D()).checks + if fast || count == 0 then 0 else count - 1
    {
      hide ReadTxn, WriteTxn, MemAp.Perform, ReadMany, ReadWord, UpdateTxn, BankTxn, InBank, InBankZero, AfterWrite, CheckPasses, Env.Clean, Env.Prompt;
      reached := 1;
      var readCount := 0;
      while readCount < count - 1
        invariant D().checks == old(D()).checks + if fast then 0 else readCount
        invariant S() == old(S())
        invariant old(Elsewhere()) ==> Elsewhere() && Untouched(old(D()), D())
        invariant 0 <= readCount && (readCount == 0 || readCount <= count - 1)
        invariant reached == readCount + 1 && Piped(known, f, env, reached)
        invariant known && readCount > 0 ==> !ReadMany(f, env, readCount).sticky
        invariant known ==> forall k | from <= k < from + readCount :: buf[k] == ReadWord(f, env, k - from)
        invariant forall k | 0 <= k < buf.Length && !(from <= k < from + readCount) :: buf[k] == old(buf[k])
      {
        var data;
        data, reached := CollectWord(fast, known, f, env, reached);
        if data.Err? {
          return Failed(data.error, readCount), reached;
        }
        buf[from + readCount] := data.value;
        readCount := readCount + 1;
      }
      return Done, reached;
    }

    /**
     Read DRW `count` times through the one-deep read pipeline: the first
     read only starts an access, each further read collects the result of the
     one before, and RDBUFF gives the last. It amounts to `count` single
     accesses one after the other, however the packets were delayed. Asked
     for no words it still makes the first access, and then panics on storing
     a last word that has no place.
     */
    method ReadDrwBulk(buf: array<u32>, from: nat, count: nat, fast: bool) returns (r: BulkResult, ghost reached: nat)
      requires Valid() && from + count <= buf.Length
      modifies protocol, this`misbanked, this`dpSelect, buf
      ensures Valid() && D().env == old(D()).env && D().Final().mem == old(D()).Final().mem
      ensures r.Done? ==> IdleTail() && count > 0
      ensures r.Panicked? ==> count == 0
      ensures r.Failed? ==> r.count <= count
      ensures forall k | 0 <= k < buf.Length && !(from <= k < from + Stored(r, count)) :: buf[k] == old(buf[k])
      ensures old(Ready()) ==>
                && var f := old(D()).Final();
                && reached <= (if count == 0 then 1 else count) && D().Final() == ReadMany(f, D().env, reached)
                && (r.Done? ==> Ready() && reached == count && !D().Final().sticky && D().pending.None?)
                && (r.Failed? ==> r.count <= reached && (r.count > 0 ==> !ReadMany(f, D().env, r.count).sticky))
                && (forall k | from <= k < from + Stored(r, count) :: buf[k] == ReadWord(f, D().env, k - from))
                && (D().env.Clean() && !f.sticky ==> if count == 0 then r.Panicked? else r.Done?)
      ensures old(Elsewhere()) ==> Elsewhere() && Untouched(old(D()), D())
      ensures S() == InBankZero(old(D()), old(dpSelect), waitRetries)
      ensures r.Done? ==> dpSelect.apbank == 0
      ensures old(dpSelect).apbank == 0 ==> S() == old(S())
      ensures r.Done? ==> D().checks == old(D()).checks + BankChecks(old(dpSelect), ApRead(DRW)) + if fast then 1 else count
    {
      hide ReadTxn, WriteTxn, MemAp.Perform, ReadMany, ReadWord, UpdateTxn, BankTxn, InBank, InBankZero, AfterWrite, CheckPasses, Env.Clean, Env.Prompt, RegWriteTxn, RegReadTxn, Value, BankChecks;
      ghost var f, env, known := D().Final(), D().env, Ready();
      var first;
      first, reached := StartReads();
      if first.Err? {
        return Failed(first.error, 0), reached;
      }
      r, reached := CollectWords(buf, from, count, fast, known, f, env);
      if r.Failed? {
        return;
      }
      r := FinishReads(buf, from, count, fast, known, f, env, reached);
    }

    /** The last word, and in a hurry the one error check. */
    method FinishReads(buf: array<u32>, from: nat, count: nat, fast: bool, ghost known: bool, ghost f: MemAp, ghost env: Env, ghost n: nat)
      returns (r: BulkResult)
      requires from + count <= buf.Length && n == (if count == 0 then 1 else count) && Piped(known, f, env, n)
      requires known && n > 1 ==> !ReadMany(f, env, n - 1).sticky
      modifies protocol, this`misbanked, buf
      ensures Valid() && D().env == env && D().Final().mem == f.mem
      ensures r.Done? ==> IdleTail() && count > 0
      ensures r.Panicked? ==> count == 0
      ensures r.Failed? ==> r.count in {n - 1, count}
      ensures forall k | 0 <= k < buf.Length && !(from <= k < from + Stored(r, count) && k == from + n - 1) :: buf[k] == old(buf[k])
      ensures known ==>
                && D().Final() == ReadMany(f, env, n)
                && (r.Done? ==> Ready() && !D().Final().sticky && D().pending.None?)
                && (r.Failed? && r.count == n ==> !ReadMany(f, env, n).sticky)
                && (count > 0 && Stored(r, count) == n ==> buf[from + n - 1] == ReadWord(f, env, n - 1))
                && (env.Clean() && !f.sticky ==> if count == 0 then r.Panicked? else r.Done?)
      ensures old(Elsewhere()) ==> Elsewhere() && Untouched(old(D()), D())
      ensures S() == old(S())
      ensures r.Done? ==> D().checks == old(D()).checks + 1
    {
      hide ReadTxn, WriteTxn, MemAp.Perform, ReadMany, ReadWord, UpdateTxn, BankTxn, InBank, InBankZero, AfterWrite, CheckPasses, Env.Clean, Env.Prompt;
      var data := CollectLast(fast, known, f, env, n);
      if data.Err? {
        return Failed(data.error, if count == 0 then 0 else count - 1);
      }
      if count == 0 {
        return Panicked;
      }
      buf[from + count - 1] := data.value;
      if fast {
        var c := CheckDpErrors(true);
        if c.Err? {
          return Failed(c.error, count);
        }
      }
      return Done;
    }

    /** In the middle of a bulk write: `vs` written, the last of them perhaps still in flight. */
    ghost predicate Posted(known: bool, f: MemAp, env: Env, vs: seq<u32>)
      reads this, protocol
    {
      && Valid() && dpSelect.apbank == 0 && D().env == env && (vs != [] ==> IdleTail())
      && (known ==>
            && Ready() && D().Final() == WriteMany(f, env, vs)
            && (vs != [] ==> !WriteMany(f, env, vs[..|vs| - 1]).sticky && !D().core.sticky
                             && (env.Prompt() ==> D().pending.None?)))
    }

    /** Write one more word and check for errors. `sent` says whether the write itself was accepted. */
    method PushWord(v: u32, last: bool, ghost known: bool, ghost f: MemAp, ghost env: Env, ghost vs: seq<u32>)
      returns (r: Result<(), SwdError>, ghost sent: bool)
      requires Posted(known, f, env, vs)
      modifies protocol, this`misbanked
      ensures Valid() && D().env == env
      ensures r.Ok? ==> sent && Posted(known, f, env, vs + [v])
      ensures known ==>
                && D().Final() == WriteMany(f, env, if sent then vs + [v] else vs)
                && (sent ==> !WriteMany(f, env, vs).sticky)
                && (env.Clean() && !f.sticky ==> r.Ok?)
      ensures old(Elsewhere()) ==> Elsewhere() && Untouched(old(D()), D())
      ensures S() == old(S())
      ensures r.Ok? ==> D().checks == old(D()).checks + 1
    {
      hide ReadTxn, WriteTxn, MemAp.Perform, WriteMany, Idles, Env.Clean, UpdateTxn, BankTxn, InBank, InBankZero, AfterWrite, CheckPasses, Env.Prompt;
      if known { NextWrite(D(), f, env, vs, v, waitRetries); }
      WriteKeepsSelect(D(), DRW_WRITE, v, waitRetries);
      if D().select.apsel != 0 { WriteAway(D(), DRW_WRITE, v, waitRetries); }
      WriteSends(D(), DRW_WRITE, v, waitRetries);
      r := WriteDrwFast(v, last);
      if r.Err? {
        return r, false;
      }
      hide Posted;
      r := CheckDpErrors(false);
      if r.Ok? { PostedNext(known, f, env, vs, v); }
      return r, true;
    }

    lemma PostedNext(known: bool, f: MemAp, env: Env, vs: seq<u32>, v: u32)
      requires Valid() && dpSelect.apbank == 0 && D().env == env && IdleTail()
      requires known ==>
                 && Ready() && D().Final() == WriteMany(f, env, vs + [v]) && !WriteMany(f, env, vs).sticky
                 && !D().core.sticky && (env.Prompt() ==> D().pending.None?)
      ensures Posted(known, f, env, vs + [v])
    {
      hide WriteMany, MemAp.Perform, Env.Prompt;
      var all := vs + [v];
      assert all[..|all| - 1] == vs;
    }

    /** One more accepted write is one more write in the sequence. */
    static lemma NextWrite(d: Dap, f: MemAp, env: Env, vs: seq<u32>, v: u32, retries: nat)
      requires d.env == env && d.Final() == WriteMany(f, env, vs) && d.select.apsel == 0 && d.select.apbank == 0
      ensures var (d', r) := WriteTxn(d, DRW_WRITE, v, retries);
              && d'.env == d.env && d'.select == d.select
              && (r.Ok? ==> d'.Final() == WriteMany(f, env, vs + [v]) && !WriteMany(f, env, vs).sticky && !d'.core.sticky && d'.pending.Some?)
              && (r.Err? ==> d'.Final() == d.Final())
              && (env.Clean() && !f.sticky ==> r.Ok? && !WriteMany(f, env, vs + [v]).sticky)
    {
      hide WriteTxn, MemAp.Perform;
      if env.Clean() && !f.sticky {
        WriteManyClean(f, env, vs);
        WriteManyClean(f, env, vs + [v]);
      }
      WriteMemApRegister(d, DRW, v, retries);
      WriteManySnoc(f, env, vs, v);
      hide WriteMany, Env.Clean;
    }

    /**
     Write DRW once per word. It amounts to as many single accesses. Writes
     are posted and CTRL/STAT does not wait for them, so the last write may
     still be in flight on return; all before it have landed.
     */
    method WriteDrwBulk(buf: seq<u32>, fast: bool) returns (r: BulkResult, ghost reached: nat)
      requires Valid()
      modifies protocol, this`misbanked, this`dpSelect
      ensures Valid() && D().env == old(D()).env && !r.Panicked?
      ensures r.Done? && buf != [] ==> IdleTail()
      ensures reached <= |buf| && (r.Done? ==> reached == |buf|) && (r.Failed? ==> r.count <= reached <= r.count + 1)
      ensures old(Ready()) ==>
                && var f := old(D()).Final();
                && D().Final() == WriteMany(f, D().env, buf[..reached])
                && (reached > 0 ==> !WriteMany(f, D().env, buf[..reached - 1]).sticky)
                && (r.Done? ==>
                      && Ready()
                      && (D().pending.None? && buf != [] ==> !D().Final().sticky)
                      && (buf != [] ==> (D().Final().sticky <==> D().env.bad(|f.trace| + |buf| - 1)))
                      && (D().env.Prompt() && buf != [] ==> D().pending.None?))
                && (r.Failed? && D().env.Prompt() && r.count > 0 ==> !WriteMany(f, D().env, buf[..r.count]).sticky)
                && (D().env.Clean() && !f.sticky ==> r.Done?)
      ensures old(Elsewhere()) ==> Elsewhere() && Untouched(old(D()), D())
      ensures S() == if buf == [] then old(S()) else InBankZero(old(D()), old(dpSelect), waitRetries)
      ensures old(dpSelect).apbank == 0 ==> S() == old(S())
      ensures r.Done? && buf != [] ==> D().checks == old(D()).checks + BankChecks(old(dpSelect), ApWrite(DRW)) + |buf| + if fast then 1 else 0
    {
      hide ReadTxn, WriteTxn, MemAp.Perform, Env.Clean, Env.Prompt, WriteMany, Idles, UpdateTxn, BankTxn, InBank, InBankZero, AfterWrite, CheckPasses, RegWriteTxn, RegReadTxn, Value, BankChecks;
      ghost var f, env, known := D().Final(), D().env, Ready();
      NoWrites(f, env, buf);
      reached := 0;
      if buf == [] {
        return Done, 0;
      }
      var b := CheckAndUpdateDpSelect(ApWrite(DRW));
      if b.Err? {
        return Failed(b.error, 0), 0;
      }
      r, reached := PushAll(buf, fast, known, f, env);
    }

    /** All words, and in a hurry one more check at the end. */
    method PushAll(buf: seq<u32>, fast: bool, ghost known: bool, ghost f: MemAp, ghost env: Env) returns (r: BulkResult, ghost reached: nat)
      requires buf != [] && Posted(known, f, env, [])
      modifies protocol, this`misbanked
      ensures Valid() && D().env == env && !r.Panicked? && reached <= |buf|
      ensures r.Done? ==> reached == |buf| && IdleTail()
      ensures r.Failed? ==> r.count <= reached <= r.count + 1
      ensures known ==>
                && D().Final() == WriteMany(f, env, buf[..reached])
                && (reached > 0 ==> !WriteMany(f, env, buf[..reached - 1]).sticky)
                && (r.Done? ==>
                      && Ready() && (D().pending.None? ==> !D().Final().sticky)
                      && (D().Final().sticky <==> env.bad(|f.trace| + |buf| - 1))
                      && (env.Prompt() ==> D().pending.None?))
                && (r.Failed? && env.Prompt() && r.count > 0 ==> !WriteMany(f, env, buf[..r.count]).sticky)
                && (env.Clean() && !f.sticky ==> r.Done?)
      ensures old(Elsewhere()) ==> Elsewhere() && Untouched(old(D()), D())
      ensures S() == old(S())
      ensures r.Done? ==> D().checks == old(D()).checks + |buf| + if fast then 1 else 0
    {
      hide ReadTxn, WriteTxn, MemAp.Perform, Env.Clean, Env.Prompt, WriteMany, Idles, CheckPasses;
      r, reached := PushWords(buf, known, f, env);
      if r.Failed? {
        return;
      }
      assert buf[..reached] == buf;
      WriteManyTrace(f, env, buf);
      if fast {
        if env.Clean() && !f.sticky { WriteManyClean(f, env, buf[..reached]); }
        var c := CheckDpErrors(false);
        if c.Err? {
          return Failed(c.error, |buf|), reached;
        }
      }
      return Done, reached;
    }

    /** Every word of a bulk write, each with its check. */
    method PushWords(buf: seq<u32>, ghost known: bool, ghost f: MemAp, ghost env: Env) returns (r: BulkResult, ghost reached: nat)
      requires Posted(known, f, env, [])
      modifies protocol, this`misbanked
      ensures Valid() && D().env == env && !r.Panicked? && reached <= |buf|
      ensures r.Done? ==> reached == |buf| && Posted(known, f, env, buf)
      ensures r.Failed? ==> r.count <= reached <= r.count + 1
      ensures known ==>
                && D().Final() == WriteMany(f, env, buf[..reached])
                && (reached > 0 ==> !WriteMany(f, env, buf[..reached - 1]).sticky)
                && (r.Failed? && env.Prompt() && r.count > 0 ==> !WriteMany(f, env, buf[..r.count]).sticky)
                && (env.Clean() && !f.sticky ==> r.Done?)
      ensures old(Elsewhere()) ==> Elsewhere() && Untouched(old(D()), D())
      ensures S() == old(S())
      ensures r.Done? ==> D().checks == old(D()).checks + |buf|
    {
      hide ReadTxn, WriteTxn, MemAp.Perform, Env.Clean, Env.Prompt, WriteMany, Idles, UpdateTxn, BankTxn, InBank, InBankZero, AfterWrite, CheckPasses;
      reached := 0;
      var writeCount := 0;
      assert buf[..0] == [];
      while writeCount < |buf|
        invariant D().checks == old(D()).checks + writeCount
        invariant S() == old(S())
        invariant old(Elsewhere()) ==> Elsewhere() && Untouched(old(D()), D())
        invariant 0 <= writeCount <= |buf| && reached == writeCount
        invariant Posted(known, f, env, buf[..reached])
      {
        var last := writeCount == |buf| - 1;
        ghost var vs := buf[..reached];
        assert buf[..reached + 1] == vs + [buf[writeCount]];
        assert (vs + [buf[writeCount]])[..reached] == vs && (reached > 0 ==> vs[..reached - 1] == buf[..reached - 1]);
        ghost var sent;
        var w;
        w, sent := PushWord(buf[writeCount], last, known, f, env, vs);
        reached := if sent then reached + 1 else reached;
        if w.Err? {
          return Failed(w.error, writeCount), reached;
        }
        writeCount := writeCount + 1;
      }
      assert buf[..reached] == buf;
      assert reached > 0 ==> buf[..reached - 1] == buf[..|buf| - 1];
      return Done, reached;
    }

    /** Set CSW.AddrInc, leaving the rest of CSW alone. */
    method SetAddrInc(addrInc: bool) returns (r: Result<(), SwdError>)
      requires Valid()
      modifies protocol, this`misbanked, this`dpSelect
      ensures Valid() && D().env == old(D()).env && D().Final().mem == old(D()).Final().mem
      ensures r.Ok? ==> IdleTail()
      ensures old(Ready()) ==>
                && var f := old(D()).Final();
                   var want := if addrInc then ADDRINC_SINGLE else ADDRINC_OFF;
                && D().Final().trace == f.trace && D().Final().csw in {f.csw, D().env.cswOf(SetAddrIncField(f.csw, want))}
                && (r.Ok? ==> Ready() && !f.sticky && !D().Final().sticky && D().pending.None?
                              && D().Final().tar == f.tar && D().Final().csw == SetAddrIncField(f.csw, want))
                && (D().env.Clean() && !f.sticky ==> r.Ok?)
      ensures old(Elsewhere()) ==> Elsewhere() && Untouched(old(D()), D())
      ensures S() == if Unpowered() then old(S()) else InBankZero(old(D()), old(dpSelect), waitRetries)
      ensures r.Ok? ==> dpSelect.apbank == 0
      ensures old(dpSelect).apbank == 0 ==> S() == old(S())
    {
      hide SetAddrIncField, UpdateTxn, BankTxn, InBank, InBankZero, AfterWrite, RegWriteTxn, RegReadTxn, Value, Sent, BankChecks;
      ghost var f := D().Final();
      var want := if addrInc then ADDRINC_SINGLE else ADDRINC_OFF;
      SetAddrIncSame(f.csw);
      EffectsClean(f, D().env, CSW, SetAddrIncField(f.csw, want));
      var cur := ReadOperation(ApRead(CSW), true);
      if cur.Err? {
        return Err(cur.error);
      }
      if AddrInc(cur.value) == want {
        return Ok(());
      }
      var csw := SetAddrIncField(cur.value, want);
      r := WriteOperation(ApWrite(CSW), csw, true);
      if r.Err? {
        return r;
      }
      var readback := ReadOperation(ApRead(CSW), true);
      if readback.Err? {
        return Err(readback.error);
      }
      if readback.value != csw {
        return Err(OperationFailed);
      }
      return Ok(());
    }

    static lemma SetAddrIncSame(csw: u32)
      ensures SetAddrIncField(csw, AddrInc(csw)) == csw
    {
    }

    /** Read one word: set TAR, check it took, read DRW. */
    method ReadMem(addr: u32) returns (r: Result<u32, SwdError>)
      requires Valid()
      modifies protocol, this`misbanked, this`dpSelect
      ensures Valid() && D().env == old(D()).env && D().Final().mem == old(D()).Final().mem
      ensures r.Ok? ==> IdleTail()
      ensures Unpowered() ==> r == Err(NotReady) && D() == old(D())
      ensures old(Ready()) ==>
                && var f := old(D()).Final();
                && D().Final().csw == f.csw
                && (r.Ok? ==> Ready() && !D().Final().sticky
                              && r.value == MemAt(f.mem, addr)
                              && D().Final().trace == f.trace + [Access(false, addr, true)])
                && (D().env.Clean() && !f.sticky ==> r.Ok?)
      ensures old(Elsewhere()) ==> Elsewhere() && Untouched(old(D()), D())
      ensures S() == if Unpowered() then old(S()) else InBankZero(old(D()), old(dpSelect), waitRetries)
      ensures r.Ok? ==> dpSelect.apbank == 0
      ensures old(dpSelect).apbank == 0 ==> S() == old(S())
    {
      hide ReadTxn, WriteTxn, MemAp.Perform, WriteEffect, ReadEffect, Env.Clean, Env.Prompt, UpdateTxn, BankTxn, InBank, InBankZero, AfterWrite, RegWriteTxn, RegReadTxn, Value, Sent, BankChecks;
      ghost var f := D().Final();
      TarEffects(f, D().env, addr);
      var w := WriteOperation(ApWrite(TAR), addr, true);
      if w.Err? {
        return Err(w.error);
      }
      var readback := ReadOperation(ApRead(TAR), true);
      if readback.Err? {
        return readback;
      }
      if readback.value != addr {
        return Err(OperationFailed);
      }
      r := ReadOperation(ApRead(DRW), true);
    }

    /**
     Write one word: set TAR, check it took, write DRW. The write is posted:
     after success the word is in memory, once the access in flight has run,
     exactly when its bus access succeeds.
     */
    method WriteMem(addr: u32, data: u32) returns (r: Result<(), SwdError>)
      requires Valid()
      modifies protocol, this`misbanked, this`dpSelect
      ensures Valid() && D().env == old(D()).env
      ensures r.Ok? ==> IdleTail()
      ensures Unpowered() ==> r == Err(NotReady) && D() == old(D())
      ensures old(Ready()) ==>
                && var f := old(D()).Final();
                && D().Final().csw == f.csw
                && D().Final().mem in {f.mem, f.mem[addr := data]}
                && (r.Ok? ==> Ready() && (D().Final().sticky <==> D().env.bad(|f.trace|))
                              && D().Final().mem == (if D().env.bad(|f.trace|) then f.mem else f.mem[addr := data])
                              && (D().pending.None? ==> !D().Final().sticky)
                              && (D().env.Prompt() ==> D().pending.None?))
                && (D().env.Clean() && !f.sticky ==> r.Ok?)
      ensures old(Elsewhere()) ==> Elsewhere() && Untouched(old(D()), D())
      ensures S() == if Unpowered() then old(S()) else InBankZero(old(D()), old(dpSelect), waitRetries)
      ensures r.Ok? ==> dpSelect.apbank == 0
      ensures old(dpSelect).apbank == 0 ==> S() == old(S())
    {
      hide ReadTxn, WriteTxn, MemAp.Perform, WriteEffect, ReadEffect, Env.Clean, Env.Prompt, UpdateTxn, BankTxn, InBank, InBankZero, AfterWrite, RegWriteTxn, RegReadTxn, Value, Sent, BankChecks;
      ghost var f := D().Final();
      TarEffects(f, D().env, addr);
      DrwEffects(f.(tar := addr), D().env, data);
      DrwEffects(f.(tar := addr, rdbuff := addr), D().env, data);
      var w := WriteOperation(ApWrite(TAR), addr, true);
      if w.Err? {
        return w;
      }
      var readback := ReadOperation(ApRead(TAR), true);
      if readback.Err? {
        return Err(readback.error);
      }
      if readback.value != addr {
        return Err(OperationFailed);
      }
      r := WriteOperation(ApWrite(DRW), data, true);
    }

    /** Setting TAR and reading it back, and reading one word from there. */
    static lemma TarEffects(f: MemAp, env: Env, addr: u32)
      ensures var g := WriteEffect(f, env, TAR, addr);
              && g == f.(tar := env.tarOf(addr))
              && ReadEffect(g, env, TAR) == g.(rdbuff := env.tarOf(addr))
      ensures var g := ReadEffect(f.(tar := addr, rdbuff := addr), env, DRW);
              && g.mem == f.mem && g.csw == f.csw
              && (!g.sticky ==> g.rdbuff == MemAt(f.mem, addr) && g.trace == f.trace + [Access(false, addr, true)])
      ensures env.Clean() ==> env.tarOf(addr) == addr
      ensures env.Clean() && !f.sticky ==> !ReadEffect(f.(tar := addr, rdbuff := addr), env, DRW).sticky
      ensures ReadEffect(f.(tar := env.tarOf(addr), rdbuff := env.tarOf(addr)), env, DRW).csw == f.csw
    {
    }

    /** Writing one word. */
    static lemma DrwEffects(f: MemAp, env: Env, v: u32)
      ensures var g := WriteEffect(f, env, DRW, v);
              && g.csw == f.csw && (!f.sticky ==> (g.sticky <==> env.bad(|f.trace|)))
              && g.mem == (if env.bad(|f.trace|) then f.mem else f.mem[f.tar := v])
    {
    }

    static lemma NoWrites(f: MemAp, env: Env, buf: seq<u32>)
      ensures WriteMany(f, env, buf[..0]) == f
    {
    }

    /** In the middle of a range read: `t` words read. */
    ghost predicate ReadSoFar(known: bool, f: MemAp, env: Env, addr: u32, t: nat)
      reads this, protocol
    {
      var g := D().Final();
      && Valid() && D().env == env && g.mem == f.mem && (t > 0 ==> IdleTail())
      && (known ==>
            && Ready() && g.csw == f.csw && AddrInc(f.csw) == ADDRINC_SINGLE && env.KeepsTar()
            && g.trace == f.trace + Accesses(false, addr, t)
            && (if t == 0 then g == f else !g.sticky && D().pending.None?))
    }

    /** One page's worth of a range read, from word `t` on. */
    method ReadChunk(current: u32, ghost addr: u32, buf: array<u32>, t: nat, chunk: nat, fast: bool, ghost known: bool, ghost f: MemAp)
      returns (r: BulkResult)
      requires 0 < chunk && t + chunk <= buf.Length && current == WordAddr(addr, t) && InPage(current, chunk)
      requires ReadSoFar(known, f, D().env, addr, t)
      modifies protocol, this`misbanked, this`dpSelect, buf
      ensures Valid() && D().env == old(D()).env && D().Final().mem == f.mem && !r.Panicked?
      ensures r.Done? ==> ReadSoFar(known, f, D().env, addr, t + chunk)
      ensures r.Failed? ==> t <= r.count <= t + chunk
      ensures var n := if r.Failed? then r.count else t + chunk;
              && (known ==> forall k | t <= k < n :: buf[k] == MemAt(f.mem, WordAddr(addr, k)))
              && (forall k | 0 <= k < t || n <= k < buf.Length :: buf[k] == old(buf[k]))
      ensures Unpowered() ==> r == Failed(NotReady, t) && D() == old(D())
      ensures known ==> D().Final().csw == f.csw && (D().env.Clean() && !f.sticky ==> r.Done?)
      ensures old(Elsewhere()) ==> Elsewhere() && Untouched(old(D()), D())
      ensures S() == if Unpowered() then old(S()) else InBankZero(old(D()), old(dpSelect), waitRetries)
      ensures r.Done? ==> dpSelect.apbank == 0
      ensures old(dpSelect).apbank == 0 ==> S() == old(S())
      ensures old(Ready()) ==> D().Final().csw == old(D()).Final().csw && (r.Done? ==> Ready())
    {
      hide MemAp.Perform, WordAddr, NextTar, ReadMany, InPage, AddrInc, ReadWord, Env.Clean, Env.Prompt, MemAt, UpdateTxn, BankTxn, InBank, InBankZero, AfterWrite, RegWriteTxn, RegReadTxn, Value, Sent, BankChecks;
      ghost var env := D().env;
      var w := WriteOperation(ApWrite(TAR), current, true);
      if w.Err? {
        return Failed(w.error, t);
      }
      ghost var g := D().Final();
      ghost var reached;
      var c;
      c, reached := ReadDrwBulk(buf, t, chunk, fast);
      ReadManyKeeps(g, env, reached);
      if known {
        if Stored(c, chunk) > 0 { Collected(g, env, chunk, Stored(c, chunk), addr, t); }
      }
      if c.Failed? {
        return Failed(c.error, t + c.count);
      }
      if known {
        ReadBurst(g, env, chunk);
        AccessesAdd(false, addr, t, chunk);
      }
      return Done;
    }

    /**
     Read `buf.Length` words from `addr`, page by page. Only whole words from a
     word-aligned address; a range that runs over the top of the address space
     goes on from zero. The words are memory's when the MEM-AP was ready and
     in single auto-increment.
     */
    method ReadMemBulk(addr: u32, buf: array<u32>, fast: bool) returns (r: BulkResult)
      requires Valid()
      modifies protocol, this`misbanked, this`dpSelect, buf
      ensures Valid() && D().env == old(D()).env && D().Final().mem == old(D()).Final().mem && !r.Panicked?
      ensures addr % 4 != 0 ==> r == Failed(Api, 0) && D() == old(D())
      ensures r.Failed? ==> r.count <= buf.Length && forall k | r.count <= k < buf.Length :: buf[k] == old(buf[k])
      ensures buf.Length == 0 ==> D() == old(D())
      ensures r.Done? && buf.Length > 0 ==> IdleTail()
      ensures Unpowered() && addr % 4 == 0 && buf.Length > 0 ==> r == Failed(NotReady, 0) && D() == old(D())
      ensures old(Ready()) && AddrInc(old(D()).Final().csw) == ADDRINC_SINGLE && D().env.KeepsTar() ==>
                && var f := old(D()).Final();
                && D().Final().csw == f.csw
                && (forall k | 0 <= k < Stored(r, buf.Length) :: buf[k] == MemAt(f.mem, WordAddr(addr, k)))
                && (r.Done? ==>
                      && Ready() && (buf.Length > 0 ==> !D().Final().sticky && D().pending.None?)
                      && D().Final().trace == f.trace + Accesses(false, addr, buf.Length))
                && (D().env.Clean() && !f.sticky && addr % 4 == 0 ==> r.Done?)
      ensures old(Elsewhere()) ==> Elsewhere() && Untouched(old(D()), D())
      ensures S() == if addr % 4 != 0 || buf.Length == 0 || Unpowered() then old(S()) else InBankZero(old(D()), old(dpSelect), waitRetries)
      ensures old(dpSelect).apbank == 0 ==> S() == old(S())
      ensures old(Ready()) ==> D().Final().csw == old(D()).Final().csw && (r.Done? ==> Ready())
    {
      hide MemAp.Perform, WordAddr, NextTar, InPage, AddrInc, Env.Clean, Env.Prompt, MemAt, UpdateTxn, BankTxn, InBank, InBankZero, AfterWrite, ChunkSize, NextAddr, RegWriteTxn, RegReadTxn, Value, BankChecks;
      if addr % 4 != 0 {
        return Failed(Api, 0);
      }
      ghost var f, env := D().Final(), D().env;
      ghost var known := Ready() && AddrInc(f.csw) == ADDRINC_SINGLE && env.KeepsTar();
      if dpSelect.apbank == 0 { StaysInBankZero(D(), dpSelect, waitRetries); }
      ghost var before, after := S(), InBankZero(D(), dpSelect, waitRetries);
      var totalRead := 0;
      var currentAddr: u32 := addr;
      StartOfRange(addr);
      assert f.trace + Accesses(false, addr, 0) == f.trace;
      while totalRead < buf.Length
        invariant old(Ready()) ==> Ready() && D().Final().csw == f.csw
        invariant old(Elsewhere()) ==> Elsewhere() && Untouched(old(D()), D())
        invariant 0 <= totalRead <= buf.Length
        invariant currentAddr == WordAddr(addr, totalRead) && currentAddr % 4 == 0
        invariant ReadSoFar(known, f, env, addr, totalRead) && (totalRead == 0 ==> D() == old(D()))
        invariant Unpowered() ==> totalRead == 0
        invariant if totalRead == 0 then S() == before else dpSelect.apbank == 0 && S() == after
        invariant known ==> forall k | 0 <= k < totalRead :: buf[k] == MemAt(f.mem, WordAddr(addr, k))
        invariant forall k | totalRead <= k < buf.Length :: buf[k] == old(buf[k])
      {
        var chunk := ChunkSize(currentAddr, buf.Length - totalRead);
        var c := ReadChunk(currentAddr, addr, buf, totalRead, chunk, fast, known, f);
        if c.Failed? {
          return c;
        }
        WordAddrAdd(addr, totalRead, chunk);
        NextChunk(currentAddr, chunk);
        currentAddr := NextAddr(currentAddr, chunk);
        totalRead := totalRead + chunk;
      }
      return Done;
    }

    static lemma StartOfRange(addr: u32)
      ensures WordAddr(addr, 0) == addr
    {
    }

    /** How many words the next piece of a transfer has: up to the end of the range or of the page. */
    static function ChunkSize(addr: u32, remaining: nat): (chunk: nat)
      ensures addr % 4 == 0 && remaining > 0 ==> 0 < chunk <= remaining && InPage(addr, chunk)
    {
      var maxWords := (PAGE - addr % PAGE) / 4;
      assert addr % 4 == 0 && remaining > 0 ==> maxWords > 0 && InPage(addr, if remaining < maxWords then remaining else maxWords) by {
        if addr % 4 == 0 && remaining > 0 { ChunkInPage(addr, remaining); }
      }
      if remaining < maxWords then remaining else maxWords
    }

    /** The address after `n` words. */
    static function NextAddr(addr: u32, n: nat): u32 { (addr + n * 4) % 0x1_0000_0000 }

    static lemma NextChunk(addr: u32, n: nat)
      ensures WordAddr(addr, n) == NextAddr(addr, n)
      ensures addr % 4 == 0 ==> WordAddr(addr, n) % 4 == 0
    {
    }

    /** The words a burst collected are the words of the range, from word `t` on. */
    static lemma Collected(g: MemAp, env: Env, chunk: nat, n: nat, addr: u32, t: nat)
      requires AddrInc(g.csw) == ADDRINC_SINGLE && InPage(g.tar, chunk) && n <= chunk
      requires g.tar == WordAddr(addr, t) && !ReadMany(g, env, n).sticky
      ensures forall k | t <= k < t + n :: ReadWord(g, env, k - t) == MemAt(g.mem, WordAddr(addr, k))
    {
      hide WordAddr, ReadWord, NextTar;
      BurstWords(g, env, n);
      forall k | t <= k < t + n
        ensures ReadWord(g, env, k - t) == MemAt(g.mem, WordAddr(addr, k))
      {
        WordAddrAdd(addr, t, k - t);
      }
    }

    /** In the middle of a range write: `t` words sent, the last of them perhaps still in flight. */
    ghost predicate Wrote(known: bool, f: MemAp, env: Env, addr: u32, buf: seq<u32>, t: nat)
      requires t <= |buf|
      reads this, protocol
    {
      var g := D().Final();
      && Valid() && D().env == env && (t > 0 ==> IdleTail())
      && (known ==>
            && Ready() && g.csw == f.csw && AddrInc(f.csw) == ADDRINC_SINGLE && env.KeepsTar()
            && g.mem == WriteWords(f.mem, addr, buf[..Landed(g.sticky, t)])
            && (!g.sticky ==> g.trace == f.trace + Accesses(true, addr, t))
            && (t > 0 ==> (g.sticky <==> env.bad(|f.trace| + t - 1)))
            && (t > 0 ==> (D().pending.None? ==> !g.sticky) && (env.Prompt() ==> D().pending.None?))
            && (env.Clean() && !f.sticky ==> !g.sticky))
    }

    /** A range write that failed counts `count` words and has `landed` of them in memory. */
    static ghost predicate Miscounted(f: MemAp, env: Env, count: nat, landed: nat) {
      && count <= landed + 1 && landed <= count + 1
      && (count <= landed <==> count == 0 || !env.bad(|f.trace| + count - 1))
      && (env.Prompt() ==> count <= landed)
    }

    /** TAR set for the chunk that starts at word `t`: the words before have landed. */
    ghost predicate AtChunk(known: bool, f: MemAp, env: Env, addr: u32, buf: seq<u32>, t: nat)
      requires t <= |buf|
      reads this, protocol
    {
      var g := D().Final();
      && Valid() && D().env == env
      && (known ==>
            && Ready() && !g.sticky && g.tar == WordAddr(addr, t)
            && g.csw == f.csw && AddrInc(f.csw) == ADDRINC_SINGLE && env.KeepsTar()
            && g.mem == WriteWords(f.mem, addr, buf[..t]) && g.trace == f.trace + Accesses(true, addr, t)
            && (t > 0 ==> !env.bad(|f.trace| + t - 1)))
    }

    /** One page's worth of a range write, from word `t` on. */
    method WriteChunk(current: u32, ghost addr: u32, buf: seq<u32>, t: nat, chunk: nat, fast: bool, ghost known: bool, ghost f: MemAp)
      returns (r: BulkResult, ghost landed: nat)
      requires 0 < chunk && t + chunk <= |buf| && current == WordAddr(addr, t) && InPage(current, chunk)
      requires Wrote(known, f, D().env, addr, buf, t)
      modifies protocol, this`misbanked, this`dpSelect
      ensures Valid() && D().env == old(D()).env && !r.Panicked? && landed <= |buf|
      ensures r.Done? ==> IdleTail()
      ensures r.Done? ==> Wrote(known, f, D().env, addr, buf, t + chunk)
      ensures r.Failed? ==> t <= r.count <= t + chunk
      ensures Unpowered() ==> r == Failed(NotReady, t) && D() == old(D())
      ensures known ==>
                && D().Final().mem == WriteWords(f.mem, addr, buf[..landed]) && D().Final().csw == f.csw
                && (r.Done? ==> landed == Landed(D().Final().sticky, t + chunk))
                && (r.Failed? ==> Miscounted(f, D().env, r.count, landed))
                && (D().env.Clean() && !f.sticky ==> r.Done?)
      ensures old(Elsewhere()) ==> Elsewhere() && Untouched(old(D()), D())
      ensures S() == if Unpowered() then old(S()) else InBankZero(old(D()), old(dpSelect), waitRetries)
      ensures r.Done? ==> dpSelect.apbank == 0
      ensures old(dpSelect).apbank == 0 ==> S() == old(S())
      ensures old(Ready()) ==> D().Final().csw == old(D()).Final().csw && (r.Done? ==> Ready())
    {
      hide MemAp.Perform, WordAddr, NextTar, WriteMany, InPage, WriteWords, Env.Clean, Env.Prompt, AddrInc, UpdateTxn, BankTxn, InBank, InBankZero, AfterWrite, RegWriteTxn, RegReadTxn, Value, Sent, BankChecks;
      landed := Landed(D().Final().sticky, t);
      var w := WriteOperation(ApWrite(TAR), current, true);
      if w.Err? {
        return Failed(w.error, t), landed;
      }
      r, landed := FillChunk(addr, buf, t, chunk, fast, known, f);
    }

    /** The words of one page's worth of a range write. */
    method FillChunk(ghost addr: u32, buf: seq<u32>, t: nat, chunk: nat, fast: bool, ghost known: bool, ghost f: MemAp)
      returns (r: BulkResult, ghost landed: nat)
      requires 0 < chunk && t + chunk <= |buf| && InPage(WordAddr(addr, t), chunk)
      requires AtChunk(known, f, D().env, addr, buf, t)
      modifies protocol, this`misbanked, this`dpSelect
      ensures Valid() && D().env == old(D()).env && !r.Panicked? && landed <= |buf|
      ensures r.Done? ==> Wrote(known, f, D().env, addr, buf, t + chunk)
      ensures r.Failed? ==> t <= r.count <= t + chunk
      ensures known ==>
                && D().Final().mem == WriteWords(f.mem, addr, buf[..landed]) && D().Final().csw == f.csw
                && (r.Done? ==> landed == Landed(D().Final().sticky, t + chunk))
                && (r.Failed? ==> Miscounted(f, D().env, r.count, landed))
                && (D().env.Clean() && !f.sticky ==> r.Done?)
      ensures old(Elsewhere()) ==> Elsewhere() && Untouched(old(D()), D())
      ensures S() == InBankZero(old(D()), old(dpSelect), waitRetries)
      ensures old(dpSelect).apbank == 0 ==> S() == old(S())
      ensures old(Ready()) ==> D().Final().csw == old(D()).Final().csw && (r.Done? ==> Ready())
    {
      hide MemAp.Perform, WordAddr, NextTar, WriteMany, InPage, WriteWords, Env.Clean, Env.Prompt, AddrInc, Accesses, UpdateTxn, BankTxn, InBank, InBankZero, AfterWrite, RegWriteTxn, RegReadTxn, Value, BankChecks;
      ghost var env := D().env;
      ghost var g := D().Final();
      ghost var reached;
      var piece := buf[t..t + chunk];
      r, reached := WriteDrwBulk(piece, fast);
      WriteManyKeeps(g, env, piece[..reached]);
      landed := t;
      if known {
        landed := AfterChunk(g, env, f, addr, buf, t, piece, reached, r);
        if env.Clean() && !f.sticky { WriteManyClean(g, env, piece[..reached]); }
      }
      if r.Failed? {
        return Failed(r.error, t + r.count), landed;
      }
    }

    /** What memory holds after a chunk, and how that compares with the count. */
    static lemma AfterChunk(g: MemAp, env: Env, f: MemAp, addr: u32, buf: seq<u32>, t: nat, piece: seq<u32>, reached: nat, r: BulkResult)
      returns (landed: nat)
      requires AddrInc(g.csw) == ADDRINC_SINGLE && InPage(g.tar, |piece|) && g.tar == WordAddr(addr, t) && !g.sticky
      requires t + |piece| <= |buf| && piece == buf[t..t + |piece|] && reached <= |piece| && g.csw == f.csw
      requires g.mem == WriteWords(f.mem, addr, buf[..t]) && g.trace == f.trace + Accesses(true, addr, t)
      requires t > 0 ==> !env.bad(|f.trace| + t - 1)
      requires reached > 0 ==> !WriteMany(g, env, piece[..reached - 1]).sticky
      requires r.Failed? ==> r.count <= reached <= r.count + 1
      requires r.Failed? && env.Prompt() && r.count > 0 ==> !WriteMany(g, env, piece[..r.count]).sticky
      ensures var h := WriteMany(g, env, piece[..reached]);
              && landed == t + Landed(h.sticky, reached) <= |buf|
              && h.mem == WriteWords(f.mem, addr, buf[..landed]) && h.csw == f.csw
              && (!h.sticky ==> h.trace == f.trace + Accesses(true, addr, t + reached))
              && (reached > 0 ==> (h.sticky <==> env.bad(|f.trace| + t + reached - 1)))
              && (r.Failed? ==> Miscounted(f, env, t + r.count, landed))
    {
      hide MemAp.Perform, WordAddr, NextTar, WriteMany, InPage, WriteWords, Env.Prompt, AddrInc;
      var h := WriteMany(g, env, piece[..reached]);
      landed := t + Landed(h.sticky, reached);
      ChunkLanded(g, env, f, addr, buf, t, piece, reached);
      LastAccess(g, env, f, addr, t, piece, reached);
      if reached == 0 { NoWrites(g, env, piece); }
      if r.Failed? { StickyCount(g, env, piece, reached, r.count); }
    }

    /**
     Write `buf` to the range at `addr`, page by page. `landed` words are in
     memory once the access in flight has run. Writes are posted: the last one
     sent can still fail after its error check, so on success that one is in
     doubt until `D().Final()` is known to be free of errors, and an error count
     may include it. A target that completes each access before the next
     packet leaves no such doubt.
     */
    method WriteMemBulk(addr: u32, buf: seq<u32>, fast: bool) returns (r: BulkResult, ghost landed: nat)
      requires Valid()
      modifies protocol, this`misbanked, this`dpSelect
      ensures Valid() && D().env == old(D()).env && !r.Panicked? && landed <= |buf|
      ensures addr % 4 != 0 ==> r == Failed(Api, 0) && landed == 0 && D() == old(D())
      ensures r.Failed? ==> r.count <= |buf|
      ensures r.Done? && buf != [] ==> IdleTail()
      ensures Unpowered() && addr % 4 == 0 && buf != [] ==> r == Failed(NotReady, 0) && D() == old(D())
      ensures old(Ready()) && AddrInc(old(D()).Final().csw) == ADDRINC_SINGLE && D().env.KeepsTar() ==>
                && var f := old(D()).Final();
                && D().Final().mem == WriteWords(f.mem, addr, buf[..landed]) && D().Final().csw == f.csw
                && (r.Done? ==>
                      && Wrote(true, f, D().env, addr, buf, |buf|)
                      && landed == Landed(D().Final().sticky, |buf|))
                && (r.Failed? ==> Miscounted(f, D().env, r.count, landed))
                && (D().env.Clean() && !f.sticky ==> !D().Final().sticky && (addr % 4 == 0 ==> r.Done?))
      ensures old(Elsewhere()) ==> Elsewhere() && Untouched(old(D()), D())
      ensures S() == if addr % 4 != 0 || buf == [] || Unpowered() then old(S()) else InBankZero(old(D()), old(dpSelect), waitRetries)
      ensures old(dpSelect).apbank == 0 ==> S() == old(S())
      ensures old(Ready()) ==> D().Final().csw == old(D()).Final().csw && (r.Done? ==> Ready())
    {
      hide MemAp.Perform, WordAddr, NextTar, InPage, AddrInc, WriteWords, Env.Clean, Env.Prompt, UpdateTxn, BankTxn, InBank, InBankZero, AfterWrite, Wrote, Landed, ChunkSize, NextAddr, RegWriteTxn, RegReadTxn, Value, BankChecks;
      ghost var f, env := D().Final(), D().env;
      ghost var known := Ready() && AddrInc(f.csw) == ADDRINC_SINGLE && env.KeepsTar();
      landed := 0;
      NothingWritten(f.mem, addr, buf);
      if addr % 4 != 0 {
        return Failed(Api, 0), 0;
      }
      if dpSelect.apbank == 0 { StaysInBankZero(D(), dpSelect, waitRetries); }
      ghost var before, after := S(), InBankZero(D(), dpSelect, waitRetries);
      var totalWritten := 0;
      var currentAddr: u32 := addr;
      StartOfRange(addr);
      assert f.trace + Accesses(true, addr, 0) == f.trace;
      WroteNothing(known, f, env, addr, buf);
      while totalWritten < |buf|
        invariant old(Ready()) ==> Ready() && D().Final().csw == f.csw
        invariant old(Elsewhere()) ==> Elsewhere() && Untouched(old(D()), D())
        invariant 0 <= totalWritten <= |buf| && landed <= |buf|
        invariant currentAddr == WordAddr(addr, totalWritten) && currentAddr % 4 == 0
        invariant D().env == env && Wrote(known, f, env, addr, buf, totalWritten)
        invariant Valid() && (totalWritten > 0 ==> IdleTail())
        invariant totalWritten == 0 ==> D() == old(D())
        invariant Unpowered() ==> totalWritten == 0
        invariant if totalWritten == 0 then S() == before else dpSelect.apbank == 0 && S() == after
        invariant known ==> landed == Landed(D().Final().sticky, totalWritten)
      {
        var chunk := ChunkSize(currentAddr, |buf| - totalWritten);
        var c;
        c, landed := WriteChunk(currentAddr, addr, buf, totalWritten, chunk, fast, known, f);
        if c.Failed? {
          return c, landed;
        }
        WordAddrAdd(addr, totalWritten, chunk);
        NextChunk(currentAddr, chunk);
        currentAddr := NextAddr(currentAddr, chunk);
        totalWritten := totalWritten + chunk;
      }
      assert buf[..|buf|] == buf;
      if known { WroteAll(f, env, addr, buf); }
      return Done, landed;
    }

    static lemma NoneMiscounted(f: MemAp, env: Env)
      ensures Miscounted(f, env, 0, 0)
    {
    }

    static lemma SameTrace(f: MemAp, g: MemAp, env: Env, count: nat, landed: nat)
      requires f.trace == g.trace
      ensures Miscounted(f, env, count, landed) == Miscounted(g, env, count, landed)
    {
    }

    lemma WroteNothing(known: bool, f: MemAp, env: Env, addr: u32, buf: seq<u32>)
      requires Valid() && D().env == env && D().Final() == f
      requires known ==> Ready() && AddrInc(f.csw) == ADDRINC_SINGLE && env.KeepsTar()
      ensures Landed(f.sticky, 0) == 0
      ensures WriteWords(f.mem, addr, buf[..0]) == f.mem
      ensures Wrote(known, f, env, addr, buf, 0)
    {
      hide MemAp.Perform, AddrInc, Env.Clean;
      assert f.trace + Accesses(true, addr, 0) == f.trace;
    }

    lemma WroteAll(f: MemAp, env: Env, addr: u32, buf: seq<u32>)
      requires Wrote(true, f, env, addr, buf, |buf|)
      ensures D().Final().csw == f.csw && Landed(D().Final().sticky, |buf|) <= |buf|
      ensures D().Final().mem == WriteWords(f.mem, addr, buf[..Landed(D().Final().sticky, |buf|)])
      ensures Miscounted(f, env, |buf|, Landed(D().Final().sticky, |buf|))
      ensures env.Clean() && !f.sticky ==> !D().Final().sticky
      ensures !D().Final().sticky ==> Landed(D().Final().sticky, |buf|) == |buf| && D().Final().trace == f.trace + Accesses(true, addr, |buf|)
    {
    }

    /** What a chunk adds to the words already landed. */
    static lemma ChunkLanded(g: MemAp, env: Env, f: MemAp, addr: u32, buf: seq<u32>, t: nat, piece: seq<u32>, reached: nat)
      requires AddrInc(g.csw) == ADDRINC_SINGLE && InPage(g.tar, |piece|) && g.tar == WordAddr(addr, t)
      requires t + |piece| <= |buf| && piece == buf[t..t + |piece|] && reached <= |piece|
      requires g.mem == WriteWords(f.mem, addr, buf[..t])
      requires reached > 0 ==> !WriteMany(g, env, piece[..reached - 1]).sticky
      ensures var h := WriteMany(g, env, piece[..reached]);
              && h.mem == WriteWords(f.mem, addr, buf[..t + Landed(h.sticky, reached)])
              && h.csw == g.csw
              && (!h.sticky && g.trace == f.trace + Accesses(true, addr, t) ==>
                    h.trace == f.trace + Accesses(true, addr, t + reached))
    {
      hide MemAp.Perform, WordAddr, NextTar, WriteMany, InPage, WriteWords;
      var vs := piece[..reached];
      if reached > 0 { assert vs[..reached - 1] == piece[..reached - 1]; }
      ShorterInPage(g.tar, |piece|, reached);
      WriteLanded(g, env, vs);
      var n := Landed(WriteMany(g, env, vs).sticky, reached);
      WriteWordsAdd(f.mem, addr, buf[..t], vs[..n]);
      Splice(buf, t, |piece|, reached, n);
      AccessesAdd(true, addr, t, reached);
    }

    static lemma Splice(buf: seq<u32>, t: nat, m: nat, reached: nat, n: nat)
      requires t + m <= |buf| && n <= reached <= m
      ensures buf[..t] + buf[t..t + m][..reached][..n] == buf[..t + n]
    {
    }

    static lemma NothingWritten(mem: Memory, addr: u32, buf: seq<u32>)
      ensures WriteWords(mem, addr, buf[..0]) == mem
    {
    }

    static lemma ShorterInPage(addr: u32, n: nat, m: nat)
      requires InPage(addr, n) && m <= n
      ensures InPage(addr, m)
    {
    }

    /** Which bus access decides about the last word sent, and that those before it went well. */
    static lemma LastAccess(g: MemAp, env: Env, f: MemAp, addr: u32, t: nat, piece: seq<u32>, reached: nat)
      requires reached <= |piece| && g.trace == f.trace + Accesses(true, addr, t)
      requires reached > 0 ==> !WriteMany(g, env, piece[..reached - 1]).sticky
      ensures reached > 0 ==> (WriteMany(g, env, piece[..reached]).sticky <==> env.bad(|f.trace| + t + reached - 1))
      ensures reached > 1 ==> !env.bad(|f.trace| + t + reached - 2)
    {
      hide MemAp.Perform, WriteMany;
      var vs := piece[..reached];
      WriteManyTrace(g, env, vs);
      if reached > 0 { assert vs[..reached - 1] == piece[..reached - 1]; }
      if reached > 1 {
        var ws := piece[..reached - 1];
        WriteManyTrace(g, env, ws);
        assert ws[..reached - 2] == piece[..reached - 2];
        NotStickyBefore(g, env, ws);
      }
    }

    static lemma NotStickyBefore(g: MemAp, env: Env, vs: seq<u32>)
      requires vs != [] && !WriteMany(g, env, vs).sticky
      ensures !WriteMany(g, env, vs[..|vs| - 1]).sticky
    {
    }

    /** With nothing left in flight, every counted word has landed. */
    static lemma StickyCount(g: MemAp, env: Env, vs: seq<u32>, reached: nat, count: nat)
      requires reached <= |vs| && count <= reached <= count + 1
      ensures (count > 0 ==> !WriteMany(g, env, vs[..count]).sticky) ==>
                count <= Landed(WriteMany(g, env, vs[..reached]).sticky, reached)
    {
    }

    /** Write ABORT. */
    method SetAbort(stkcmpclr: bool, stkerrclr: bool, wderrclr: bool, orunerrclr: bool) returns (r: Result<(), SwdError>)
      requires Valid()
      modifies protocol, this`misbanked
      ensures Valid() && S() == old(S())
      ensures (D(), r) == WriteTxn(old(D()), ABORT_WRITE, AbortWord(stkcmpclr, stkerrclr, wderrclr, orunerrclr), waitRetries)
      ensures r.Ok? ==> IdleTail()
    {
      WriteKeepsSelect(D(), ABORT_WRITE, AbortWord(stkcmpclr, stkerrclr, wderrclr, orunerrclr), waitRetries);
      r := DoWriteOp(DpWrite(ABORT), AbortWord(stkcmpclr, stkerrclr, wderrclr, orunerrclr), true);
    }

    /** Clear all error flags, and check that they are clear. */
    method ClearErrors() returns (r: Result<(), SwdError>)
      requires Valid()
      modifies protocol, this`misbanked
      ensures Valid() && S() == old(S()) && D().env == old(D()).env
      ensures D().writes in {old(D()).writes, old(D()).writes + [WriteRecord(ABORT_WRITE, D().select, 0x1E)]}
      ensures r.Ok? ==> IdleTail() && D().writes == old(D()).writes + [WriteRecord(ABORT_WRITE, D().select, 0x1E)]
      ensures r.Ok? && D().select.dpbank == 0 ==> !D().core.sticky
      ensures D().env.Clean() && D().select.dpbank == 0 ==> r.Ok? && !D().Final().sticky
    {
      hide ReadTxn, WriteTxn, CheckPasses;
      ghost var d := D();
      WriteTxnExactlyOnce(d, ABORT_WRITE, 0x1E, waitRetries);
      AbortClears(d, 0x1E, waitRetries);
      r := SetAbort(true, true, true, true);
      if r.Err? {
        return r;
      }
      ReadsWriteNothing(D(), CTRL_STAT_READ, waitRetries);
      r := CheckDpErrors(false);
    }

    /** Power the debug domain up. From here on SELECT is known. */
    method PowerUpDebugDomain() returns (r: Result<(), SwdError>)
      requires Valid()
      modifies protocol, this`misbanked, this`dpSelect, this`poweredUp
      ensures Valid() && D().env == old(D()).env
      ensures r.Ok? ==> Ready() && poweredUp && dpSelect == SELECT_DEFAULT && IdleTail()
      ensures r.Err? ==> poweredUp == old(poweredUp)
      ensures S() == SelectsOf(UpdateTxn(old(D()), old(dpSelect), SELECT_DEFAULT, waitRetries))
      ensures r.Ok? ==> PoweredUp(D()) && D().writes == old(D()).writes + PowerWrites(old(D()).select)
      ensures D().env.Clean() && !old(D()).Final().sticky ==> r.Ok?
    {
      hide ReadTxn, WriteTxn, MemAp.Perform, UpdateTxn, BankTxn, InBank, InBankZero, AfterWrite, SelectOf;
      hide RegWriteTxn, RegReadTxn, Sent, PoweredUp, Select.Word, CheckPasses;
      PowerRequestBits();
      UpdateSends(D(), dpSelect, SELECT_DEFAULT, waitRetries);
      r := UpdateDpSelect(SELECT_DEFAULT);
      if r.Err? {
        return r;
      }
      RequestsPower(D(), waitRetries);
      r := WriteOperation(DpWrite(CTRL_STAT), CDBGPWRUPREQ + CSYSPWRUPREQ, true);
      if r.Err? {
        return r;
      }
      ReadsPower(D(), waitRetries);
      var status := ReadOperation(DpRead(CTRL_STAT), true);
      if status.Err? {
        return Err(status.error);
      }
      if !CDbgPwrUpAck(status.value) || !CSysPwrUpAck(status.value) {
        return Err(OperationFailed);
      }
      poweredUp := true;
      return Ok(());
    }

    /** A raw DP read: whichever bank happens to be selected. */
    method ReadDpRegisterRaw(register: u8) returns (r: Result<u32, SwdError>)
      requires Valid()
      modifies protocol, this`misbanked, this`checkPower
      ensures Valid() && checkPower && D().env == old(D()).env
      ensures (D(), r) == ReadTxn(old(D()), HdrOf(DpRead(register)), waitRetries)
      ensures r.Ok? ==> IdleTail()
      ensures S() == old(S())
    {
      ReadKeepsSelect(D(), HdrOf(DpRead(register)), waitRetries);
      checkPower := false;
      r := DoReadOp(DpRead(register), true);
      checkPower := true;
    }

    /**
     A raw DP write. The shadow follows a write to address 0x08. Only A[3:2]
     goes out on the wire, so a write to 0x18, say, also lands in SELECT, and
     then the shadow is right only if the word happens to be the one it holds.
     */
    method WriteDpRegisterRaw(register: u8, value: u32) returns (r: Result<(), SwdError>)
      requires Valid()
      modifies protocol, this`misbanked, this`dpSelect, this`checkPower
      ensures Valid() && checkPower && D().env == old(D()).env
      ensures (D(), r) == WriteTxn(old(D()), HdrOf(DpWrite(register)), value, waitRetries)
      ensures S() == AfterRawWrite(old(D()), old(dpSelect), register, value, waitRetries)
      ensures r.Ok? ==> IdleTail()
      ensures r.Ok? && register == SELECT ==> ShadowRight() && dpSelect == SelectOf(value)
      ensures old(ShadowRight()) ==>
                (ShadowRight() <==> r.Err? || register / 4 % 4 != 2 || register == SELECT || SelectOf(value) == old(dpSelect))
    {
      hide MemAp.Perform, SelectOf;
      var h := HdrOf(DpWrite(register));
      if h.a == 2 {
        WriteSelectWord(D(), value, waitRetries);
      } else {
        WriteKeepsSelect(D(), h, value, waitRetries);
      }
      checkPower := false;
      r := DoWriteOp(DpWrite(register), value, true);
      if r.Err? {
        checkPower := true;
        return r;
      }
      if register == SELECT {
        dpSelect := SelectOf(value);
      }
      checkPower := true;
    }

    /** Select an AP and one of its banks, keeping the DP bank. */
    method SelectAp(apIndex: u8, register: u8) returns (r: Result<(), SwdError>)
      requires Valid()
      modifies protocol, this`misbanked, this`dpSelect
      ensures Valid() && D().env == old(D()).env && D().Final() == old(D()).Final()
      ensures r.Ok? ==>
                && dpSelect == old(dpSelect).SetApSel(apIndex).SetApBankSelFromAddr(register)
                && (old(ShadowRight()) ==> ShadowRight())
      ensures (D(), dpSelect, r.Ok?) == SelectApTxn(old(D()), old(dpSelect), apIndex, register, waitRetries)
      ensures D().env.Clean() && !D().Final().sticky && old(dpSelect).dpbank == 0 ==> r.Ok?
    {
      var select := dpSelect.SetApSel(apIndex).SetApBankSelFromAddr(register);
      if select == dpSelect {
        return Ok(());
      }
      r := UpdateDpSelect(select);
    }

    /**
     A raw AP read: AP and bank both selected from the arguments. The power
     check comes back on only after an error.
     */
    method ReadApRegisterRaw(apIndex: u8, register: u8) returns (r: Result<u32, SwdError>)
      requires Valid()
      modifies protocol, this`misbanked, this`dpSelect, this`checkPower
      ensures Valid() && D().env == old(D()).env && checkPower == r.Err?
      ensures r.Ok? ==>
                && IdleTail()
                && (old(ShadowRight()) ==> ShadowRight() && D().select.apsel == apIndex && D().select.apbank == register / 0x10)
      ensures r.Ok? && old(ShadowRight()) && apIndex == 0 && register in {CSW, TAR, DRW} ==>
                var g := ReadEffect(old(D()).Final(), D().env, register);
                D().Final() == g && !g.sticky && r.value == g.rdbuff
      ensures S() == SelectsOf(SelectApTxn(old(D()), old(dpSelect), apIndex, register, waitRetries))
      ensures (D(), dpSelect, Value(r)) == RawApReadTxn(old(D()), old(dpSelect), apIndex, register, waitRetries)
    {
      hide MemAp.Perform, ReadTxn, WriteTxn, UpdateTxn, CheckPasses, SelectApTxn;
      checkPower := false;
      var u := SelectAp(apIndex, register);
      if u.Err? {
        checkPower := true;
        return Err(u.error);
      }
      ReadKeepsSelect(D(), HdrOf(ApRead(register)), waitRetries);
      if ShadowRight() && apIndex == 0 && register in {CSW, TAR, DRW} {
        ReadMemApRegister(D(), register, waitRetries);
      }
      r := DoReadOp(ApRead(register), false);
      if r.Err? {
        checkPower := true;
        return r;
      }
      ReadRdBuff(D(), waitRetries);
      r := DoReadOp(DpRead(RDBUFF), true);
      if r.Err? {
        checkPower := true;
      }
    }

    /** A raw AP write. No error check follows it. */
    method WriteApRegisterRaw(apIndex: u8, register: u8, value: u32) returns (r: Result<(), SwdError>)
      requires Valid()
      modifies protocol, this`misbanked, this`dpSelect, this`checkPower
      ensures Valid() && D().env == old(D()).env && checkPower == r.Err?
      ensures r.Ok? ==>
                && IdleTail()
                && (old(ShadowRight()) ==> ShadowRight() && D().select.apsel == apIndex && D().select.apbank == register / 0x10)
      ensures r.Ok? && old(ShadowRight()) && apIndex == 0 && register in {CSW, TAR, DRW} ==>
                D().Final() == WriteEffect(old(D()).Final(), D().env, register, value)
      ensures S() == SelectsOf(SelectApTxn(old(D()), old(dpSelect), apIndex, register, waitRetries))
      ensures (D(), dpSelect, r.Ok?) == RawApWriteTxn(old(D()), old(dpSelect), apIndex, register, value, waitRetries)
      ensures RawSent(old(D()), old(dpSelect), apIndex, register, value, D(), r.Ok?)
    {
      hide MemAp.Perform, ReadTxn, WriteTxn, UpdateTxn, CheckPasses, SelectApTxn;
      RawApWriteSends(D(), dpSelect, apIndex, register, value, waitRetries);
      checkPower := false;
      var u := SelectAp(apIndex, register);
      if u.Err? {
        checkPower := true;
        return Err(u.error);
      }
      WriteKeepsSelect(D(), HdrOf(ApWrite(register)), value, waitRetries);
      if ShadowRight() && apIndex == 0 && register in {CSW, TAR, DRW} {
        WriteMemApRegister(D(), register, value, waitRetries);
      }
      r := DoWriteOp(ApWrite(register), value, true);
      if r.Err? {
        checkPower := true;
      }
    }

    /**
     A raw bulk read. The register only chooses the bank selected first: what
     is then read is DRW, so from AP 0 it is memory at TAR, whatever register
     was asked for.
     */
    method ReadApRegisterRawBulk(apIndex: u8, register: u8, buf: array<u32>) returns (r: BulkResult, ghost reached: nat)
      requires Valid()
      modifies protocol, this`misbanked, this`dpSelect, this`checkPower, buf
      ensures Valid() && D().env == old(D()).env && D().Final().mem == old(D()).Final().mem && checkPower == r.Failed?
      ensures r.Panicked? ==> buf.Length == 0
      ensures r.Done? ==> buf.Length > 0 && IdleTail()
      ensures r.Failed? ==> r.count <= buf.Length && forall k | r.count <= k < buf.Length :: buf[k] == old(buf[k])
      ensures old(ShadowRight()) && old(dpSelect).dpbank == 0 && apIndex == 0 ==>
                && var f := old(D()).Final();
                && D().Final() == ReadMany(f, D().env, reached)
                && (r.Done? ==> reached == buf.Length && !D().Final().sticky)
                && (forall k | 0 <= k < Stored(r, buf.Length) :: buf[k] == ReadWord(f, D().env, k))
                && (D().env.Clean() && !f.sticky ==> if buf.Length == 0 then r.Panicked? else r.Done?)
      ensures S() == AfterRawBulk(old(D()), old(dpSelect), apIndex, register, waitRetries)
    {
      hide MemAp.Perform, ReadTxn, WriteTxn, ReadMany, ReadWord, SelectApTxn, UpdateTxn, BankTxn, InBank, InBankZero, CheckPasses;
      checkPower := false;
      reached := 0;
      NothingRead(D().Final(), D().env);
      var u := SelectAp(apIndex, register);
      if u.Err? {
        checkPower := true;
        return Failed(u.error, 0), 0;
      }
      r, reached := ReadDrwBulk(buf, 0, buf.Length, true);
      if r.Failed? {
        checkPower := true;
      }
    }

    static lemma NothingRead(f: MemAp, env: Env)
      ensures ReadMany(f, env, 0) == f
    {
    }

    /** A raw bulk write: as many DRW writes, whatever register was asked for. */
    method WriteApRegisterRawBulk(apIndex: u8, register: u8, buf: seq<u32>) returns (r: BulkResult, ghost reached: nat)
      requires Valid()
      modifies protocol, this`misbanked, this`dpSelect, this`checkPower
      ensures Valid() && D().env == old(D()).env && checkPower == r.Failed? && !r.Panicked?
      ensures reached <= |buf| && (r.Done? ==> reached == |buf|) && (r.Failed? ==> r.count <= reached <= r.count + 1)
      ensures r.Done? && buf != [] ==> IdleTail()
      ensures old(ShadowRight()) && old(dpSelect).dpbank == 0 && apIndex == 0 ==>
                && var f := old(D()).Final();
                && D().Final() == WriteMany(f, D().env, buf[..reached])
                && (reached > 0 ==> !WriteMany(f, D().env, buf[..reached - 1]).sticky)
                && (D().env.Clean() && !f.sticky ==> r.Done?)
      ensures S() == if buf == [] then SelectsOf(SelectApTxn(old(D()), old(dpSelect), apIndex, register, waitRetries))
                     else AfterRawBulk(old(D()), old(dpSelect), apIndex, register, waitRetries)
    {
      hide MemAp.Perform, ReadTxn, WriteTxn, WriteMany, SelectApTxn, UpdateTxn, BankTxn, InBank, InBankZero, CheckPasses;
      checkPower := false;
      reached := 0;
      NoWrites(D().Final(), D().env, buf);
      var u := SelectAp(apIndex, register);
      if u.Err? {
        checkPower := true;
        return Failed(u.error, 0), 0;
      }
      r, reached := WriteDrwBulk(buf, true);
      if r.Failed? {
        checkPower := true;
      }
    }
  }
}
