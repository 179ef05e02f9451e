/**
 What single requests do to the target, seen through `Final()`: the AP state
 once the access in flight has run. In that view posted accesses look
 sequential.
 */
module Transfers {
  import opened Wrappers
  import opened Bits
  import opened Registers
  import opened DebugPort

  const DRW_READ := Hdr(true, true, 3)
  const DRW_WRITE := Hdr(true, false, 3)
  const RDBUFF_READ := Hdr(false, true, 3)
  const CTRL_STAT_READ := Hdr(false, true, 1)
  const SELECT_WRITE := Hdr(false, false, 2)

  /** AP 0, and the DP bank that holds CTRL/STAT. */
  predicate MemApSelected(select: Select) { select.apsel == 0 && select.dpbank == 0 }

  /**
   From here a memory call works on AP 0 with its checks in DP bank 0: both
   are selected, or the AP bank is a wrong one. The SELECT word that puts the
   bank right is built from zero, and so puts them right too.
   */
  predicate LeadsToMemAp(select: Select) { MemApSelected(select) || select.apbank != 0 }

  /** The effect of an accepted AP read, start to finish. */
  function ReadEffect(f: MemAp, env: Env, reg: u8): MemAp
    requires reg == CSW || reg == TAR || reg == DRW
  {
    f.Perform(env, if reg == CSW then ReadCsw else if reg == TAR then ReadTar else ReadDrw)
  }

  /** The effect of an accepted AP write, start to finish. */
  function WriteEffect(f: MemAp, env: Env, reg: u8, v: u32): MemAp
    requires reg == CSW || reg == TAR || reg == DRW
  {
    if reg == CSW then f.(csw := env.cswOf(v)) else if reg == TAR then f.(tar := env.tarOf(v)) else f.Perform(env, WriteDrw(v))
  }

  lemma EffectsClean(f: MemAp, env: Env, reg: u8, v: u32)
    requires reg == CSW || reg == TAR || reg == DRW
    ensures env.Clean() && !f.sticky ==> !ReadEffect(f, env, reg).sticky && !WriteEffect(f, env, reg, v).sticky
    ensures ReadEffect(f, env, reg).mem == f.mem
  {
  }

  /** A request that has to wait for the AP is only accepted once the AP is idle and free of errors. */
  lemma Accepted(d: Dap, h: Hdr, retries: nat)
    requires h.ap || h == RDBUFF_READ
    ensures var d0 := Retry(d, h, retries);
            var (w, ack) := d0.Arrive(h);
            && (ack == AckOk ==>
                  && !d.Final().sticky
                  && w == d.(core := d.Final(), pending := None, log := w.log, readok := w.readok)
                  && (h.read ==> w.readok))
            && (ack != AckOk ==> Idles(d, w))
            && (d.env.Clean() && !d.Final().sticky ==> ack == AckOk)
  {
    RetryOnlyWaits(d, h, retries);
    var d0 := Retry(d, h, retries);
    ArriveIdles(d0, h);
    IdlesTrans(d, d0, d0.Arrive(h).0);
  }

  lemma ReadMemApRegister(d: Dap, reg: u8, retries: nat)
    requires reg == CSW || reg == TAR || reg == DRW
    requires d.select.apsel == 0 && d.select.apbank == 0
    ensures var (d', r) := ReadTxn(d, Hdr(true, true, reg / 4), retries);
            && d'.env == d.env && d'.select == d.select && |d'.log| > |d.log|
            && (r.Ok? ==> !d.Final().sticky && d'.readok && r.value == d.Final().rdbuff
                          && d'.Final() == ReadEffect(d.Final(), d.env, reg))
            && (r.Err? ==> Idles(d, d'))
            && (d.env.Clean() && !d.Final().sticky ==> r.Ok?)
  {
    var h := Hdr(true, true, reg / 4);
    Accepted(d, h, retries);
    RetryOnlyWaits(d, h, retries);
  }

  lemma WriteMemApRegister(d: Dap, reg: u8, v: u32, retries: nat)
    requires reg == CSW || reg == TAR || reg == DRW
    requires d.select.apsel == 0 && d.select.apbank == 0
    ensures var (d', r) := WriteTxn(d, Hdr(true, false, reg / 4), v, retries);
            && d'.env == d.env && d'.select == d.select
            && (r.Ok? ==> !d.Final().sticky && d'.Final() == WriteEffect(d.Final(), d.env, reg, v)
                          && d'.core == d.Final() && d'.pending.Some? && (reg == DRW ==> d'.pending == Some(WriteDrw(v))))
            && (r.Err? ==> Idles(d, d'))
            && (d.env.Clean() && !d.Final().sticky ==> r.Ok?)
  {
    var h := Hdr(true, false, reg / 4);
    Accepted(d, h, retries);
    RetryOnlyWaits(d, h, retries);
    PostsWrite(Retry(d, h, retries).Arrive(h).0, reg, v);
    EffectsClean(d.Final(), d.env, reg, v);
    hide WriteEffect, MemAp.Perform, Dap.AfterWrite, Retry;
  }

  /** An accepted write to a MEM-AP register is in flight. */
  lemma PostsWrite(w: Dap, reg: u8, v: u32)
    requires reg == CSW || reg == TAR || reg == DRW
    requires w.select.apsel == 0 && w.select.apbank == 0
    ensures var x := w.AfterWrite(Hdr(true, false, reg / 4), v);
            && x.env == w.env && x.select == w.select && x.core == w.core
            && x.pending.Some? && (reg == DRW ==> x.pending == Some(WriteDrw(v)))
            && x.Final() == WriteEffect(w.core, w.env, reg, v)
  {
  }

  /** Only a write to SELECT changes SELECT. */
  lemma WriteKeepsSelect(d: Dap, h: Hdr, v: u32, retries: nat)
    requires h.ap || h.a != 2
    ensures var d' := WriteTxn(d, h, v, retries).0;
            d'.env == d.env && d'.select == d.select
  {
    RetryOnlyWaits(d, h, retries);
  }

  lemma CarriedKeeps(w: Dap, h: Hdr, v: u32)
    requires h.ap && h.a % 4 != 3
    ensures w.pending.None? ==> w.AfterWrite(h, v).Final().mem == w.core.mem
  {
  }

  /** Only a DRW write can change memory, whatever SELECT holds. */
  lemma WriteKeepsMemory(d: Dap, h: Hdr, v: u32, retries: nat)
    requires !h.ap || h.a % 4 != 3
    ensures WriteTxn(d, h, v, retries).0.Final().mem == d.Final().mem
  {
    hide SelectOf;
    if h.ap {
      Accepted(d, h, retries);
      RetryOnlyWaits(d, h, retries);
      CarriedKeeps(Retry(d, h, retries).Arrive(h).0, h, v);
      hide Dap.Arrive, Retry, Dap.AfterWrite, MemAp.Perform;
    } else {
      RetryOnlyWaits(d, h, retries);
      ArriveIdles(Retry(d, h, retries), h);
      var w := Retry(d, h, retries).Arrive(h).0;
      if w.pending.Some? { AbortKeepsMemory(w.core, w.env, w.pending.value); }
      hide MemAp.Perform, Dap.Arrive, Retry;
    }
  }

  lemma ReadKeepsMemory(d: Dap, h: Hdr, retries: nat)
    ensures ReadTxn(d, h, retries).0.Final().mem == d.Final().mem
  {
    RetryOnlyWaits(d, h, retries);
    ArriveIdles(Retry(d, h, retries), h);
    if h.ap { Accepted(d, h, retries); }
  }

  lemma ReadKeepsSelect(d: Dap, h: Hdr, retries: nat)
    ensures var d' := ReadTxn(d, h, retries).0;
            d'.env == d.env && d'.select == d.select
  {
    RetryOnlyWaits(d, h, retries);
  }

  /** No word of memory was accessed. */
  ghost predicate Untouched(d: Dap, d': Dap) { d'.Final().mem == d.Final().mem && d'.Final().trace == d.Final().trace }

  lemma ReadAway(d: Dap, h: Hdr, retries: nat)
    requires d.select.apsel != 0 && h.a < 4
    ensures var d' := ReadTxn(d, h, retries).0;
            d'.select == d.select && Untouched(d, d')
  {
    RetryOnlyWaits(d, h, retries);
    ArriveIdles(Retry(d, h, retries), h);
    if h.ap { Accepted(d, h, retries); }
  }

  lemma WriteAway(d: Dap, h: Hdr, v: u32, retries: nat)
    requires d.select.apsel != 0 && h.a < 4 && (h.ap || h.a != 2)
    ensures var d' := WriteTxn(d, h, v, retries).0;
            d'.select == d.select && Untouched(d, d')
  {
    hide SelectOf;
    WriteKeepsSelect(d, h, v, retries);
    if h.ap {
      Accepted(d, h, retries);
      var (w, ack) := Retry(d, h, retries).Arrive(h);
      assert w.Register(h) >= 0x100 && w.Carried(h, v) == w;
    } else {
      RetryOnlyWaits(d, h, retries);
      ArriveIdles(Retry(d, h, retries), h);
      var w := Retry(d, h, retries).Arrive(h).0;
      if w.pending.Some? { AbortKeepsMemory(w.core, w.env, w.pending.value); }
      hide MemAp.Perform, Dap.Arrive, Retry;
    }
  }

  lemma AbortKeepsMemory(f: MemAp, env: Env, request: Request)
    ensures var (g, h) := (f.Perform(env, request), f.(sticky := false).Perform(env, request));
            g.mem == h.mem && g.trace == h.trace
  {
  }

  lemma ReadRdBuff(d: Dap, retries: nat)
    ensures var (d', r) := ReadTxn(d, RDBUFF_READ, retries);
            && Idles(d, d')
            && (r.Ok? ==> !d.Final().sticky && d'.readok && r.value == d.Final().rdbuff
                          && d'.core == d.Final() && d'.pending.None?)
            && (d.env.Clean() && !d.Final().sticky ==> r.Ok?)
  {
    Accepted(d, RDBUFF_READ, retries);
    RetryOnlyWaits(d, RDBUFF_READ, retries);
    var d0 := Retry(d, RDBUFF_READ, retries);
    ArriveIdles(d0, RDBUFF_READ);
    IdlesTrans(d, d0, d0.Arrive(RDBUFF_READ).0);
  }

  /** CTRL/STAT reports the sticky flag as it stands, without waiting for the access in flight. */
  lemma ReadStatus(d: Dap, retries: nat)
    ensures var (d', r) := ReadTxn(d, CTRL_STAT_READ, retries);
            && Idles(d, d')
            && d'.readok == d.readok
            && (r.Ok? && d.select.dpbank == 0 ==> r.value == d'.CtrlStat())
            && (d.env.Prompt() ==> d'.pending.None?)
            && (d.env.Clean() ==> r.Ok?)
  {
    RetryOnlyWaits(d, CTRL_STAT_READ, retries);
    RetryKeepsReadOk(d, CTRL_STAT_READ, retries);
    var d0 := Retry(d, CTRL_STAT_READ, retries);
    ArriveIdles(d0, CTRL_STAT_READ);
    IdlesTrans(d, d0, d0.Arrive(CTRL_STAT_READ).0);
  }

  lemma {:induction false} RetryKeepsReadOk(d: Dap, h: Hdr, retries: nat)
    requires !h.ap && h.a != 3
    ensures Retry(d, h, retries).readok == d.readok
    decreases retries
  {
    var (a, ack) := d.Arrive(h);
    if ack != AckWait || retries == 0 {
    } else {
      RetryKeepsReadOk(a, h, retries - 1);
    }
  }

  lemma StatusMeans(d: Dap)
    ensures HasErrors(d.CtrlStat()) == d.core.sticky
    ensures ReadOk(d.CtrlStat()) == d.readok
    ensures CDbgPwrUpAck(d.CtrlStat()) == (d.power.debug && d.env.debugUp(|d.log|))
    ensures CSysPwrUpAck(d.CtrlStat()) == (d.power.system && d.env.systemUp(|d.log|))
  {
  }

  /** The error check, as far as the host can tell: address 4 reads without an error flag, and with READOK if asked. */
  predicate CheckPasses(d: Dap, checkReadOk: bool, retries: nat) {
    var r := ReadTxn(d, CTRL_STAT_READ, retries).1;
    r.Ok? && !HasErrors(r.value) && (checkReadOk ==> ReadOk(r.value))
  }

  lemma WriteSelect(d: Dap, v: Select, retries: nat)
    ensures var (d', r) := WriteTxn(d, SELECT_WRITE, v.Word(), retries);
            && d'.env == d.env && d'.Final() == d.Final() && |d'.log| > |d.log|
            && (r.Ok? ==> d'.select == v && !d'.core.sticky)
            && (r.Err? ==> d'.select == d.select)
            && (d.env.Clean() && !d.Final().sticky ==> r.Ok?)
  {
    hide SelectOf, Select.Word, WriteTxn;
    SelectFields(v, 0);
    WriteSelectWord(d, v.Word(), retries);
  }

  lemma WriteSelectWord(d: Dap, w: u32, retries: nat)
    ensures var (d', r) := WriteTxn(d, SELECT_WRITE, w, retries);
            && d'.env == d.env && d'.Final() == d.Final() && |d'.log| > |d.log|
            && (r.Ok? ==> d'.select == SelectOf(w) && !d'.core.sticky)
            && (r.Err? ==> d'.select == d.select)
            && (d.env.Clean() && !d.Final().sticky ==> r.Ok?)
  {
    hide SelectOf;
    RetryOnlyWaits(d, SELECT_WRITE, retries);
    var d0 := Retry(d, SELECT_WRITE, retries);
    ArriveIdles(d0, SELECT_WRITE);
    IdlesTrans(d, d0, d0.Arrive(SELECT_WRITE).0);
  }

  /** SELECT as the probe remembers it and as the target holds it. */
  datatype Selects = Selects(shadow: Select, actual: Select)
  {
    predicate Right() { shadow == actual }
  }

  /** A SELECT update: the target and the shadow after it, and whether it succeeded. */
  function UpdateTxn(d: Dap, shadow: Select, want: Select, retries: nat): (Dap, Select, bool) {
    var (d1, r) := WriteTxn(d, SELECT_WRITE, want.Word(), retries);
    if r.Err? then (d1, shadow, false)
    else
      var passes := CheckPasses(d1, false, retries);
      (ReadTxn(d1, CTRL_STAT_READ, retries).0, if passes then want else shadow, passes)
  }

  /** Putting the bank of an operation right. */
  function BankTxn(d: Dap, shadow: Select, op: SwdOp, retries: nat): (Dap, Select, bool) {
    if !op.NeedsBank() || op.CheckDpSelect(shadow) then (d, shadow, true) else UpdateTxn(d, shadow, op.NewSelect(), retries)
  }

  /** Selecting an AP and one of its banks. */
  function SelectApTxn(d: Dap, shadow: Select, ap: u8, register: u8, retries: nat): (Dap, Select, bool) {
    var want := shadow.SetApSel(ap).SetApBankSelFromAddr(register);
    if want == shadow then (d, shadow, true) else UpdateTxn(d, shadow, want, retries)
  }

  function SelectsOf(p: (Dap, Select, bool)): Selects { Selects(p.1, p.0.select) }

  /** SELECT after a call whose only SELECT write is the one that puts the bank right. */
  function InBank(d: Dap, shadow: Select, op: SwdOp, retries: nat): Selects { SelectsOf(BankTxn(d, shadow, op, retries)) }

  /** SELECT after a call to the MEM-AP's registers: all are in bank 0. */
  function InBankZero(d: Dap, shadow: Select, retries: nat): Selects { InBank(d, shadow, ApRead(CSW), retries) }

  lemma AllInBankZero(d: Dap, shadow: Select, op: SwdOp, retries: nat)
    requires op.IsAp() && op.addr < 0x10
    ensures BankTxn(d, shadow, op, retries) == BankTxn(d, shadow, ApRead(CSW), retries)
    ensures InBank(d, shadow, op, retries) == InBankZero(d, shadow, retries)
  {
    hide UpdateTxn;
  }

  /** With bank 0 selected nothing is sent. */
  lemma StaysInBankZero(d: Dap, shadow: Select, retries: nat)
    requires shadow.apbank == 0
    ensures InBankZero(d, shadow, retries) == Selects(shadow, d.select)
  {
    hide UpdateTxn;
  }

  /** SELECT after a raw bulk call: AP and bank from the arguments, and then DRW's bank. */
  function AfterRawBulk(d: Dap, shadow: Select, ap: u8, register: u8, retries: nat): Selects {
    var (d0, s, ok) := SelectApTxn(d, shadow, ap, register, retries);
    if ok then InBankZero(d0, s, retries) else Selects(s, d0.select)
  }

  /** SELECT after a register write that may reach SELECT past the shadow. */
  function AfterWrite(d: Dap, shadow: Select, op: SwdOp, data: u32, retries: nat): Selects {
    var (d0, s, ok) := BankTxn(d, shadow, op, retries);
    if ok && HdrOf(op) == SELECT_WRITE && WriteTxn(d0, SELECT_WRITE, data, retries).1.Ok?
    then Selects(s, SelectOf(data)) else Selects(s, d0.select)
  }

  /** A typed register write: bank, write, error check. The target, the shadow, and whether it succeeded. */
  function RegWriteTxn(d: Dap, shadow: Select, op: SwdOp, data: u32, retries: nat): (Dap, Select, bool) {
    var (d0, s, ok) := BankTxn(d, shadow, op, retries);
    if !ok then (d0, s, false) else
    var (d', passes) := Checked(WriteTxn(d0, HdrOf(op), data, retries), retries);
    (d', s, passes)
  }

  /** A write and the error check after it. */
  function Checked(write: (Dap, Result<(), SwdError>), retries: nat): (Dap, bool) {
    if write.1.Err? then (write.0, false)
    else (ReadTxn(write.0, CTRL_STAT_READ, retries).0, CheckPasses(write.0, false, retries))
  }

  /** The check after an AP read, and its result. */
  function Fetched(d: Dap, retries: nat): (Dap, Option<u32>) {
    var d' := ReadTxn(d, CTRL_STAT_READ, retries).0;
    if !CheckPasses(d, true, retries) then (d', None) else
    var (d'', v) := ReadTxn(d', RDBUFF_READ, retries);
    (d'', if v.Ok? then Some(v.value) else None)
  }

  /** A typed register read: bank and read, and for an AP register the check and its result from RDBUFF. */
  function RegReadTxn(d: Dap, shadow: Select, op: SwdOp, retries: nat): (Dap, Select, Option<u32>) {
    var (d0, s, ok) := BankTxn(d, shadow, op, retries);
    if !ok then (d0, s, None) else
    var (d1, r) := ReadTxn(d0, HdrOf(op), retries);
    if r.Err? then (d1, s, None)
    else if !op.IsAp() then (d1, s, Some(r.value))
    else
      var (d2, v) := Fetched(d1, retries);
      (d2, s, v)
  }

  /** A raw AP read: AP and bank, read, and its result from RDBUFF. */
  function RawApReadTxn(d: Dap, shadow: Select, ap: u8, register: u8, retries: nat): (Dap, Select, Option<u32>) {
    var (d0, s, ok) := SelectApTxn(d, shadow, ap, register, retries);
    if !ok then (d0, s, None) else
    var (d1, r) := ReadTxn(d0, HdrOf(ApRead(register)), retries);
    if r.Err? then (d1, s, None) else
    var (d2, v) := ReadTxn(d1, RDBUFF_READ, retries);
    (d2, s, if v.Ok? then Some(v.value) else None)
  }

  /** A raw AP write: AP and bank, write. */
  function RawApWriteTxn(d: Dap, shadow: Select, ap: u8, register: u8, v: u32, retries: nat): (Dap, Select, bool) {
    var (d0, s, ok) := SelectApTxn(d, shadow, ap, register, retries);
    if !ok then (d0, s, false) else
    var (d1, r) := WriteTxn(d0, HdrOf(ApWrite(register)), v, retries);
    (d1, s, r.Ok?)
  }

  /** Reads write nothing, and only accepted reads of CTRL/STAT's address count as checks. */
  lemma ReadsWriteNothing(d: Dap, h: Hdr, retries: nat)
    ensures var (d', r) := ReadTxn(d, h, retries);
            && d'.writes == d.writes && d'.power == d.power
            && d'.checks == d.checks + if r.Ok? && !h.ap && h.a == 1 then 1 else 0
  {
    RetryOnlyWaits(d, h, retries);
    ArriveIdles(Retry(d, h, retries), h);
  }

  /** What a SELECT update writes: the word, once, if it is acknowledged. */
  lemma UpdateSends(d: Dap, shadow: Select, want: Select, retries: nat)
    ensures var (d', s, ok) := UpdateTxn(d, shadow, want, retries);
            var all := d.writes + [WriteRecord(SELECT_WRITE, d.select, want.Word())];
            && (ok ==> d'.writes == all && d'.select == want && s == want && d'.checks == d.checks + 1)
            && (!ok ==> d'.writes in {d.writes, all})
  {
    hide ReadTxn, WriteTxn, Select.Word, CheckPasses;
    WriteSends(d, SELECT_WRITE, want.Word(), retries);
    WriteSelect(d, want, retries);
    var d1 := WriteTxn(d, SELECT_WRITE, want.Word(), retries).0;
    CheckKeeps(d1, retries);
    ReadKeepsSelect(d1, CTRL_STAT_READ, retries);
  }

  /** The SELECT write that puts the bank of an operation right, if it is wrong. */
  function BankWrite(d: Dap, shadow: Select, op: SwdOp): seq<WriteRecord> {
    if !op.NeedsBank() || op.CheckDpSelect(shadow) then [] else [WriteRecord(SELECT_WRITE, d.select, op.NewSelect().Word())]
  }

  /** The error checks that come with it. */
  function BankChecks(shadow: Select, op: SwdOp): nat { if !op.NeedsBank() || op.CheckDpSelect(shadow) then 0 else 1 }

  /** SELECT when the operation itself is sent. */
  function BankUsed(d: Dap, shadow: Select, op: SwdOp): Select {
    if !op.NeedsBank() || op.CheckDpSelect(shadow) then d.select else op.NewSelect()
  }

  /**
   What a typed register write sends: the bank if it is wrong, and then its
   word to its own register, each accepted once at most, in that order, and
   both when it succeeds.
   */
  lemma RegWriteSends(d: Dap, shadow: Select, op: SwdOp, data: u32, retries: nat)
    ensures var (d', s, ok) := RegWriteTxn(d, shadow, op, data, retries);
            Sent(d, shadow, op, data, d', ok)
  {
    hide ReadTxn, WriteTxn, Select.Word, CheckPasses, UpdateTxn;
    UpdateSends(d, shadow, op.NewSelect(), retries);
    var d0 := BankTxn(d, shadow, op, retries).0;
    WriteSends(d0, HdrOf(op), data, retries);
    var d1 := WriteTxn(d0, HdrOf(op), data, retries).0;
    CheckKeeps(d1, retries);
    assert d0.writes + [] == d0.writes;
  }

  /** What a typed register write has sent by its end. */
  ghost predicate Sent(d: Dap, shadow: Select, op: SwdOp, data: u32, d': Dap, ok: bool) {
    var all := d.writes + BankWrite(d, shadow, op) + [WriteRecord(HdrOf(op), BankUsed(d, shadow, op), data)];
    && d.writes <= d'.writes <= all && (ok ==> d'.writes == all)
    && (ok ==> d'.checks == d.checks + BankChecks(shadow, op) + 1)
    && (op.NeedsBank() && shadow == d.select ==> op.CheckDpSelect(BankUsed(d, shadow, op)))
  }

  /** What a raw AP write has sent by its end: SELECT if AP or bank were others, and the word to its register. */
  ghost predicate RawSent(d: Dap, shadow: Select, ap: u8, register: u8, v: u32, d': Dap, ok: bool) {
    var want := shadow.SetApSel(ap).SetApBankSelFromAddr(register);
    var used := if want == shadow then d.select else want;
    var all := d.writes + (if want == shadow then [] else [WriteRecord(SELECT_WRITE, d.select, want.Word())])
               + [WriteRecord(Hdr(true, false, register / 4 % 4), used, v)];
    && d.writes <= d'.writes <= all && (ok ==> d'.writes == all)
    && (shadow == d.select ==> used.apsel == ap && used.apbank == register / 0x10)
  }

  lemma RawApWriteSends(d: Dap, shadow: Select, ap: u8, register: u8, v: u32, retries: nat)
    ensures var (d', s, ok) := RawApWriteTxn(d, shadow, ap, register, v, retries);
            RawSent(d, shadow, ap, register, v, d', ok)
  {
    hide ReadTxn, WriteTxn, Select.Word, CheckPasses, UpdateTxn;
    UpdateSends(d, shadow, shadow.SetApSel(ap).SetApBankSelFromAddr(register), retries);
    var d0 := SelectApTxn(d, shadow, ap, register, retries).0;
    WriteSends(d0, HdrOf(ApWrite(register)), v, retries);
    assert d0.writes + [] == d0.writes;
  }

  /** How often a typed register read checks for errors. */
  lemma RegReadChecks(d: Dap, shadow: Select, op: SwdOp, retries: nat)
    requires op.IsAp() && op.IsRead()
    ensures var (d', s, v) := RegReadTxn(d, shadow, op, retries);
            v.Some? ==> d'.checks == d.checks + BankChecks(shadow, op) + 1 && d'.writes == d.writes + BankWrite(d, shadow, op)
  {
    hide ReadTxn, WriteTxn, Select.Word, UpdateTxn, HasErrors, ReadOk;
    UpdateSends(d, shadow, op.NewSelect(), retries);
    var d0 := BankTxn(d, shadow, op, retries).0;
    ReadsWriteNothing(d0, HdrOf(op), retries);
    var d1 := ReadTxn(d0, HdrOf(op), retries).0;
    ReadsWriteNothing(d1, CTRL_STAT_READ, retries);
    ReadsWriteNothing(ReadTxn(d1, CTRL_STAT_READ, retries).0, RDBUFF_READ, retries);
    assert d.writes + [] == d.writes;
  }

  /** What an AP read returns is the result of its own access, whatever register it is. */
  lemma ApReadFetches(d: Dap, h: Hdr, retries: nat)
    requires h.ap && h.read
    ensures var (d1, r) := ReadTxn(d, h, retries);
            var (d2, v) := Fetched(d1, retries);
            r.Ok? && v.Some? ==>
              var request := Retry(d, h, retries).Arrive(h).0.ReadRequest(h);
              v.value == d.Final().Perform(d.env, request).rdbuff
  {
    hide MemAp.Perform;
    Accepted(d, h, retries);
    var (d1, r) := ReadTxn(d, h, retries);
    if r.Ok? {
      assert d1.Final() == d.Final().Perform(d.env, Retry(d, h, retries).Arrive(h).0.ReadRequest(h));
      hide ReadTxn, Retry;
      CheckKeeps(d1, retries);
      var d' := ReadTxn(d1, CTRL_STAT_READ, retries).0;
      ReadRdBuff(d', retries);
    }
  }

  /** Clearing the error flag by ABORT. */
  const ABORT_WRITE := Hdr(false, false, 0)

  lemma AbortClears(d: Dap, v: u32, retries: nat)
    requires v / 4 % 2 == 1
    ensures var (d', r) := WriteTxn(d, ABORT_WRITE, v, retries);
            && d'.env == d.env && d'.select == d.select
            && (r.Ok? ==> !d'.core.sticky)
            && (r.Ok? && d.env.Prompt() ==> d'.pending.None?)
            && (d.env.Clean() ==> r.Ok?)
  {
    RetryOnlyWaits(d, ABORT_WRITE, retries);
  }

  /** A typed ABORT write in DP bank 0: a check that passes means that no error is up, and a target in order passes it. */
  lemma AbortWorks(d: Dap, shadow: Select, v: u32, retries: nat)
    requires v / 4 % 2 == 1
    ensures var (d', s, ok) := RegWriteTxn(d, shadow, DpWrite(ABORT), v, retries);
            && d'.env == d.env && d'.select == d.select
            && (ok && d.select.dpbank == 0 ==> !d'.core.sticky)
            && (d.env.Clean() && d.select.dpbank == 0 ==> ok && !d'.Final().sticky)
  {
    hide ReadTxn, WriteTxn;
    assert HdrOf(DpWrite(ABORT)) == ABORT_WRITE;
    AbortClears(d, v, retries);
    WriteKeepsSelect(d, ABORT_WRITE, v, retries);
    var d1 := WriteTxn(d, ABORT_WRITE, v, retries).0;
    CheckKeeps(d1, retries);
    hide MemAp.Perform, CheckPasses;
  }

  /** ABORT's four error-clearing bits. */
  function AbortWord(stkcmpclr: bool, stkerrclr: bool, wderrclr: bool, orunerrclr: bool): u32 {
    (if stkcmpclr then 2 else 0) + (if stkerrclr then 4 else 0) + (if wderrclr then 8 else 0) + (if orunerrclr then 0x10 else 0)
  }

  /** Requesting power. */
  const CTRL_STAT_WRITE := Hdr(false, false, 1)

  lemma PowerRequested(d: Dap, v: u32, retries: nat)
    requires d.select.dpbank == 0
    ensures var (d', r) := WriteTxn(d, CTRL_STAT_WRITE, v, retries);
            && d'.env == d.env && d'.select == d.select && d'.Final() == d.Final()
            && d'.power == (if r.Ok? then Power(CDbgPwrUpReq(v), CSysPwrUpReq(v)) else d.power)
            && (d.env.Clean() && !d.Final().sticky ==> r.Ok?)
  {
    RetryOnlyWaits(d, CTRL_STAT_WRITE, retries);
    ArriveIdles(Retry(d, CTRL_STAT_WRITE, retries), CTRL_STAT_WRITE);
  }

  /** Both domains requested, and both up by the CTRL/STAT just read. */
  predicate PoweredUp(d: Dap) {
    d.power == Power(true, true) && CDbgPwrUpAck(d.CtrlStat()) && CSysPwrUpAck(d.CtrlStat())
  }

  /** What a power-up writes: SELECT all zero, and both requests. */
  function PowerWrites(select: Select): seq<WriteRecord> {
    [WriteRecord(SELECT_WRITE, select, 0), WriteRecord(CTRL_STAT_WRITE, SELECT_DEFAULT, 0x5000_0000)]
  }

  /** The request for power, and its check. */
  lemma RequestsPower(d: Dap, retries: nat)
    requires d.select == SELECT_DEFAULT
    ensures var (d', s, ok) := RegWriteTxn(d, SELECT_DEFAULT, DpWrite(CTRL_STAT), POWER_REQUEST, retries);
            && s == SELECT_DEFAULT && Requested(d, d', ok, POWER_REQUEST)
  {
    PowerRequestBits();
    CtrlStatInBank(d, retries);
    assert SELECT_DEFAULT.dpbank == 0;
    hide *;
    WriteCtrlStat(d, SELECT_DEFAULT, DpWrite(CTRL_STAT), POWER_REQUEST, retries);
  }

  /** A CTRL/STAT write with both power requests and its check: requested if it succeeds, which it does if nothing is wrong. */
  ghost predicate Requested(d: Dap, d': Dap, ok: bool, w: u32) {
    && d'.env == d.env && d'.Final() == d.Final() && d'.select == d.select
    && (ok ==> d'.power == Power(true, true) && d'.writes == d.writes + [WriteRecord(CTRL_STAT_WRITE, d.select, w)])
    && (d.env.Clean() && !d.Final().sticky ==> ok)
  }

  lemma WriteCtrlStat(d: Dap, shadow: Select, op: SwdOp, w: u32, retries: nat)
    requires BankTxn(d, shadow, op, retries) == (d, shadow, true) && HdrOf(op) == CTRL_STAT_WRITE && d.select.dpbank == 0
    requires CDbgPwrUpReq(w) && CSysPwrUpReq(w)
    ensures var (d', s, ok) := RegWriteTxn(d, shadow, op, w, retries);
            s == shadow && Requested(d, d', ok, w)
  {
    hide ReadTxn, WriteTxn, MemAp.Perform, CDbgPwrUpReq, CSysPwrUpReq, CheckPasses, Env.Clean, HdrOf, Dap.Final, BankTxn;
    PowerRequested(d, w, retries);
    WriteSends(d, CTRL_STAT_WRITE, w, retries);
    CheckKeeps(WriteTxn(d, CTRL_STAT_WRITE, w, retries).0, retries);
  }

  lemma CtrlStatInBank(d: Dap, retries: nat)
    ensures BankTxn(d, SELECT_DEFAULT, DpWrite(CTRL_STAT), retries) == (d, SELECT_DEFAULT, true)
    ensures BankTxn(d, SELECT_DEFAULT, DpRead(CTRL_STAT), retries) == (d, SELECT_DEFAULT, true)
  {
    hide UpdateTxn;
  }

  /** An accepted write is recorded, once. */
  lemma WriteSends(d: Dap, h: Hdr, v: u32, retries: nat)
    ensures var (d', r) := WriteTxn(d, h, v, retries);
            && d'.writes == (if r.Ok? then d.writes + [WriteRecord(h, d.select, v)] else d.writes)
            && d'.checks == d.checks
  {
    hide WriteTxn;
    WriteTxnExactlyOnce(d, h, v, retries);
    assert d.writes + [] == d.writes;
  }

  /** An error check changes nothing but the log, and passes when nothing is wrong. */
  lemma CheckKeeps(d: Dap, retries: nat)
    ensures var d' := ReadTxn(d, CTRL_STAT_READ, retries).0;
            && d'.env == d.env && d'.select == d.select && d'.Final() == d.Final()
            && d'.power == d.power && d'.writes == d.writes
            && (CheckPasses(d, false, retries) ==> d'.checks == d.checks + 1)
            && (CheckPasses(d, false, retries) && d.select.dpbank == 0 ==> !d'.core.sticky)
            && (d.env.Prompt() ==> d'.pending.None?)
    ensures d.env.Clean() && d.select.dpbank == 0 && !d.Final().sticky ==> CheckPasses(d, false, retries)
  {
    hide ReadTxn, MemAp.Perform;
    ReadsWriteNothing(d, CTRL_STAT_READ, retries);
    ReadStatus(d, retries);
    StatusMeans(ReadTxn(d, CTRL_STAT_READ, retries).0);
    hide HasErrors, ReadOk, CDbgPwrUpAck, CSysPwrUpAck;
  }

  /** The word with both power requests. */
  const POWER_REQUEST: u32 := 0x5000_0000

  lemma PowerRequestBits()
    ensures POWER_REQUEST == CDBGPWRUPREQ + CSYSPWRUPREQ && CDbgPwrUpReq(POWER_REQUEST) && CSysPwrUpReq(POWER_REQUEST)
    ensures HdrOf(DpWrite(CTRL_STAT)) == CTRL_STAT_WRITE && HdrOf(DpRead(CTRL_STAT)) == CTRL_STAT_READ
    ensures SELECT_DEFAULT.Word() == 0
  {
  }

  /** Reading back whether it was granted. */
  lemma ReadsPower(d: Dap, retries: nat)
    requires d.select == SELECT_DEFAULT
    ensures var (d', s, v) := RegReadTxn(d, SELECT_DEFAULT, DpRead(CTRL_STAT), retries);
            && d'.env == d.env && d'.Final() == d.Final() && s == d'.select == SELECT_DEFAULT
            && d'.power == d.power && d'.writes == d.writes
            && (v.Some? ==> v.value == d'.CtrlStat()
                            && (d.power == Power(true, true) && CDbgPwrUpAck(v.value) && CSysPwrUpAck(v.value) ==> PoweredUp(d')))
            && (d.env.Clean() ==> v.Some? && (d.power == Power(true, true) ==> CDbgPwrUpAck(v.value) && CSysPwrUpAck(v.value)))
  {
    hide ReadTxn, WriteTxn;
    assert HdrOf(DpRead(CTRL_STAT)) == CTRL_STAT_READ;
    ReadStatus(d, retries);
    ReadsWriteNothing(d, CTRL_STAT_READ, retries);
    StatusMeans(ReadTxn(d, CTRL_STAT_READ, retries).0);
    hide HasErrors, ReadOk, MemAp.Perform, CDbgPwrUpAck, CSysPwrUpAck, Dap.CtrlStat;
  }

  /** SELECT after a raw DP write. */
  function AfterRawWrite(d: Dap, shadow: Select, register: u8, value: u32, retries: nat): Selects {
    if HdrOf(DpWrite(register)) == SELECT_WRITE && WriteTxn(d, SELECT_WRITE, value, retries).1.Ok?
    then Selects(if register == SELECT then SelectOf(value) else shadow, SelectOf(value))
    else Selects(shadow, d.select)
  }

  /** The memory access at the heart of a DRW read or write, `n` times over: what the pipelined forms must amount to. */
  function ReadMany(f: MemAp, env: Env, n: nat): MemAp {
    if n == 0 then f else ReadMany(f, env, n - 1).Perform(env, ReadDrw)
  }

  /** The word read by access `i`. */
  function ReadWord(f: MemAp, env: Env, i: nat): u32 { ReadMany(f, env, i + 1).rdbuff }

  function WriteMany(f: MemAp, env: Env, vs: seq<u32>): MemAp {
    if vs == [] then f else WriteMany(f, env, vs[..|vs| - 1]).Perform(env, WriteDrw(vs[|vs| - 1]))
  }

  lemma WriteManySnoc(f: MemAp, env: Env, vs: seq<u32>, v: u32)
    ensures WriteMany(f, env, vs + [v]) == WriteMany(f, env, vs).Perform(env, WriteDrw(v))
  {
    assert (vs + [v])[..|vs|] == vs;
  }

  lemma {:induction false} ReadManyClean(f: MemAp, env: Env, n: nat)
    requires env.Clean() && !f.sticky
    ensures !ReadMany(f, env, n).sticky
  {
    if n == 0 {
    } else {
      ReadManyClean(f, env, n - 1);
    }
  }

  lemma {:induction false} WriteManyClean(f: MemAp, env: Env, vs: seq<u32>)
    requires env.Clean() && !f.sticky
    ensures !WriteMany(f, env, vs).sticky
  {
    if vs == [] {
    } else {
      WriteManyClean(f, env, vs[..|vs| - 1]);
    }
  }

  /** Word `i` of a range, as a 32-bit address. */
  function WordAddr(addr: nat, i: nat): u32 { (addr + 4 * i) % 0x1_0000_0000 }

  function Accesses(write: bool, addr: u32, n: nat): seq<Access> {
    seq(n, i requires 0 <= i < n => Access(write, WordAddr(addr, i), true))
  }

  function WriteWords(mem: Memory, addr: u32, vs: seq<u32>): Memory {
    if vs == [] then mem
    else WriteWords(mem, addr, vs[..|vs| - 1])[WordAddr(addr, |vs| - 1) := vs[|vs| - 1]]
  }

  /** `n` words from a word-aligned address up to the end of its 1 KB page at most. */
  predicate InPage(addr: u32, n: nat) { addr % 4 == 0 && addr % PAGE + 4 * n <= PAGE }

  /** Inside one page TAR steps through consecutive words, and wraps to the page's start after the last. */
  lemma TarSteps(csw: u32, addr: u32, i: nat)
    requires AddrInc(csw) == ADDRINC_SINGLE && InPage(addr, i + 1)
    ensures addr + 4 * i < 0x1_0000_0000 && WordAddr(addr, i) == addr + 4 * i
    ensures InPage(addr, i + 2) ==> NextTar(csw, addr + 4 * i) == addr + 4 * (i + 1)
    ensures !InPage(addr, i + 2) ==> NextTar(csw, addr + 4 * i) == addr - addr % PAGE
  {
    var (q, o) := (addr / PAGE, addr % PAGE);
    var r := o + 4 * i;
    PageOffset(addr);
    assert addr + 4 * i == 0x400 * q + r;
    By2To32(0, addr + 4 * i);
    By1024(q, r);
    if r + 4 < PAGE { By1024(q, r + 4); } else { By1024(q + 1, 0); }
  }

  /** A word-aligned address lies a whole number of words into its page. */
  lemma PageOffset(addr: u32)
    requires addr % 4 == 0
    ensures addr == 0x400 * (addr / PAGE) + addr % PAGE && addr % PAGE == 4 * (addr / 4 - 0x100 * (addr / PAGE))
    ensures addr % PAGE <= PAGE - 4 && 0x400 * (addr / PAGE) + PAGE <= 0x1_0000_0000
  {
  }

  lemma PageFacts(addr: u32, n: nat)
    requires InPage(addr, n)
    ensures InPage(addr, 1) && (n > 0 ==> InPage(addr, n - 1))
  {
    PageOffset(addr);
  }

  /** TAR after `n` accesses in a page. */
  function TarAfter(addr: u32, n: nat): int {
    if InPage(addr, n + 1) then addr + 4 * n else addr - addr % PAGE
  }

  /**
   A burst inside one page that ends without an error has read consecutive
   words, once each and in order, and touched nothing else.
   */
  lemma {:induction false} ReadBurst(f: MemAp, env: Env, n: nat)
    requires AddrInc(f.csw) == ADDRINC_SINGLE && InPage(f.tar, n)
    requires !ReadMany(f, env, n).sticky
    ensures var g := ReadMany(f, env, n);
            && !f.sticky && g.csw == f.csw && g.mem == f.mem
            && g.trace == f.trace + Accesses(false, f.tar, n)
            && g.tar == TarAfter(f.tar, n)
            && (n > 0 ==> g.rdbuff == MemAt(f.mem, WordAddr(f.tar, n - 1)))
  {
    hide InPage, NextTar, WordAddr;
    PageFacts(f.tar, n);
    if n == 0 {
    } else {
      var g0 := ReadMany(f, env, n - 1);
      assert !g0.sticky && !env.bad(|g0.trace|);
      ReadBurst(f, env, n - 1);
      TarSteps(f.csw, f.tar, n - 1);
      assert g0.tar == WordAddr(f.tar, n - 1);
      assert Accesses(false, f.tar, n) == Accesses(false, f.tar, n - 1) + [Access(false, WordAddr(f.tar, n - 1), true)];
    }
  }

  lemma {:induction false} WriteBurst(f: MemAp, env: Env, vs: seq<u32>)
    requires AddrInc(f.csw) == ADDRINC_SINGLE && InPage(f.tar, |vs|)
    requires !WriteMany(f, env, vs).sticky
    ensures var g := WriteMany(f, env, vs);
            && !f.sticky && g.csw == f.csw
            && g.mem == WriteWords(f.mem, f.tar, vs)
            && g.trace == f.trace + Accesses(true, f.tar, |vs|)
            && g.tar == TarAfter(f.tar, |vs|)
  {
    hide InPage, NextTar, WordAddr;
    PageFacts(f.tar, |vs|);
    if vs == [] {
    } else {
      var n := |vs|;
      var g0 := WriteMany(f, env, vs[..n - 1]);
      assert !g0.sticky && !env.bad(|g0.trace|);
      WriteBurst(f, env, vs[..n - 1]);
      TarSteps(f.csw, f.tar, n - 1);
      assert g0.tar == WordAddr(f.tar, n - 1);
      assert Accesses(true, f.tar, n) == Accesses(true, f.tar, n - 1) + [Access(true, WordAddr(f.tar, n - 1), true)];
    }
  }

  /** Sticky errors stay: a state reached without one had none on the way. */
  lemma {:induction false} ReadManySticky(f: MemAp, env: Env, m: nat, n: nat)
    requires m <= n && !ReadMany(f, env, n).sticky
    ensures !ReadMany(f, env, m).sticky
    decreases n
  {
    if m == n {
    } else {
      ReadManySticky(f, env, m, n - 1);
    }
  }

  /** Every word of an error-free burst, not only the last. */
  lemma BurstWords(f: MemAp, env: Env, n: nat)
    requires AddrInc(f.csw) == ADDRINC_SINGLE && InPage(f.tar, n)
    requires !ReadMany(f, env, n).sticky
    ensures forall i | 0 <= i < n :: ReadWord(f, env, i) == MemAt(f.mem, WordAddr(f.tar, i))
  {
    hide NextTar, WordAddr;
    forall i | 0 <= i < n
      ensures ReadWord(f, env, i) == MemAt(f.mem, WordAddr(f.tar, i))
    {
      ReadManySticky(f, env, i + 1, n);
      ReadBurst(f, env, i + 1);
    }
  }

  /** Reads leave memory and CSW alone, whatever happens. */
  lemma {:induction false} ReadManyKeeps(f: MemAp, env: Env, n: nat)
    ensures ReadMany(f, env, n).mem == f.mem && ReadMany(f, env, n).csw == f.csw
  {
    if n == 0 {
    } else {
      ReadManyKeeps(f, env, n - 1);
    }
  }

  lemma {:induction false} WriteManyKeeps(f: MemAp, env: Env, vs: seq<u32>)
    ensures WriteMany(f, env, vs).csw == f.csw
  {
    if vs == [] {
    } else {
      WriteManyKeeps(f, env, vs[..|vs| - 1]);
    }
  }

  /** Of a burst of writes accepted one after the other, all land but perhaps the last. */
  function Landed(sticky: bool, n: nat): nat { if sticky && n > 0 then n - 1 else n }

  /** A write that fails leaves memory as it is. */
  lemma LastWrite(f: MemAp, env: Env, vs: seq<u32>)
    ensures vs == [] ==> WriteMany(f, env, vs) == f && WriteWords(f.mem, f.tar, vs) == f.mem
    ensures vs != [] && WriteMany(f, env, vs).sticky && !WriteMany(f, env, vs[..|vs| - 1]).sticky ==>
              WriteMany(f, env, vs).mem == WriteMany(f, env, vs[..|vs| - 1]).mem
  {
    hide NextTar;
  }

  lemma WriteLanded(f: MemAp, env: Env, vs: seq<u32>)
    requires AddrInc(f.csw) == ADDRINC_SINGLE && InPage(f.tar, |vs|)
    requires vs != [] ==> !WriteMany(f, env, vs[..|vs| - 1]).sticky
    ensures var g := WriteMany(f, env, vs);
            && g.csw == f.csw
            && g.mem == WriteWords(f.mem, f.tar, vs[..Landed(g.sticky, |vs|)])
            && (!g.sticky ==> g.trace == f.trace + Accesses(true, f.tar, |vs|))
  {
    hide NextTar, WordAddr, MemAp.Perform, WriteWords;
    var n := |vs|;
    WriteManyKeeps(f, env, vs);
    assert vs[..n] == vs;
    LastWrite(f, env, vs);
    hide WriteMany;
    if n > 0 {
      PageFacts(f.tar, n);
      WriteBurst(f, env, vs[..n - 1]);
      if !WriteMany(f, env, vs).sticky { WriteBurst(f, env, vs); }
    }
  }

  /** Each write makes one bus access, and the error flag is up after the last exactly when that access went wrong. */
  lemma {:induction false} WriteManyTrace(f: MemAp, env: Env, vs: seq<u32>)
    ensures |WriteMany(f, env, vs).trace| == |f.trace| + |vs|
    ensures vs != [] && !WriteMany(f, env, vs[..|vs| - 1]).sticky ==>
              (WriteMany(f, env, vs).sticky <==> env.bad(|f.trace| + |vs| - 1))
  {
    if vs == [] {
    } else {
      WriteManyTrace(f, env, vs[..|vs| - 1]);
    }
  }

  lemma WordAddrAdd(addr: nat, t: nat, i: nat)
    ensures WordAddr(WordAddr(addr, t), i) == WordAddr(addr, t + i)
  {
  }

  lemma AccessesAdd(write: bool, addr: u32, t: nat, n: nat)
    ensures Accesses(write, addr, t + n) == Accesses(write, addr, t) + Accesses(write, WordAddr(addr, t), n)
  {
    hide WordAddr;
    forall i | 0 <= i < n
      ensures WordAddr(WordAddr(addr, t), i) == WordAddr(addr, t + i)
    {
      WordAddrAdd(addr, t, i);
    }
  }

  lemma {:induction false} WriteWordsAdd(mem: Memory, addr: u32, a: seq<u32>, b: seq<u32>)
    ensures WriteWords(mem, addr, a + b) == WriteWords(WriteWords(mem, addr, a), WordAddr(addr, |a|), b)
  {
    hide WordAddr;
    if b == [] {
      assert a + b == a;
    } else {
      var n := |b| - 1;
      WriteWordsAdd(mem, addr, a, b[..n]);
      assert (a + b)[..|a| + n] == a + b[..n];
      WordAddrAdd(addr, |a|, n);
    }
  }

  /** The next piece of a transfer: up to the end of the range or of the page. */
  lemma ChunkInPage(addr: u32, remaining: nat)
    requires addr % 4 == 0 && remaining > 0
    ensures var room := (PAGE - addr % PAGE) / 4;
            room > 0 && InPage(addr, if remaining < room then remaining else room)
  {
    PageOffset(addr);
  }

  /**
   What a bulk write leaves in memory: word `i` of the range holds word `i` of
   the data, and nothing else changed. So a bulk read of the range returns
   the data.
   */
  lemma {:induction false} WriteWordsReadBack(mem: Memory, addr: u32, vs: seq<u32>)
    requires |vs| <= 0x4000_0000
    ensures forall i | 0 <= i < |vs| :: MemAt(WriteWords(mem, addr, vs), WordAddr(addr, i)) == vs[i]
    ensures forall a: u32 | (forall i | 0 <= i < |vs| :: a != WordAddr(addr, i)) ::
              MemAt(WriteWords(mem, addr, vs), a) == MemAt(mem, a)
  {
    hide WordAddr;
    if vs == [] {
    } else {
      var n := |vs| - 1;
      WriteWordsReadBack(mem, addr, vs[..n]);
      forall i | 0 <= i < n
        ensures WordAddr(addr, i) != WordAddr(addr, n)
      {
        WordAddrDistinct(addr, i, n);
      }
    }
  }

  lemma WordAddrDistinct(addr: u32, i: nat, j: nat)
    requires i < j < i + 0x4000_0000
    ensures WordAddr(addr, i) != WordAddr(addr, j)
  {
  }

  /**
   A DRW write whose error check passed is in memory exactly when it has
   already run or its bus access is going to succeed.
   */
  lemma CheckedWriteLanded(d: Dap, v: u32, retries: nat)
    requires MemApSelected(d.select) && d.select.apbank == 0
    requires WriteTxn(d, DRW_WRITE, v, retries).1.Ok?
    requires CheckPasses(WriteTxn(d, DRW_WRITE, v, retries).0, false, retries)
    ensures var f := d.Final();
            var d2 := ReadTxn(WriteTxn(d, DRW_WRITE, v, retries).0, CTRL_STAT_READ, retries).0;
            !d2.Final().sticky && d2.Final().mem == f.mem[f.tar := v]
            <==> d2.pending.None? || !d.env.bad(|f.trace|)
  {
    hide ReadTxn, WriteTxn;
    WriteMemApRegister(d, DRW, v, retries);
    var d1 := WriteTxn(d, DRW_WRITE, v, retries).0;
    ReadStatus(d1, retries);
    StatusMeans(ReadTxn(d1, CTRL_STAT_READ, retries).0);
  }

  /** Two writes, each with its check: the first passes, the second is refused, and neither word is in memory. */
  ghost predicate LosesFirst(d: Dap, v: u32, w: u32) {
    var (d1, r1) := WriteTxn(d, DRW_WRITE, v, 0);
    var (d2, r2) := ReadTxn(d1, CTRL_STAT_READ, 0);
    var (d3, r3) := WriteTxn(d2, DRW_WRITE, w, 0);
    && d.pending.None? && !d.core.sticky && MemApSelected(d.select) && d.select.apbank == 0
    && r1.Ok? && r2.Ok? && !HasErrors(r2.value)
    && r3 == Err(FaultAck)
    && d3.Final().mem == d.core.mem && MemAt(d.core.mem, d.core.tar) != v
  }

  /**
   The doubt is real: a slow bus error can pass the check after the write it
   belongs to and answer FAULT to the next one. The first word then counts as
   written, though memory never changed.
   */
  lemma CountedButLost()
    ensures exists d: Dap, v: u32, w: u32 :: LosesFirst(d, v, w)
  {
    var env := Env(n => AckOk, n => n == 1, i => true, n => 0, v => v, v => v, n => true, n => true);
    var core := MemAp(0x10, 0, map[], 0, false, []);
    var d := Dap(env, core, None, SELECT_DEFAULT, false, [], Power(true, true), [], 0);
    var (d1, r1) := WriteTxn(d, DRW_WRITE, 7, 0);
    assert d1.pending == Some(WriteDrw(7)) && d1.core == core && r1.Ok? && |d1.log| == 1;
    var (d2, r2) := ReadTxn(d1, CTRL_STAT_READ, 0);
    assert d2.pending == d1.pending && d2.core == core && |d2.log| == 2;
    assert r2 == Ok(d2.CtrlStat());
    StatusMeans(d2);
    var (d3, r3) := WriteTxn(d2, DRW_WRITE, 9, 0);
    assert r3 == Err(FaultAck) && d3.pending.None? && d3.core.mem == core.mem;
    assert LosesFirst(d, 7, 9);
  }

  /** One request, whichever way it goes: the state after it, and whether it was accepted. */
  function AnyTxn(d: Dap, h: Hdr, v: u32, retries: nat): (Dap, bool) {
    if h.read then var (d', r) := ReadTxn(d, h, retries); (d', r.Ok?)
    else var (d', r) := WriteTxn(d, h, v, retries); (d', r.Ok?)
  }

  predicate IsAbort(h: Hdr) { !h.ap && !h.read && h.a == 0 }

  /** The state after some requests, and whether any AP access among them was accepted. */
  function ManyTxns(d: Dap, requests: seq<(Hdr, u32)>, retries: nat): (Dap, bool)
    decreases |requests|
  {
    if requests == [] then (d, false) else
    var (d', ok) := AnyTxn(d, requests[0].0, requests[0].1, retries);
    var (d'', any) := ManyTxns(d', requests[1..], retries);
    (d'', (requests[0].0.ap && ok) || any)
  }

  lemma StuckOnce(d: Dap, h: Hdr, v: u32, retries: nat)
    requires d.Final().sticky && !IsAbort(h)
    ensures var (d', ok) := AnyTxn(d, h, v, retries);
            d'.Final() == d.Final() && (h.ap ==> !ok)
  {
    hide SelectOf;
    RetryOnlyWaits(d, h, retries);
    ArriveIdles(Retry(d, h, retries), h);
    if h.ap { Accepted(d, h, retries); }
  }

  /**
   A write that was lost shows at the next access: until ABORT is written, no
   access to the AP is accepted and memory stays as it is.
   */
  lemma {:induction false} LostWriteSticks(d: Dap, requests: seq<(Hdr, u32)>, retries: nat)
    requires d.Final().sticky && forall q | q in requests :: !IsAbort(q.0)
    ensures var (d', any) := ManyTxns(d, requests, retries);
            d'.Final() == d.Final() && !any
    decreases |requests|
  {
    if requests == [] {
    } else {
      StuckOnce(d, requests[0].0, requests[0].1, retries);
      LostWriteSticks(AnyTxn(d, requests[0].0, requests[0].1, retries).0, requests[1..], retries);
    }
  }
}
