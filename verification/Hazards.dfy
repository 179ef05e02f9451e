/**
 Runs in which the interface is misled: the SELECT shadow goes stale, an
 error check looks at the wrong register, a raw read reaches another one.
 The contracts say exactly when; these lemmas show that it happens.
 */
module Hazards {
  import opened Wrappers
  import opened Bits
  import opened Registers
  import opened DebugPort
  import opened Transfers

  /** A target that does what it is asked at once, but for what the arguments say. */
  function Calm(noise: nat -> Ack, other: nat -> u32): Env {
    Env(noise, n => false, i => false, other, v => v, v => v, n => true, n => true)
  }

  function Fresh(env: Env, select: Select): Dap {
    Dap(env, MemAp(0, 0, map[], 0, false, []), None, select, false, [], Power(true, true), [], 0)
  }

  /** A write to SELECT by the ordinary register call: both packets succeed, no error shows, and SELECT has changed. */
  ghost predicate UnnoticedSelectWrite(d: Dap, op: SwdOp, w: u32) {
    var (d1, r1) := WriteTxn(d, HdrOf(op), w, 0);
    && !op.IsAp() && !op.IsRead() && !op.NeedsBank()
    && r1.Ok? && CheckPasses(d1, false, 0) && d1.select == SelectOf(w) != d.select
  }

  lemma TypedSelectWrite()
    ensures exists d: Dap, w: u32 :: UnnoticedSelectWrite(d, DpWrite(SELECT), w)
  {
    var d := Fresh(Calm(n => AckOk, n => 0), SELECT_DEFAULT);
    assert HdrOf(DpWrite(SELECT)) == SELECT_WRITE && SelectOf(0x10) == SELECT_DEFAULT.(apbank := 1);
    var (d1, r1) := WriteTxn(d, SELECT_WRITE, 0x10, 0);
    assert r1.Ok? && d1.select == SelectOf(0x10) && !d1.core.sticky && d1.pending == None;
    var (d2, r2) := ReadTxn(d1, CTRL_STAT_READ, 0);
    assert r2 == Ok(d2.CtrlStat());
    StatusMeans(d2);
    assert UnnoticedSelectWrite(d, DpWrite(SELECT), 0x10);
  }

  /** A SELECT write that is acknowledged and changes SELECT, and whose error check then fails. */
  ghost predicate FailsAfterWrite(d: Dap, w: u32) {
    var (d1, r1) := WriteTxn(d, SELECT_WRITE, w, 0);
    r1.Ok? && d1.select == SelectOf(w) != d.select && !CheckPasses(d1, false, 0)
  }

  lemma StaleAfterFailedCheck()
    ensures exists d: Dap, w: u32 :: FailsAfterWrite(d, w)
  {
    var d := Fresh(Calm(n => if n == 1 then AckFault else AckOk, n => 0), SELECT_DEFAULT);
    assert SelectOf(0x10) == SELECT_DEFAULT.(apbank := 1);
    var (d1, r1) := WriteTxn(d, SELECT_WRITE, 0x10, 0);
    assert r1.Ok? && d1.select == SelectOf(0x10) && |d1.log| == 1;
    assert ReadTxn(d1, CTRL_STAT_READ, 0).1 == Err(FaultAck);
    assert FailsAfterWrite(d, 0x10);
  }

  /** A raw write to an address that is not SELECT's, yet lands there. */
  ghost predicate Aliases(d: Dap, register: u8, w: u32) {
    var (d1, r1) := WriteTxn(d, HdrOf(DpWrite(register)), w, 0);
    register != SELECT && r1.Ok? && d1.select == SelectOf(w) != d.select
  }

  lemma AliasedRawWrite()
    ensures exists d: Dap, w: u32 :: Aliases(d, 0x18, w)
  {
    var d := Fresh(Calm(n => AckOk, n => 0), SELECT_DEFAULT);
    assert HdrOf(DpWrite(0x18)) == SELECT_WRITE && SelectOf(0x10) == SELECT_DEFAULT.(apbank := 1);
    assert Aliases(d, 0x18, 0x10);
  }

  /** In this DP bank, a check that passes means no sticky error. */
  ghost predicate CheckSound(select: Select) {
    forall d: Dap, retries: nat | d.select == select && CheckPasses(d, false, retries) ::
      !ReadTxn(d, CTRL_STAT_READ, retries).0.core.sticky
  }

  /** That is so in bank 0 only: in any other, the check reads some other register. */
  lemma CheckSoundInBankZero(select: Select)
    ensures CheckSound(select) <==> select.dpbank == 0
  {
    if select.dpbank == 0 {
      forall d: Dap, retries: nat | d.select == select && CheckPasses(d, false, retries)
        ensures !ReadTxn(d, CTRL_STAT_READ, retries).0.core.sticky
      {
        ReadStatus(d, retries);
        StatusMeans(ReadTxn(d, CTRL_STAT_READ, retries).0);
      }
    } else {
      var d := Fooled(select);
      assert CheckPasses(d, false, 0) && ReadTxn(d, CTRL_STAT_READ, 0).0.core.sticky by { FooledPasses(select); }
    }
  }

  /** A target with a sticky error, and zero in the register that the check reads. */
  function Fooled(select: Select): Dap {
    var d := Fresh(Calm(n => AckOk, n => 0), select);
    d.(core := d.core.(sticky := true))
  }

  lemma FooledPasses(select: Select)
    requires select.dpbank != 0
    ensures CheckPasses(Fooled(select), false, 0) && ReadTxn(Fooled(select), CTRL_STAT_READ, 0).0.core.sticky
  {
    assert ReadTxn(Fooled(select), CTRL_STAT_READ, 0).1 == Ok(0);
  }

  /** The DP register an address stands for: its bank in the high nibble. */
  function Named(register: u8): nat { register - register % 4 }

  /** A raw DP read reaches the register asked for exactly when its bank is selected or it has none. */
  lemma RawReadReaches(d: Dap, register: u8)
    ensures d.DpRegister(HdrOf(DpRead(register))) == Named(register) <==>
            if register / 4 % 4 == 1 then d.select.dpbank == register / 0x10 else register < 0x10
  {
    var (bank, a) := (register / 0x10, register / 4 % 4);
    assert register == bank * 0x10 + a * 4 + register % 4;
  }

  /** A raw read of CTRL/STAT that succeeds, although a sticky error is up, and shows none. */
  ghost predicate ReadsElsewhere(d: Dap) {
    var (d1, r) := ReadTxn(d, HdrOf(DpRead(CTRL_STAT)), 0);
    r.Ok? && r.value != d1.CtrlStat() && d1.core.sticky && !HasErrors(r.value)
  }

  lemma RawReadMisses()
    ensures exists d: Dap :: ReadsElsewhere(d)
  {
    var select := SELECT_DEFAULT.(dpbank := 1);
    var d := Fooled(select);
    FooledPasses(select);
    assert HdrOf(DpRead(CTRL_STAT)) == CTRL_STAT_READ;
    StatusMeans(ReadTxn(d, CTRL_STAT_READ, 0).0);
    assert ReadsElsewhere(d);
  }

  /** A request that leaves another AP than 0 selected. */
  ghost predicate StaysAway(h: Hdr, v: u32) { h == SELECT_WRITE ==> SelectOf(v).apsel != 0 }

  lemma OnceAway(d: Dap, h: Hdr, v: u32, retries: nat)
    requires d.select.apsel != 0 && StaysAway(h, v) && h.a < 4
    ensures var d' := AnyTxn(d, h, v, retries).0;
            d'.select.apsel != 0 && Untouched(d, d')
  {
    hide SelectOf;
    if h.read {
      ReadAway(d, h, retries);
    } else if h == SELECT_WRITE {
      WriteSelectWord(d, v, retries);
    } else {
      WriteAway(d, h, v, retries);
    }
  }

  /**
   With another AP selected, whatever the memory calls send reaches no memory
   at all: they move no word, and what they return as read was not read there.
   */
  lemma {:induction false} OtherApNoMemory(d: Dap, requests: seq<(Hdr, u32)>, retries: nat)
    requires d.select.apsel != 0 && forall q | q in requests :: StaysAway(q.0, q.1) && q.0.a < 4
    ensures var d' := ManyTxns(d, requests, retries).0;
            Untouched(d, d')
    decreases |requests|
  {
    hide AnyTxn, StaysAway;
    if requests == [] {
    } else {
      OnceAway(d, requests[0].0, requests[0].1, retries);
      OtherApNoMemory(AnyTxn(d, requests[0].0, requests[0].1, retries).0, requests[1..], retries);
    }
  }
}
