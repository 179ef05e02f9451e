/**
 Any run of calls to the interface, and what becomes of the shadow of SELECT.
 A call writes SELECT at most twice; the shadow follows a write only when it
 is told of it.
 */
module Calls {
  import opened Wrappers
  import opened Bits
  import opened Registers
  import opened DebugPort
  import opened Transfers
  import opened Interface
  import opened Debug

  /** The calls a user of the interface can make. */
  datatype Call =
    | PowerUp | Select(want: Select) | CheckErrors(readOk: bool)
    | Register(op: SwdOp, data: u32)
    | RawDpRead(register: u8) | RawDpWrite(register: u8, data: u32)
    | RawApRead(ap: u8, register: u8) | RawApWrite(ap: u8, register: u8, data: u32)
    | RawBulkRead(ap: u8, register: u8, count: nat) | RawBulkWrite(ap: u8, register: u8, words: seq<u32>)
    | AddrInc(on: bool) | ReadWord(addr: u32) | WriteWord(addr: u32, data: u32)
    | ReadRange(addr: u32, count: nat, fast: bool) | WriteRange(addr: u32, words: seq<u32>, fast: bool)
    | DebugRead(addr: u32, count: nat, fast: bool) | DebugWrite(addr: u32, words: seq<u32>, fast: bool)
  {
    /** Power-up and the raw calls change whether calls are refused. */
    predicate ChangesPower() {
      PowerUp? || RawDpRead? || RawDpWrite? || RawApRead? || RawApWrite? || RawBulkRead? || RawBulkWrite?
    }
  }

  /** Where a call begins: the target, the shadow, and whether calls that need power are refused. */
  datatype Start = Start(dap: Dap, shadow: Select, unpowered: bool)
  {
    function View(): Selects { Selects(shadow, dap.select) }
  }

  /** An acknowledged write to SELECT, and whether the shadow was told of it. */
  datatype SelectWrite = SelectWrite(word: Select, told: bool)

  /** The acknowledged SELECT write of an update: the shadow is told when the error check passes. */
  function OfUpdate(d: Dap, want: Select, retries: nat): seq<SelectWrite> {
    var (d1, r) := WriteTxn(d, SELECT_WRITE, want.Word(), retries);
    if r.Err? then [] else [SelectWrite(want, CheckPasses(d1, false, retries))]
  }

  function OfBank(d: Dap, shadow: Select, op: SwdOp, retries: nat): seq<SelectWrite> {
    if !op.NeedsBank() || op.CheckDpSelect(shadow) then [] else OfUpdate(d, op.NewSelect(), retries)
  }

  /** The same for any request that lands in SELECT by its address alone. */
  function OfRequest(d: Dap, op: SwdOp, data: u32, told: bool, retries: nat): seq<SelectWrite> {
    if HdrOf(op) != SELECT_WRITE || WriteTxn(d, SELECT_WRITE, data, retries).1.Err? then [] else [SelectWrite(SelectOf(data), told)]
  }

  function OfSelectAp(d: Dap, shadow: Select, ap: u8, register: u8, retries: nat): seq<SelectWrite> {
    var want := shadow.SetApSel(ap).SetApBankSelFromAddr(register);
    if want == shadow then [] else OfUpdate(d, want, retries)
  }

  /** The acknowledged SELECT writes of a call, in order. */
  function Writes(c: Call, s: Start, retries: nat): seq<SelectWrite> {
    match c
    case PowerUp => OfUpdate(s.dap, SELECT_DEFAULT, retries)
    case Select(want) => OfUpdate(s.dap, want, retries)
    case CheckErrors(_) => []
    case Register(op, data) =>
      if op.IsAp() && s.unpowered then [] else
      var (d, _, ok) := BankTxn(s.dap, s.shadow, op, retries);
      OfBank(s.dap, s.shadow, op, retries) + if ok then OfRequest(d, op, data, false, retries) else []
    case RawDpRead(_) => []
    case RawDpWrite(register, data) => OfRequest(s.dap, DpWrite(register), data, register == SELECT, retries)
    case RawApRead(ap, register) => OfSelectAp(s.dap, s.shadow, ap, register, retries)
    case RawApWrite(ap, register, _) => OfSelectAp(s.dap, s.shadow, ap, register, retries)
    case RawBulkRead(ap, register, _) => OfRawBulk(s, ap, register, retries)
    case RawBulkWrite(ap, register, words) =>
      if words == [] then OfSelectAp(s.dap, s.shadow, ap, register, retries) else OfRawBulk(s, ap, register, retries)
    case ReadRange(addr, count, _) => if addr % 4 != 0 || count == 0 then [] else OfMemory(s, retries)
    case WriteRange(addr, words, _) => if addr % 4 != 0 || words == [] then [] else OfMemory(s, retries)
    case _ => OfMemory(s, retries)
  }

  function OfMemory(s: Start, retries: nat): seq<SelectWrite> {
    if s.unpowered then [] else OfBank(s.dap, s.shadow, ApRead(CSW), retries)
  }

  function OfRawBulk(s: Start, ap: u8, register: u8, retries: nat): seq<SelectWrite> {
    var (d, shadow, ok) := SelectApTxn(s.dap, s.shadow, ap, register, retries);
    OfSelectAp(s.dap, s.shadow, ap, register, retries) + if ok then OfBank(d, shadow, ApRead(CSW), retries) else []
  }

  /** The word the target holds after some acknowledged writes: the last one. */
  function Held(actual: Select, writes: seq<SelectWrite>): Select {
    if writes == [] then actual else writes[|writes| - 1].word
  }

  /** The word the shadow holds: the last one it was told. */
  function Remembered(shadow: Select, writes: seq<SelectWrite>): Select {
    if writes == [] then shadow
    else if writes[|writes| - 1].told then writes[|writes| - 1].word
    else Remembered(shadow, writes[..|writes| - 1])
  }

  function After(v: Selects, writes: seq<SelectWrite>): Selects {
    Selects(Remembered(v.shadow, writes), Held(v.actual, writes))
  }

  /**
   The shadow is right exactly when there was no write and it was right
   before, or the last write was told, or it wrote the last word told.
   */
  lemma RightAfter(v: Selects, writes: seq<SelectWrite>)
    ensures After(v, writes).Right() <==>
            if writes == [] then v.Right() else
            var (w, before) := (writes[|writes| - 1], writes[..|writes| - 1]);
            w.told || w.word == Remembered(v.shadow, before)
  {
  }

  lemma {:induction false} AfterConcat(v: Selects, a: seq<SelectWrite>, b: seq<SelectWrite>)
    ensures After(v, a + b) == After(After(v, a), b)
  {
    if b == [] {
      assert a + b == a;
      NoWrites(After(v, a));
    } else {
      var n := |b| - 1;
      var c := a + b;
      assert c[..|c| - 1] == a + b[..n] && c[|c| - 1] == b[n];
      AfterConcat(v, a, b[..n]);
    }
  }

  lemma AfterOne(v: Selects, w: SelectWrite)
    ensures After(v, [w]) == Selects(if w.told then w.word else v.shadow, w.word)
  {
    var writes := [w];
    assert writes[..|writes| - 1] == [];
    assert Remembered(v.shadow, []) == v.shadow;
  }

  /** What an update does is what its acknowledged write does. */
  lemma UpdateWrites(d: Dap, shadow: Select, want: Select, retries: nat)
    ensures SelectsOf(UpdateTxn(d, shadow, want, retries)) == After(Selects(shadow, d.select), OfUpdate(d, want, retries))
  {
    hide Select.Word, ReadTxn, WriteTxn;
    WriteSelect(d, want, retries);
    var d1 := WriteTxn(d, SELECT_WRITE, want.Word(), retries).0;
    ReadKeepsSelect(d1, CTRL_STAT_READ, retries);
    AfterOne(Selects(shadow, d.select), SelectWrite(want, CheckPasses(d1, false, retries)));
    hide CheckPasses;
  }

  lemma BankWrites(d: Dap, shadow: Select, op: SwdOp, retries: nat)
    ensures InBank(d, shadow, op, retries) == After(Selects(shadow, d.select), OfBank(d, shadow, op, retries))
  {
    hide UpdateTxn, OfUpdate;
    UpdateWrites(d, shadow, op.NewSelect(), retries);
  }

  lemma SelectApWrites(d: Dap, shadow: Select, ap: u8, register: u8, retries: nat)
    ensures SelectsOf(SelectApTxn(d, shadow, ap, register, retries))
            == After(Selects(shadow, d.select), OfSelectAp(d, shadow, ap, register, retries))
  {
    hide UpdateTxn, OfUpdate;
    UpdateWrites(d, shadow, shadow.SetApSel(ap).SetApBankSelFromAddr(register), retries);
  }

  lemma RegisterWrites(d: Dap, shadow: Select, op: SwdOp, data: u32, retries: nat)
    ensures var (d0, s, ok) := BankTxn(d, shadow, op, retries);
            AfterWrite(d, shadow, op, data, retries)
            == After(Selects(shadow, d.select), OfBank(d, shadow, op, retries) + if ok then OfRequest(d0, op, data, false, retries) else [])
  {
    hide UpdateTxn, OfBank, WriteTxn, SelectOf;
    BankWrites(d, shadow, op, retries);
    var (d0, s, ok) := BankTxn(d, shadow, op, retries);
    var more := if ok then OfRequest(d0, op, data, false, retries) else [];
    AfterConcat(Selects(shadow, d.select), OfBank(d, shadow, op, retries), more);
    AfterOne(Selects(s, d0.select), SelectWrite(SelectOf(data), false));
  }

  lemma RawWrites(d: Dap, shadow: Select, register: u8, data: u32, retries: nat)
    ensures AfterRawWrite(d, shadow, register, data, retries)
            == After(Selects(shadow, d.select), OfRequest(d, DpWrite(register), data, register == SELECT, retries))
  {
    hide WriteTxn, SelectOf;
    AfterOne(Selects(shadow, d.select), SelectWrite(SelectOf(data), register == SELECT));
  }

  lemma RawBulkWrites(s: Start, ap: u8, register: u8, retries: nat)
    ensures AfterRawBulk(s.dap, s.shadow, ap, register, retries) == After(s.View(), OfRawBulk(s, ap, register, retries))
  {
    hide SelectApTxn, OfSelectAp, OfBank, BankTxn;
    SelectApWrites(s.dap, s.shadow, ap, register, retries);
    var (d, shadow, ok) := SelectApTxn(s.dap, s.shadow, ap, register, retries);
    BankWrites(d, shadow, ApRead(CSW), retries);
    AfterConcat(s.View(), OfSelectAp(s.dap, s.shadow, ap, register, retries),
                if ok then OfBank(d, shadow, ApRead(CSW), retries) else []);
  }

  lemma MemoryWrites(s: Start, retries: nat)
    ensures (if s.unpowered then s.View() else InBankZero(s.dap, s.shadow, retries)) == After(s.View(), OfMemory(s, retries))
  {
    hide OfBank, BankTxn;
    BankWrites(s.dap, s.shadow, ApRead(CSW), retries);
  }

  /**
   A call that finds its bank selected writes no SELECT, so that however it
   fails the shadow is what it was: a right one stays right.
   */
  lemma NothingToPutRight(c: Call, s: Start, retries: nat)
    requires match c
             case Register(op, _) => HdrOf(op) != SELECT_WRITE && (!op.NeedsBank() || op.CheckDpSelect(s.shadow))
             case RawApRead(ap, register) => s.shadow.apsel == ap && s.shadow.apbank == register / 0x10
             case RawApWrite(ap, register, _) => s.shadow.apsel == ap && s.shadow.apbank == register / 0x10
             case RawBulkRead(ap, register, _) => s.shadow.apsel == ap && s.shadow.apbank == register / 0x10 == 0
             case RawBulkWrite(ap, register, _) => s.shadow.apsel == ap && s.shadow.apbank == register / 0x10 == 0
             case RawDpWrite(register, _) => register / 4 % 4 != 2
             case PowerUp => false
             case Select(_) => false
             case RawDpRead(_) => true
             case CheckErrors(_) => true
             case _ => s.shadow.apbank == 0
    ensures Writes(c, s, retries) == []
  {
    hide OfUpdate, UpdateTxn;
  }

  /** The acknowledged SELECT writes of a run of calls, in order. */
  function AllWrites(calls: seq<Call>, starts: seq<Start>, retries: nat): seq<SelectWrite>
    requires |starts| == |calls|
  {
    if calls == [] then [] else
    var n := |calls| - 1;
    AllWrites(calls[..n], starts[..n], retries) + Writes(calls[n], starts[n], retries)
  }

  /** `starts` are where the calls of a run began, each where the one before left off. */
  ghost predicate Linked(calls: seq<Call>, starts: seq<Start>, first: Start, retries: nat) {
    && |starts| == |calls|
    && (calls != [] ==> starts[0] == first)
    && forall i | 0 < i < |calls| :: Follows(calls[i - 1], starts[i - 1], starts[i], retries)
  }

  /** What a call does to SELECT and its shadow is what its acknowledged SELECT writes do. */
  ghost predicate Follows(c: Call, s: Start, next: Start, retries: nat) {
    && next.View() == After(s.View(), Writes(c, s, retries))
    && next.dap.env == s.dap.env && (!c.ChangesPower() ==> next.unpowered == s.unpowered)
  }

  class Client {
    const debug: DebugInterface

    constructor (debug: DebugInterface)
      ensures this.debug == debug
    {
      this.debug := debug;
    }

    ghost function Now(): Start
      reads debug.swd, debug.swd.protocol
    {
      Start(debug.swd.D(), debug.swd.dpSelect, debug.swd.Unpowered())
    }

    /** One call, whatever comes of it. */
    method Do(c: Call)
      requires debug.swd.Valid()
      modifies debug.swd, debug.swd.protocol
      ensures debug.swd.Valid() && debug.swd.waitRetries == old(debug.swd.waitRetries)
      ensures Follows(c, old(Now()), Now(), debug.swd.waitRetries)
    {
      hide UpdateTxn, BankTxn, SelectApTxn, InBank, InBankZero, AfterWrite, AfterRawWrite, AfterRawBulk, ReadTxn, WriteTxn, SelectOf;
      hide OfUpdate, OfBank, OfRequest, OfSelectAp, OfMemory, OfRawBulk, After, MemAp.Perform, Idles;
      var swd := debug.swd;
      ghost var s, retries := Now(), swd.waitRetries;
      NoWrites(s.View());
      match c
      case PowerUp =>
        UpdateWrites(s.dap, s.shadow, SELECT_DEFAULT, retries);
        var _ := swd.PowerUpDebugDomain();
      case Select(want) =>
        UpdateWrites(s.dap, s.shadow, want, retries);
        var _ := swd.UpdateDpSelect(want);
      case CheckErrors(readOk) =>
        var _ := swd.CheckDpErrors(readOk);
      case Register(op, data) =>
        DoRegister(op, data);
      case RawDpRead(register) =>
        var _ := swd.ReadDpRegisterRaw(register);
      case RawDpWrite(register, data) =>
        RawWrites(s.dap, s.shadow, register, data, retries);
        var _ := swd.WriteDpRegisterRaw(register, data);
      case RawApRead(ap, register) =>
        SelectApWrites(s.dap, s.shadow, ap, register, retries);
        var _ := swd.ReadApRegisterRaw(ap, register);
      case RawApWrite(ap, register, data) =>
        SelectApWrites(s.dap, s.shadow, ap, register, retries);
        var _ := swd.WriteApRegisterRaw(ap, register, data);
      case RawBulkRead(ap, register, count) =>
        RawBulkWrites(s, ap, register, retries);
        var buf := new u32[count];
        var _, _ := swd.ReadApRegisterRawBulk(ap, register, buf);
      case RawBulkWrite(ap, register, words) =>
        RawBulkWrites(s, ap, register, retries);
        SelectApWrites(s.dap, s.shadow, ap, register, retries);
        var _, _ := swd.WriteApRegisterRawBulk(ap, register, words);
      case AddrInc(_) => DoMemory(c);
      case ReadWord(_) => DoMemory(c);
      case WriteWord(_, _) => DoMemory(c);
      case ReadRange(_, _, _) => DoRange(c);
      case WriteRange(_, _, _) => DoRange(c);
      case DebugRead(_, _, _) => DoDebug(c);
      case DebugWrite(_, _, _) => DoDebug(c);
    }

    method DoRegister(op: SwdOp, data: u32)
      requires debug.swd.Valid()
      modifies debug.swd, debug.swd.protocol
      ensures debug.swd.Valid() && debug.swd.waitRetries == old(debug.swd.waitRetries)
      ensures Follows(Register(op, data), old(Now()), Now(), debug.swd.waitRetries)
    {
      hide UpdateTxn, BankTxn, SelectApTxn, InBank, InBankZero, AfterWrite, ReadTxn, WriteTxn, SelectOf;
      hide OfUpdate, OfBank, After, MemAp.Perform, Idles;
      ghost var s, retries := Now(), debug.swd.waitRetries;
      NoWrites(s.View());
      RegisterWrites(s.dap, s.shadow, op, data, retries);
      BankWrites(s.dap, s.shadow, op, retries);
      if op.IsRead() {
        assert OfBank(s.dap, s.shadow, op, retries) + [] == OfBank(s.dap, s.shadow, op, retries);
        var _ := debug.swd.ReadOperation(op, true);
      } else {
        var _ := debug.swd.WriteOperation(op, data, true);
      }
    }

    /** The single calls that work on memory through AP 0. */
    method DoMemory(c: Call)
      requires debug.swd.Valid() && (c.AddrInc? || c.ReadWord? || c.WriteWord?)
      modifies debug.swd, debug.swd.protocol
      ensures debug.swd.Valid() && debug.swd.waitRetries == old(debug.swd.waitRetries)
      ensures Follows(c, old(Now()), Now(), debug.swd.waitRetries)
    {
      hide InBankZero, OfMemory, OfBank, After, MemAp.Perform, Idles, Env.Clean, Env.Prompt, MemAt, WordAddr, WriteWords, Accesses;
      var swd := debug.swd;
      NoWrites(Now().View());
      MemoryWrites(Now(), swd.waitRetries);
      match c
      case AddrInc(on) => var _ := swd.SetAddrInc(on);
      case ReadWord(addr) => var _ := swd.ReadMem(addr);
      case WriteWord(addr, data) => var _ := swd.WriteMem(addr, data);
    }

    /** The bulk calls. */
    method DoRange(c: Call)
      requires debug.swd.Valid() && (c.ReadRange? || c.WriteRange?)
      modifies debug.swd, debug.swd.protocol
      ensures debug.swd.Valid() && debug.swd.waitRetries == old(debug.swd.waitRetries)
      ensures Follows(c, old(Now()), Now(), debug.swd.waitRetries)
    {
      hide InBankZero, OfMemory, OfBank, After, MemAp.Perform, Idles, Env.Clean, Env.Prompt, MemAt, WordAddr, WriteWords, Accesses;
      var swd := debug.swd;
      NoWrites(Now().View());
      MemoryWrites(Now(), swd.waitRetries);
      match c
      case ReadRange(addr, count, fast) =>
        var buf := new u32[count];
        var _ := swd.ReadMemBulk(addr, buf, fast);
      case WriteRange(addr, words, fast) => var _, _ := swd.WriteMemBulk(addr, words, fast);
    }

    /** The debugger's bulk calls. */
    method DoDebug(c: Call)
      requires debug.swd.Valid() && (c.DebugRead? || c.DebugWrite?)
      modifies debug.swd, debug.swd.protocol
      ensures debug.swd.Valid() && debug.swd.waitRetries == old(debug.swd.waitRetries)
      ensures Follows(c, old(Now()), Now(), debug.swd.waitRetries)
    {
      hide InBankZero, OfMemory, OfBank, After, MemAp.Perform, Idles, Env.Clean, Env.Prompt, MemAt, WordAddr, WriteWords, Accesses;
      var swd := debug.swd;
      NoWrites(Now().View());
      MemoryWrites(Now(), swd.waitRetries);
      match c
      case DebugRead(addr, count, fast) =>
        var buf := new u32[count];
        var _, _ := debug.ReadMemBulk(addr, buf, fast);
      case DebugWrite(addr, words, fast) => var _, _, _ := debug.WriteMemBulk(addr, words, fast);
    }

    /**
     Any calls, one after the other, whatever fails: SELECT and its shadow are
     what the acknowledged SELECT writes of the run make them. So the shadow
     stays right unless a SELECT update failed its check after the write, or
     SELECT was written past the shadow.
     */
    method Run(calls: seq<Call>) returns (ghost starts: seq<Start>)
      requires debug.swd.Valid()
      modifies debug.swd, debug.swd.protocol
      ensures debug.swd.Valid() && debug.swd.waitRetries == old(debug.swd.waitRetries)
      ensures Linked(calls, starts, old(Now()), debug.swd.waitRetries)
      ensures Now().View() == After(old(Now()).View(), AllWrites(calls, starts, debug.swd.waitRetries))
      ensures (forall w | w in AllWrites(calls, starts, debug.swd.waitRetries) :: w.told) && old(debug.swd.ShadowRight()) ==>
                debug.swd.ShadowRight()
    {
      hide Writes, After;
      ghost var first, retries := Now(), debug.swd.waitRetries;
      starts := [];
      NoWrites(first.View());
      for i := 0 to |calls|
        invariant debug.swd.Valid() && debug.swd.waitRetries == retries
        invariant Linked(calls[..i], starts, first, retries) && (i == 0 ==> Now() == first)
        invariant i > 0 ==> Follows(calls[i - 1], starts[i - 1], Now(), retries)
        invariant Now().View() == After(first.View(), AllWrites(calls[..i], starts, retries))
      {
        ghost var s := Now();
        Do(calls[i]);
        RunSnoc(calls[..i], starts, calls[i], s, first, retries);
        assert calls[..i + 1] == calls[..i] + [calls[i]];
        starts := starts + [s];
      }
      assert calls[..|calls|] == calls;
      ToldStaysRight(first.View(), AllWrites(calls, starts, retries));
    }
  }

  lemma NoWrites(v: Selects)
    ensures After(v, []) == v
  {
  }

  lemma RunSnoc(calls: seq<Call>, starts: seq<Start>, c: Call, s: Start, first: Start, retries: nat)
    requires Linked(calls, starts, first, retries)
    requires if calls == [] then s == first else Follows(calls[|calls| - 1], starts[|calls| - 1], s, retries)
    requires s.View() == After(first.View(), AllWrites(calls, starts, retries))
    ensures Linked(calls + [c], starts + [s], first, retries)
    ensures After(first.View(), AllWrites(calls + [c], starts + [s], retries)) == After(s.View(), Writes(c, s, retries))
  {
    hide Writes, After;
    AfterConcat(first.View(), AllWrites(calls, starts, retries), Writes(c, s, retries));
    assert (calls + [c])[..|calls|] == calls && (starts + [s])[..|calls|] == starts;
  }

  /** A right shadow stays right while every write is told. */
  lemma ToldStaysRight(v: Selects, writes: seq<SelectWrite>)
    ensures v.Right() && (forall w | w in writes :: w.told) ==> After(v, writes).Right()
  {
    if writes != [] { assert writes[|writes| - 1] in writes; }
  }
}
