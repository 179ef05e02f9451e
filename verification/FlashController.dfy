/**
 An STM32G0 flash controller: its control and status registers, an operation
 in progress and the flash words. Registers are bit strings, least
 significant bit first. What the source cannot decide (how long an operation
 takes, whether it fails, whether a transfer gets through) comes from `env`.
 */
module FlashController {
  import opened Bits

  type Reg = s: seq<bool> | |s| == 32 witness ToBits(0, 32)

  function Zeros(): Reg { seq(32, i => false) }

  // Control register.
  const PG_BIT := 0
  const PER_BIT := 1
  const PNB_SHIFT := 3
  const PNB_WIDTH := 7
  const BKER_BIT := 13
  const STRT_BIT := 16
  const LOCK_BIT := 31

  // Status register.
  const EOP_BIT := 0
  const PROGERR_BIT := 3
  const WRPERR_BIT := 4
  const PGAERR_BIT := 5
  const SIZERR_BIT := 6
  const BSY1_BIT := 16
  const BSY2_BIT := 17
  const CFGBSY_BIT := 18

  const FLASH_BASE := 0x0800_0000
  const PAGE_SIZE := 0x800
  const BANK_SIZE := 0x4_0000
  const ERASED: u32 := 0xFFFF_FFFF

  function Or(a: Reg, b: Reg): Reg { seq(32, i requires 0 <= i < 32 => a[i] || b[i]) }

  function AndNot(a: Reg, b: Reg): Reg { seq(32, i requires 0 <= i < 32 => a[i] && !b[i]) }

  /** The number `v`, shifted left. */
  function Shifted(v: nat, shift: nat): Reg
    requires shift <= 32
  {
    seq(32, i requires 0 <= i < 32 => i >= shift && ToBits(v, 32 - shift)[i - shift])
  }

  function ErrorMask(): Reg { seq(32, i => PROGERR_BIT <= i <= SIZERR_BIT) }

  predicate Busy(sr: Reg) { sr[BSY1_BIT] || sr[BSY2_BIT] || sr[CFGBSY_BIT] }

  predicate Errors(sr: Reg) { sr[PROGERR_BIT] || sr[WRPERR_BIT] || sr[PGAERR_BIT] || sr[SIZERR_BIT] }

  /** The page a control register value selects. */
  function PageOf(cr: Reg): nat {
    (if cr[BKER_BIT] then 128 else 0) + FromBits(cr[PNB_SHIFT..PNB_SHIFT + PNB_WIDTH])
  }

  predicate InPage(a: nat, page: nat) {
    FLASH_BASE + PAGE_SIZE * page <= a < FLASH_BASE + PAGE_SIZE * page + PAGE_SIZE
  }

  function Filled(cells: map<nat, u32>, page: nat, f: nat -> u32): map<nat, u32> {
    map a | a in cells :: if InPage(a, page) then f(a) else cells[a]
  }

  function ErasePage(cells: map<nat, u32>, page: nat): map<nat, u32> { Filled(cells, page, a => ERASED) }

  /** Words come in pairs. */
  ghost predicate Paired(words: set<nat>) {
    && (forall a | a in words :: a % 4 == 0 && FLASH_BASE <= a < 0x1_0000_0000)
    && (forall a | a in words :: a % 8 == 0 ==> a + 4 in words)
    && (forall a | a in words :: a % 8 == 4 ==> a - 4 in words)
  }

  /** What happens at one bus transfer. A write that is acknowledged may still be lost. */
  datatype Choice = Choice(link: bool, reached: bool, lost: bool, busy: nat, flags: Reg, early: bool, eop: bool, fault: Reg, junk: nat -> u32)
  {
    function SomeFlags(): Reg { seq(32, i requires 0 <= i < 32 => BSY1_BIT <= i <= CFGBSY_BIT && flags[i]) }

    /** Some of the three busy flags, at least one. */
    function BusyFlags(): (r: Reg) {
      if Busy(SomeFlags()) then SomeFlags() else SomeFlags()[BSY1_BIT := true]
    }

    /** The end-of-operation flag, raised or not. */
    function Done(): Reg { seq(32, i => i == EOP_BIT && eop) }

    function Faults(): Reg { seq(32, i requires 0 <= i < 32 => ErrorMask()[i] && fault[i]) }
  }

  /** A program request: a doubleword and the words for it. */
  datatype Asked = Asked(addr: nat, lo: u32, hi: u32)

  datatype Flash = Flash(
    env: nat -> Choice, t: nat,
    cr: Reg, status: Reg, due: Reg, busy: nat,
    cells: map<nat, u32>, latch: map<nat, u32>,
    programmed: seq<nat>, erased: seq<nat>, asked: seq<Asked>, stuck: bool)
  {
    /** An idle controller has nothing left to report, and no start bit. */
    ghost predicate Valid() {
      && Paired(cells.Keys)
      && !Busy(status) && !Busy(due)
      && (busy == 0 ==> !cr[STRT_BIT] && due == Zeros())
    }

    function Now(): Choice { env(t) }

    function Tick(): Flash { this.(t := t + 1) }

    /** A write was lost on the bus. The error sticks, and every transfer from now on fails. */
    function Lost(): Flash { Tick().(stuck := true) }

    /** Every transfer gets through, no write is lost, and no operation fails for reasons of its own. */
    ghost predicate Smooth() {
      !stuck && forall n: nat :: env(n).link && !env(n).lost && !Errors(env(n).Faults())
    }

    /** Are errors flagged, or about to be? */
    predicate Failing() { Errors(status) || Errors(due) }

    /** An operation that is over reports what it has to. */
    function Settle(): Flash {
      if busy > 0 then this else
      this.(cr := cr[STRT_BIT := false], status := Or(Or(status, due), Now().Done()), due := Zeros())
    }

    function Start(cells: map<nat, u32>, due: Reg): Flash {
      this.(cells := cells, due := due, busy := Now().busy).Settle().Tick()
    }

    function StatusNow(): Reg {
      Or(if Now().early then Or(status, due) else status, if busy > 0 then Now().BusyFlags() else Zeros())
    }

    /** The operation in progress moves on while the status is read. */
    function AfterStatus(): Flash {
      (if busy > 0 then this.(busy := busy - 1).Settle() else this).Tick()
    }

    /** Status flags are cleared by writing ones. */
    function AfterClear(v: Reg): Flash { this.(status := AndNot(status, v)).Tick() }

    /** A control register write, which starts a page erase if it asks for one. */
    function AfterControl(v: Reg): Flash {
      if cr[LOCK_BIT] then Tick()
      else if busy > 0 then this.(cr := v).Tick()
      else if !v[STRT_BIT] || !v[PER_BIT] then this.(cr := v[STRT_BIT := false]).Tick()
      else
        var p := PageOf(v);
        var due := Now().Faults();
        this.(cr := v, erased := erased + [p])
            .Start(if Errors(due) then Filled(cells, p, Now().junk) else ErasePage(cells, p), due)
    }

    /** A word written to flash: the first of a pair waits for the second, which starts the program. */
    function AfterWord(a: nat, v: u32): Flash {
      if a !in cells || cr[LOCK_BIT] || !cr[PG_BIT] || busy > 0 then Tick()
      else if a % 8 == 0 then this.(latch := map[a := v]).Tick()
      else if a - 4 !in latch || a - 4 !in cells then Tick()
      else this.(latch := map[]).Program(a - 4, latch[a - 4], v)
    }

    /** Program a doubleword. One that is not erased is refused, and reported. */
    function Program(a: nat, lo: u32, hi: u32): Flash
      requires a in cells && a + 4 in cells
    {
      var f := this.(programmed := programmed + [a], asked := asked + [Asked(a, lo, hi)]);
      if cells[a] != ERASED || cells[a + 4] != ERASED then
        f.Start(cells, Zeros()[PROGERR_BIT := true])
      else if Errors(Now().Faults()) then
        f.Start(cells[a := Now().junk(a)][a + 4 := Now().junk(a + 4)], Now().Faults())
      else
        f.Start(cells[a := lo][a + 4 := hi], Zeros())
    }
  }

  /** The control register value that starts out an erase of page `s`. */
  function EraseValue(cr: Reg, s: nat): Reg {
    var offset := s * PAGE_SIZE % 0x1_0000_0000;
    Select(cr, offset / 0x800 % 0x80, offset >= BANK_SIZE)
  }

  function Select(cr: Reg, pageInBank: nat, bker: bool): Reg {
    var cleared := AndNot(AndNot(cr, Shifted(0x7F, PNB_SHIFT)), Shifted(1, BKER_BIT));
    var selected := Or(cleared, Shifted(1, PER_BIT));
    Or(if bker then Or(selected, Shifted(1, BKER_BIT)) else selected, Shifted(pageInBank, PNB_SHIFT))
  }

  lemma {:induction false} LowBits(n: nat, w: nat, k: nat)
    requires k <= w
    ensures ToBits(n, w)[..k] == ToBits(n, k)
    ensures n < Pow2(k) ==> forall i | k <= i < w :: !ToBits(n, w)[i]
  {
    if k == 0 {
      Zero(n, w);
    } else {
      LowBits(n / 2, w - 1, k - 1);
    }
  }

  lemma {:induction false} Zero(n: nat, w: nat)
    ensures n == 0 ==> forall i | 0 <= i < w :: !ToBits(n, w)[i]
  {
    if w == 0 {
    } else {
      Zero(n / 2, w - 1);
    }
  }

  lemma ShiftedBit(v: nat, shift: nat, i: nat)
    requires shift <= 32 && i < 32
    ensures Shifted(v, shift)[i] == (i >= shift && ToBits(v, 32 - shift)[i - shift])
  {
  }

  /** A small number shifted into place has its own bits there, and zeros elsewhere. */
  lemma FieldBits(v: nat, shift: nat, width: nat)
    requires shift + width <= 32 && v < Pow2(width)
    ensures forall i | shift <= i < shift + width :: Shifted(v, shift)[i] == ToBits(v, width)[i - shift]
    ensures forall i | 0 <= i < 32 && !(shift <= i < shift + width) :: !Shifted(v, shift)[i]
  {
    LowBits(v, 32 - shift, width);
    hide ToBits, Pow2, Shifted;
    var bits := ToBits(v, 32 - shift);
    forall i: nat | i < 32
      ensures Shifted(v, shift)[i] == if shift <= i < shift + width then ToBits(v, width)[i - shift] else false
    {
      ShiftedBit(v, shift, i);
      if shift <= i < shift + width { assert bits[..width][i - shift] == bits[i - shift]; }
    }
  }

  predicate EraseField(i: nat) { i == PER_BIT || PNB_SHIFT <= i < PNB_SHIFT + PNB_WIDTH || i == BKER_BIT }

  /** A shifted field, bit by bit. */
  lemma ShiftedAt(v: nat, shift: nat, width: nat, i: nat)
    requires shift + width <= 32 && v < Pow2(width) && i < 32
    ensures Shifted(v, shift)[i] == (shift <= i < shift + width && ToBits(v, width)[i - shift])
  {
    FieldBits(v, shift, width);
  }

  /** The value written, bit by bit: the three fields, and everything else as it was. */
  lemma SelectAt(cr: Reg, p: nat, bker: bool, i: nat)
    requires p < 128 && i < 32
    ensures Select(cr, p, bker)[i] ==
            if i == PER_BIT then true else if i == BKER_BIT then bker
            else if PNB_SHIFT <= i < PNB_SHIFT + PNB_WIDTH then ToBits(p, 7)[i - PNB_SHIFT] else cr[i]
  {
    SmallNumbers();
    ShiftedAt(0x7F, PNB_SHIFT, 7, i);
    ShiftedAt(1, BKER_BIT, 1, i);
    ShiftedAt(1, PER_BIT, 1, i);
    ShiftedAt(p, PNB_SHIFT, 7, i);
    hide Shifted, ToBits, Pow2;
  }

  lemma SelectBits(cr: Reg, p: nat, bker: bool)
    requires p < 128
    ensures var v := Select(cr, p, bker);
            && v[PER_BIT] && v[BKER_BIT] == bker
            && v[PNB_SHIFT..PNB_SHIFT + PNB_WIDTH] == ToBits(p, 7)
            && forall i: nat | i < 32 && !EraseField(i) :: v[i] == cr[i]
  {
    hide Select, ToBits;
    forall i: nat | i < 32
      ensures Select(cr, p, bker)[i] ==
              if i == PER_BIT then true else if i == BKER_BIT then bker
              else if PNB_SHIFT <= i < PNB_SHIFT + PNB_WIDTH then ToBits(p, 7)[i - PNB_SHIFT] else cr[i]
    {
      SelectAt(cr, p, bker, i);
    }
  }

  lemma SmallNumbers()
    ensures Pow2(7) == 128 && Pow2(1) == 2 && ToBits(1, 1) == [true]
    ensures ToBits(0x7F, 7) == [true, true, true, true, true, true, true]
  {
    assert ToBits(7, 3) == [true, true, true];
    assert ToBits(0x1F, 5) == [true, true] + ToBits(7, 3);
    assert ToBits(0x7F, 7) == [true, true] + ToBits(0x1F, 5);
  }

  lemma EraseValueIs(cr: Reg, s: nat)
    requires s * PAGE_SIZE < 0x1_0000_0000
    ensures EraseValue(cr, s) == Select(cr, s % 128, s >= 128)
  {
    hide Select;
    var offset := s * PAGE_SIZE;
    assert offset / 0x800 == s;
  }

  /** The page selected for `s`: the second bank starts at 128, and from 256 on its pages come again. */
  function PageFor(s: nat): nat { if s < 128 then s else 128 + s % 128 }

  /** Which page the value selects. */
  lemma SelectsPageFor(cr: Reg, s: nat)
    requires s * PAGE_SIZE < 0x1_0000_0000
    ensures PageOf(EraseValue(cr, s)) == PageFor(s)
  {
    EraseValueIs(cr, s);
    SelectedPage(cr, s % 128, s >= 128);
    hide Select, EraseValue, PageOf;
  }

  /** The value selects page `s` exactly when there is a page of that number: the two banks have 128 each. */
  lemma SelectsPage(cr: Reg, s: nat)
    requires s * PAGE_SIZE < 0x1_0000_0000
    ensures PageOf(EraseValue(cr, s)) == s <==> s < 256
  {
    SelectsPageFor(cr, s);
    hide EraseValue, PageOf;
  }

  lemma SelectedPage(cr: Reg, p: nat, bker: bool)
    requires p < 128
    ensures PageOf(Select(cr, p, bker)) == (if bker then 128 else 0) + p
  {
    SelectBits(cr, p, bker);
    SmallNumbers();
    BitsRoundTrip(p, 7);
    hide Select, ToBits, FromBits, Pow2;
  }

  /** The value asks for a page erase, and leaves the other fields alone. */
  lemma SelectsNothingElse(cr: Reg, s: nat)
    requires s * PAGE_SIZE < 0x1_0000_0000
    ensures EraseValue(cr, s)[PER_BIT]
    ensures forall i: nat | i < 32 && !EraseField(i) :: EraseValue(cr, s)[i] == cr[i]
  {
    EraseValueIs(cr, s);
    SelectBits(cr, s % 128, s >= 128);
    hide Select, EraseValue;
  }

  /** The same but for the start bit, which the controller clears itself. */
  ghost predicate Alike(a: Reg, b: Reg) { forall i: nat | i < 32 && i != STRT_BIT :: a[i] == b[i] }

  /** The link is as it was. */
  ghost predicate Linked(f: Flash, g: Flash) { g.env == f.env && g.stuck == f.stuck }

  /** Nothing happened to the flash, and the control register is as it was. */
  ghost predicate Kept(f: Flash, g: Flash) {
    && g.cells == f.cells && g.programmed == f.programmed && g.erased == f.erased && g.asked == f.asked
    && Alike(g.cr, f.cr)
  }

  lemma NoBits()
    ensures !Busy(Zeros()) && !Errors(Zeros())
  {
  }

  lemma OrFlags(a: Reg, b: Reg)
    ensures Busy(Or(a, b)) == (Busy(a) || Busy(b))
    ensures Errors(Or(a, b)) == (Errors(a) || Errors(b))
  {
  }

  lemma BusyFlagsOnly(c: Choice)
    ensures Busy(c.BusyFlags()) && !Errors(c.BusyFlags())
    ensures !Busy(c.Faults()) && !Busy(c.Done()) && !Errors(c.Done())
  {
  }

  /** An operation that is over still fails if it failed. */
  lemma SettleStep(f: Flash)
    requires !Busy(f.status) && !Busy(f.due)
    ensures var g := f.Settle();
            && !Busy(g.status) && !Busy(g.due) && (g.busy == 0 ==> !g.cr[STRT_BIT] && g.due == Zeros())
            && Kept(f, g) && g.busy == f.busy && Linked(f, g) && (g.Failing() <==> f.Failing())
  {
    NoBits();
    OrFlags(f.status, f.due);
    OrFlags(Or(f.status, f.due), f.Now().Done());
    BusyFlagsOnly(f.Now());
    hide Or, Busy, Errors, ToBits, Paired, Choice.Done, Choice.BusyFlags, Choice.Faults;
  }

  /** While the status is read, the operation in progress moves on. */
  lemma StatusStep(f: Flash)
    requires f.Valid()
    ensures var g := f.AfterStatus();
            && g.Valid() && Kept(f, g) && Linked(f, g) && (g.Failing() <==> f.Failing())
            && g.busy == (if f.busy > 0 then f.busy - 1 else 0)
  {
    if f.busy > 0 { SettleStep(f.(busy := f.busy - 1)); }
    hide Or, Busy, Errors, ToBits, Paired, Flash.Settle;
  }

  /** The status read: busy exactly while an operation runs, and every error shows by the time it is over. */
  lemma StatusValue(f: Flash)
    requires f.Valid()
    ensures var v := f.StatusNow();
            && (Busy(v) <==> f.busy > 0)
            && (Errors(v) ==> f.Failing()) && (f.busy == 0 && f.Failing() ==> Errors(v))
  {
    NoBits();
    OrFlags(f.status, f.due);
    BusyFlagsOnly(f.Now());
    var base := if f.Now().early then Or(f.status, f.due) else f.status;
    OrFlags(base, if f.busy > 0 then f.Now().BusyFlags() else Zeros());
    hide Or, Busy, Errors, ToBits, Choice.BusyFlags, Flash.Settle;
  }

  lemma ClearStep(f: Flash, v: Reg)
    requires f.Valid() && f.busy == 0
    requires v[PROGERR_BIT] && v[WRPERR_BIT] && v[PGAERR_BIT] && v[SIZERR_BIT]
    ensures var g := f.AfterClear(v);
            g.Valid() && Kept(f, g) && g.busy == 0 && Linked(f, g) && !g.Failing()
  {
    NoBits();
    ClearedFlags(f.status, v);
    hide AndNot, Busy, Errors, ToBits, Paired;
  }

  /** An idle controller's status shows the end-of-operation flag as it is. */
  lemma StatusEop(f: Flash)
    requires f.Valid() && f.busy == 0
    ensures f.StatusNow()[EOP_BIT] == f.status[EOP_BIT] && f.AfterStatus().status == f.status
  {
  }

  lemma ClearsEop(f: Flash, v: Reg)
    requires f.status[EOP_BIT] ==> v[EOP_BIT]
    ensures !f.AfterClear(v).status[EOP_BIT]
  {
  }

  lemma ClearedFlags(a: Reg, v: Reg)
    requires v[PROGERR_BIT] && v[WRPERR_BIT] && v[PGAERR_BIT] && v[SIZERR_BIT]
    ensures !Errors(AndNot(a, v)) && (!Busy(a) ==> !Busy(AndNot(a, v)))
  {
  }

  lemma StartStep(f: Flash, cells: map<nat, u32>, due: Reg)
    requires !Busy(f.status) && !Busy(due) && Paired(cells.Keys)
    ensures var g := f.Start(cells, due);
            && g.Valid() && Alike(g.cr, f.cr) && g.cells == cells
            && g.programmed == f.programmed && g.erased == f.erased && g.asked == f.asked && Linked(f, g)
            && (g.Failing() <==> Errors(f.status) || Errors(due))
  {
    SettleStep(f.(cells := cells, due := due, busy := f.Now().busy));
    hide Busy, Errors, Paired, Flash.Settle;
  }

  /** `g` differs from `f` in the words of `places` at most, and no word appeared or went. */
  ghost predicate OnlyThere(f: map<nat, u32>, g: map<nat, u32>, places: iset<nat>) {
    g.Keys == f.Keys && forall a | a in f && a !in places :: g[a] == f[a]
  }

  ghost function PageWords(page: nat): iset<nat> { iset a: nat | InPage(a, page) }

  /** A control register write that starts an erase. */
  lemma EraseStep(f: Flash, v: Reg)
    requires f.Valid() && f.busy == 0 && !f.cr[LOCK_BIT] && !f.Failing()
    requires v[STRT_BIT] && v[PER_BIT]
    ensures var (g, p) := (f.AfterControl(v), PageOf(v));
            && g.Valid() && Alike(g.cr, v)
            && g.erased == f.erased + [p] && g.programmed == f.programmed && Linked(f, g)
            && OnlyThere(f.cells, g.cells, PageWords(p))
            && (!g.Failing() ==> g.cells == ErasePage(f.cells, p))
            && (f.Smooth() ==> !g.Failing())
  {
    var due, p := f.Now().Faults(), PageOf(v);
    var cells := if Errors(due) then Filled(f.cells, p, f.Now().junk) else ErasePage(f.cells, p);
    assert cells.Keys == f.cells.Keys;
    BusyFlagsOnly(f.Now());
    StartStep(f.(cr := v, erased := f.erased + [p]), cells, due);
    hide Busy, Errors, Paired, Flash.Settle, Flash.Start, PageOf, InPage, Choice.Faults;
  }

  /** Any other control register write only changes the register. */
  lemma ControlStep(f: Flash, v: Reg)
    requires f.Valid() && !f.cr[LOCK_BIT] && (f.busy > 0 || !v[STRT_BIT] || !v[PER_BIT])
    ensures var g := f.AfterControl(v);
            && g.Valid() && Kept(f.(cr := v), g) && g.busy == f.busy && Linked(f, g) && (g.Failing() <==> f.Failing())
  {
    hide Busy, Errors, Paired, Flash.Start, Or;
  }

  lemma ProgramStep(f: Flash, a: nat, lo: u32, hi: u32)
    requires f.Valid() && !f.Failing() && a in f.cells && a + 4 in f.cells
    ensures var g := f.Program(a, lo, hi);
            && g.Valid() && Alike(g.cr, f.cr)
            && g.programmed == f.programmed + [a] && g.erased == f.erased && g.asked == f.asked + [Asked(a, lo, hi)] && Linked(f, g)
            && OnlyThere(f.cells, g.cells, iset{a, a + 4})
            && (!g.Failing() ==> g.cells == f.cells[a := lo][a + 4 := hi] && f.cells[a] == f.cells[a + 4] == ERASED)
            && (f.Smooth() && f.cells[a] == f.cells[a + 4] == ERASED ==> !g.Failing())
  {
    var h := f.(programmed := f.programmed + [a], asked := f.asked + [Asked(a, lo, hi)]);
    NoBits();
    RefusalShows();
    BusyFlagsOnly(f.Now());
    hide Busy, Errors, Paired, Flash.Start, ToBits, Choice.Faults;
    if f.cells[a] != ERASED || f.cells[a + 4] != ERASED {
      StartStep(h, f.cells, Zeros()[PROGERR_BIT := true]);
    } else if Errors(f.Now().Faults()) {
      var spoilt := f.cells[a := f.Now().junk(a)][a + 4 := f.Now().junk(a + 4)];
      assert spoilt.Keys == f.cells.Keys;
      StartStep(h, spoilt, f.Now().Faults());
    } else {
      var done := f.cells[a := lo][a + 4 := hi];
      assert done.Keys == f.cells.Keys;
      StartStep(h, done, Zeros());
    }
  }

  lemma RefusalShows()
    ensures Errors(Zeros()[PROGERR_BIT := true]) && !Busy(Zeros()[PROGERR_BIT := true])
  {
  }

  /** The first word of a pair waits in the latch. */
  lemma FirstWord(f: Flash, a: nat, lo: u32)
    requires f.Valid() && f.busy == 0 && !f.cr[LOCK_BIT] && f.cr[PG_BIT] && a % 8 == 0
    ensures f.AfterWord(a, lo) == if a in f.cells then f.(latch := map[a := lo]).Tick() else f.Tick()
    ensures f.AfterWord(a, lo).Valid()
  {
    hide Paired, Busy;
  }

  /** The second starts the program. */
  lemma SecondWord(f: Flash, a: nat, lo: u32, hi: u32)
    requires f.Valid() && f.busy == 0 && !f.cr[LOCK_BIT] && f.cr[PG_BIT] && a % 8 == 0
    ensures a !in f.cells ==> f.AfterWord(a + 4, hi) == f.Tick()
    ensures a in f.cells ==> a + 4 in f.cells
    ensures a in f.cells && f.latch == map[a := lo] ==> f.AfterWord(a + 4, hi) == f.(latch := map[]).Program(a, lo, hi)
  {
    hide Flash.Program;
    if a !in f.cells {
      NoPair(f, a);
    } else {
      assert (a + 4) % 8 == 4;
    }
  }

  /** Two word writes with the program bit set: nothing outside flash, a program of the doubleword inside. */
  lemma PairStep(f: Flash, a: nat, lo: u32, hi: u32)
    requires f.Valid() && f.busy == 0 && !f.cr[LOCK_BIT] && f.cr[PG_BIT] && !f.Failing() && a % 8 == 0
    ensures var m := f.AfterWord(a, lo);
            && m.Valid() && m.busy == 0 && m.cells == f.cells && m.programmed == f.programmed && m.erased == f.erased && m.asked == f.asked && m.cr == f.cr && Linked(f, m)
            && PairDone(f, m.AfterWord(a + 4, hi), a, lo, hi)
  {
    FirstWord(f, a, lo);
    var m := f.AfterWord(a, lo);
    SecondWord(m, a, lo, hi);
    hide Flash.AfterWord, Flash.Program, Paired, Busy, Errors, OnlyThere, Alike;
    if a in f.cells {
      ProgramStep(m.(latch := map[]), a, lo, hi);
    } else {
      AlikeRefl(f.cr);
    }
  }

  lemma AlikeRefl(r: Reg)
    ensures Alike(r, r)
  {
  }

  lemma NoPair(f: Flash, a: nat)
    requires f.Valid() && a % 8 == 0 && a !in f.cells
    ensures a + 4 !in f.cells
  {
  }

  ghost predicate PairDone(f: Flash, g: Flash, a: nat, lo: u32, hi: u32) {
    && g.Valid() && Alike(g.cr, f.cr) && g.erased == f.erased && Linked(f, g)
    && (if a in f.cells && a + 4 in f.cells then
          && g.programmed == f.programmed + [a] && g.asked == f.asked + [Asked(a, lo, hi)] && OnlyThere(f.cells, g.cells, iset{a, a + 4})
          && (!g.Failing() ==> g.cells == f.cells[a := lo][a + 4 := hi] && f.cells[a] == f.cells[a + 4] == ERASED)
          && (f.Smooth() && f.cells[a] == f.cells[a + 4] == ERASED ==> !g.Failing())
        else
          g.programmed == f.programmed && g.asked == f.asked && g.cells == f.cells && (g.Failing() <==> f.Failing()))
  }
}
