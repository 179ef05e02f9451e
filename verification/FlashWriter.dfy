/** Erasing and programming the flash of an STM32G0 through its memory-mapped controller. */
module FlashWriter {
  import opened Wrappers
  import opened Bits
  import opened ByteWindow
  import opened DebugPort
  import opened FlashController

  /** What is known of the microcontroller. */
  datatype Mcu = Unidentified | Other | StmG0(flashSize: Option<u32>)

  /** `g` follows `f` while the controller is only looked at. */
  ghost predicate Watched(f: Flash, g: Flash) {
    g.Valid() && Kept(f, g) && Linked(f, g) && (g.Failing() <==> f.Failing()) && g.busy <= f.busy
  }

  /** An erase of page `p` was tried: nothing else changed. */
  ghost predicate EraseTried(f: Flash, g: Flash, p: nat) {
    && g.Valid() && g.programmed == f.programmed && !g.cr[LOCK_BIT]
    && OnlyThere(f.cells, g.cells, PageWords(p))
    && ((g.erased == f.erased && g.cells == f.cells) || g.erased == f.erased + [p])
  }

  ghost predicate EraseDone(f: Flash, g: Flash, p: nat) {
    && g.busy == 0 && g.erased == f.erased + [p] && g.cells == ErasePage(f.cells, p)
  }

  /** A program of the doubleword at `a` was tried: nothing else changed. */
  ghost predicate ProgramTried(f: Flash, g: Flash, a: nat) {
    && g.Valid() && g.erased == f.erased && !g.cr[LOCK_BIT]
    && OnlyThere(f.cells, g.cells, iset{a, a + 4})
    && ((g.programmed == f.programmed && g.cells == f.cells) || (a in f.cells && g.programmed == f.programmed + [a]))
  }

  /** Nothing was asked of the controller but a program of the doubleword at `a` with these words; that was, if `done`. */
  ghost predicate AskedFor(f: Flash, g: Flash, a: nat, lo: u32, hi: u32, done: bool) {
    && (g.asked == f.asked || g.asked == f.asked + [Asked(a, lo, hi)])
    && (done && a in f.cells && a + 4 in f.cells ==> g.asked == f.asked + [Asked(a, lo, hi)])
  }

  /** What was asked is the doubleword as it was, with the value patched in. */
  ghost predicate AskedAsRead(f: Flash, g: Flash, addr: u32, data: u32, width: Width, done: bool) {
    var base := First(addr);
    Aligned(addr, width) && Fits(addr, width) && base in f.cells && base + 4 in f.cells ==>
      var (lo, hi) := PatchedPair((f.cells[base], f.cells[base + 4]), addr, data, width);
      AskedFor(f, g, base, lo, hi, done)
  }

  /** The doubleword at `a` was erased, and now holds `lo` and `hi`. */
  ghost predicate ProgramDone(f: Flash, g: Flash, a: nat, lo: u32, hi: u32)
  {
    && a in f.cells && a + 4 in f.cells && f.cells[a] == f.cells[a + 4] == ERASED
    && g.cells == f.cells[a := lo][a + 4 := hi] && g.programmed == f.programmed + [a]
  }

  /** The doubleword at `a`, if it is one of flash, is erased. */
  ghost predicate Erased(f: Flash, a: nat) {
    a in f.cells && a + 4 in f.cells ==> f.cells[a] == f.cells[a + 4] == ERASED
  }

  class FlashWriter {
    const mcu: Mcu
    var flash: Flash
    /** How many transfers failed or were lost. */
    ghost var troubles: nat

    constructor (mcu: Mcu, flash: Flash)
      ensures this.mcu == mcu && this.flash == flash
    {
      this.mcu, this.flash := mcu, flash;
      troubles := 0;
    }

    method ReadSr() returns (r: Result<Reg, SwdError>)
      requires flash.Valid()
      modifies this`flash, this`troubles
      ensures Watched(old(flash), flash)
      ensures r.Ok? ==>
                && !flash.stuck
                && (Busy(r.value) <==> old(flash).busy > 0) && (Errors(r.value) ==> flash.Failing())
                && (old(flash).busy == 0 && flash.Failing() ==> Errors(r.value))
                && (old(flash).busy > 0 ==> flash.busy < old(flash).busy)
                && (old(flash).busy == 0 ==> r.value[EOP_BIT] == flash.status[EOP_BIT])
      ensures old(troubles) <= troubles && (old(flash).Smooth() ==> flash.Smooth() && troubles == old(troubles))
      ensures troubles == old(troubles) ==> r.Ok? && !flash.stuck
    {
      hide Busy, Errors, Paired, Flash.Settle, Or, Choice.BusyFlags;
      if flash.stuck || !flash.Now().link {
        flash, troubles := flash.Tick(), troubles + 1;
        var e: SwdError := *;
        return Err(e);
      }
      StatusStep(flash);
      StatusValue(flash);
      if flash.busy == 0 { StatusEop(flash); }
      r := Ok(flash.StatusNow());
      hide Flash.AfterStatus, Flash.StatusNow;
      flash := flash.AfterStatus();
    }

    method WriteSr(v: Reg) returns (r: Result<(), SwdError>)
      modifies this`flash, this`troubles
      ensures r.Ok? ==> !old(flash).stuck && flash in {old(flash).AfterClear(v), old(flash).Lost()}
      ensures flash in {old(flash).AfterClear(v), old(flash).Lost(), old(flash).Tick()}
      ensures old(flash).stuck ==> flash == old(flash).Tick()
      ensures old(troubles) <= troubles && (old(flash).Smooth() ==> flash.Smooth() && troubles == old(troubles))
      ensures troubles == old(troubles) ==> r.Ok? && flash == old(flash).AfterClear(v)
    {
      var e: SwdError := *;
      var c := flash.Now();
      r := if c.link && !flash.stuck then Ok(()) else Err(e);
      if r.Err? || c.lost { troubles := troubles + 1; }
      if flash.stuck || (!c.link && !c.reached) {
        flash := flash.Tick();
      } else {
        flash := if c.lost then flash.Lost() else flash.AfterClear(v);
      }
    }

    method ReadCr() returns (r: Result<Reg, SwdError>)
      requires flash.Valid()
      modifies this`flash, this`troubles
      ensures flash.Valid() && SameFlash(old(flash), flash) && flash.cr == old(flash).cr && flash.busy == old(flash).busy
      ensures flash.Failing() <==> old(flash).Failing()
      ensures Linked(old(flash), flash)
      ensures r.Ok? ==> r.value == flash.cr && !flash.stuck
      ensures old(troubles) <= troubles && (old(flash).Smooth() ==> flash.Smooth() && troubles == old(troubles))
      ensures troubles == old(troubles) ==> r.Ok? && !flash.stuck
    {
      hide Paired, Busy, Errors;
      var e: SwdError := *;
      r := if flash.Now().link && !flash.stuck then Ok(flash.cr) else Err(e);
      if r.Err? { troubles := troubles + 1; }
      flash := flash.Tick();
    }

    method WriteCr(v: Reg) returns (r: Result<(), SwdError>)
      modifies this`flash, this`troubles
      ensures r.Ok? ==> !old(flash).stuck && flash in {old(flash).AfterControl(v), old(flash).Lost()}
      ensures flash in {old(flash).AfterControl(v), old(flash).Lost(), old(flash).Tick()}
      ensures old(flash).stuck ==> flash == old(flash).Tick()
      ensures old(troubles) <= troubles && (old(flash).Smooth() ==> flash.Smooth() && troubles == old(troubles))
      ensures troubles == old(troubles) ==> r.Ok? && flash == old(flash).AfterControl(v)
    {
      var e: SwdError := *;
      var c := flash.Now();
      r := if c.link && !flash.stuck then Ok(()) else Err(e);
      if r.Err? || c.lost { troubles := troubles + 1; }
      if flash.stuck || (!c.link && !c.reached) {
        flash := flash.Tick();
      } else {
        flash := if c.lost then flash.Lost() else flash.AfterControl(v);
      }
    }

    /** A control register write that starts nothing. */
    method ModifyCr(v: Reg) returns (r: Result<(), SwdError>)
      requires flash.Valid() && !flash.cr[LOCK_BIT] && !v[LOCK_BIT] && (flash.busy > 0 || !v[STRT_BIT])
      modifies this`flash, this`troubles
      ensures flash.Valid() && SameFlash(old(flash), flash) && !flash.cr[LOCK_BIT] && flash.busy == old(flash).busy
      ensures flash.Failing() <==> old(flash).Failing()
      ensures r.Ok? ==> !old(flash).stuck && (flash.stuck || Alike(flash.cr, v))
      ensures old(troubles) <= troubles && (old(flash).Smooth() ==> flash.Smooth() && troubles == old(troubles))
      ensures troubles == old(troubles) ==> r.Ok? && !flash.stuck
    {
      hide Paired, Busy, Errors, Flash.AfterControl;
      ControlStep(flash, v);
      r := WriteCr(v);
    }

    method ReadWord(a: u32) returns (r: Result<u32, SwdError>)
      modifies this`flash, this`troubles
      ensures flash == old(flash).Tick() && (r.Ok? ==> !flash.stuck)
      ensures r.Ok? && a in flash.cells ==> r.value == flash.cells[a]
      ensures old(troubles) <= troubles && (old(flash).Smooth() ==> flash.Smooth() && troubles == old(troubles))
      ensures troubles == old(troubles) ==> r.Ok? && !flash.stuck
    {
      var e: SwdError := *;
      var c := flash.Now();
      var w: u32 := if a in flash.cells then flash.cells[a] else c.junk(a);
      r := if c.link && !flash.stuck then Ok(w) else Err(e);
      if r.Err? { troubles := troubles + 1; }
      flash := flash.Tick();
    }

    method WriteWord(a: u32, v: u32) returns (r: Result<(), SwdError>)
      modifies this`flash, this`troubles
      ensures r.Ok? ==> !old(flash).stuck && flash in {old(flash).AfterWord(a, v), old(flash).Lost()}
      ensures flash in {old(flash).AfterWord(a, v), old(flash).Lost(), old(flash).Tick()}
      ensures old(flash).stuck ==> flash == old(flash).Tick()
      ensures old(troubles) <= troubles && (old(flash).Smooth() ==> flash.Smooth() && troubles == old(troubles))
      ensures troubles == old(troubles) ==> r.Ok? && flash == old(flash).AfterWord(a, v)
    {
      var e: SwdError := *;
      var c := flash.Now();
      r := if c.link && !flash.stuck then Ok(()) else Err(e);
      if r.Err? || c.lost { troubles := troubles + 1; }
      if flash.stuck || (!c.link && !c.reached) {
        flash := flash.Tick();
      } else {
        flash := if c.lost then flash.Lost() else flash.AfterWord(a, v);
      }
    }

    method WaitNotBusy() returns (r: Result<(), SwdError>)
      requires flash.Valid()
      modifies this`flash, this`troubles
      ensures Watched(old(flash), flash) && (r.Ok? ==> flash.busy == 0 && !flash.stuck)
      ensures old(troubles) <= troubles && (old(flash).Smooth() ==> flash.Smooth() && troubles == old(troubles))
      ensures troubles == old(troubles) ==> r.Ok? && !flash.stuck
    {
      hide Busy, Errors, Paired;
      while true
        invariant Watched(old(flash), flash)
        invariant old(troubles) <= troubles && (old(flash).Smooth() ==> flash.Smooth() && troubles == old(troubles))
        decreases flash.busy
      {
        var sr := ReadSr();
        if sr.Err? {
          return Err(sr.error);
        }
        if !Busy(sr.value) {
          return Ok(());
        }
      }
    }

    method ClearStatus() returns (r: Result<(), SwdError>)
      requires flash.Valid() && flash.busy == 0
      modifies this`flash, this`troubles
      ensures flash.Valid() && Kept(old(flash), flash) && flash.busy == 0
      ensures r.Ok? ==> flash.stuck || !flash.Failing()
      ensures old(troubles) <= troubles && (old(flash).Smooth() ==> flash.Smooth() && troubles == old(troubles))
      ensures troubles == old(troubles) ==> r.Ok? && !flash.stuck
      ensures troubles == old(troubles) ==> !flash.status[EOP_BIT]
    {
      hide Busy, Errors, Paired;
      var sr := ReadSr();
      if sr.Err? {
        return Err(sr.error);
      }
      var clear: Reg := ErrorMask();
      if sr.value[EOP_BIT] {
        clear := clear[EOP_BIT := true];
      }
      ClearStep(flash, clear);
      ClearsEop(flash, clear);
      hide ErrorMask, Flash.AfterClear, Flash.Failing;
      r := WriteSr(clear);
    }

    /** What either operation begins with. */
    method Prepare() returns (r: Result<(), SwdError>)
      requires flash.Valid()
      modifies this`flash, this`troubles
      ensures flash.Valid() && Kept(old(flash), flash)
      ensures r.Ok? ==> flash.busy == 0 && (flash.stuck || !flash.Failing())
      ensures old(troubles) <= troubles && (old(flash).Smooth() ==> flash.Smooth() && troubles == old(troubles))
      ensures troubles == old(troubles) ==> r.Ok? && !flash.stuck
    {
      hide Paired, Flash.Failing, Busy, Errors;
      r := WaitNotBusy();
      if r.Ok? {
        r := ClearStatus();
      }
    }

    /** Wait for the end of an operation: true if it went well, false if an error shows. */
    method Poll() returns (r: Result<bool, SwdError>)
      requires flash.Valid()
      modifies this`flash, this`troubles
      ensures Watched(old(flash), flash)
      ensures r.Ok? ==> !flash.stuck && (r.value <==> !flash.Failing()) && (r.value ==> flash.busy == 0)
      ensures old(troubles) <= troubles && (old(flash).Smooth() ==> flash.Smooth() && troubles == old(troubles))
      ensures troubles == old(troubles) ==> r.Ok? && !flash.stuck
    {
      hide Busy, Errors, Paired;
      while true
        invariant Watched(old(flash), flash)
        invariant old(troubles) <= troubles && (old(flash).Smooth() ==> flash.Smooth() && troubles == old(troubles))
        decreases flash.busy
      {
        var sr := ReadSr();
        if sr.Err? {
          return Err(sr.error);
        }
        if Errors(sr.value) {
          return Ok(false);
        }
        if !Busy(sr.value) {
          return Ok(true);
        }
      }
    }

    method ExecuteErasePage(v: Reg) returns (r: Result<(), SwdError>)
      requires flash.Valid() && !flash.cr[LOCK_BIT] && !v[LOCK_BIT] && v[PER_BIT]
      modifies this`flash, this`troubles
      ensures EraseTried(old(flash), flash, PageOf(v))
      ensures r.Ok? ==> EraseDone(old(flash), flash, PageOf(v)) && Alike(flash.cr, v)
      ensures old(troubles) <= troubles && (old(flash).Smooth() ==> flash.Smooth() && troubles == old(troubles))
      ensures troubles == old(troubles) ==> !flash.stuck && Alike(flash.cr, v) && (r.Err? ==> r.error.OperationFailed?)
      ensures old(flash).Smooth() ==> r.Ok?
    {
      hide Busy, Errors, Paired, ErasePage, PageOf, OnlyThere, Flash.AfterControl, Flash.Failing;
      r := Prepare();
      NotTried(old(flash), flash, PageOf(v));
      if r.Err? {
        return;
      }
      var v': Reg := v[STRT_BIT := true];
      if !flash.stuck { EraseStep(flash, v'); }
      StartBitApart(v);
      r := WriteCr(v');
      if r.Err? {
        return;
      }
      var done := Poll();
      if done.Err? {
        return Err(done.error);
      }
      r := if done.value then Ok(()) else Err(OperationFailed);
    }

    /** Erase one page. */
    method EraseSector(s: u32) returns (r: Result<(), SwdError>)
      requires flash.Valid() && !flash.cr[LOCK_BIT]
      modifies this`flash, this`troubles
      ensures flash.Valid() && !flash.cr[LOCK_BIT]
      ensures !InFlash(s) ==> r == Err(Refusal()) && flash == old(flash)
      ensures InFlash(s) ==> EraseTried(old(flash), flash, PageOf(EraseValue(old(flash).cr, s)))
      ensures r.Ok? ==> InFlash(s) && EraseDone(old(flash), flash, PageOf(EraseValue(old(flash).cr, s)))
      ensures r.Ok? ==> flash.busy == 0
      ensures r.Ok? && !flash.stuck ==> !flash.cr[PER_BIT]
      ensures r.Ok? && !flash.stuck ==> forall i: nat | i < 32 && !EraseField(i) && i != STRT_BIT :: flash.cr[i] == old(flash).cr[i]
      ensures old(flash).Smooth() && InFlash(s) ==> r.Ok?
      ensures old(troubles) <= troubles && (old(flash).Smooth() ==> flash.Smooth() && troubles == old(troubles))
      ensures troubles == old(troubles) && InFlash(s) && r.Err? ==> r.error.OperationFailed? && flash.cr[PER_BIT]
    {
      hide Paired, PageOf, EraseValue, ErasePage, Flash.AfterControl, Flash.Valid;
      match mcu
      case Unidentified => return Err(NotReady);
      case Other => return Err(Unsupported);
      case StmG0(None) => return Err(Unsupported);
      case StmG0(Some(size)) =>
        if s >= size / PAGE_SIZE {
          return Err(Api);
        }
        r := EraseChosen(s);
    }

    /** Does the flash have a page `s`? */
    predicate InFlash(s: nat) { mcu.StmG0? && mcu.flashSize.Some? && s < mcu.flashSize.value / PAGE_SIZE }

    /** Why an erase is refused before anything is sent. */
    function Refusal(): SwdError {
      match mcu
      case Unidentified => NotReady
      case StmG0(Some(_)) => Api
      case _ => Unsupported
    }

    method EraseChosen(s: u32) returns (r: Result<(), SwdError>)
      requires flash.Valid() && !flash.cr[LOCK_BIT] && s * PAGE_SIZE < 0x1_0000_0000
      modifies this`flash, this`troubles
      ensures EraseTried(old(flash), flash, PageOf(EraseValue(old(flash).cr, s)))
      ensures r.Ok? ==> EraseDone(old(flash), flash, PageOf(EraseValue(old(flash).cr, s)))
      ensures r.Ok? ==> flash.busy == 0
      ensures r.Ok? && !flash.stuck ==> !flash.cr[PER_BIT]
      ensures r.Ok? && !flash.stuck ==> forall i: nat | i < 32 && !EraseField(i) && i != STRT_BIT :: flash.cr[i] == old(flash).cr[i]
      ensures old(troubles) <= troubles && (old(flash).Smooth() ==> flash.Smooth() && troubles == old(troubles))
      ensures troubles == old(troubles) && r.Err? ==> r.error.OperationFailed? && flash.cr[PER_BIT]
      ensures old(flash).Smooth() ==> r.Ok?
    {
      hide PageOf, EraseValue, ErasePage, OnlyThere, Alike, Paired, Busy, Errors;
      SelectsNothingElse(flash.cr, s);
      var v;
      r, v := SelectPage(s);
      if r.Err? {
        NotTried(old(flash), flash, PageOf(EraseValue(old(flash).cr, s)));
        return;
      }
      ghost var f := flash;
      r := ExecuteErasePage(v);
      TryFrom(old(flash), f, flash, PageOf(v));
      if r.Err? {
        if Alike(flash.cr, v) { AlikeBit(flash.cr, v, PER_BIT); }
        return;
      }
      f := flash;
      var read;
      r, read := ClearBit(PER_BIT);
      TryTo(old(flash), f, flash, PageOf(v));
      if r.Ok? && !flash.stuck { UnrelatedBits(old(flash).cr, v, f.cr, flash.cr); }
    }

    method SelectPage(s: u32) returns (r: Result<(), SwdError>, v: Reg)
      requires flash.Valid() && !flash.cr[LOCK_BIT] && s * PAGE_SIZE < 0x1_0000_0000
      modifies this`flash, this`troubles
      ensures flash.Valid() && !flash.cr[LOCK_BIT] && SameFlash(old(flash), flash)
      ensures r.Ok? ==> v == EraseValue(old(flash).cr, s)
      ensures old(troubles) <= troubles && (old(flash).Smooth() ==> flash.Smooth() && troubles == old(troubles))
      ensures troubles == old(troubles) ==> r.Ok? && !flash.stuck
    {
      hide PageOf, EraseValue, Flash.Valid, Flash.Failing;
      v := Zeros();
      var cr := ReadCr();
      if cr.Err? {
        return Err(cr.error), v;
      }
      SelectsNothingElse(cr.value, s);
      IdleMeansStopped(flash);
      v := EraseValue(cr.value, s);
      r := ModifyCr(v);
    }

    /** Read the control register and write it back without one bit. */
    method ClearBit(bit: nat) returns (r: Result<(), SwdError>, read: bool)
      requires flash.Valid() && !flash.cr[LOCK_BIT] && bit < 32 && bit != STRT_BIT && bit != LOCK_BIT
      modifies this`flash, this`troubles
      ensures flash.Valid() && !flash.cr[LOCK_BIT] && SameFlash(old(flash), flash) && flash.busy == old(flash).busy
      ensures !read ==> r.Err?
      ensures r.Ok? ==> !old(flash).stuck && (flash.stuck || Alike(flash.cr, old(flash).cr[bit := false]))
      ensures old(troubles) <= troubles && (old(flash).Smooth() ==> flash.Smooth() && troubles == old(troubles))
      ensures troubles == old(troubles) ==> r.Ok? && !flash.stuck
    {
      hide Flash.Valid, Flash.Failing, Alike;
      var cr := ReadCr();
      if cr.Err? {
        return Err(cr.error), false;
      }
      IdleMeansStopped(flash);
      var v: Reg := cr.value[bit := false];
      read := true;
      r := ModifyCr(v);
    }

    /** Erase page by page: `done` of them are erased; if it stops, the next one may have been tried. */
    method EraseAll() returns (r: Result<(), SwdError>, ghost done: nat)
      requires flash.Valid() && !flash.cr[LOCK_BIT]
      modifies this`flash, this`troubles
      ensures flash.Valid() && !flash.cr[LOCK_BIT]
      ensures !InFlash(0) ==> done == 0 && flash == old(flash) && (r.Ok? ==> mcu.StmG0? && mcu.flashSize.Some?)
      ensures r.Ok? && InFlash(0) ==> done == mcu.flashSize.value / PAGE_SIZE && PagesErased(old(flash), flash, done)
      ensures r.Err? ==> (InFlash(0) ==> InFlash(done)) && ErasingStopped(old(flash), flash, done)
      ensures old(flash).Smooth() && mcu.StmG0? && mcu.flashSize.Some? ==> r.Ok?
      ensures old(troubles) <= troubles && (old(flash).Smooth() ==> flash.Smooth() && troubles == old(troubles))
      ensures !(mcu.StmG0? && mcu.flashSize.Some?) ==> r == Err(Refusal())
    {
      hide Paired, PageOf, EraseValue, ErasePage, EraseDone, EraseTried, PagesErased, Flash.Valid, EraseField, ErasingStopped, PageFor;
      NoneErased(flash, PageFor(0));
      done := 0;
      match mcu
      case Unidentified => return Err(NotReady), 0;
      case Other => return Err(Unsupported), 0;
      case StmG0(None) => return Err(Unsupported), 0;
      case StmG0(Some(size)) =>
        var pageCount := size / PAGE_SIZE;
        for page := 0 to pageCount
          invariant flash.Valid() && !flash.cr[LOCK_BIT] && done == page
          invariant PagesErased(old(flash), flash, page) && (page == 0 ==> flash == old(flash))
          invariant old(troubles) <= troubles && (old(flash).Smooth() ==> flash.Smooth() && troubles == old(troubles))
        {
          ghost var f := flash;
          SelectsPageFor(f.cr, page);
          r := EraseSector(page);
          if r.Err? {
            StopErasing(old(flash), f, flash, page);
            return;
          }
          OnePageMore(old(flash), f, flash, page);
          done := page + 1;
        }
        r := Ok(());
    }

    /** Program one doubleword. */
    method ExecuteProgramDoubleword(addr: u32, lo: u32, hi: u32) returns (r: Result<(), SwdError>)
      requires flash.Valid() && !flash.cr[LOCK_BIT]
      modifies this`flash, this`troubles
      ensures ProgramTried(old(flash), flash, addr) && flash.Valid() && !flash.cr[LOCK_BIT]
      ensures addr % 8 != 0 ==> r == Err(Api) && flash == old(flash)
      ensures r.Ok? && addr in old(flash).cells ==> ProgramDone(old(flash), flash, addr, lo, hi)
      ensures r.Ok? ==> flash.busy == 0 && (flash.stuck || !flash.cr[PG_BIT])
      ensures r.Ok? && !flash.stuck ==> forall i: nat | i < 32 && i != PG_BIT && i != STRT_BIT :: flash.cr[i] == old(flash).cr[i]
      ensures old(flash).Smooth() && addr % 8 == 0 && Erased(old(flash), addr) ==> r.Ok?
      ensures old(troubles) <= troubles && (old(flash).Smooth() ==> flash.Smooth() && troubles == old(troubles))
      ensures troubles == old(troubles) && addr % 8 == 0 ==> !flash.stuck && !flash.cr[PG_BIT] && (r.Err? ==> r.error.OperationFailed?)
      ensures old(flash).Smooth() && addr % 8 == 0 && !Erased(old(flash), addr) ==> r == Err(OperationFailed)
      ensures AskedFor(old(flash), flash, addr, lo, hi, r.Ok?)
    {
      hide Flash.Valid, Flash.Failing, ProgramTried, ProgramDone, SameFlash, Alike, AskedFor;
      if addr % 8 != 0 {
        NotProgrammed(flash, flash, addr);
        NothingAsked(flash, flash, addr, lo, hi);
        return Err(Api);
      }
      r := Prepare();
      KeptIsSame(old(flash), flash);
      NotProgrammed(old(flash), flash, addr);
      NothingAsked(old(flash), flash, addr, lo, hi);
      if r.Err? {
        return;
      }
      ghost var f := flash;
      SameErased(old(flash), f, addr);
      r := StartProgram(addr, lo, hi);
      ProgramFrom(old(flash), f, flash, addr, lo, hi);
      ghost var g, started := flash, r.Ok? && !flash.stuck;
      SameAsItself(g);
      AskedBetween(old(flash), f, g, g, addr, lo, hi, started, false);
      if r.Err? {
        return;
      }
      r := FinishProgram();
      AskedBetween(old(flash), f, g, flash, addr, lo, hi, started, r.Ok?);
      ProgramTo(old(flash), g, flash, addr, lo, hi);
      if r.Ok? && !flash.stuck { ProgramBits(old(flash).cr, f.cr, g.cr, flash.cr); }
    }

    /** Set the program bit and write both words. */
    method StartProgram(addr: u32, lo: u32, hi: u32) returns (r: Result<(), SwdError>)
      requires flash.Valid() && flash.busy == 0 && !flash.cr[LOCK_BIT] && (flash.stuck || !flash.Failing()) && addr % 8 == 0
      modifies this`flash, this`troubles
      ensures ProgramTried(old(flash), flash, addr)
      ensures r.Ok? && !flash.stuck && addr in old(flash).cells && !flash.Failing() ==> ProgramDone(old(flash), flash, addr, lo, hi)
      ensures r.Ok? && !flash.stuck ==> Alike(flash.cr, old(flash).cr[PG_BIT := true])
      ensures old(flash).Smooth() && Erased(old(flash), addr) ==> !flash.Failing()
      ensures old(troubles) <= troubles && (old(flash).Smooth() ==> flash.Smooth() && troubles == old(troubles))
      ensures troubles == old(troubles) ==> r.Ok? && !flash.stuck
      ensures AskedFor(old(flash), flash, addr, lo, hi, r.Ok? && !flash.stuck)
    {
      hide Flash.Valid, Flash.Failing, ProgramTried, ProgramDone, SameFlash, Alike, AskedFor;
      r := SetProgram();
      NotProgrammed(old(flash), flash, addr);
      NothingAsked(old(flash), flash, addr, lo, hi);
      SameErased(old(flash), flash, addr);
      if r.Ok? {
        r := WritePair(old(flash), addr, lo, hi);
      }
    }

    method WritePair(ghost f0: Flash, addr: u32, lo: u32, hi: u32) returns (r: Result<(), SwdError>)
      requires flash.Valid() && flash.busy == 0 && !flash.cr[LOCK_BIT] && addr % 8 == 0 && SameFlash(f0, flash)
      requires flash.stuck || (!flash.Failing() && Alike(flash.cr, f0.cr[PG_BIT := true]))
      modifies this`flash, this`troubles
      ensures ProgramTried(f0, flash, addr)
      ensures r.Ok? && !flash.stuck && addr in f0.cells && !flash.Failing() ==> ProgramDone(f0, flash, addr, lo, hi)
      ensures r.Ok? && !flash.stuck ==> Alike(flash.cr, f0.cr[PG_BIT := true])
      ensures old(flash).Smooth() && Erased(old(flash), addr) ==> !flash.Failing()
      ensures old(troubles) <= troubles && (old(flash).Smooth() ==> flash.Smooth() && troubles == old(troubles))
      ensures troubles == old(troubles) ==> r.Ok? && !flash.stuck
      ensures AskedFor(f0, flash, addr, lo, hi, r.Ok? && !flash.stuck)
    {
      ghost var f := flash;
      if !f.stuck {
        assert f.cr[PG_BIT] == f0.cr[PG_BIT := true][PG_BIT];
        PairStep(f, addr, lo, hi);
      }
      NoneOfIt(f0, f, addr);
      hide Flash.Valid, Flash.AfterWord, Flash.Failing, ProgramTried, ProgramDone, PairDone, Alike;
      r := WriteWord(addr, lo);
      NoneOfIt(f0, flash, addr);
      if r.Err? {
        return;
      }
      if !flash.stuck { PairTried(f0, f, flash.AfterWord(addr + 4, hi), addr, lo, hi); }
      r := WriteWord(addr + 4, hi);
    }

    method SetProgram() returns (r: Result<(), SwdError>)
      requires flash.Valid() && flash.busy == 0 && !flash.cr[LOCK_BIT]
      modifies this`flash, this`troubles
      ensures flash.Valid() && flash.busy == 0 && SameFlash(old(flash), flash) && (flash.Failing() <==> old(flash).Failing())
      ensures !flash.cr[LOCK_BIT]
      ensures r.Ok? ==> !old(flash).stuck && (flash.stuck || Alike(flash.cr, old(flash).cr[PG_BIT := true]))
      ensures old(troubles) <= troubles && (old(flash).Smooth() ==> flash.Smooth() && troubles == old(troubles))
      ensures troubles == old(troubles) ==> r.Ok? && !flash.stuck
    {
      hide Flash.Valid, Flash.Failing, Alike;
      var cr := ReadCr();
      if cr.Err? {
        return Err(cr.error);
      }
      IdleMeansStopped(flash);
      r := ModifyCr(cr.value[PG_BIT := true]);
    }

    /** Wait for the program to end and clear the program bit. */
    method FinishProgram() returns (r: Result<(), SwdError>)
      requires flash.Valid() && !flash.cr[LOCK_BIT]
      modifies this`flash, this`troubles
      ensures flash.Valid() && !flash.cr[LOCK_BIT] && SameFlash(old(flash), flash)
      ensures r.Ok? ==> !old(flash).stuck && !old(flash).Failing() && flash.busy == 0
      ensures r.Ok? && !flash.stuck ==> Alike(flash.cr, old(flash).cr[PG_BIT := false])
      ensures old(flash).Smooth() && !old(flash).Failing() ==> r.Ok?
      ensures old(troubles) <= troubles && (old(flash).Smooth() ==> flash.Smooth() && troubles == old(troubles))
      ensures troubles == old(troubles) ==> !flash.stuck && !flash.cr[PG_BIT] && (if old(flash).Failing() then r == Err(OperationFailed) else r.Ok?)
    {
      hide Flash.Valid, Flash.Failing, Alike;
      var done := Poll();
      KeptIsSame(old(flash), flash);
      if done.Err? {
        return Err(done.error);
      }
      ghost var f := flash;
      var read;
      r, read := ClearBit(PG_BIT);
      if r.Ok? && !flash.stuck {
        AlikeOneBit(flash.cr, f.cr, old(flash).cr, PG_BIT, false);
        AlikeBit(flash.cr, old(flash).cr[PG_BIT := false], PG_BIT);
      }
      if !done.value && read {
        r := Err(OperationFailed);
      }
    }

    /** Write one, two or four bytes by programming the whole doubleword around them. */
    method WriteRmw(addr: u32, data: u32, width: Width) returns (r: Result<(), SwdError>)
      requires flash.Valid() && !flash.cr[LOCK_BIT]
      modifies this`flash, this`troubles
      ensures ProgramTried(old(flash), flash, First(addr)) && flash.Valid() && !flash.cr[LOCK_BIT]
      ensures !Aligned(addr, width) ==> r.Err? && SameFlash(old(flash), flash)
      ensures r.Ok? && First(addr) in old(flash).cells ==>
                && Fits(addr, width)
                && var (lo, hi) := Patched(addr, data, width);
                   ProgramDone(old(flash), flash, First(addr), lo, hi)
      ensures r.Ok? ==> flash.busy == 0 && (flash.stuck || !flash.cr[PG_BIT])
      ensures old(flash).Smooth() && Aligned(addr, width) && Erased(old(flash), First(addr)) ==> r.Ok?
      ensures old(troubles) <= troubles && (old(flash).Smooth() ==> flash.Smooth() && troubles == old(troubles))
      ensures troubles == old(troubles) && Aligned(addr, width) ==> !flash.stuck && !flash.cr[PG_BIT] && (r.Err? ==> r.error.OperationFailed?)
      ensures r.Ok? && First(addr) in old(flash).cells ==> BytesLanded(flash.cells, addr, data, width)
      ensures troubles == old(troubles) && !Aligned(addr, width) ==> r == Err(Api)
      ensures AskedAsRead(old(flash), flash, addr, data, width, r.Ok?)
    {
      hide Paired, OnlyThere, Flash.Failing, ProgramTried, ProgramDone, Flash.Valid, WordBytes, WordOf, Patch, Payload, BytesLanded;
      var base := addr - addr % 8;
      var pair := ReadPair(base);
      if pair.Err? {
        return Err(pair.error);
      }
      if !Aligned(addr, width) {
        return Err(Api);
      }
      AlignedFits(addr, width);
      var (lo, hi) := PatchedPair(pair.value, addr, data, width);
      ghost var f := flash;
      r := ExecuteProgramDoubleword(base, lo, hi);
      ProgramFrom(old(flash), f, flash, base, lo, hi);
      if r.Ok? && base in old(flash).cells {
        DoneMeansErased(old(flash), flash, base, lo, hi);
        LandedBytes(old(flash), flash, addr, data, width);
      }
    }

    method ReadPair(base: u32) returns (r: Result<(u32, u32), SwdError>)
      requires flash.Valid() && !flash.cr[LOCK_BIT] && base % 8 == 0
      modifies this`flash, this`troubles
      ensures flash.Valid() && !flash.cr[LOCK_BIT] && SameFlash(old(flash), flash) && ProgramTried(old(flash), flash, base)
      ensures r.Ok? && base in flash.cells && base + 4 in flash.cells ==>
                r.value == (flash.cells[base], flash.cells[base + 4])
      ensures old(troubles) <= troubles && (old(flash).Smooth() ==> flash.Smooth() && troubles == old(troubles))
      ensures troubles == old(troubles) ==> r.Ok? && !flash.stuck
    {
      hide Paired, OnlyThere, ProgramTried, Flash.Valid;
      var lo := ReadWord(base);
      TickIsNothing(old(flash), flash, base);
      if lo.Err? {
        return Err(lo.error);
      }
      var hi := ReadWord(base + 4);
      TickIsNothing(old(flash), flash, base);
      if hi.Err? {
        return Err(hi.error);
      }
      r := Ok((lo.value, hi.value));
    }

    /**
     Write consecutive words: whole doublewords where two words are left and
     the address allows it, a read-modify-write otherwise. `done` words are
     written; `next` is the doubleword that comes next.
     */
    method WriteFlashBulk(addr: u32, data: seq<u32>) returns (r: Result<(), SwdError>, ghost done: nat, ghost next: nat)
      requires flash.Valid() && !flash.cr[LOCK_BIT]
      modifies this`flash, this`troubles
      ensures flash.Valid() && done <= |data|
      ensures !mcu.StmG0? ==> r.Err? && flash == old(flash)
      ensures mcu.StmG0? && addr % 4 != 0 && data != [] ==> r.Err? && SameFlash(old(flash), flash)
      ensures addr % 4 == 0 && Within(old(flash).cells, First(addr), Last(addr, |data|)) ==>
                Stopped(old(flash), flash, addr, data, done, next)
      ensures r.Ok? && addr % 4 == 0 && Within(old(flash).cells, First(addr), Last(addr, |data|)) ==>
                && done == |data| && (data != [] ==> next == Last(addr, |data|))
                && Written(old(flash), flash, addr, data, done, next)
      ensures r.Ok? && data != [] ==> flash.busy == 0 && (flash.stuck || !flash.cr[PG_BIT])
      ensures old(flash).Smooth() && mcu.StmG0? && addr % 4 == 0 && WasErased(old(flash).cells, First(addr), Last(addr, |data|)) ==> r.Ok?
      ensures old(troubles) <= troubles && (old(flash).Smooth() ==> flash.Smooth() && troubles == old(troubles))
      ensures troubles == old(troubles) && mcu.StmG0? && addr % 4 == 0 && data != [] ==> !flash.stuck && !flash.cr[PG_BIT] && (r.Err? ==> r.error.OperationFailed?)
      ensures !mcu.StmG0? ==> r == Err(if mcu.Unidentified? then NotReady else Unsupported)
    {
      hide Paired, ProgramTried, ProgramDone, Within, Written, Stopped, Flash.Valid, Patched, First, Last, Plus, At, Fits;
      AtStart(addr, |data|);
      done, next := 0, First(addr);
      NothingWritten(flash, addr, data);
      match mcu
      case Unidentified => return Err(NotReady), done, next;
      case Other => return Err(Unsupported), done, next;
      case StmG0(_) =>
        ghost var inside := addr % 4 == 0 && Within(flash.cells, First(addr), Last(addr, |data|));
        if inside { RangeEnds(flash, addr, |data|); }
        if WasErased(flash.cells, First(addr), Last(addr, |data|)) { ErasedWithin(flash.cells, First(addr), Last(addr, |data|)); }
        var currentAddr := addr;
        var i := 0;
        while i < |data|
          invariant flash.Valid() && !flash.cr[LOCK_BIT] && i <= |data| && done == i
          invariant i == 0 ==> SameFlash(old(flash), flash) && currentAddr == addr
          invariant i > 0 ==> addr % 4 == 0 && flash.busy == 0 && (flash.stuck || !flash.cr[PG_BIT])
          invariant inside ==> At(addr, |data|, i, currentAddr, next)
          invariant old(troubles) <= troubles && (old(flash).Smooth() ==> flash.Smooth() && troubles == old(troubles))
          invariant addr % 4 == 0 ==> currentAddr % 4 == 0
          invariant troubles == old(troubles) && i > 0 ==> !flash.stuck && !flash.cr[PG_BIT]
          invariant inside ==> Written(old(flash), flash, addr, data, i, next) && flash.cells.Keys == old(flash).cells.Keys
        {
          var n;
          r, n := BulkStep(old(flash), inside, addr, data, i, currentAddr, next);
          if r.Err? {
            return Err(r.error), done, next;
          }
          PlusAligned(currentAddr, n);
          currentAddr := Plus(currentAddr, 4 * n);
          i := i + n;
          done, next := i, next + 8;
        }
        r := Ok(());
        NotProgrammed(flash, flash, next);
        if inside {
          AtEnd(addr, |data|, currentAddr, next);
          StopHere(old(flash), flash, flash, addr, data, i, next);
        }
    }

    /** One turn of the loop: one word, or a pair. */
    method BulkStep(ghost f0: Flash, ghost inside: bool, addr: u32, data: seq<u32>, i: nat, currentAddr: u32, ghost next: nat)
      returns (r: Result<(), SwdError>, n: nat)
      requires flash.Valid() && !flash.cr[LOCK_BIT] && i < |data|
      requires inside ==>
                 && f0.Valid() && addr % 4 == 0 && Within(f0.cells, First(addr), Last(addr, |data|))
                 && addr + 4 * |data| <= 0x1_0000_0000 && At(addr, |data|, i, currentAddr, next)
                 && Written(f0, flash, addr, data, i, next) && flash.cells.Keys == f0.cells.Keys
      modifies this`flash, this`troubles
      ensures flash.Valid() && !flash.cr[LOCK_BIT] && 0 < n <= 2 && i + n <= |data|
      ensures currentAddr % 4 != 0 ==> r.Err? && SameFlash(old(flash), flash)
      ensures r.Ok? ==> flash.busy == 0 && (flash.stuck || !flash.cr[PG_BIT])
      ensures inside && r.Err? ==> Stopped(f0, flash, addr, data, i, next)
      ensures inside && r.Ok? ==>
                && At(addr, |data|, i + n, Plus(currentAddr, 4 * n), next + 8)
                && Written(f0, flash, addr, data, i + n, next + 8) && flash.cells.Keys == f0.cells.Keys
      ensures old(flash).Smooth() && inside && WasErased(f0.cells, First(addr), Last(addr, |data|)) ==> r.Ok?
      ensures old(troubles) <= troubles && (old(flash).Smooth() ==> flash.Smooth() && troubles == old(troubles))
      ensures troubles == old(troubles) && currentAddr % 4 == 0 ==> !flash.stuck && !flash.cr[PG_BIT] && (r.Err? ==> r.error.OperationFailed?)
    {
      hide Paired, ProgramTried, ProgramDone, Within, Written, Stopped, Flash.Valid, Patched, First, Last, Plus, At, Fits, BytesLanded;
      ghost var f := flash;
      if inside { AtInside(f0, addr, |data|, i, currentAddr, next); }
      EightIsFour(currentAddr);
      if inside && WasErased(f0.cells, First(addr), Last(addr, |data|)) { NextErased(f0, f, addr, data, i, next); }
      n := 1;
      if currentAddr % 8 != 0 || i + 1 >= |data| {
        r := WriteRmw(currentAddr, data[i], Byte4);
        if inside && r.Ok? {
          RmwStep(f0, f, flash, addr, data, i, next, currentAddr);
          AtRmw(addr, |data|, i, currentAddr, next);
        }
      } else {
        n := 2;
        r := ExecuteProgramDoubleword(currentAddr, data[i], data[i + 1]);
        if inside && r.Ok? {
          WrittenStep(f0, f, flash, addr, data, i, i + 2, next, data[i], data[i + 1]);
          AtPair(addr, |data|, i, currentAddr, next);
        }
      }
      if inside && r.Err? { StopHere(f0, f, flash, addr, data, i, next); }
    }
  }

  datatype Width = Byte1 | Byte2 | Byte4

  function Size(w: Width): (n: nat)
    ensures n in {1, 2, 4}
  {
    match w case Byte1 => 1 case Byte2 => 2 case Byte4 => 4
  }

  /** The bytes to write, lowest first. */
  function Payload(data: u32, w: Width): (b: seq<u8>)
    ensures |b| == Size(w)
  {
    WordBytes(data)[..Size(w)]
  }

  function Patch(buf: seq<u8>, at: nat, bytes: seq<u8>): (r: seq<u8>)
    requires at + |bytes| <= |buf|
    ensures |r| == |buf|
  {
    buf[..at] + bytes + buf[at + |bytes|..]
  }

  predicate Fits(addr: u32, w: Width) { addr % 8 + Size(w) <= 8 }

  predicate Aligned(addr: u32, w: Width) {
    match w case Byte1 => true case Byte2 => addr % 2 == 0 case Byte4 => addr % 4 == 0
  }

  lemma AlignedFits(addr: u32, w: Width)
    requires Aligned(addr, w)
    ensures Fits(addr, w)
  {
    var (q, m) := (addr / 8, addr % 8);
    assert addr == 8 * q + m;
    match w
    case Byte1 =>
    case Byte2 => assert m == 2 * (addr / 2 - 4 * q);
    case Byte4 => assert m == 4 * (addr / 4 - 2 * q);
  }

  /** Two words with the given bytes written into them. */
  function PatchedPair(pair: (u32, u32), addr: u32, data: u32, w: Width): (u32, u32)
    requires Fits(addr, w)
  {
    var buf := Patch(WordBytes(pair.0) + WordBytes(pair.1), addr % 8, Payload(data, w));
    (WordOf(buf[..4]), WordOf(buf[4..]))
  }

  /** An erased doubleword with the given bytes written into it. */
  function Patched(addr: u32, data: u32, w: Width): (u32, u32)
    requires Fits(addr, w)
  {
    PatchedPair((ERASED, ERASED), addr, data, w)
  }

  lemma DoneMeansErased(f: Flash, g: Flash, a: nat, lo: u32, hi: u32)
    requires ProgramDone(f, g, a, lo, hi)
    ensures a in f.cells && a + 4 in f.cells && f.cells[a] == f.cells[a + 4] == ERASED
  {
  }

  /** In memory, the pair has the payload at its place and the other bytes as they were. */
  lemma PatchedBytes(pair: (u32, u32), addr: u32, data: u32, w: Width)
    requires Fits(addr, w)
    ensures var (lo, hi) := PatchedPair(pair, addr, data, w);
            WordBytes(lo) + WordBytes(hi) == Patch(WordBytes(pair.0) + WordBytes(pair.1), addr % 8, Payload(data, w))
  {
    hide WordBytes, WordOf, Patch, Payload;
    var buf := Patch(WordBytes(pair.0) + WordBytes(pair.1), addr % 8, Payload(data, w));
    WordRoundTrip(buf[..4]);
    WordRoundTrip(buf[4..]);
    assert buf == buf[..4] + buf[4..];
  }

  /** The byte of flash at `a`, if there is one. */
  function FlashByte(cells: map<nat, u32>, a: nat): Option<u8> {
    if a - a % 4 in cells then Some(ByteOf(cells[a - a % 4], a % 4)) else None
  }

  /**
   In the doubleword `addr` lies in, the bytes from `addr` on are the low
   bytes of `data`, the lowest first, as many as asked for; all others are
   0xFF.
   */
  ghost predicate BytesLanded(cells: map<nat, u32>, addr: nat, data: u32, w: Width) {
    var (base, n) := (addr - addr % 8, match w case Byte1 => 1 case Byte2 => 2 case Byte4 => 4);
    && FlashByte(cells, addr) == Some(data % 0x100)
    && (n > 1 ==> FlashByte(cells, addr + 1) == Some(data / 0x100 % 0x100))
    && (n > 2 ==>
          && FlashByte(cells, addr + 2) == Some(data / 0x1_0000 % 0x100)
          && FlashByte(cells, addr + 3) == Some(data / 0x100_0000 % 0x100))
    && forall a | base <= a < base + 8 && !(addr <= a < addr + n) :: FlashByte(cells, a) == Some(0xFF)
  }

  lemma PatchAt(buf: seq<u8>, at: nat, bytes: seq<u8>, k: nat)
    requires at + |bytes| <= |buf| && k < |buf|
    ensures Patch(buf, at, bytes)[k] == if at <= k < at + |bytes| then bytes[k - at] else buf[k]
  {
  }

  lemma PayloadAt(data: u32, w: Width, k: nat)
    requires k < Size(w)
    ensures Payload(data, w)[k] == ByteOf(data, k)
  {
    BytesAre(data, k);
  }

  /** Byte `k` of the doubleword that is programmed. */
  lemma PatchedByte(addr: u32, data: u32, w: Width, k: nat)
    requires Fits(addr, w) && k < 8
    ensures var (lo, hi) := Patched(addr, data, w);
            ByteOf(if k < 4 then lo else hi, k % 4)
            == if addr % 8 <= k < addr % 8 + Size(w) then ByteOf(data, k - addr % 8) else 0xFF
  {
    PatchedBytes((ERASED, ERASED), addr, data, w);
    var (lo, hi) := Patched(addr, data, w);
    hide Patched, PatchedPair, Patch, Payload, WordBytes, ByteOf;
    PatchAt(WordBytes(ERASED) + WordBytes(ERASED), addr % 8, Payload(data, w), k);
    PairByte(lo, hi, k);
    PairByte(ERASED, ERASED, k);
    ErasedByte(k % 4);
    if addr % 8 <= k < addr % 8 + Size(w) { PayloadAt(data, w, k - addr % 8); }
  }

  lemma PairByte(lo: u32, hi: u32, k: nat)
    requires k < 8
    ensures (WordBytes(lo) + WordBytes(hi))[k] == ByteOf(if k < 4 then lo else hi, k % 4)
  {
    BytesAre(if k < 4 then lo else hi, k % 4);
    hide WordBytes, ByteOf;
  }

  lemma ErasedByte(k: nat)
    requires k < 4
    ensures ByteOf(ERASED, k) == 0xFF
  {
  }

  /** Where byte `k` of a doubleword is. */
  lemma InDoubleword(base: nat, k: nat)
    requires base % 8 == 0 && k < 8
    ensures (base + k) % 4 == k % 4 && base + k - (base + k) % 4 == (if k < 4 then base else base + 4)
  {
    By4(2 * (base / 8) + k / 4, k % 4);
  }

  lemma LandedByte(g: map<nat, u32>, addr: u32, data: u32, w: Width, a: nat)
    requires Fits(addr, w) && First(addr) <= a < First(addr) + 8
    requires First(addr) in g && g[First(addr)] == Patched(addr, data, w).0
    requires First(addr) + 4 in g && g[First(addr) + 4] == Patched(addr, data, w).1
    ensures FlashByte(g, a) == Some(if addr <= a < addr + Size(w) then ByteOf(data, a - addr) else 0xFF)
  {
    var k := a - First(addr);
    FirstNext(addr);
    hide Patched, ByteOf;
    InDoubleword(First(addr), k);
    PatchedByte(addr, data, w, k);
  }

  lemma LandedBytes(f: Flash, g: Flash, addr: u32, data: u32, w: Width)
    requires Fits(addr, w)
    requires ProgramDone(f, g, First(addr), Patched(addr, data, w).0, Patched(addr, data, w).1)
    ensures BytesLanded(g.cells, addr, data, w)
  {
    hide Patched;
    forall a | First(addr) <= a < First(addr) + 8
      ensures FlashByte(g.cells, a) == Some(if addr <= a < addr + Size(w) then ByteOf(data, a - addr) else 0xFF)
    {
      LandedByte(g.cells, addr, data, w, a);
    }
    hide FlashByte, ProgramDone;
  }

  /** A word written at an aligned address lands there; the other half stays erased. */
  lemma PatchedWord(addr: u32, data: u32)
    requires addr % 4 == 0
    ensures Fits(addr, Byte4) && Patched(addr, data, Byte4) == if addr % 8 == 0 then (data, ERASED) else (ERASED, data)
  {
    BytesRoundTrip(data);
    BytesRoundTrip(ERASED);
    hide WordOf, WordBytes;
    var e := WordBytes(ERASED);
    var buf := Patch(e + e, addr % 8, Payload(data, Byte4));
    assert Payload(data, Byte4) == WordBytes(data);
    if addr % 8 == 0 {
      assert buf[..4] == WordBytes(data) && buf[4..] == e;
    } else {
      assert addr % 8 == 4;
      assert buf[..4] == e && buf[4..] == WordBytes(data);
    }
  }

  lemma TickIsNothing(f: Flash, g: Flash, a: nat)
    requires f.Valid() && !f.cr[LOCK_BIT] && (g == f.Tick() || g == f.Tick().Tick())
    ensures ProgramTried(f, g, a) && SameFlash(f, g) && g.Valid() && !g.cr[LOCK_BIT]
  {
  }

  function Plus(a: nat, n: nat): u32 { (a + n) % 0x1_0000_0000 }

  lemma PlusAligned(a: u32, n: nat)
    requires n <= 2
    ensures a % 4 == 0 ==> Plus(a, 4 * n) % 4 == 0
  {
    if a % 4 == 0 {
      var q := a / 4 + n;
      assert a + 4 * n == 4 * q;
      By4(q, 0);
      if a + 4 * n >= 0x1_0000_0000 {
        By2To32(1, a + 4 * n - 0x1_0000_0000);
        By4(q - 0x4000_0000, 0);
      } else {
        By2To32(0, a + 4 * n);
      }
    }
  }

  /** The doubleword `addr` lies in. */
  function First(addr: nat): nat { addr - addr % 8 }

  /** The end of the last doubleword that `n` words from `addr` touch. */
  function Last(addr: nat, n: nat): nat { First(addr + 4 * n + 7) }

  /** All words between two addresses are flash words. */
  ghost predicate Within(cells: map<nat, u32>, from: nat, to: nat) {
    forall a | from <= a < to && a % 4 == 0 :: a in cells
  }

  /** The doublewords between two addresses, in order. */
  function Doublewords(from: nat, to: nat): seq<nat>
    decreases to - from
  {
    if from >= to then [] else [from] + Doublewords(from + 8, to)
  }

  /** The first `done` words are in place and every other word is as it was. */
  ghost predicate InPlace(f: map<nat, u32>, g: map<nat, u32>, addr: nat, data: seq<u32>, done: nat) {
    && done <= |data| && g.Keys == f.Keys
    && (forall k | 0 <= k < done :: addr + 4 * k in g && g[addr + 4 * k] == data[k])
    && (forall a | a in f && !(addr <= a < addr + 4 * done) :: g[a] == f[a])
  }

  ghost predicate WasErased(f: map<nat, u32>, from: nat, to: nat) {
    forall a | from <= a < to && a % 4 == 0 :: a in f && f[a] == ERASED
  }

  /**
   From `f` to `g`, `done` words were written; the doublewords up to `next`
   were erased before, and each was programmed once, in order.
   */
  ghost predicate Written(f: Flash, g: Flash, addr: nat, data: seq<u32>, done: nat, next: nat) {
    && InPlace(f.cells, g.cells, addr, data, done) && WasErased(f.cells, First(addr), next)
    && First(addr) <= next && (next - First(addr)) % 8 == 0
    && g.programmed == f.programmed + Doublewords(First(addr), next) && g.erased == f.erased
  }

  lemma NothingWritten(f: Flash, addr: nat, data: seq<u32>)
    requires f.Valid() && !f.cr[LOCK_BIT]
    ensures Written(f, f, addr, data, 0, First(addr)) && SameFlash(f, f)
    ensures Stopped(f, f, addr, data, 0, First(addr))
  {
    assert Written(f, f, addr, data, 0, First(addr)) && ProgramTried(f, f, First(addr));
  }

  lemma Halves(a: nat)
    requires a % 4 == 0
    ensures First(a) % 8 == 0 && First(a) % 4 == 0 && First(a) == (if a % 8 == 0 then a else a - 4)
    ensures First(a + 7) == if a % 8 == 0 then a else a + 4
    ensures (a + 8) % 8 == a % 8 && (a + 4) % 4 == 0 && ((a + 4) % 8 == 0 <==> a % 8 != 0)
  {
    var (w, q, m) := (a / 4, a / 8, a % 8);
    assert a == 4 * w == 8 * q + m;
    assert m == 4 * (w - 2 * q);
    By8(q, 0);
    By4(2 * q, 0);
    By4(w + 1, 0);
    By8(q + 1, m);
    if m == 0 {
      By8(q, 7);
      By8(q, 4);
    } else {
      By8(q + 1, 3);
      By8(q + 1, 0);
    }
  }

  lemma EightIsFour(a: nat)
    ensures a % 8 == 0 ==> a % 4 == 0
  {
    By4(2 * (a / 8), 0);
  }

  lemma WordAligned(addr: nat, i: nat)
    ensures addr % 4 == 0 ==> (addr + 4 * i) % 4 == 0
  {
    if addr % 4 == 0 {
      By4(addr / 4 + i, 0);
      assert addr + 4 * i == 4 * (addr / 4 + i);
    }
  }

  /** Where the loop is: at word `i`, with `next` the doubleword that comes next. */
  ghost predicate At(addr: u32, n: nat, i: nat, currentAddr: nat, next: nat) {
    if i < n then
      && currentAddr == addr + 4 * i && currentAddr % 4 == 0 && next == First(currentAddr)
      && (i > 0 ==> currentAddr % 8 == 0)
    else
      next == if i == 0 then First(addr) else Last(addr, i)
  }

  lemma AtStart(addr: u32, n: nat)
    ensures addr % 4 == 0 ==> At(addr, n, 0, addr, First(addr))
  {
  }

  lemma AtRmw(addr: u32, n: nat, i: nat, a: u32, next: nat)
    requires At(addr, n, i, a, next) && i < n && (a % 8 != 0 || i + 1 >= n) && addr + 4 * n <= 0x1_0000_0000
    ensures At(addr, n, i + 1, Plus(a, 4), next + 8)
  {
    Halves(a);
    Halves(a + 4);
    hide First;
  }

  lemma AtPair(addr: u32, n: nat, i: nat, a: u32, next: nat)
    requires At(addr, n, i, a, next) && i + 1 < n && a % 8 == 0 && addr + 4 * n <= 0x1_0000_0000
    ensures At(addr, n, i + 2, Plus(a, 8), next + 8)
  {
    Halves(a);
    Halves(a + 8);
    hide First;
  }

  lemma AtEnd(addr: u32, n: nat, currentAddr: u32, next: nat)
    requires At(addr, n, n, currentAddr, next)
    ensures n > 0 ==> next == Last(addr, n)
  {
  }

  /** A range of flash words ends inside the address space. */
  lemma RangeEnds(f: Flash, addr: u32, n: nat)
    requires f.Valid() && addr % 4 == 0 && Within(f.cells, First(addr), Last(addr, n))
    ensures n > 0 ==> addr + 4 * n <= 0x1_0000_0000
  {
    if n > 0 {
      var last := addr + 4 * (n - 1);
      LastWord(addr, n);
      hide First, Last, Busy;
      assert last in f.cells;
      TopWord(last);
    }
  }

  lemma LastWord(addr: nat, n: nat)
    requires addr % 4 == 0 && n > 0
    ensures var last := addr + 4 * (n - 1);
            last % 4 == 0 && First(addr) <= last < Last(addr, n)
  {
    WordAligned(addr, n - 1);
    WordAligned(addr, n);
    Halves(addr);
    Halves(addr + 4 * n);
    hide First;
  }

  lemma TopWord(a: nat)
    requires a % 4 == 0 && a < 0x1_0000_0000
    ensures a + 4 <= 0x1_0000_0000
  {
  }

  /** The doubleword to write is in flash. */
  lemma AtInside(f: Flash, addr: u32, n: nat, i: nat, a: u32, next: nat)
    requires f.Valid() && addr % 4 == 0 && i < n && Within(f.cells, First(addr), Last(addr, n))
    requires At(addr, n, i, a, next)
    ensures next in f.cells && next == First(a) && a == addr + 4 * i && a % 4 == 0
    ensures if a % 8 == 0 then next == a else i == 0 && next + 4 == a
  {
    WordAligned(addr, n);
    Halves(addr);
    Halves(a);
    Halves(addr + 4 * n);
    hide First;
  }

  lemma {:induction false} DoublewordsSnoc(from: nat, to: nat)
    requires from <= to && (to - from) % 8 == 0
    ensures Doublewords(from, to + 8) == Doublewords(from, to) + [to]
    decreases if from < to then to - from else 0
  {
    if from == to {
    } else {
      DoublewordsSnoc(from + 8, to);
    }
  }

  /** Every doubleword once, in ascending order. */
  lemma {:induction false} DoublewordsAscend(from: nat, to: nat, i: nat)
    requires i < |Doublewords(from, to)|
    ensures Doublewords(from, to)[i] == from + 8 * i < to
    decreases i
  {
    if i == 0 {
    } else {
      DoublewordsAscend(from + 8, to, i - 1);
    }
  }

  /** One program more takes the writing from word `i` to word `j`. */
  lemma WrittenStep(f0: Flash, f: Flash, g: Flash, addr: nat, data: seq<u32>, i: nat, j: nat, next: nat, lo: u32, hi: u32)
    requires i < j <= |data| && (next == addr + 4 * i || (i == 0 && next + 4 == addr))
    requires if next == addr + 4 * i then lo == data[i] && (if j == i + 1 then hi == ERASED else j == i + 2 && hi == data[i + 1])
             else j == i + 1 && lo == ERASED && hi == data[i]
    requires Written(f0, f, addr, data, i, next)
    requires ProgramTried(f, g, next) && ProgramDone(f, g, next, lo, hi)
    ensures Written(f0, g, addr, data, j, next + 8) && g.cells.Keys == f.cells.Keys
  {
    DoublewordsSnoc(First(addr), next);
    FirstEven(addr);
    NextEight(First(addr), next);
    InPlaceStep(f0.cells, f.cells, g.cells, addr, data, i, j, next, lo, hi);
    hide Doublewords, Flash.Valid, First, OnlyThere, InPlace, WasErased;
    assert WasErased(f0.cells, First(addr), next + 8) by { ErasedStep(f0.cells, f.cells, addr, data, i, First(addr), next); }
  }

  lemma InPlaceStep(f0: map<nat, u32>, f: map<nat, u32>, g: map<nat, u32>, addr: nat, data: seq<u32>, i: nat, j: nat, next: nat, lo: u32, hi: u32)
    requires i < j <= |data| && (next == addr + 4 * i || (i == 0 && next + 4 == addr))
    requires if next == addr + 4 * i then lo == data[i] && (if j == i + 1 then hi == ERASED else j == i + 2 && hi == data[i + 1])
             else j == i + 1 && lo == ERASED && hi == data[i]
    requires InPlace(f0, f, addr, data, i) && next in f && next + 4 in f
    requires f[next] == f[next + 4] == ERASED && g == f[next := lo][next + 4 := hi]
    ensures InPlace(f0, g, addr, data, j) && g.Keys == f.Keys
  {
  }

  lemma ErasedStep(f0: map<nat, u32>, f: map<nat, u32>, addr: nat, data: seq<u32>, i: nat, from: nat, next: nat)
    requires next == addr + 4 * i || (i == 0 && next + 4 == addr)
    requires InPlace(f0, f, addr, data, i) && next in f && next + 4 in f && f[next] == f[next + 4] == ERASED
    requires WasErased(f0, from, next) && from <= next && (next - from) % 8 == 0 && from % 8 == 0
    ensures WasErased(f0, from, next + 8)
  {
    NextEight(from, next);
  }

  lemma NextEight(from: nat, next: nat)
    requires from <= next && (next - from) % 8 == 0
    ensures (next + 8 - from) % 8 == 0
    ensures forall a | next <= a < next + 8 && a % 4 == 0 && from % 8 == 0 :: a == next || a == next + 4
  {
    var k := (next - from) / 8;
    By8(k + 1, 0);
    forall a | next <= a < next + 8 && a % 4 == 0 && from % 8 == 0
      ensures a == next || a == next + 4
    {
      assert next == 8 * (k + from / 8) && a == 4 * (a / 4);
    }
  }

  lemma FirstEven(addr: nat)
    ensures First(addr) % 8 == 0
  {
  }

  /** A read-modify-write of one word takes the writing one word on. */
  lemma RmwStep(f0: Flash, f: Flash, g: Flash, addr: nat, data: seq<u32>, i: nat, next: nat, a: u32)
    requires i < |data| && a == addr + 4 * i && a % 4 == 0
    requires if a % 8 == 0 then next == a else i == 0 && next + 4 == a
    requires Written(f0, f, addr, data, i, next) && ProgramTried(f, g, next)
    requires Fits(a, Byte4) && ProgramDone(f, g, next, Patched(a, data[i], Byte4).0, Patched(a, data[i], Byte4).1)
    ensures Written(f0, g, addr, data, i + 1, next + 8) && g.cells.Keys == f.cells.Keys
  {
    PatchedWord(a, data[i]);
    hide Patched, Written, ProgramDone, ProgramTried;
    var (lo, hi) := Patched(a, data[i], Byte4);
    SameKeys(f, g, next, lo, hi);
    WrittenStep(f0, f, g, addr, data, i, i + 1, next, lo, hi);
  }

  lemma SameKeys(f: Flash, g: Flash, a: nat, lo: u32, hi: u32)
    requires ProgramDone(f, g, a, lo, hi)
    ensures g.cells.Keys == f.cells.Keys
  {
  }

  lemma StopHere(f0: Flash, f: Flash, g: Flash, addr: nat, data: seq<u32>, done: nat, next: nat)
    requires Written(f0, f, addr, data, done, next) && ProgramTried(f, g, next)
    ensures Stopped(f0, g, addr, data, done, next)
  {
  }

  /** As `Written`, except that the doubleword at `next` may have been tried. */
  ghost predicate Stopped(f: Flash, g: Flash, addr: nat, data: seq<u32>, done: nat, next: nat) {
    exists m :: Written(f, m, addr, data, done, next) && ProgramTried(m, g, next)
  }

  function PagesFor(n: nat): seq<nat> { seq(n, s requires 0 <= s => PageFor(s)) }

  /** The first `n` pages were erased in order, and everything else is as it was. There are 256 pages to select. */
  ghost predicate PagesErased(f: Flash, g: Flash, n: nat) {
    && g.programmed == f.programmed && g.erased == f.erased + PagesFor(n)
    && g.cells.Keys == f.cells.Keys
    && forall a | a in g.cells ::
         g.cells[a] == if a < FLASH_BASE + PAGE_SIZE * (if n < 256 then n else 256) then ERASED else f.cells[a]
  }

  /** As `PagesErased`, except that the next page may have been tried. */
  ghost predicate ErasingStopped(f: Flash, g: Flash, n: nat) {
    exists m :: PagesErased(f, m, n) && EraseTried(m, g, PageFor(n))
  }

  lemma NoneErased(f: Flash, p: nat)
    requires f.Valid() && !f.cr[LOCK_BIT] && p == PageFor(0)
    ensures PagesErased(f, f, 0) && ErasingStopped(f, f, 0)
  {
    assert PagesErased(f, f, 0) && EraseTried(f, f, p);
  }

  lemma StopErasing(f0: Flash, f: Flash, g: Flash, n: nat)
    requires PagesErased(f0, f, n) && EraseTried(f, g, PageFor(n))
    ensures ErasingStopped(f0, g, n)
  {
  }

  ghost predicate SameFlash(f: Flash, g: Flash) {
    g.cells == f.cells && g.programmed == f.programmed && g.erased == f.erased && g.asked == f.asked
  }

  lemma IdleMeansStopped(f: Flash)
    requires f.Valid()
    ensures f.busy == 0 ==> !f.cr[STRT_BIT]
  {
  }

  lemma KeptIsSame(f: Flash, g: Flash)
    requires Kept(f, g)
    ensures SameFlash(f, g) && Alike(g.cr, f.cr) && g.cr[LOCK_BIT] == f.cr[LOCK_BIT]
  {
  }

  lemma AlikeBit(a: Reg, b: Reg, bit: nat)
    requires Alike(a, b) && bit < 32 && bit != STRT_BIT
    ensures a[bit] == b[bit]
  {
  }

  lemma AlikeOneBit(a: Reg, b: Reg, c: Reg, bit: nat, x: bool)
    requires bit < 32 && Alike(a, b[bit := x]) && Alike(b, c)
    ensures Alike(a, c[bit := x])
  {
  }

  lemma ProgramBits(a: Reg, b: Reg, c: Reg, d: Reg)
    requires Alike(b, a) && Alike(c, b[PG_BIT := true]) && Alike(d, c[PG_BIT := false])
    ensures !d[PG_BIT] && forall i: nat | i < 32 && i != PG_BIT && i != STRT_BIT :: d[i] == a[i]
  {
  }

  lemma NotProgrammed(f: Flash, g: Flash, a: nat)
    requires SameFlash(f, g) && g.Valid() && !g.cr[LOCK_BIT]
    ensures ProgramTried(f, g, a)
  {
  }

  /** As long as no second word gets through nothing is programmed. */
  lemma NoneOfIt(f0: Flash, f: Flash, a: nat)
    requires SameFlash(f0, f) && f.Valid() && !f.cr[LOCK_BIT]
    ensures f.Tick().Valid() && f.Lost().Valid()
    ensures ProgramTried(f0, f, a) && ProgramTried(f0, f.Tick(), a) && ProgramTried(f0, f.Lost(), a)
  {
  }

  lemma ProgramFrom(f0: Flash, f: Flash, g: Flash, a: nat, lo: u32, hi: u32)
    requires SameFlash(f0, f) && ProgramTried(f, g, a)
    ensures ProgramTried(f0, g, a) && (ProgramDone(f, g, a, lo, hi) ==> ProgramDone(f0, g, a, lo, hi))
  {
  }

  lemma SameAsItself(f: Flash)
    ensures SameFlash(f, f)
  {
  }

  lemma NothingAsked(f: Flash, g: Flash, a: nat, lo: u32, hi: u32)
    requires SameFlash(f, g)
    ensures AskedFor(f, g, a, lo, hi, false)
  {
  }

  lemma AskedBetween(f0: Flash, f: Flash, g: Flash, h: Flash, a: nat, lo: u32, hi: u32, started: bool, done: bool)
    requires SameFlash(f0, f) && AskedFor(f, g, a, lo, hi, started) && SameFlash(g, h) && (done ==> started)
    ensures AskedFor(f0, h, a, lo, hi, done)
  {
  }

  lemma SameErased(f: Flash, g: Flash, a: nat)
    requires SameFlash(f, g)
    ensures Erased(g, a) == Erased(f, a)
  {
  }

  /** The doubleword that comes next in a range that was erased is still erased. */
  lemma NextErased(f0: Flash, f: Flash, addr: nat, data: seq<u32>, i: nat, next: nat)
    requires i < |data| && addr % 4 == 0 && next == First(addr + 4 * i) && (next == addr + 4 * i || (i == 0 && next + 4 == addr))
    requires Written(f0, f, addr, data, i, next) && WasErased(f0.cells, First(addr), Last(addr, |data|))
    ensures Erased(f, next)
  {
    InRange(addr, |data|, i);
    By4(2 * (next / 8), 0);
    hide First, Last, Doublewords;
    assert next in f0.cells && next + 4 in f0.cells;
  }

  lemma InRange(addr: nat, n: nat, i: nat)
    requires i < n
    ensures var next := First(addr + 4 * i);
            && First(addr) <= next && next + 8 <= Last(addr, n)
            && next % 8 == 0 && next % 4 == 0 && (next + 4) % 4 == 0
  {
    var next := First(addr + 4 * i);
    FirstAscends(addr, addr + 4 * i);
    FirstAscends(addr + 4 * i + 8, addr + 4 * n + 7);
    FirstNext(addr + 4 * i);
    hide First;
    FourInEight(next);
  }

  lemma FirstNext(a: nat)
    ensures First(a) % 8 == 0 && First(a + 8) == First(a) + 8
  {
    By8(a / 8 + 1, a % 8);
    By8(a / 8, 0);
  }

  lemma FourInEight(a: nat)
    requires a % 8 == 0
    ensures a % 4 == 0 && (a + 4) % 4 == 0
  {
    By4(2 * (a / 8), 0);
    By4(2 * (a / 8) + 1, 0);
  }

  lemma FirstAscends(a: nat, b: nat)
    requires a <= b
    ensures First(a) <= First(b)
  {
    assert First(a) == 8 * (a / 8) && First(b) == 8 * (b / 8);
  }

  lemma ErasedWithin(cells: map<nat, u32>, from: nat, to: nat)
    requires WasErased(cells, from, to)
    ensures Within(cells, from, to)
  {
  }

  lemma PairTried(f0: Flash, f: Flash, g: Flash, a: nat, lo: u32, hi: u32)
    requires SameFlash(f0, f) && f.Valid() && !f.cr[LOCK_BIT] && PairDone(f, g, a, lo, hi) && a % 8 == 0
    requires Alike(f.cr, f0.cr[PG_BIT := true])
    ensures ProgramTried(f0, g, a) && Alike(g.cr, f0.cr[PG_BIT := true])
    ensures a in f0.cells && !g.Failing() ==> ProgramDone(f0, g, a, lo, hi)
  {
    hide Flash.Failing, Busy, Errors;
  }

  lemma ProgramTo(f0: Flash, f: Flash, g: Flash, a: nat, lo: u32, hi: u32)
    requires ProgramTried(f0, f, a) && SameFlash(f, g) && g.Valid() && !g.cr[LOCK_BIT]
    ensures ProgramTried(f0, g, a)
    ensures ProgramDone(f0, f, a, lo, hi) ==> ProgramDone(f0, g, a, lo, hi)
  {
  }

  lemma NotTried(f: Flash, g: Flash, p: nat)
    requires SameFlash(f, g) && g.Valid() && !g.cr[LOCK_BIT]
    ensures EraseTried(f, g, p)
  {
  }

  lemma UnrelatedBits(before: Reg, v: Reg, during: Reg, after: Reg)
    requires forall i: nat | i < 32 && !EraseField(i) :: v[i] == before[i]
    requires Alike(during, v) && Alike(after, during[PER_BIT := false])
    ensures !after[PER_BIT] && forall i: nat | i < 32 && !EraseField(i) && i != STRT_BIT :: after[i] == before[i]
  {
  }

  lemma TryFrom(f0: Flash, f: Flash, g: Flash, p: nat)
    requires SameFlash(f0, f) && EraseTried(f, g, p)
    ensures EraseTried(f0, g, p) && (EraseDone(f, g, p) ==> EraseDone(f0, g, p))
  {
  }

  lemma TryTo(f0: Flash, f: Flash, g: Flash, p: nat)
    requires EraseTried(f0, f, p) && SameFlash(f, g) && g.Valid() && !g.cr[LOCK_BIT] && g.busy == f.busy
    ensures EraseTried(f0, g, p) && (EraseDone(f0, f, p) ==> EraseDone(f0, g, p))
  {
  }

  lemma OnePageMore(f0: Flash, f: Flash, g: Flash, n: nat)
    requires f.Valid() && EraseTried(f, g, PageFor(n)) && EraseDone(f, g, PageFor(n)) && PagesErased(f0, f, n)
    ensures PagesErased(f0, g, n + 1)
  {
    PageForRange(n);
    var p := PageFor(n);
    hide PageFor;
    assert PagesFor(n + 1) == PagesFor(n) + [p];
    hide Flash.Valid;
  }

  lemma PageForRange(n: nat)
    ensures if n < 256 then PageFor(n) == n else PageFor(n) < 256
  {
  }

  lemma StartBitApart(v: Reg)
    ensures PageOf(v[STRT_BIT := true]) == PageOf(v)
  {
    assert v[STRT_BIT := true][PNB_SHIFT..PNB_SHIFT + PNB_WIDTH] == v[PNB_SHIFT..PNB_SHIFT + PNB_WIDTH];
  }
}
