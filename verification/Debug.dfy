/** The debugger's bulk memory calls: auto-increment on, transfer, auto-increment off. */
module Debug {
  import opened Wrappers
  import opened Bits
  import opened Registers
  import opened DebugPort
  import opened Transfers
  import opened Interface

  class DebugInterface {
    const swd: SwdInterface

    constructor (swd: SwdInterface)
      ensures this.swd == swd
    {
      this.swd := swd;
    }

    /**
     Read a range. When the MEM-AP was ready: on success every word is
     memory's, in order, memory was accessed once per word and in order, and
     auto-increment is off again. On an error the count says how many words
     are good; the rest of `buf` is untouched. This holds in fast mode too.
     `off` is how switching auto-increment off went, which is tried whenever
     switching it on went well.
     */
    method ReadMemBulk(addr: u32, buf: array<u32>, fast: bool) returns (r: BulkResult, ghost off: Option<Result<(), SwdError>>)
      requires swd.Valid()
      modifies swd.protocol, swd`misbanked, swd`dpSelect, buf
      ensures swd.Valid() && swd.D().Final().mem == old(swd.D()).Final().mem && !r.Panicked?
      ensures swd.D().env == old(swd.D()).env
      ensures r.Done? ==> swd.IdleTail() && WentOff(off)
      ensures off.None? ==> r.Failed? && r.count == 0
      ensures r.Failed? ==> r.count <= buf.Length && forall k | r.count <= k < buf.Length :: buf[k] == old(buf[k])
      ensures addr % 4 != 0 ==> r.Failed? && r.count == 0
      ensures old(swd.Ready()) ==>
                && var f, g := old(swd.D()).Final(), swd.D().Final();
                && (swd.D().env.KeepsTar() ==> forall k | 0 <= k < Stored(r, buf.Length) :: buf[k] == MemAt(f.mem, WordAddr(addr, k)))
                && (swd.D().env.KeepsTar() && r.Done? ==> !g.sticky && g.trace == f.trace + Accesses(false, addr, buf.Length))
                && SwitchedOff(swd.D().env, f.csw, g.csw, off) && (WentOff(off) ==> swd.Ready())
                && (swd.D().env.Clean() && !f.sticky ==> WentOff(off) && (addr % 4 == 0 ==> r.Done?))
      ensures old(swd.Elsewhere()) ==> swd.Elsewhere() && Untouched(old(swd.D()), swd.D())
      ensures swd.S() == if swd.Unpowered() then old(swd.S()) else InBankZero(old(swd.D()), old(swd.dpSelect), swd.waitRetries)
    {
      CleanKeepsTar(swd.D().env);
      hide Env.KeepsTar, SetAddrIncField, AddrInc, MemAp.Perform, Env.Clean, Env.Prompt, WordAddr, MemAt, InBankZero, Untouched;
      OnThenOff(swd.D().Final().csw);
      off := None;
      var on;
      r, on := ReadOn(addr, buf, fast);
      if !on {
        return;
      }
      var last := swd.SetAddrInc(false);
      off := Some(last);
      if r.Done? && last.Err? {
        r := Failed(last.error, buf.Length);
      }
    }

    /** Switch auto-increment on and read the range. `on` says that it was switched on. */
    method ReadOn(addr: u32, buf: array<u32>, fast: bool) returns (r: BulkResult, on: bool)
      requires swd.Valid()
      modifies swd.protocol, swd`misbanked, swd`dpSelect, buf
      ensures swd.Valid() && swd.D().env == old(swd.D()).env && swd.D().Final().mem == old(swd.D()).Final().mem && !r.Panicked?
      ensures !on ==> r.Failed? && r.count == 0
      ensures on ==> swd.dpSelect.apbank == 0
      ensures r.Failed? ==> r.count <= buf.Length && forall k | r.count <= k < buf.Length :: buf[k] == old(buf[k])
      ensures addr % 4 != 0 ==> r.Failed? && r.count == 0
      ensures old(swd.Ready()) ==>
                && var (f, g, env) := (old(swd.D()).Final(), swd.D().Final(), swd.D().env);
                && (if on then swd.Ready() && g.csw == SetAddrIncField(f.csw, ADDRINC_SINGLE)
                    else g.csw in {f.csw, env.cswOf(SetAddrIncField(f.csw, ADDRINC_SINGLE))})
                && (env.KeepsTar() ==>
                      && (forall k | 0 <= k < Stored(r, buf.Length) :: buf[k] == MemAt(f.mem, WordAddr(addr, k)))
                      && (r.Done? ==> !g.sticky && g.trace == f.trace + Accesses(false, addr, buf.Length)))
                && (env.Clean() && !f.sticky ==> on && !g.sticky && (addr % 4 == 0 ==> r.Done?))
      ensures old(swd.Elsewhere()) ==> swd.Elsewhere() && Untouched(old(swd.D()), swd.D())
      ensures swd.S() == if swd.Unpowered() then old(swd.S()) else InBankZero(old(swd.D()), old(swd.dpSelect), swd.waitRetries)
    {
      CleanKeepsTar(swd.D().env);
      hide Env.KeepsTar, SetAddrIncField, AddrInc, MemAp.Perform, Env.Clean, Env.Prompt, WordAddr, MemAt, InBankZero;
      OnThenOff(swd.D().Final().csw);
      var switched := swd.SetAddrInc(true);
      if switched.Err? {
        return Failed(switched.error, 0), false;
      }
      on := true;
      r := swd.ReadMemBulk(addr, buf, fast);
    }

    /**
     Write a range. `landed` words are in memory once the access in flight has
     run. When the last auto-increment change reports success nothing is in
     flight any more: success then means the whole range holds the data.
     */
    method WriteMemBulk(addr: u32, buf: seq<u32>, fast: bool)
      returns (r: BulkResult, ghost landed: nat, ghost off: Option<Result<(), SwdError>>)
      requires swd.Valid()
      modifies swd.protocol, swd`misbanked, swd`dpSelect
      ensures swd.Valid() && !r.Panicked? && landed <= |buf|
      ensures swd.D().env == old(swd.D()).env
      ensures r.Done? ==> swd.IdleTail() && WentOff(off)
      ensures off.None? ==> r.Failed? && r.count == 0
      ensures addr % 4 != 0 ==> r.Failed? && r.count == 0
      ensures old(swd.Ready()) ==>
                && var f, g := old(swd.D()).Final(), swd.D().Final();
                && (swd.D().env.KeepsTar() ==>
                      && g.mem == WriteWords(f.mem, addr, buf[..landed])
                      && (r.Done? ==>
                            && !g.sticky && swd.D().pending.None?
                            && landed == |buf| && swd.D().core.mem == WriteWords(f.mem, addr, buf)
                            && g.trace == f.trace + Accesses(true, addr, |buf|))
                      && (r.Failed? ==> SwdInterface.Miscounted(f, swd.D().env, r.count, landed)))
                && SwitchedOff(swd.D().env, f.csw, g.csw, off) && (WentOff(off) ==> swd.Ready())
                && (addr % 4 != 0 ==> landed == 0)
                && (swd.D().env.Clean() && !f.sticky ==> WentOff(off) && (addr % 4 == 0 ==> r.Done?))
      ensures old(swd.Elsewhere()) ==> swd.Elsewhere() && Untouched(old(swd.D()), swd.D())
      ensures swd.S() == if swd.Unpowered() then old(swd.S()) else InBankZero(old(swd.D()), old(swd.dpSelect), swd.waitRetries)
    {
      CleanKeepsTar(swd.D().env);
      hide Env.KeepsTar, SetAddrIncField, AddrInc, MemAp.Perform, Env.Clean, Env.Prompt, WordAddr, WriteWords, InBankZero, Accesses;
      hide SwdInterface.Miscounted, Untouched;
      OnThenOff(swd.D().Final().csw);
      off := None;
      var on;
      r, landed, on := WriteOn(addr, buf, fast);
      assert buf[..|buf|] == buf;
      if !on {
        return;
      }
      var last := swd.SetAddrInc(false);
      off := Some(last);
      if r.Done? && last.Err? {
        r := Failed(last.error, |buf|);
      }
    }

    /** Switch auto-increment on and write the range. `on` says that it was switched on. */
    method WriteOn(addr: u32, buf: seq<u32>, fast: bool) returns (r: BulkResult, ghost landed: nat, on: bool)
      requires swd.Valid()
      modifies swd.protocol, swd`misbanked, swd`dpSelect
      ensures swd.Valid() && !r.Panicked? && landed <= |buf| && swd.D().env == old(swd.D()).env
      ensures !on ==> r.Failed? && r.count == 0
      ensures on ==> swd.dpSelect.apbank == 0
      ensures addr % 4 != 0 ==> r.Failed? && r.count == 0 && landed == 0
      ensures old(swd.Ready()) ==>
                && var (f, g, env) := (old(swd.D()).Final(), swd.D().Final(), swd.D().env);
                && (if on then swd.Ready() && g.csw == SetAddrIncField(f.csw, ADDRINC_SINGLE)
                    else g.csw in {f.csw, env.cswOf(SetAddrIncField(f.csw, ADDRINC_SINGLE))})
                && (env.KeepsTar() ==>
                      && g.mem == WriteWords(f.mem, addr, buf[..landed])
                      && (r.Done? && !g.sticky ==> landed == |buf| && g.trace == f.trace + Accesses(true, addr, |buf|))
                      && SwdInterface.Miscounted(f, env, if r.Done? then |buf| else r.count, landed))
                && (env.Clean() && !f.sticky ==> on && !g.sticky && (addr % 4 == 0 ==> r.Done?))
      ensures old(swd.Elsewhere()) ==> swd.Elsewhere() && Untouched(old(swd.D()), swd.D())
      ensures swd.S() == if swd.Unpowered() then old(swd.S()) else InBankZero(old(swd.D()), old(swd.dpSelect), swd.waitRetries)
    {
      CleanKeepsTar(swd.D().env);
      hide Env.KeepsTar, SetAddrIncField, AddrInc, MemAp.Perform, Env.Clean, Env.Prompt, WordAddr, WriteWords, InBankZero, Accesses;
      hide SwdInterface.Wrote, Landed, SwdInterface.Miscounted;
      ghost var f, known := swd.D().Final(), swd.Ready() && swd.D().env.KeepsTar();
      OnThenOff(f.csw);
      SwdInterface.NothingWritten(f.mem, addr, buf);
      SwdInterface.NoneMiscounted(f, swd.D().env);
      var switched := swd.SetAddrInc(true);
      if switched.Err? {
        return Failed(switched.error, 0), 0, false;
      }
      ghost var g := swd.D().Final();
      r, landed := swd.WriteMemBulk(addr, buf, fast);
      on := true;
      if known {
        SwdInterface.SameTrace(f, g, swd.D().env, if r.Failed? then r.count else 0, landed);
        if r.Done? {
          swd.WroteAll(g, swd.D().env, addr, buf);
          SwdInterface.SameTrace(f, g, swd.D().env, |buf|, landed);
        }
      }
    }

    /** Switching auto-increment off was tried, and reported success. */
    static predicate WentOff(off: Option<Result<(), SwdError>>) { off.Some? && off.value.Ok? }

    /** CSW after a transfer that began with `before`: auto-increment is off if that is what the last change reported. */
    static ghost predicate SwitchedOff(env: Env, before: u32, after: u32, off: Option<Result<(), SwdError>>) {
      var (on, none) := (SetAddrIncField(before, ADDRINC_SINGLE), SetAddrIncField(before, ADDRINC_OFF));
      if WentOff(off) then after == none
      else if off.None? then after in {before, env.cswOf(on)}
      else after in {on, env.cswOf(none)}
    }

    static lemma CleanKeepsTar(env: Env)
      ensures env.Clean() ==> env.KeepsTar()
    {
    }

    /** Switching auto-increment on and off again leaves it off, and the rest of CSW as it was. */
    static lemma OnThenOff(csw: u32)
      ensures AddrInc(SetAddrIncField(csw, ADDRINC_SINGLE)) == ADDRINC_SINGLE
      ensures SetAddrIncField(SetAddrIncField(csw, ADDRINC_SINGLE), ADDRINC_OFF) == SetAddrIncField(csw, ADDRINC_OFF)
    {
    }
  }
}
