/**
 Debug port and MEM-AP register words and the operations that address them.

 Masks and shifts are written as arithmetic on disjoint bit fields:
 `(x >> s) & (2^w - 1)` is `x / 2^s % 2^w`, and clearing a field and or-ing
 in a new value subtracts the old field and adds the new one.
 */
module Registers {
  import opened Bits

  // DP register addresses
  const ABORT: u8 := 0x00
  const IDCODE: u8 := 0x00
  const CTRL_STAT: u8 := 0x04
  const SELECT: u8 := 0x08
  const RDBUFF: u8 := 0x0C

  // MEM-AP register addresses
  const CSW: u8 := 0x00
  const TAR: u8 := 0x04
  const DRW: u8 := 0x0C

  type nibble = n: nat | n < 0x10

  /** DP SELECT, field by field: APSEL, bits 23 to 8, APBANKSEL, DPBANKSEL. */
  datatype Select = Select(apsel: u8, rest: u16, apbank: nibble, dpbank: nibble)
  {
    /** The register word. */
    function Word(): u32 { apsel * 0x100_0000 + rest * 0x100 + apbank * 0x10 + dpbank }

    function SetApSel(apsel: u8): Select { this.(apsel := apsel) }
    function SetDpBankSelFromAddr(addr: u8): Select { this.(dpbank := addr / 0x10) }
    function SetApBankSelFromAddr(addr: u8): Select { this.(apbank := addr / 0x10) }
  }

  const SELECT_DEFAULT := Select(0, 0, 0, 0)

  function SelectOf(w: u32): Select {
    Select(w / 0x100_0000, w / 0x100 % 0x1_0000, w / 0x10 % 0x10, w % 0x10)
  }

  /** The fields tile the word: no bit is lost, and no field can be written through another. */
  lemma SelectFields(s: Select, w: u32)
    ensures SelectOf(s.Word()) == s
    ensures SelectOf(w).Word() == w
  {
    Split(s);
    Join(w);
  }

  lemma Split(s: Select)
    ensures SelectOf(s.Word()) == s
  {
    var v := s.Word();
    var top := s.apsel * 0x1_0000 + s.rest;
    var mid := top * 0x10 + s.apbank;
    assert v == mid * 0x10 + s.dpbank;
    assert v / 0x10 == mid && v % 0x10 == s.dpbank;
    assert v / 0x100 == top;
    assert v / 0x100_0000 == s.apsel;
    assert mid % 0x10 == s.apbank && top % 0x1_0000 == s.rest;
  }

  lemma Join(w: u32)
    ensures SelectOf(w).Word() == w
  {
    var (top, mid) := (w / 0x100, w / 0x10);
    assert mid / 0x10 == top && top / 0x1_0000 == w / 0x100_0000;
    assert w == mid * 0x10 + w % 0x10;
    assert mid == top * 0x10 + mid % 0x10;
    assert top == top / 0x1_0000 * 0x1_0000 + top % 0x1_0000;
  }

  // MEM-AP CSW
  const ADDRINC_OFF := 0
  const ADDRINC_SINGLE := 1

  function AddrInc(csw: u32): nat { csw / 0x10 % 4 }

  function SetAddrIncField(csw: u32, inc: nat): (r: u32)
    ensures AddrInc(r) == inc % 4
    ensures r / 0x40 == csw / 0x40 && r % 0x10 == csw % 0x10
  {
    Pieces(csw / 0x40, inc % 4, csw % 0x10);
    csw / 0x40 * 0x40 + inc % 4 * 0x10 + csw % 0x10
  }

  lemma Pieces(hi: nat, mid: nat, lo: nat)
    requires mid < 4 && lo < 0x10
    ensures var r := hi * 0x40 + mid * 0x10 + lo;
            r % 0x10 == lo && r / 0x10 % 4 == mid && r / 0x40 == hi
  {
    var r := hi * 0x40 + mid * 0x10 + lo;
    assert r == (hi * 4 + mid) * 0x10 + lo;
    assert r / 0x10 == hi * 4 + mid;
  }

  // DP CTRL/STAT
  const CDBGPWRUPREQ := 0x1000_0000
  const CSYSPWRUPREQ := 0x4000_0000

  predicate CDbgPwrUpReq(s: u32) { s / 0x1000_0000 % 2 == 1 }
  predicate CSysPwrUpReq(s: u32) { s / 0x4000_0000 % 2 == 1 }
  predicate CDbgPwrUpAck(s: u32) { s / 0x2000_0000 % 2 == 1 }
  predicate CSysPwrUpAck(s: u32) { s / 0x8000_0000 % 2 == 1 }

  predicate StickyOrun(s: u32) { s / 0x2 % 2 == 1 }
  predicate StickyCmp(s: u32) { s / 0x10 % 2 == 1 }
  predicate StickyErr(s: u32) { s / 0x20 % 2 == 1 }
  predicate ReadOk(s: u32) { s / 0x40 % 2 == 1 }
  predicate WDataErr(s: u32) { s / 0x80 % 2 == 1 }

  predicate HasErrors(s: u32) {
    StickyOrun(s) || StickyCmp(s) || StickyErr(s) || WDataErr(s)
  }

  /** CTRL/STAT bit by bit: the four sticky flags, READOK, and the requests and acknowledges for power. */
  lemma StatusBits(s: u32)
    ensures var b := ToBits(s, 32);
            && (HasErrors(s) <==> b[1] || b[4] || b[5] || b[7])
            && (ReadOk(s) <==> b[6])
            && (CDbgPwrUpReq(s) <==> b[28]) && (CDbgPwrUpAck(s) <==> b[29])
            && (CSysPwrUpReq(s) <==> b[30]) && (CSysPwrUpAck(s) <==> b[31])
  {
    PowersOfTwo();
    BitAt(s, 32, 1);
    BitAt(s, 32, 4);
    BitAt(s, 32, 5);
    BitAt(s, 32, 6);
    BitAt(s, 32, 7);
    BitAt(s, 32, 28);
    BitAt(s, 32, 29);
    BitAt(s, 32, 30);
    BitAt(s, 32, 31);
    hide ToBits, Pow2;
  }

  lemma PowersOfTwo()
    ensures Pow2(1) == 0x2 && Pow2(4) == 0x10 && Pow2(5) == 0x20 && Pow2(6) == 0x40 && Pow2(7) == 0x80
    ensures Pow2(28) == 0x1000_0000 && Pow2(29) == 0x2000_0000 && Pow2(30) == 0x4000_0000 && Pow2(31) == 0x8000_0000
  {
    assert Pow2(8) == 0x100;
    assert Pow2(16) == 0x1_0000;
    assert Pow2(24) == 0x100_0000;
  }

  /** SWD operations, with the register address the caller gave. */
  datatype SwdOp =
    | DpRead(addr: u8)
    | DpWrite(addr: u8)
    | ApRead(addr: u8)
    | ApWrite(addr: u8)
  {
    predicate IsAp() { ApRead? || ApWrite? }
    predicate IsRead() { DpRead? || ApRead? }

    function ToCmd(): (cmd: u8) {
      var base := match this {
        case DpRead(_) => 0x85
        case DpWrite(_) => 0x81
        case ApRead(_) => 0x87
        case ApWrite(_) => 0x83
      };
      var cmd := base + ((addr / 4) % 4) * 8;
      cmd + 0x20 * Bit(Parity(((cmd / 2) % 0x10) * 2))
    }

    /** Whether `select` already names this operation's register bank. */
    predicate CheckDpSelect(select: Select) {
      if IsAp() then select.apbank == addr / 0x10 else select.dpbank == addr / 0x10
    }

    /** The SELECT word written when the bank is wrong. It starts from zero, not from the current word. */
    function NewSelect(): Select {
      if IsAp() then SELECT_DEFAULT.SetApBankSelFromAddr(addr) else SELECT_DEFAULT.SetDpBankSelFromAddr(addr)
    }

    /** Operations whose register is reachable whatever DP bank is selected. */
    predicate NeedsBank() {
      match this
      case DpWrite(a) => a != ABORT && a != SELECT && a != RDBUFF
      case DpRead(a) => a != IDCODE && a != SELECT && a != RDBUFF
      case _ => true
    }
  }

  /** The request a target decodes from the eight header bits: APnDP, RnW and A[3:2]. */
  datatype Hdr = Hdr(ap: bool, read: bool, a: nat)

  function HdrOf(op: SwdOp): Hdr { Hdr(op.IsAp(), op.IsRead(), (op.addr / 4) % 4) }

  /** A header is accepted when start, stop, park and parity are right. */
  function DecodeHeader(bits: seq<bool>): (r: (bool, Hdr))
    requires |bits| == 8
  {
    (bits[0] && !bits[6] && bits[7] && bits[5] == (Ones(bits[1..5]) % 2 == 1),
     Hdr(bits[1], bits[2], Bit(bits[3]) + 2 * Bit(bits[4])))
  }

  lemma FromBits4(b: seq<bool>)
    requires |b| == 4
    ensures FromBits(b) == Bit(b[0]) + 2 * Bit(b[1]) + 4 * Bit(b[2]) + 8 * Bit(b[3])
    ensures Ones(b) == Bit(b[0]) + Bit(b[1]) + Bit(b[2]) + Bit(b[3])
  {
    var b1 := b[1..];
    var b2 := b1[1..];
    var b3 := b2[1..];
    assert b1[0] == b[1] && b2[0] == b[2] && b3[0] == b[3] && b3[1..] == [];
    assert FromBits(b3) == Bit(b[3]) && Ones(b3) == Bit(b[3]);
    assert FromBits(b2) == Bit(b[2]) + 2 * FromBits(b3) && Ones(b2) == Bit(b[2]) + Ones(b3);
    assert FromBits(b1) == Bit(b[1]) + 2 * FromBits(b2) && Ones(b1) == Bit(b[1]) + Ones(b2);
  }

  function RequestBits(h: Hdr): seq<bool> { [h.ap, h.read, h.a % 2 == 1, h.a / 2 == 1] }

  /** A command byte is start, the four request bits, their parity, stop and park. */
  lemma CmdValue(op: SwdOp)
    ensures var b := RequestBits(HdrOf(op));
            op.ToCmd() == 1 + 2 * FromBits(b) + 0x20 * Bit(Ones(b) % 2 == 1) + 0x80
  {
    hide FromBits, Ones, CountOnes;
    var b := RequestBits(HdrOf(op));
    FromBits4(b);
    var low := FromBits(b);
    CountNibble(b);
    var a := HdrOf(op).a;
    assert a == Bit(a % 2 == 1) + 2 * Bit(a / 2 == 1);
    assert low == Bit(op.IsAp()) + 2 * Bit(op.IsRead()) + 4 * a;
    var cmd := 0x81 + 2 * low;
    assert (cmd / 2) % 0x10 == low;
    CountDoubled(low);
  }

  lemma CountDoubled(n: nat)
    ensures CountOnes(n * 2) == CountOnes(n)
  {
  }

  lemma CountNibble(b: seq<bool>)
    requires |b| == 4
    ensures FromBits(b) < 16 && CountOnes(FromBits(b)) == Ones(b)
  {
    FromBitsBound(b);
    assert Pow2(4) == 16;
    BitsRoundTripBack(b);
    OnesOfBits(FromBits(b), 4);
  }

  lemma SplitCommand(b: seq<bool>, p: bool)
    requires |b| == 4
    ensures FromBits([true] + b + [p, false, true]) == 1 + 2 * FromBits(b) + 0x20 * Bit(p) + 0x80
  {
    hide FromBits, Ones;
    var x, y := [true, b[0], b[1], b[2]], [b[3], p, false, true];
    FromBits4(b);
    FromBits4(x);
    FromBits4(y);
    FromBitsConcat(x, y);
    assert Pow2(4) == 16;
    assert [true] + b + [p, false, true] == x + y;
  }

  lemma CmdBits(op: SwdOp)
    ensures var b := RequestBits(HdrOf(op));
            ToBits(op.ToCmd(), 8) == [true] + b + [Ones(b) % 2 == 1, false, true]
  {
    var b := RequestBits(HdrOf(op));
    var bits := [true] + b + [Ones(b) % 2 == 1, false, true];
    CmdValue(op);
    SplitCommand(b, Ones(b) % 2 == 1);
    BitsRoundTripBack(bits);
  }

  lemma {:induction false} FromBitsConcat(x: seq<bool>, y: seq<bool>)
    ensures FromBits(x + y) == FromBits(x) + Pow2(|x|) * FromBits(y)
  {
    if x == [] {
      assert x + y == y;
    } else {
      assert (x + y)[1..] == x[1..] + y;
      FromBitsConcat(x[1..], y);
    }
  }

  /** The eight bits sent for an operation decode to exactly that operation's APnDP, RnW and A[3:2]. */
  lemma CommandDecodes(op: SwdOp)
    ensures DecodeHeader(ToBits(op.ToCmd(), 8)) == (true, HdrOf(op))
  {
    CmdBits(op);
    var bits := ToBits(op.ToCmd(), 8);
    var a := HdrOf(op).a;
    assert a == Bit(a % 2 == 1) + 2 * Bit(a / 2 == 1);
    assert bits[1..5] == RequestBits(HdrOf(op));
  }
}
