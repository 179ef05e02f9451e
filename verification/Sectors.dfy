/** Which flash sectors of an STM32F4 a range of words touches, by the program's sector table. */
module Sectors {
  import opened Wrappers
  import opened Bits

  const MAX_SECTORS: nat := 12

  const SECTOR_SIZES: seq<nat> := [
    0x4000, 0x4000, 0x4000, 0x1_0000, 0x2_0000, 0x2_0000, 0x2_0000, 0x2_0000, 0x2_0000, 0x2_0000, 0x2_0000, 0x2_0000]

  function SectorSize(i: nat): nat
    requires i < MAX_SECTORS
  {
    SECTOR_SIZES[i]
  }

  /** The first byte of sector `i`. */
  function SectorStart(i: nat): nat
    requires i <= MAX_SECTORS
  {
    if i == 0 then 0 else SectorStart(i - 1) + SectorSize(i - 1)
  }

  lemma {:induction false} StartsAscend(i: nat, j: nat)
    requires i <= j <= MAX_SECTORS
    ensures SectorStart(i) + (j - i) <= SectorStart(j)
    decreases j - i
  {
    if i == j {
    } else {
      StartsAscend(i, j - 1);
    }
  }

  lemma TableTotal()
    ensures SectorStart(MAX_SECTORS) == 0x11_C000
  {
    assert SectorStart(4) == 0x1_C000;
    assert SectorStart(8) == 0x9_C000;
  }

  /** Where each sector starts. */
  lemma TableStarts()
    ensures SectorStart(0) == 0 && SectorStart(1) == 0x4000 && SectorStart(2) == 0x8000 && SectorStart(3) == 0xC000
    ensures SectorStart(4) == 0x1_C000 && SectorStart(5) == 0x3_C000 && SectorStart(6) == 0x5_C000 && SectorStart(7) == 0x7_C000
    ensures SectorStart(8) == 0x9_C000 && SectorStart(9) == 0xB_C000 && SectorStart(10) == 0xD_C000 && SectorStart(11) == 0xF_C000
  {
    assert SectorStart(4) == 0x1_C000;
    assert SectorStart(8) == 0x9_C000;
  }

  predicate InSector(b: nat, i: nat)
    requires i < MAX_SECTORS
  {
    SectorStart(i) <= b < SectorStart(i + 1)
  }

  /** The sector and the bytes `lo` to `hi` have a byte in common. */
  ghost predicate Meets(i: nat, lo: nat, hi: nat)
    requires i < MAX_SECTORS
  {
    exists b: nat :: InSector(b, i) && lo <= b <= hi
  }

  /** The first byte of a word, in 32-bit arithmetic. */
  function FirstByte(word: u32): u32 { word * 4 % 0x1_0000_0000 }

  function LastByte(word: u32): u32 { FirstByte(word) + 3 }

  class Stm {
    const isF4: bool
    const flashSizeBytes: Option<u32>

    constructor (isF4: bool, flashSizeBytes: Option<u32>)
      ensures this.isF4 == isF4 && this.flashSizeBytes == flashSizeBytes
    {
      this.isF4, this.flashSizeBytes := isF4, flashSizeBytes;
    }

    /** Is the range accepted? */
    predicate Accepts(startWord: u32, endWord: u32) {
      isF4 && startWord <= endWord && flashSizeBytes.Some? && (LastByte(endWord) + 1) % 0x1_0000_0000 <= flashSizeBytes.value
    }

    /** Below the very last word of the address space, a range is accepted when its last byte lies inside the flash. */
    lemma AcceptedInside(startWord: u32, endWord: u32)
      requires endWord < 0x3FFF_FFFF
      ensures Accepts(startWord, endWord) <==>
              isF4 && startWord <= endWord && flashSizeBytes.Some? && 4 * endWord + 3 < flashSizeBytes.value
    {
    }

    /** A range that ends with that word is accepted whatever the size of the flash. */
    lemma LastWordAccepted(startWord: u32)
      requires isF4 && startWord <= 0x3FFF_FFFF && flashSizeBytes.Some?
      ensures Accepts(startWord, 0x3FFF_FFFF)
    {
    }

    /** The sectors of a range of words, both ends included, in ascending order. */
    method GetSectorsFromWordRange(startWord: u32, endWord: u32, sectors: array<u8>) returns (r: Option<nat>)
      requires sectors.Length == MAX_SECTORS
      modifies sectors
      ensures r.Some? <==> Accepts(startWord, endWord)
      ensures r.None? ==> sectors[..] == old(sectors[..])
      ensures r.Some? ==>
                && r.value <= MAX_SECTORS && sectors[r.value..] == old(sectors[r.value..])
                && (forall k | 0 <= k < r.value :: sectors[k] == sectors[0] + k)
                && (FirstByte(startWord) <= LastByte(endWord) ==>
                      (r.value > 0 <==> FirstByte(startWord) < SectorStart(MAX_SECTORS)))
                && (FirstByte(startWord) <= LastByte(endWord) ==>
                      forall i | 0 <= i < MAX_SECTORS :: i in sectors[..r.value] <==> Meets(i, FirstByte(startWord), LastByte(endWord)))
    {
      hide SectorStart, Meets, Touches;
      if !isF4 {
        return None;
      }
      var startBytes := FirstByte(startWord);
      var endBytes := FirstByte(endWord);
      if startWord > endWord {
        return None;
      }
      if flashSizeBytes.None? {
        return None;
      }
      if (endBytes + 4) % 0x1_0000_0000 > flashSizeBytes.value {
        return None;
      }
      var count;
      ghost var first;
      count, first := FillSectors(startBytes, endBytes + 3, sectors);
      Listed(sectors[..count], first, startBytes, endBytes + 3);
      r := Some(count);
      if startBytes <= endBytes + 3 { SomeListed(sectors[..count], startBytes, endBytes + 3); }
    }

    static method FillSectors(startBytes: u32, rangeEnd: u32, sectors: array<u8>) returns (count: nat, ghost first: nat)
      requires sectors.Length == MAX_SECTORS
      modifies sectors
      ensures first + count <= MAX_SECTORS && forall k | count <= k < MAX_SECTORS :: sectors[k] == old(sectors[k])
      ensures forall k | 0 <= k < count :: sectors[k] == first + k
      ensures Found(first, count, MAX_SECTORS, startBytes, rangeEnd)
    {
      assert SectorStart(0) == 0;
      hide SectorStart, SectorSize, Meets, Touches, Found;
      NoneFound(startBytes, rangeEnd);
      count := 0;
      var currentAddress := 0;
      var n := 0;
      first := 0;
      while n < MAX_SECTORS
        invariant n <= MAX_SECTORS && currentAddress == SectorStart(n) && first + count <= n
        invariant forall k | count <= k < MAX_SECTORS :: sectors[k] == old(sectors[k])
        invariant forall k | 0 <= k < count :: sectors[k] == first + k
        invariant Found(first, count, n, startBytes, rangeEnd)
      {
        var size := SectorSize(n);
        NextStart(n);
        TouchTest(n, startBytes, rangeEnd);
        var sectorStart := currentAddress;
        var sectorEnd := currentAddress + size - 1;
        if startBytes <= sectorEnd && rangeEnd >= sectorStart {
          FoundNext(first, count, n, startBytes, rangeEnd);
          first := if count == 0 then n else first;
          sectors[count] := n;
          count := count + 1;
        } else {
          FoundNoMore(first, count, n, startBytes, rangeEnd);
        }
        currentAddress := currentAddress + size;
        n := n + 1;
        if currentAddress > rangeEnd {
          NoneAfter(n, startBytes, rangeEnd);
          FoundAll(first, count, n, startBytes, rangeEnd);
          break;
        }
      }
    }
  }

  lemma NextStart(n: nat)
    requires n < MAX_SECTORS
    ensures SectorStart(n + 1) == SectorStart(n) + SectorSize(n) && SectorSize(n) > 0
  {
  }

  lemma TouchTest(n: nat, lo: nat, hi: nat)
    requires n < MAX_SECTORS
    ensures Touches(n, lo, hi) <==> lo < SectorStart(n + 1) && SectorStart(n) <= hi
  {
  }

  /** A run of consecutive numbers that holds the sectors touched holds the sectors met. */
  lemma Listed(list: seq<u8>, first: nat, lo: nat, hi: nat)
    requires forall k | 0 <= k < |list| :: list[k] == first + k
    requires Found(first, |list|, MAX_SECTORS, lo, hi)
    ensures lo <= hi ==> forall i | 0 <= i < MAX_SECTORS :: i in list <==> Meets(i, lo, hi)
  {
    hide Meets, Touches;
    if lo <= hi {
      forall i | 0 <= i < MAX_SECTORS
        ensures i in list <==> Meets(i, lo, hi)
      {
        TouchMeans(i, lo, hi);
        if first <= i < first + |list| { assert list[i - first] == i; }
      }
    }
  }

  /** The program's test. */
  predicate Touches(i: nat, lo: nat, hi: nat)
    requires i < MAX_SECTORS
  {
    lo < SectorStart(i + 1) && SectorStart(i) <= hi
  }

  /** Of the first `n` sectors, those touched are the `count` from `first` on. */
  ghost predicate Found(first: nat, count: nat, n: nat, lo: nat, hi: nat) {
    n <= MAX_SECTORS && forall i | 0 <= i < n :: first <= i < first + count <==> Touches(i, lo, hi)
  }

  lemma NoneFound(lo: nat, hi: nat)
    ensures Found(0, 0, 0, lo, hi)
  {
  }

  lemma FoundNext(first: nat, count: nat, n: nat, lo: nat, hi: nat)
    requires n < MAX_SECTORS && Found(first, count, n, lo, hi) && Touches(n, lo, hi) && first + count <= n
    ensures count > 0 ==> first + count == n
    ensures Found(if count == 0 then n else first, count + 1, n + 1, lo, hi)
  {
    if count > 0 {
      assert Touches(first, lo, hi);
      Consecutive(first, n, lo, hi);
    }
    hide Touches;
  }

  lemma FoundNoMore(first: nat, count: nat, n: nat, lo: nat, hi: nat)
    requires n < MAX_SECTORS && Found(first, count, n, lo, hi) && !Touches(n, lo, hi) && first + count <= n
    ensures Found(first, count, n + 1, lo, hi)
  {
    hide Touches;
  }

  lemma FoundAll(first: nat, count: nat, n: nat, lo: nat, hi: nat)
    requires Found(first, count, n, lo, hi) && first + count <= n
    requires forall i | n <= i < MAX_SECTORS :: !Touches(i, lo, hi)
    ensures Found(first, count, MAX_SECTORS, lo, hi)
  {
    hide Touches;
  }

  lemma TouchMeans(i: nat, lo: nat, hi: nat)
    requires lo <= hi && i < MAX_SECTORS
    ensures Touches(i, lo, hi) <==> Meets(i, lo, hi)
  {
    NextStart(i);
    hide SectorStart;
    if Touches(i, lo, hi) {
      var b := if lo <= SectorStart(i) then SectorStart(i) else lo;
      assert InSector(b, i);
    }
  }

  /** Between two sectors that touch the range, all do. */
  lemma Consecutive(a: nat, b: nat, lo: nat, hi: nat)
    requires b < MAX_SECTORS && Touches(b, lo, hi)
    ensures a < b && Touches(a, lo, hi) ==> Touches(b - 1, lo, hi)
  {
    if a < b {
      StartsAscend(a + 1, b);
      StartsAscend(b - 1, b);
    }
  }

  lemma NoneAfter(n: nat, lo: nat, hi: nat)
    requires n <= MAX_SECTORS && SectorStart(n) > hi
    ensures forall i | n <= i < MAX_SECTORS :: !Touches(i, lo, hi)
  {
    forall i | n <= i < MAX_SECTORS
      ensures !Touches(i, lo, hi)
    {
      StartsAscend(n, i);
    }
  }

  /** A byte inside the table is in one of its sectors: the range that starts there has at least one. */
  lemma {:induction false} SomeSector(lo: nat, hi: nat, n: nat)
    requires n <= MAX_SECTORS && lo < SectorStart(n) && lo <= hi
    ensures exists i :: 0 <= i < n && Meets(i, lo, hi)
  {
    if SectorStart(n - 1) > lo {
      SomeSector(lo, hi, n - 1);
    } else {
      assert InSector(lo, n - 1);
      assert Meets(n - 1, lo, hi);
    }
  }

  lemma SomeListed(list: seq<u8>, lo: nat, hi: nat)
    requires lo <= hi && forall k | 0 <= k < |list| :: list[k] < MAX_SECTORS
    requires forall i | 0 <= i < MAX_SECTORS :: i in list <==> Meets(i, lo, hi)
    ensures list != [] <==> lo < SectorStart(MAX_SECTORS)
  {
    if list != [] {
      assert list[0] in list;
      assert Meets(list[0], lo, hi);
      StartsAscend(list[0] + 1, MAX_SECTORS);
    }
    hide SectorStart;
    if lo < SectorStart(MAX_SECTORS) {
      SomeSector(lo, hi, MAX_SECTORS);
      var i: nat :| i < MAX_SECTORS && Meets(i, lo, hi);
      assert i in list;
    }
  }

  /** The byte addresses are those of the words exactly for words below 2^30; above, they wrap. */
  lemma BytesOfWords(startWord: u32, endWord: u32)
    requires startWord <= endWord
    ensures endWord < 0x4000_0000 <==> LastByte(endWord) == endWord * 4 + 3
    ensures endWord < 0x4000_0000 ==> FirstByte(startWord) == startWord * 4 <= LastByte(endWord)
  {
  }
}
