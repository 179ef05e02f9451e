/** Byte reads of a target that is only read in aligned words. */
module ByteWindow {
  import opened Bits

  const ADDRESS_SPACE := 0x1_0000_0000

  function StartAligned(addr: u32): u32 { addr - addr % 4 }

  /** Rounded up to a word, in 32-bit arithmetic. */
  function EndAligned(addr: u32, n: nat): u32 {
    var e := (addr + n + 3) % ADDRESS_SPACE;
    e - e % 4
  }

  /** The request either reader makes: first word and number of words. */
  function Window(addr: u32, n: nat): (u32, nat) {
    var (s, e) := (StartAligned(addr), EndAligned(addr, n));
    (s, if e < s then 0 else (e - s) / 4)
  }

  /** A word's bytes in memory order. */
  function WordBytes(w: u32): (b: seq<u8>)
    ensures |b| == 4
  {
    [w % 0x100, w / 0x100 % 0x100, w / 0x1_0000 % 0x100, w / 0x100_0000]
  }

  /** Byte `k` of a word as a number: the low byte first. */
  function ByteOf(w: u32, k: nat): u8
    requires k < 4
  {
    match k
    case 0 => w % 0x100
    case 1 => w / 0x100 % 0x100
    case 2 => w / 0x1_0000 % 0x100
    case 3 => w / 0x100_0000 % 0x100
  }

  lemma BytesAre(w: u32, k: nat)
    requires k < 4
    ensures WordBytes(w)[k] == ByteOf(w, k)
  {
  }

  function WordOf(b: seq<u8>): u32
    requires |b| == 4
  {
    var (b0: nat, b1: nat, b2: nat, b3: nat) := (b[0], b[1], b[2], b[3]);
    b0 + b1 * 0x100 + b2 * 0x1_0000 + b3 * 0x100_0000
  }

  lemma WordRoundTrip(b: seq<u8>)
    requires |b| == 4
    ensures WordBytes(WordOf(b)) == b
  {
    var (b0: nat, b1: nat, b2: nat, b3: nat) := (b[0], b[1], b[2], b[3]);
    var (h, m) := (b2 + 0x100 * b3, b1 + 0x100 * (b2 + 0x100 * b3));
    assert WordOf(b) == b0 + 0x100 * m == (b0 + 0x100 * b1) + 0x1_0000 * h;
    By256(m, b0);
    By256(h, b1);
    By256(b3, b2);
    By2To16(h, b0 + 0x100 * b1);
    By2To24(b3, b0 + 0x100 * b1 + 0x1_0000 * b2);
  }

  lemma BytesRoundTrip(w: u32)
    ensures WordOf(WordBytes(w)) == w
  {
    var (a, b) := (w / 0x100, w / 0x1_0000);
    assert a / 0x100 == b && b / 0x100 == w / 0x100_0000;
    assert w == a * 0x100 + w % 0x100;
    assert a == b * 0x100 + a % 0x100;
    assert b == b / 0x100 * 0x100 + b % 0x100;
  }

  /** The bytes of consecutive words. */
  function Bytes(words: seq<u32>): (b: seq<u8>)
    ensures |b| == 4 * |words|
  {
    if words == [] then [] else Bytes(words[..|words| - 1]) + WordBytes(words[|words| - 1])
  }

  lemma {:induction false} BytesAt(words: seq<u32>, i: nat)
    requires i < 4 * |words|
    ensures Bytes(words)[i] == WordBytes(words[i / 4])[i % 4]
  {
    var n := |words| - 1;
    if i < 4 * n {
      BytesAt(words[..n], i);
    } else {
      assert i / 4 == n && i - 4 * n == i % 4;
    }
  }

  /** The byte at `a` in a memory read word by word. */
  function ByteAt(mem: nat -> u32, a: nat): u8 { WordBytes(mem(a - a % 4))[a % 4] }

  /** What the target returns for `count` words from a word-aligned address. */
  ghost predicate WordsFrom(mem: nat -> u32, start: nat, words: seq<u32>) {
    forall i | 0 <= i < |words| :: words[i] == mem(start + 4 * i)
  }

  /** The aligned window covers the bytes asked for, with at most three to spare on either side. */
  lemma WindowCovers(addr: u32, n: nat)
    requires addr + n + 3 < ADDRESS_SPACE
    ensures var (s, e) := (StartAligned(addr), EndAligned(addr, n));
            && s % 4 == 0 && e % 4 == 0 && s <= addr < s + 4 && addr + n <= e < addr + n + 4 && s <= e
            && Window(addr, n).0 == s && 4 * Window(addr, n).1 == e - s
  {
    var e := addr + n + 3;
    By2To32(0, e);
    var (q, p) := (addr / 4, e / 4);
    assert addr == 4 * q + addr % 4 && e == 4 * p + e % 4;
    By4(q, 0);
    By4(p, 0);
    By4(p - q, 0);
  }

  lemma {:induction false} WindowBytes(mem: nat -> u32, start: nat, words: seq<u32>, i: nat)
    requires start % 4 == 0 && WordsFrom(mem, start, words) && i < 4 * |words|
    ensures Bytes(words)[i] == ByteAt(mem, start + i)
  {
    hide Bytes, WordBytes;
    BytesAt(words, i);
    InWord(start, i / 4, i % 4);
  }

  /** Byte `j` of word `i` from a word-aligned address. */
  lemma InWord(start: nat, i: nat, j: nat)
    requires start % 4 == 0 && j < 4
    ensures (start + (4 * i + j)) % 4 == j && start + (4 * i + j) - j == start + 4 * i
  {
    assert start == 4 * (start / 4);
    By4(start / 4 + i, j);
    assert start + (4 * i + j) == 4 * (start / 4 + i) + j;
  }

  lemma ByteOfWord(mem: nat -> u32, start: nat, words: seq<u32>, i: nat, j: nat)
    requires start % 4 == 0 && j < 4 && i < |words| && WordsFrom(mem, start, words)
    ensures ByteAt(mem, start + (i * 4 + j)) == WordBytes(words[i])[j]
  {
    hide WordBytes;
    InWord(start, i, j);
  }

  /** The requested bytes, cut out of the window. */
  method CutBytes(words: seq<u32>, location: u32, n: nat) returns (r: seq<u8>)
    requires location + n + 3 < ADDRESS_SPACE && |words| == Window(location, n).1
    ensures location - StartAligned(location) + n <= 4 * |words|
    ensures r == Bytes(words)[location - StartAligned(location)..location - StartAligned(location) + n]
  {
    WindowCovers(location, n);
    hide Window, StartAligned, EndAligned, WordBytes;
    var bytes := [];
    for i := 0 to |words|
      invariant bytes == Bytes(words[..i])
    {
      assert words[..i + 1][..i] == words[..i];
      bytes := bytes + WordBytes(words[i]);
    }
    assert words[..|words|] == words;
    var offset := location - StartAligned(location);
    r := bytes[offset..offset + n];
  }

  /** Memory's bytes from `location` on. */
  ghost predicate BytesFrom(mem: nat -> u32, location: nat, bytes: seq<u8>) {
    forall i | 0 <= i < |bytes| :: bytes[i] == ByteAt(mem, location + i)
  }

  /** From a memory that stands still, the bytes cut out are the bytes asked for. */
  lemma CutIsExact(words: seq<u32>, location: u32, n: nat, mem: nat -> u32)
    requires location + n + 3 < ADDRESS_SPACE && |words| == Window(location, n).1
    requires WordsFrom(mem, Window(location, n).0, words)
    ensures var o := location - StartAligned(location);
            o + n <= 4 * |words| && BytesFrom(mem, location, Bytes(words)[o..o + n])
  {
    WindowCovers(location, n);
    hide ByteAt, Bytes, WordsFrom, Window, StartAligned, EndAligned, WordBytes, BytesFrom;
    CutFrom(words, StartAligned(location), location - StartAligned(location), n, mem);
  }

  lemma CutFrom(words: seq<u32>, start: nat, o: nat, n: nat, mem: nat -> u32)
    requires start % 4 == 0 && WordsFrom(mem, start, words) && o + n <= 4 * |words|
    ensures BytesFrom(mem, start + o, Bytes(words)[o..o + n])
  {
    hide ByteAt, Bytes, WordsFrom, WordBytes;
    var cut := Bytes(words)[o..o + n];
    forall i | 0 <= i < |cut|
      ensures cut[i] == ByteAt(mem, start + o + i)
    {
      WindowBytes(mem, start, words, o + i);
      assert start + (o + i) == start + o + i;
    }
  }

  /**
   The firmware reader: fill `buf` with the bytes from `addr`, keeping from
   each word of the window only the bytes that fall inside the range.
   */
  method ReadInto(addr: u32, buf: array<u8>, words: seq<u32>, ghost mem: nat -> u32)
    requires addr + buf.Length + 3 < ADDRESS_SPACE
    requires |words| == Window(addr, buf.Length).1 && WordsFrom(mem, Window(addr, buf.Length).0, words)
    modifies buf
    ensures BytesFrom(mem, addr, buf[..])
  {
    WindowCovers(addr, buf.Length);
    hide WordBytes, ByteAt, EndAligned, StartAligned, Window, WordsFrom;
    var start := StartAligned(addr);
    var offset := addr - start;
    for i := 0 to |words|
      invariant forall k | 0 <= k < buf.Length && offset + k < 4 * i :: buf[k] == ByteAt(mem, addr + k)
    {
      var bytes := WordBytes(words[i]);
      for j := 0 to 4
        invariant forall k | 0 <= k < buf.Length && offset + k < 4 * i + j :: buf[k] == ByteAt(mem, addr + k)
      {
        var at := i * 4 + j;
        ByteOfWord(mem, start, words, i, j);
        if at >= offset && at - offset < buf.Length {
          buf[at - offset] := bytes[j];
        }
      }
    }
  }
}
