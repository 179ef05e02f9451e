/** Byte rings: a fixed buffer with a read and a write position, one slot always free. */
module Ring {
  import opened Bits

  predicate InRing(size: nat, r: nat, w: nat) { r < size && w < size }

  /** The bytes between the read and the write position. */
  function Unread(ring: seq<u8>, r: nat, w: nat): (s: seq<u8>)
    requires InRing(|ring|, r, w)
    ensures |s| == Held(|ring|, r, w)
  {
    if r <= w then ring[r..w] else ring[r..] + ring[..w]
  }

  function Held(size: nat, r: nat, w: nat): nat
    requires InRing(size, r, w)
  {
    if r <= w then w - r else size - r + w
  }

  /** Position `n` steps further on. */
  function Advance(size: nat, p: nat, n: nat): (q: nat)
    requires p < size && n <= size
    ensures q < size
  {
    if p + n < size then p + n else p + n - size
  }

  /** Byte `i` ahead of the read position. */
  lemma UnreadAt(ring: seq<u8>, r: nat, w: nat, i: nat)
    requires InRing(|ring|, r, w) && i < Held(|ring|, r, w)
    ensures Unread(ring, r, w)[i] == ring[Advance(|ring|, r, i)]
  {
  }

  /** Storing a byte at the write position and stepping it appends the byte. */
  lemma Append(ring: seq<u8>, r: nat, w: nat, b: u8)
    requires InRing(|ring|, r, w) && Held(|ring|, r, w) + 1 < |ring|
    ensures Unread(ring[w := b], r, Advance(|ring|, w, 1)) == Unread(ring, r, w) + [b]
  {
    var ring' := ring[w := b];
    var w' := Advance(|ring|, w, 1);
    var u, u' := Unread(ring, r, w), Unread(ring', r, w');
    assert |u'| == |u| + 1;
    forall i | 0 <= i < |u'|
      ensures u'[i] == (u + [b])[i]
    {
      UnreadAt(ring', r, w', i);
      if i < |u| { UnreadAt(ring, r, w, i); }
    }
  }

  /** Stepping the read position drops bytes from the front. */
  lemma Consume(ring: seq<u8>, r: nat, w: nat, n: nat)
    requires InRing(|ring|, r, w) && n <= Held(|ring|, r, w)
    ensures Unread(ring, Advance(|ring|, r, n), w) == Unread(ring, r, w)[n..]
  {
    var r' := Advance(|ring|, r, n);
    var u, u' := Unread(ring, r, w), Unread(ring, r', w);
    assert |u'| == |u| - n;
    forall i | 0 <= i < |u'|
      ensures u'[i] == u[n + i]
    {
      UnreadAt(ring, r', w, i);
      UnreadAt(ring, r, w, n + i);
    }
  }

  /** The first `n` unread bytes lie in at most two runs: up to the end of the buffer, and from its start. */
  lemma TwoRuns(ring: seq<u8>, r: nat, w: nat, n: nat)
    requires InRing(|ring|, r, w) && n <= Held(|ring|, r, w)
    ensures r + n <= |ring| ==> Unread(ring, r, w)[..n] == ring[r..r + n]
    ensures r + n > |ring| ==> Unread(ring, r, w)[..n] == ring[r..] + ring[..n - (|ring| - r)]
  {
  }

  /** Bytes up to one position, then on to the next. */
  lemma Split(ring: seq<u8>, r: nat, w: nat, k: nat)
    requires InRing(|ring|, r, w) && Held(|ring|, r, w) + k < |ring|
    ensures var w' := Advance(|ring|, w, k);
            && Held(|ring|, r, w') == Held(|ring|, r, w) + k
            && Unread(ring, r, w') == Unread(ring, r, w) + Unread(ring, w, w')
  {
    var w' := Advance(|ring|, w, k);
    var u, v, u' := Unread(ring, r, w), Unread(ring, w, w'), Unread(ring, r, w');
    assert |v| == k && |u'| == |u| + k;
    forall i | 0 <= i < |u'|
      ensures u'[i] == (u + v)[i]
    {
      UnreadAt(ring, r, w', i);
      if i < |u| { UnreadAt(ring, r, w, i); } else { UnreadAt(ring, w, w', i - |u|); }
    }
  }

  /** A byte stored in the free part leaves the unread bytes alone. */
  lemma StoreFree(ring: seq<u8>, r: nat, w: nat, k: nat, b: u8)
    requires InRing(|ring|, r, w) && Held(|ring|, r, w) + k < |ring|
    ensures Unread(ring[Advance(|ring|, w, k) := b], r, w) == Unread(ring, r, w)
  {
  }

  /** Stepping by a remainder is the same. */
  lemma AdvanceIsMod(size: nat, p: nat, n: nat)
    requires p < size && n < size
    ensures (p + n) % size == Advance(size, p, n)
  {
    if p + n < size {
    } else {
      assert p + n == size + (p + n - size);
      ModOnce(size, p + n - size);
    }
  }

  lemma ModOnce(size: nat, m: nat)
    requires m < size
    ensures (size + m) % size == m
  {
  }
}
