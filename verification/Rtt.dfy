/**
 The RTT log pipe: a running target fills a ring in its RAM, the probe polls
 it with several separate reads, copies what it finds into its own ring and
 moves the target's read position on, and clients drain the probe's ring.
 */
module Rtt {
  import opened Wrappers
  import opened Bits
  import opened Ring
  import opened ByteWindow
  import opened LocalBuffer

  const MAX_BYTES_PER_READ: nat := 256

  datatype Error = Stopped | NoData | NotFound | Target | Internal | Full
  datatype State = Started | Halted
  datatype Command = GetState | Read(max: nat) | StartLog | StopLog
  datatype Response = StateIs(state: State) | Logged(data: seq<u8>)

  /**
   The target: its up-buffer ring at `dataPtr`, the positions it keeps, and the
   rest of its memory. It stores bytes beyond its write position first and
   makes them visible by moving the position; it never overwrites unread
   bytes. `logged` is everything it ever made visible.
   */
  class TargetRam {
    const dataPtr: u32
    const elsewhere: nat -> u8
    var ring: seq<u8>
    var wr: nat
    var rd: nat
    var staged: nat
    ghost var logged: seq<u8>
    /** How many of the probe's accesses failed, were lost, or found no control block. */
    ghost var troubles: nat

    ghost predicate Valid()
      reads this
    {
      && InRing(|ring|, rd, wr) && Held(|ring|, rd, wr) + staged < |ring|
      && dataPtr + |ring| + 3 < ADDRESS_SPACE
    }

    ghost function Pending(): seq<u8>
      requires Valid()
      reads this
    {
      Unread(ring, rd, wr)
    }

    constructor (dataPtr: u32, ring: seq<u8>, elsewhere: nat -> u8)
      requires |ring| > 0 && dataPtr + |ring| + 3 < ADDRESS_SPACE
      ensures Valid() && Pending() == [] && logged == []
      ensures this.ring == ring && this.dataPtr == dataPtr
    {
      this.dataPtr, this.ring, this.elsewhere := dataPtr, ring, elsewhere;
      wr, rd, staged, logged, troubles := 0, 0, 0, [], 0;
    }

    /** The target stores a byte ahead of its write position, if there is room. */
    method StoreByte(b: u8)
      requires Valid()
      modifies this`ring, this`staged
      ensures Valid() && |ring| == |old(ring)| && Pending() == old(Pending())
    {
      if Held(|ring|, rd, wr) + staged + 1 < |ring| {
        StoreFree(ring, rd, wr, staged, b);
        ring := ring[Advance(|ring|, wr, staged) := b];
        staged := staged + 1;
      }
    }

    /** The target makes bytes it has stored visible. */
    method Publish(k: nat) returns (ghost news: seq<u8>)
      requires Valid() && k <= staged
      modifies this`wr, this`staged, this`logged
      ensures Valid()
      ensures logged == old(logged) + news && Pending() == old(Pending()) + news
    {
      Split(ring, rd, wr, k);
      ghost var w := wr;
      wr := Advance(|ring|, wr, k);
      staged := staged - k;
      news := Unread(ring, w, wr);
      logged := logged + news;
    }

    /** The target runs for a while: any number of stores and publications. */
    method Runs() returns (ghost news: seq<u8>)
      requires Valid()
      modifies this`ring, this`wr, this`staged, this`logged
      ensures Valid() && |ring| == |old(ring)|
      ensures logged == old(logged) + news && Pending() == old(Pending()) + news
    {
      hide Unread, Advance, Held;
      news := [];
      var steps: nat := *;
      while steps > 0
        invariant Valid() && |ring| == |old(ring)|
        invariant logged == old(logged) + news && Pending() == old(Pending()) + news
      {
        var publish: bool, k: nat, b: u8 := *, *, *;
        if publish && k <= staged {
          ghost var more := Publish(k);
          news := news + more;
        } else {
          StoreByte(b);
        }
        steps := steps - 1;
      }
    }

    function Byte(a: nat): u8
      reads this
    {
      if dataPtr <= a < dataPtr + |ring| then ring[a - dataPtr] else elsewhere(a)
    }

    function FourBytes(a: nat): (b: seq<u8>)
      reads this
      ensures |b| == 4 && forall j | 0 <= j < 4 :: b[j] == Byte(a + j)
    {
      [Byte(a), Byte(a + 1), Byte(a + 2), Byte(a + 3)]
    }

    function Word(a: nat): u32
      reads this
    {
      WordOf(FourBytes(a))
    }

    /** The byte of an unread position, read at any moment from now on, is the unread byte. */
    lemma PendingByte(u: seq<u8>, i: nat)
      requires Valid() && u <= Pending() && i < |u|
      ensures Byte(dataPtr + Advance(|ring|, rd, i)) == u[i]
    {
      UnreadAt(ring, rd, wr, i);
    }

    /** A bulk read of target memory. The target runs on between the words; the read may fail. */
    method ReadMemBulk(start: u32, count: nat) returns (r: Result<seq<u32>, Error>, ghost news: seq<u8>)
      requires Valid()
      modifies this`ring, this`wr, this`staged, this`logged, this`troubles
      ensures Valid() && |ring| == |old(ring)|
      ensures logged == old(logged) + news && Pending() == old(Pending()) + news
      ensures r.Ok? ==> |r.value| == count
                        && Faithful(Bytes(r.value), start, dataPtr, |ring|, rd, old(Pending()))
      ensures troubles == old(troubles) + if r.Ok? then 0 else 1
    {
      hide Unread, Advance, Held, Bytes, Word, FourBytes, Byte, Faithful, WordBytes;
      ghost var u := Pending();
      news := [];
      var words := [];
      EmptyIsFaithful(start, u);
      for i := 0 to count
        invariant troubles == old(troubles)
        invariant Valid() && |ring| == |old(ring)| && |words| == i
        invariant logged == old(logged) + news && Pending() == u + news
        invariant Faithful(Bytes(words), start, dataPtr, |ring|, rd, u)
      {
        ghost var more := Runs();
        news := news + more;
        assert Pending() == u + news;
        StaysFaithful(Bytes(words), start, u);
        WordHolds(start + 4 * i);
        BytesSnoc(words, Word(start + 4 * i));
        words := words + [Word(start + 4 * i)];
      }
      var fails: bool := *;
      if fails { troubles := troubles + 1; }
      r := if fails then Err(Target) else Ok(words);
    }

    lemma EmptyIsFaithful(start: u32, u: seq<u8>)
      requires Valid() && u <= Pending()
      ensures Faithful(Bytes([]), start, dataPtr, |ring|, rd, u)
    {
    }

    /** Bytes read now are as faithful as the target's memory. */
    lemma BytesNow(a: nat, b: seq<u8>, u: seq<u8>)
      requires Valid() && u <= Pending()
      requires forall j | 0 <= j < |b| :: b[j] == Byte(a + j)
      ensures Faithful(b, a, dataPtr, |ring|, rd, u)
    {
      hide Unread, Advance, Held, Byte;
      forall i | 0 <= i < |u| && a <= dataPtr + Advance(|ring|, rd, i) < a + |b|
        ensures b[dataPtr + Advance(|ring|, rd, i) - a] == u[i]
      {
        var at := dataPtr + Advance(|ring|, rd, i);
        PendingByte(u, i);
        assert b[at - a] == Byte(a + (at - a));
      }
    }

    /** Four more bytes keep a read faithful. */
    lemma StaysFaithful(bytes: seq<u8>, start: u32, u: seq<u8>)
      requires Valid() && u <= Pending()
      requires Faithful(bytes, start, dataPtr, |ring|, rd, u)
      ensures Faithful(bytes + FourBytes(start + |bytes|), start, dataPtr, |ring|, rd, u)
    {
      hide Byte, Advance, Held, Unread, Faithful;
      BytesNow(start + |bytes|, FourBytes(start + |bytes|), u);
      FaithfulConcat(bytes, FourBytes(start + |bytes|), start, dataPtr, |ring|, rd, u);
    }

    /** A word read holds its four bytes. */
    lemma WordHolds(a: nat)
      ensures WordBytes(Word(a)) == FourBytes(a)
    {
      hide WordBytes, WordOf;
      WordRoundTrip(FourBytes(a));
    }

    static lemma BytesSnoc(words: seq<u32>, w: u32)
      ensures Bytes(words + [w]) == Bytes(words) + WordBytes(w)
    {
      assert (words + [w])[..|words|] == words;
    }

    /** Read one of the two positions. The target runs on first; the read may fail. */
    method ReadPosition(writeSide: bool) returns (r: Result<nat, Error>, ghost news: seq<u8>)
      requires Valid()
      modifies this`ring, this`wr, this`staged, this`logged, this`troubles
      ensures Valid() && |ring| == |old(ring)|
      ensures logged == old(logged) + news && Pending() == old(Pending()) + news
      ensures if r.Ok? then r.value == (if writeSide then wr else rd) else r.error == NoData
      ensures troubles == old(troubles) + if r.Ok? then 0 else 1
    {
      news := Runs();
      var fails: bool := *;
      if fails { troubles := troubles + 1; }
      r := if fails then Err(NoData) else Ok(if writeSide then wr else rd);
    }

    /** Write the read position. Whatever is reported, the write may or may not have reached the target's memory. */
    method WriteReadPos(p: nat, ghost k: nat) returns (ok: bool, ghost applied: bool, ghost news: seq<u8>)
      requires Valid() && k <= |Pending()| && p == Advance(|ring|, rd, k)
      modifies this
      ensures Valid() && |ring| == |old(ring)|
      ensures logged == old(logged) + news
      ensures Pending() == (if applied then old(Pending())[k..] else old(Pending())) + news
      ensures rd == (if applied then p else old(rd))
      ensures troubles == old(troubles) + if ok && applied then 0 else 1
    {
      news := Runs();
      var done: bool := *;
      applied := done;
      ok := *;
      if !ok || !done { troubles := troubles + 1; }
      if done {
        Consume(ring, rd, wr, k);
        LessHeld(|ring|, rd, wr, k);
        DropFront(old(Pending()), news, k);
        hide Unread, Held, Advance;
        rd := p;
      }
    }

    static lemma LessHeld(size: nat, r: nat, w: nat, k: nat)
      requires InRing(size, r, w) && k <= Held(size, r, w)
      ensures Held(size, Advance(size, r, k), w) == Held(size, r, w) - k
    {
    }

    static lemma DropFront(u: seq<u8>, news: seq<u8>, k: nat)
      requires k <= |u|
      ensures (u + news)[k..] == u[k..] + news
    {
    }
  }

  /** What the probe remembers of the target's up-buffer. */
  datatype RttBuf = RttBuf(dataPtr: u32, size: nat, readPos: nat, writePos: nat)
  {
    function CurReadLoc(): nat { dataPtr + readPos }

    function AvailableData(): int {
      if writePos > readPos then writePos - readPos else size - readPos + writePos
    }
  }

  /** What one poll of a quiet target does to the target's unread bytes and the probe's. */
  function PollStep(unread: seq<u8>, local: seq<u8>): (seq<u8>, seq<u8>) {
    var k := Moved(|unread|, BUFFER_SIZE - 1 - |local|);
    (unread[k..], local + unread[..k])
  }

  /** How many bytes a poll moves. */
  function Moved(available: nat, space: int): (k: nat)
    ensures k <= available
  {
    var k := if available < space then available else space;
    if k < 0 then 0 else if k < MAX_BYTES_PER_READ then k else MAX_BYTES_PER_READ
  }

  /** What one client read does to the probe's bytes: the rest, and what the client gets. */
  function ReadStep(local: seq<u8>, max: nat): (seq<u8>, seq<u8>) {
    var most := if max < MAX_BYTES_PER_READ then max else MAX_BYTES_PER_READ;
    var n := if most < |local| then most else |local|;
    (local[n..], local[..n])
  }

  class RttTask {
    var state: State
    var upBuf: Option<RttBuf>
    const local: LocalBuf
    const target: TargetRam
    ghost var delivered: seq<u8>

    constructor (target: TargetRam)
      requires target.Valid() && target.Pending() == target.logged
      ensures Valid() && fresh(local) && fresh(local.data) && this.target == target
      ensures state == Halted && delivered == [] && Conserved()
    {
      local := new LocalBuf();
      this.target := target;
      state, upBuf, delivered := Halted, None, [];
    }

    ghost predicate Valid()
      reads this, local, target
    {
      && local.Valid() && target.Valid() && (state == Started <==> upBuf.Some?)
      && (upBuf.Some? ==>
            && upBuf.value.dataPtr == target.dataPtr && upBuf.value.size == |target.ring|
            && upBuf.value.readPos < |target.ring|)
    }

    /** What clients got, what the probe holds, what waits in the target. */
    ghost function Stream(): seq<u8>
      requires Valid()
      reads this, local, local.data, target
    {
      delivered + local.Contents() + target.Pending()
    }

    /** The stream is the log but for `n` doubled runs of bytes. */
    ghost predicate Doubles(n: nat)
      requires Valid()
      reads this, local, local.data, target
    {
      Doubled(target.logged, Stream(), n)
    }

    /** Nothing lost, nothing twice, nothing out of order. */
    ghost predicate Conserved()
      requires Valid()
      reads this, local, local.data, target
    {
      target.logged == Stream()
    }

    /** The probe knows where it is in the target's ring. */
    ghost predicate Synced()
      reads this, target
    {
      upBuf.Some? && upBuf.value.readPos == target.rd
    }

    /** Read bytes through the aligned word window that covers them. */
    method ReadBytes(location: u32, numBytes: nat) returns (r: Result<seq<u8>, Error>, ghost news: seq<u8>)
      requires Valid() && location + numBytes + 3 < ADDRESS_SPACE
      modifies target`ring, target`wr, target`staged, target`logged, target`troubles
      ensures Valid() && |target.ring| == |old(target.ring)|
      ensures target.logged == old(target.logged) + news && target.Pending() == old(target.Pending()) + news
      ensures if r.Err? then r.error == NoData else
                && |r.value| == numBytes
                && Faithful(r.value, location, target.dataPtr, |target.ring|, target.rd, old(target.Pending()))
      ensures old(target.troubles) <= target.troubles && (target.troubles == old(target.troubles) ==> r.Ok?)
    {
      hide Unread, Advance, Held, Bytes, StartAligned, EndAligned;
      if numBytes == 0 {
        return Ok([]), [];
      }
      WindowCovers(location, numBytes);
      var (start, count) := Window(location, numBytes);
      var words;
      words, news := target.ReadMemBulk(start, count);
      if words.Err? {
        return Err(NoData), news;
      }
      var cut := CutBytes(words.value, location, numBytes);
      FaithfulCut(Bytes(words.value), start, location - start, numBytes,
                  target.dataPtr, |target.ring|, target.rd, old(target.Pending()));
      return Ok(cut), news;
    }

    /** Read the control block and the up-buffer's description. Only what was found is kept. */
    method Start() returns (r: Result<(), Error>, ghost news: seq<u8>)
      requires Valid()
      modifies this`state, this`upBuf, target`ring, target`wr, target`staged, target`logged, target`troubles
      ensures Valid() && |target.ring| == |old(target.ring)|
      ensures target.logged == old(target.logged) + news && target.Pending() == old(target.Pending()) + news
      ensures if r.Ok? then Synced() && state == Started
              else r.error in {NoData, NotFound} && upBuf == old(upBuf) && state == old(state)
      ensures old(target.troubles) <= target.troubles && (target.troubles == old(target.troubles) ==> r.Ok?)
    {
      news := target.Runs();
      var read: bool, found: bool := *, *;
      if !read || !found {
        target.troubles := target.troubles + 1;
        return Err(if read then NotFound else NoData), news;
      }
      upBuf := Some(RttBuf(target.dataPtr, |target.ring|, target.rd, target.wr));
      state := Started;
      return Ok(()), news;
    }

    method Stop()
      modifies this`state, this`upBuf
      ensures state == Halted && upBuf == None
    {
      state, upBuf := Halted, None;
    }

    /** Copy the first `toRead` unread bytes out of the target's ring, in one run or two. */
    method ReadUnread(stored: RttBuf, toRead: nat) returns (r: Result<seq<u8>, Error>, ghost news: seq<u8>)
      requires Valid() && toRead <= |target.Pending()|
      requires stored.dataPtr == target.dataPtr && stored.size == |target.ring| && stored.readPos == target.rd
      requires stored.writePos > stored.readPos ==> stored.readPos + toRead <= stored.size
      modifies target`ring, target`wr, target`staged, target`logged, target`troubles
      ensures Valid() && |target.ring| == |old(target.ring)|
      ensures target.logged == old(target.logged) + news && target.Pending() == old(target.Pending()) + news
      ensures if r.Ok? then r.value == old(target.Pending())[..toRead] else r.error == NoData
      ensures old(target.troubles) <= target.troubles && (target.troubles == old(target.troubles) ==> r.Ok?)
    {
      hide Unread, Bytes;
      ghost var u := target.Pending();
      if stored.writePos > stored.readPos {
        r, news := ReadBytes(stored.CurReadLoc(), toRead);
        if r.Ok? { FirstRun(r.value, stored.dataPtr, stored.size, stored.readPos, u); }
      } else {
        var firstChunk := stored.size - stored.readPos;
        var firstSize := if toRead < firstChunk then toRead else firstChunk;
        r, news := ReadBytes(stored.CurReadLoc(), firstSize);
        if r.Err? {
          return r, news;
        }
        FirstRun(r.value, stored.dataPtr, stored.size, stored.readPos, u);
        if firstSize < toRead {
          var second;
          ghost var more;
          second, more := ReadBytes(stored.dataPtr, toRead - firstSize);
          news := news + more;
          assert target.Pending() == u + news;
          if second.Err? {
            return second, news;
          }
          SecondRun(second.value, stored.dataPtr, stored.size, stored.readPos, u, u + news[..|news| - |more|]);
          assert u[..firstSize] + u[firstSize..toRead] == u[..toRead];
          r := Ok(r.value + second.value);
        }
      }
    }

    /** Check that the target still is where it was left, start over if not, and see how far it has written. */
    method Locate() returns (r: Result<RttBuf, Error>, ghost news: seq<u8>)
      requires Valid() && upBuf.Some?
      modifies this`state, this`upBuf, target`ring, target`wr, target`staged, target`logged, target`troubles
      ensures Valid() && |target.ring| == |old(target.ring)|
      ensures target.logged == old(target.logged) + news && target.Pending() == old(target.Pending()) + news
      ensures if r.Ok? then Synced() && r.value == upBuf.value.(writePos := target.wr) else r.error in {NoData, NotFound}
      ensures r.Ok? ==> state == old(state) || state == Started
      ensures old(target.troubles) <= target.troubles && (target.troubles == old(target.troubles) ==> r.Ok?)
    {
      hide Unread, Held, Advance;
      ghost var u := target.Pending();
      var stored := upBuf.value;
      var cur;
      cur, news := target.ReadPosition(false);
      if cur.Err? {
        return Err(cur.error), news;
      }
      ghost var more;
      if cur.value != stored.readPos {
        Stop();
        var again;
        again, more := Start();
        news := news + more;
        assert target.Pending() == u + news;
        if again.Err? {
          return Err(again.error), news;
        }
        stored := upBuf.value;
      }
      var w;
      w, more := target.ReadPosition(true);
      news := news + more;
      assert target.Pending() == u + news;
      if w.Err? {
        return Err(w.error), news;
      }
      return Ok(stored.(writePos := w.value)), news;
    }

    /** Copy `toRead` bytes over and move the target's read position past them. `landed` says whether the move reached it. */
    method Transfer(found: RttBuf, toRead: nat) returns (r: Result<(), Error>, ghost taken: nat, ghost landed: bool, ghost news: seq<u8>)
      requires Valid() && Synced() && 0 < toRead <= |target.Pending()| && toRead <= local.AvailableSpace()
      requires found == upBuf.value.(writePos := found.writePos)
      requires found.writePos > found.readPos ==> found.readPos + toRead <= found.size
      modifies this`upBuf, local, local.data, target
      ensures Valid() && target.logged == old(target.logged) + news
      ensures var all := old(target.Pending()) + news;
              && taken <= |all| && local.Contents() == old(local.Contents()) + all[..taken]
              && target.Pending() == (if landed then all[taken..] else all)
      ensures taken <= toRead && (!landed ==> taken > 0)
      ensures if r.Ok? then taken == toRead && (landed ==> Synced()) else r.error in {Target, NoData}
      ensures old(target.troubles) <= target.troubles && (target.troubles == old(target.troubles) ==> r.Ok? && landed)
    {
      hide Unread, Advance, Held, Faithful, LocalBuf.Contents, LocalBuf.AvailableSpace;
      ghost var u := target.Pending();
      var stored := found;
      var data;
      data, news := ReadUnread(stored, toRead);
      if data.Err? {
        assert (u + news)[..0] == [];
        return Err(data.error), 0, true, news;
      }
      ghost var all := u + news;
      assert data.value == all[..toRead];
      local.WriteData(data.value);
      stored := stored.(readPos := (stored.readPos + |data.value|) % stored.size);
      AdvanceIsMod(stored.size, target.rd, toRead);
      var ok;
      ghost var more;
      ok, landed, more := target.WriteReadPos(stored.readPos, toRead);
      Shift(u, news, more, toRead);
      news := news + more;
      if !ok {
        return Err(Target), toRead, landed, news;
      }
      upBuf := Some(stored);
      return Ok(()), toRead, landed, news;
    }

    static lemma JoinNews(was: seq<u8>, a: seq<u8>, b: seq<u8>)
      ensures was + a + b == was + (a + b)
    {
    }

    static lemma Shift(u: seq<u8>, a: seq<u8>, b: seq<u8>, k: nat)
      requires k <= |u|
      ensures u + (a + b) == u + a + b
      ensures (u + (a + b))[..k] == (u + a)[..k]
      ensures (u + (a + b))[k..] == (u + a)[k..] + b
    {
    }

    /**
     One poll. If the move of the read position does not land, the bytes taken
     are still unread in the target: they will come again, but none is lost.
     */
    method GetRttDataFromTarget() returns (r: Result<(), Error>, ghost taken: nat, ghost landed: bool, ghost observed: nat, ghost news: seq<u8>)
      requires Valid()
      modifies this`state, this`upBuf, local, local.data, target
      ensures Valid() && target.logged == old(target.logged) + news
      ensures Polled(old(target.Pending()), old(local.Contents()), target.Pending(), local.Contents(), r.Ok?, landed, taken, observed, news)
      ensures r.Ok? && landed ==> Synced()
      ensures r.Ok? || r == Err(Full) ==> state == old(state) || state == Started
      ensures r == Err(Full) <==> |old(local.Contents())| == BUFFER_SIZE - 1
      ensures r == Err(Full) ==> news == [] && taken == 0
      ensures old(target.troubles) <= target.troubles && (target.troubles == old(target.troubles) ==> landed && (r.Ok? || r.error in {Full, Error.Stopped}))
      ensures r == Err(Error.Stopped) ==> old(state) == Halted
    {
      hide Unread, Advance, Polled, Held;
      if local.AvailableSpace() == 0 {
        NothingTaken(target.Pending(), [], local.Contents());
        return Err(Full), 0, true, 0, [];
      }
      if upBuf.None? {
        NothingTaken(target.Pending(), [], local.Contents());
        return Err(Error.Stopped), 0, true, 0, [];
      }
      r, taken, landed, observed, news := Poll();
    }

    /** The poll proper: there is room, and there is an up-buffer to read. */
    method Poll() returns (r: Result<(), Error>, ghost taken: nat, ghost landed: bool, ghost observed: nat, ghost news: seq<u8>)
      requires Valid() && upBuf.Some? && local.AvailableSpace() > 0
      modifies this`state, this`upBuf, local, local.data, target
      ensures Valid() && target.logged == old(target.logged) + news
      ensures Polled(old(target.Pending()), old(local.Contents()), target.Pending(), local.Contents(), r.Ok?, landed, taken, observed, news)
      ensures r.Ok? ==> state == old(state) || state == Started
      ensures if r.Ok? then landed ==> Synced() else r.error in {NoData, NotFound, Target}
      ensures old(target.troubles) <= target.troubles && (target.troubles == old(target.troubles) ==> r.Ok? && landed)
    {
      hide Unread, Polled, Held, Advance, LocalBuf.Contents, LocalBuf.AvailableSpace;
      ghost var u, was := target.Pending(), target.logged;
      ghost var l := local.Contents();
      var found;
      found, news := Locate();
      ghost var first := news;
      NothingTaken(u, first, l);
      if found.Err? {
        return Err(found.error), 0, true, 0, news;
      }
      var stored := found.value;
      AvailableIsPending(stored, target.ring, target.rd, target.wr);
      observed := |target.Pending()|;
      if stored.writePos == stored.readPos {
        return Ok(()), 0, true, observed, news;
      }
      ghost var more;
      r, taken, landed, more := Fetch(stored);
      JoinNews(was, first, more);
      BytesTaken(u, first, more, l, target.Pending(), local.Contents(), r.Ok?, landed, taken);
      news := news + more;
    }

    /** Decide how much to copy, and copy it. */
    method Fetch(stored: RttBuf) returns (r: Result<(), Error>, ghost taken: nat, ghost landed: bool, ghost news: seq<u8>)
      requires Valid() && Synced() && local.AvailableSpace() > 0
      requires stored == upBuf.value.(writePos := target.wr) && stored.writePos != stored.readPos
      modifies this`upBuf, local, local.data, target
      ensures Valid() && target.logged == old(target.logged) + news
      ensures var all := old(target.Pending()) + news;
              && taken <= |all| && local.Contents() == old(local.Contents()) + all[..taken]
              && target.Pending() == (if landed then all[taken..] else all)
      ensures taken <= MAX_BYTES_PER_READ && (!landed ==> taken > 0)
      ensures r.Ok? ==> taken == Moved(|old(target.Pending())|, old(local.AvailableSpace()))
      ensures if r.Ok? then landed ==> Synced() else r.error in {Target, NoData}
      ensures old(target.troubles) <= target.troubles && (target.troubles == old(target.troubles) ==> r.Ok? && landed)
    {
      hide Unread, Held, Advance, LocalBuf.Contents, LocalBuf.AvailableSpace;
      AvailableIsPending(stored, target.ring, target.rd, target.wr);
      var available := stored.AvailableData();
      var space := local.AvailableSpace();
      var toRead := if available < space then available else space;
      toRead := if toRead < MAX_BYTES_PER_READ then toRead else MAX_BYTES_PER_READ;
      r, taken, landed, news := Transfer(stored, toRead);
    }

    /** What the probe computes from the two positions is what is unread, and does not run past the end of the ring. */
    static lemma AvailableIsPending(b: RttBuf, ring: seq<u8>, rd: nat, wr: nat)
      requires InRing(|ring|, rd, wr) && b.size == |ring| && b.readPos == rd && b.writePos == wr
      ensures rd == wr ==> Unread(ring, rd, wr) == []
      ensures rd != wr ==> 0 < b.AvailableData() == |Unread(ring, rd, wr)|
      ensures b.writePos > b.readPos ==> b.readPos + b.AvailableData() <= b.size
    {
    }

    /** A client asks for at most `max` bytes. */
    method HandleRead(max: nat) returns (r: Result<seq<u8>, Error>)
      requires Valid()
      modifies local, this`delivered
      ensures Valid()
      ensures if state == Halted then r == Err(Error.Stopped) && local.Contents() == old(local.Contents()) && delivered == old(delivered)
              else r.Ok? && (local.Contents(), r.value) == ReadStep(old(local.Contents()), max)
                   && delivered == old(delivered) + r.value
      ensures Stream() == old(Stream())
    {
      if state == Halted {
        return Err(Error.Stopped);
      }
      var data := Serve(max);
      return Ok(data);
    }

    method Serve(max: nat) returns (r: seq<u8>)
      requires Valid()
      modifies local, this`delivered
      ensures Valid()
      ensures (local.Contents(), r) == ReadStep(old(local.Contents()), max) && delivered == old(delivered) + r
      ensures Stream() == old(Stream())
    {
      hide Unread;
      var most := if max < MAX_BYTES_PER_READ then max else MAX_BYTES_PER_READ;
      var data := new u8[most];
      ghost var held := local.Contents();
      var n := local.ReadData(data);
      Regroup(delivered, held, n, target.Pending());
      delivered := delivered + data[..n];
      return data[..n];
    }

    /** One turn of the log task: a poll if started, then at most one command. */
    method Turn(command: Option<Command>) returns (ghost turn: Turned)
      requires Valid()
      modifies this`state, this`upBuf, this`delivered, local, local.data, target
      ensures Valid() && target.logged == old(target.logged) + turn.news
      ensures turn.poll.Some? <==> old(state) == Started
      ensures turn.poll == Some(Err(Full)) <==> old(state) == Started && |old(local.Contents())| == BUFFER_SIZE - 1
      ensures turn.poll.None? ==> turn.running == Halted && turn.taken == 0 && turn.landed
      ensures old(local.Contents()) <= turn.held
      ensures Took(old(target.Pending()), old(local.Contents()), target.Pending(), turn)
      ensures turn.Obeys(command)
      ensures turn.after == state && turn.left == local.Contents() && delivered == old(delivered) + turn.Got()
      ensures forall n: nat | old(Doubles(n)) :: Doubles(n + turn.Lost())
      ensures turn.Through() && TakesAll(command) ==>
                FullRound(old(target.Pending()), old(local.Contents()), old(delivered), target.Pending(), local.Contents(), delivered)
      ensures old(target.troubles) <= target.troubles
      ensures target.troubles == old(target.troubles) ==> turn.Untroubled()
    {
      hide Unread, Held, Polled, Doubled, Took, LocalBuf.Contents, FullRound, PollStep, ReadStep, Turned.Obeys, Doubles, Turned.Got;
      hide Turned.Through, Turned.Untroubled, TakesAll;
      ghost var u, l, d, was := target.Pending(), local.Contents(), delivered, target.logged;
      ghost var polled := PollIfStarted();
      ghost var v, mid := target.Pending(), target.logged;
      turn := Obey(command, polled);
      LoggedBoth(was, mid, target.logged, polled, turn);
      TookOn(u, l, v, target.Pending(), polled, turn);
      RoundDone(u, l, d, v, polled, command, target.Pending(), local.Contents(), delivered, turn);
      TroublesAdd(polled, turn);
    }

    /** The poll of a turn, if it begins started. */
    method PollIfStarted() returns (ghost polled: Turned)
      requires Valid()
      modifies this`state, this`upBuf, local, local.data, target
      ensures Valid() && target.logged == old(target.logged) + polled.news
      ensures polled.poll.Some? <==> old(state) == Started
      ensures polled.poll == Some(Err(Full)) <==> old(state) == Started && |old(local.Contents())| == BUFFER_SIZE - 1
      ensures polled.poll.None? ==> polled.running == Halted && polled.taken == 0 && polled.landed
      ensures Took(old(target.Pending()), old(local.Contents()), target.Pending(), polled) && old(local.Contents()) <= polled.held
      ensures polled.running == state && polled.held == local.Contents() && polled.start.None? && polled.reply.None?
      ensures forall n: nat | old(Doubles(n)) :: Doubles(n + polled.Lost())
      ensures polled.Through() ==>
                && state == Started
                && (target.Pending(), polled.held) == PollStep(old(target.Pending()), old(local.Contents()))
      ensures old(target.troubles) <= target.troubles
      ensures target.troubles == old(target.troubles) ==> polled.Untroubled()
    {
      hide Unread, Held, Polled, Doubled, Took, LocalBuf.Contents, PollStep, Doubles;
      ghost var u, l := target.Pending(), local.Contents();
      polled := Turned(None, 0, true, [], l, state, None, None, state, l);
      TookNothing(u, l, polled);
      KeptDoubles(polled);
      if state == Started {
        polled := PollTurn();
      }
      HeldMore(u, l, target.Pending(), polled);
    }

    /** The command of one turn. */
    method Obey(command: Option<Command>, ghost polled: Turned) returns (ghost turn: Turned)
      requires Valid() && polled.running == state && polled.held == local.Contents() && polled.start.None? && polled.reply.None?
      modifies this`state, this`upBuf, this`delivered, local, target`ring, target`wr, target`staged, target`logged, target`troubles
      ensures Valid() && turn.SamePoll(polled)
      ensures target.logged == old(target.logged) + turn.news[|polled.news|..]
      ensures target.Pending() == old(target.Pending()) + turn.news[|polled.news|..]
      ensures turn.Obeys(command)
      ensures turn.after == state && turn.left == local.Contents() && delivered == old(delivered) + turn.Got()
      ensures forall n: nat | old(Doubles(n)) :: Doubles(n)
      ensures command.Some? && command.value.Read? && polled.running == Started ==>
                (local.Contents(), turn.Got()) == ReadStep(old(local.Contents()), command.value.max)
      ensures command.None? || !command.value.StartLog? ==> turn.news == polled.news
      ensures old(target.troubles) <= target.troubles
      ensures target.troubles == old(target.troubles) && turn.start.Some? ==> turn.start.value.Ok?
    {
      hide Unread, Held, Doubled;
      turn := polled;
      ghost var was, v := target.logged, target.Pending();
      assert was + [] == was && v + [] == v;
      match command {
        case None =>
        case Some(GetState) =>
          turn := turn.(reply := Some(Ok(StateIs(state))));
        case Some(Read(max)) =>
          ReadGot(local.Contents(), max);
          var r := HandleRead(max);
          turn := turn.(reply := Some(if r.Ok? then Ok(Logged(r.value)) else Err(r.error)));
        case Some(StartLog) =>
          var r, news := Start();
          LoggedOn(was, delivered, local.Contents(), v, news);
          turn := turn.(news := turn.news + news, start := Some(r));
        case Some(StopLog) =>
          Stop();
      }
      turn := turn.(after := state, left := local.Contents());
    }

    lemma KeptDoubles(turn: Turned)
      requires Valid() && turn.landed
      ensures forall n: nat | Doubles(n) :: Doubles(n + turn.Lost())
    {
    }

    static lemma HeldMore(u: seq<u8>, l: seq<u8>, u': seq<u8>, turn: Turned)
      requires Took(u, l, u', turn)
      ensures l <= turn.held
    {
    }

    static lemma LoggedBoth(was: seq<u8>, mid: seq<u8>, now: seq<u8>, polled: Turned, turn: Turned)
      requires turn.SamePoll(polled) && mid == was + polled.news && now == mid + turn.news[|polled.news|..]
      ensures now == was + turn.news
    {
    }

    static lemma TroublesAdd(polled: Turned, turn: Turned)
      requires turn.SamePoll(polled)
      ensures polled.Untroubled() && (turn.start.Some? ==> turn.start.value.Ok?) ==> turn.Untroubled()
    {
    }

    /** A poll that went through and a full-size read make a full round. */
    static lemma RoundDone(u: seq<u8>, l: seq<u8>, d: seq<u8>, v: seq<u8>, polled: Turned, command: Option<Command>,
                           u': seq<u8>, l': seq<u8>, d': seq<u8>, turn: Turned)
      requires turn.SamePoll(polled) && u' == v + turn.news[|polled.news|..] && d' == d + turn.Got()
      requires command.None? || !command.value.StartLog? ==> turn.news == polled.news
      requires polled.Through() ==> polled.running == Started && (v, polled.held) == PollStep(u, l)
      requires command.Some? && command.value.Read? && polled.running == Started ==>
                 (l', turn.Got()) == ReadStep(polled.held, command.value.max)
      ensures turn.Through() && TakesAll(command) ==> FullRound(u, l, d, u', l', d')
    {
      assert v + [] == v;
    }

    method PollTurn() returns (ghost turn: Turned)
      requires Valid() && state == Started
      modifies this`state, this`upBuf, local, local.data, target
      ensures Valid() && target.logged == old(target.logged) + turn.news
      ensures turn.poll.Some? && (turn.poll.value == Err(Full) <==> |old(local.Contents())| == BUFFER_SIZE - 1)
      ensures Took(old(target.Pending()), old(local.Contents()), target.Pending(), turn)
      ensures turn.running == state && turn.held == local.Contents() && turn.start.None? && turn.reply.None?
      ensures forall n: nat | old(Doubles(n)) :: Doubles(n + turn.Lost())
      ensures turn.Through() ==>
                && state == Started
                && (target.Pending(), turn.held) == PollStep(old(target.Pending()), old(local.Contents()))
      ensures old(target.troubles) <= target.troubles
      ensures target.troubles == old(target.troubles) ==> turn.Untroubled()
    {
      hide Unread, Held, Polled, Doubled, Took;
      ghost var u, l, was := target.Pending(), local.Contents(), target.logged;
      var r;
      ghost var taken, landed, observed, news;
      r, taken, landed, observed, news := GetRttDataFromTarget();
      turn := Turned(Some(r), taken, landed, news, local.Contents(), state, None, None, state, local.Contents());
      PollTook(u, l, target.Pending(), observed, turn);
      PollDoubles(was, delivered, u, l, target.Pending(), local.Contents(), r.Ok?, landed, taken, observed, news);
      if turn.Through() { QuietPoll(u, l, target.Pending(), local.Contents(), r.Ok?, taken, observed); }
    }

    /**
     The log task, for any commands. Every command is obeyed, and a poll is
     made exactly in the turns that begin started. Every byte logged is
     delivered, held or unread, in order, and only a run whose move of the
     read position was lost comes twice. Over a link without troubles and with
     a quiet target, as many full-size reads as there are 256 bytes deliver
     everything.
     */
    method Task(commands: seq<Option<Command>>) returns (ghost turns: seq<Turned>)
      requires Valid()
      modifies this`state, this`upBuf, this`delivered, local, local.data, target
      ensures Valid() && |turns| == |commands|
      ensures forall i | 0 <= i < |turns| :: turns[i].Obeys(commands[i])
      ensures Chained(turns, old(state), old(local.Contents()), state, local.Contents())
      ensures delivered == old(delivered) + AllGot(turns)
      ensures target.logged == old(target.logged) + AllNews(turns)
      ensures old(Conserved()) ==> Doubles(AllLost(turns)) && delivered <= Stream()
      ensures old(Conserved()) && AllLost(turns) == 0 ==> Conserved() && delivered <= target.logged
      ensures AllThrough(turns, commands) && |turns| * MAX_BYTES_PER_READ >= |old(target.Pending())| + |old(local.Contents())| ==>
                && target.Pending() == [] && local.Contents() == []
                && delivered == old(delivered) + old(local.Contents()) + old(target.Pending())
      ensures target.troubles == old(target.troubles) && old(state) == Started && AllNews(turns) == [] ==>
                (forall c | c in commands :: TakesAll(c)) ==> AllThrough(turns, commands)
    {
      hide Unread, Held, Doubled, Rounds, FullRound, Took, Turned.Through, Turned.Obeys, Turned.Untroubled, Turned.Got, TakesAll, LocalBuf.Contents;
      hide Chained, Reaches, AllThrough, AllNews, AllGot, AllLost, Moved;
      NoTurns(commands, state, local.Contents());
      StartOfRun(target.Pending(), local.Contents(), delivered, |commands|);
      ghost var u, l := target.Pending(), local.Contents();
      turns := [];
      NoneDoubled(target.logged, Stream());
      for i := 0 to |commands|
        invariant Valid() && |turns| == i
        invariant forall k | 0 <= k < i :: turns[k].Obeys(commands[k])
        invariant Chained(turns, old(state), l, state, local.Contents())
        invariant delivered == old(delivered) + AllGot(turns)
        invariant target.logged == old(target.logged) + AllNews(turns)
        invariant old(Conserved()) ==> Doubles(AllLost(turns))
        invariant old(target.troubles) <= target.troubles
        invariant target.troubles == old(target.troubles) ==> forall k | 0 <= k < i :: turns[k].Untroubled()
        invariant AllThrough(turns, commands) ==>
            Reaches(u, l, old(delivered), |commands|, target.Pending(), local.Contents(), delivered, |commands| - i)
      {
        ghost var u1, l1, d1, s1 := target.Pending(), local.Contents(), delivered, state;
        ghost var turn := Turn(commands[i]);
        TurnsSnoc(turns, turn);
        ThroughSnoc(turns, turn, commands);
        ChainedSnoc(turns, turn, old(state), l, s1, l1);
        turns := turns + [turn];
        if AllThrough(turns, commands) {
          OneRound(u, l, old(delivered), |commands|, u1, l1, d1, target.Pending(), local.Contents(), delivered, |commands| - i - 1);
        }
      }
      NoneDoubled(target.logged, Stream());
      if AllThrough(turns, commands) && |turns| * MAX_BYTES_PER_READ >= |u| + |l| {
        Drains(u, l, |commands|);
        AllRounds(u, l, old(delivered), |commands|, target.Pending(), local.Contents(), delivered);
      }
      if target.troubles == old(target.troubles) && old(state) == Started && AllNews(turns) == [] && forall c | c in commands :: TakesAll(c) {
        QuietRun(turns, commands, old(state), l, state, local.Contents());
      }
    }
  }

  /**
   What happened in a turn: how its poll went, how many bytes it took and
   whether its move of the read position landed, and what the target logged;
   the bytes held and the state after the poll; how a start went, and the
   reply to a client; the state and the bytes held at the end.
   */
  datatype Turned = Turned(
    poll: Option<Result<(), Error>>, taken: nat, landed: bool, news: seq<u8>, held: seq<u8>, running: State,
    start: Option<Result<(), Error>>, reply: Option<Result<Response, Error>>, after: State, left: seq<u8>)
  {
    function Lost(): nat { if landed then 0 else 1 }

    /** The bytes a client got. */
    function Got(): seq<u8> {
      if reply.Some? && reply.value.Ok? && reply.value.value.Logged? then reply.value.value.data else []
    }

    /** The poll did all it could, and the target logged nothing. */
    predicate Through() { poll.Some? && (poll.value.Ok? || poll.value == Err(Full)) && landed && news == [] }

    /** What a turn without troubles is like. */
    predicate Untroubled() {
      && (poll.Some? ==> landed && running == Started && (poll.value.Ok? || poll.value == Err(Full)))
      && (start.Some? ==> start.value.Ok?)
    }

    /** The same poll, after which the target may have logged on. */
    ghost predicate SamePoll(p: Turned) {
      && poll == p.poll && taken == p.taken && landed == p.landed && held == p.held && running == p.running
      && p.news <= news
    }

    /** The command was obeyed. */
    predicate Obeys(command: Option<Command>) {
      match command
      case None => start.None? && reply.None? && after == running && left == held
      case Some(GetState) => start.None? && reply == Some(Ok(StateIs(running))) && after == running && left == held
      case Some(StartLog) =>
        && start.Some? && reply.None? && left == held
        && after == (if start.value.Ok? then Started else running)
      case Some(StopLog) => start.None? && reply.None? && after == Halted && left == held
      case Some(Read(max)) =>
        && start.None? && reply.Some? && after == running
        && if running == Halted then reply.value == Err(Error.Stopped) && left == held
           else
             && reply.value.Ok? && reply.value.value.Logged? && Got() + left == held
             && |Got()| == (if |held| <= max && |held| <= 256 then |held| else if max <= 256 then max else 256)
    }
  }

  /** A read takes the oldest bytes, as many as asked for, as there are, and as fit into a reply. */
  lemma ReadGot(l: seq<u8>, max: nat)
    ensures var (rest, got) := ReadStep(l, max);
            && got + rest == l
            && |got| == (if |l| <= max && |l| <= 256 then |l| else if max <= 256 then max else 256)
  {
  }

  /** What the poll of a turn took: the first bytes of those unread and logged meanwhile. */
  ghost predicate Took(u: seq<u8>, l: seq<u8>, u': seq<u8>, turn: Turned) {
    var all := u + turn.news;
    && turn.taken <= |all| && turn.taken <= MAX_BYTES_PER_READ && turn.held == l + all[..turn.taken]
    && u' == (if turn.landed then all[turn.taken..] else all)
    && (turn.poll == Some(Ok(())) && u != [] && |l| < BUFFER_SIZE - 1 ==> turn.taken > 0)
  }

  lemma TookNothing(u: seq<u8>, l: seq<u8>, turn: Turned)
    requires turn.poll.None? && turn.taken == 0 && turn.news == [] && turn.held == l
    ensures Took(u, l, u, turn)
  {
  }

  lemma PollTook(u: seq<u8>, l: seq<u8>, u': seq<u8>, observed: nat, turn: Turned)
    requires turn.poll.Some? && Polled(u, l, u', turn.held, turn.poll.value.Ok?, turn.landed, turn.taken, observed, turn.news)
    ensures Took(u, l, u', turn)
  {
  }

  /** The target may log on after the poll. */
  lemma TookOn(u: seq<u8>, l: seq<u8>, v: seq<u8>, u': seq<u8>, polled: Turned, turn: Turned)
    requires Took(u, l, v, polled) && turn.SamePoll(polled) && u' == v + turn.news[|polled.news|..]
    ensures Took(u, l, u', turn)
  {
    assert u + turn.news == u + polled.news + turn.news[|polled.news|..];
  }

  /** Turn `i` begins where the one before ended, and polls exactly if that was started. */
  ghost predicate Chain(turns: seq<Turned>, i: nat, first: State, l: seq<u8>)
    requires i < |turns|
  {
    var (state, held) := if i == 0 then (first, l) else (turns[i - 1].after, turns[i - 1].left);
    && (turns[i].poll.Some? <==> state == Started)
    && (turns[i].poll.None? ==> turns[i].running == Halted)
    && held <= turns[i].held
  }

  ghost predicate Chained(turns: seq<Turned>, first: State, l: seq<u8>, last: State, l': seq<u8>) {
    && (forall i | 0 <= i < |turns| :: Chain(turns, i, first, l))
    && last == (if turns == [] then first else turns[|turns| - 1].after)
    && l' == (if turns == [] then l else turns[|turns| - 1].left)
  }

  lemma NoTurns(commands: seq<Option<Command>>, s: State, l: seq<u8>)
    ensures Chained([], s, l, s, l) && AllThrough([], commands)
    ensures AllNews([]) == [] && AllGot([]) == [] && AllLost([]) == 0
  {
  }

  lemma ChainedSnoc(turns: seq<Turned>, turn: Turned, first: State, l: seq<u8>, s: State, l1: seq<u8>)
    requires Chained(turns, first, l, s, l1)
    requires (turn.poll.Some? <==> s == Started) && (turn.poll.None? ==> turn.running == Halted) && l1 <= turn.held
    ensures Chained(turns + [turn], first, l, turn.after, turn.left)
  {
    var all := turns + [turn];
    forall i | 0 <= i < |all|
      ensures Chain(all, i, first, l)
    {
      if i < |turns| { assert Chain(turns, i, first, l); }
    }
  }

  /** Without troubles, and with a quiet target, every poll goes through. */
  lemma QuietRun(turns: seq<Turned>, commands: seq<Option<Command>>, first: State, l: seq<u8>, last: State, l': seq<u8>)
    requires |turns| == |commands| && first == Started && Chained(turns, first, l, last, l') && AllNews(turns) == []
    requires forall i | 0 <= i < |turns| :: turns[i].Obeys(commands[i]) && turns[i].Untroubled() && TakesAll(commands[i])
    ensures AllThrough(turns, commands)
  {
    forall i | 0 <= i < |turns|
      ensures turns[i].Through()
    {
      StillStarted(turns, commands, first, l, last, l', i);
      NoNews(turns, i);
    }
  }

  lemma {:induction false} StillStarted(turns: seq<Turned>, commands: seq<Option<Command>>, first: State, l: seq<u8>, last: State, l': seq<u8>, i: nat)
    requires |turns| == |commands| && first == Started && Chained(turns, first, l, last, l') && i < |turns|
    requires forall k | 0 <= k < |turns| :: turns[k].Obeys(commands[k]) && turns[k].Untroubled() && TakesAll(commands[k])
    ensures turns[i].poll.Some? && turns[i].after == Started
    decreases i
  {
    assert turns[i].Obeys(commands[i]) && turns[i].Untroubled() && TakesAll(commands[i]) && Chain(turns, i, first, l);
    if i == 0 {
    } else {
      StillStarted(turns, commands, first, l, last, l', i - 1);
    }
  }

  lemma {:induction false} NoNews(turns: seq<Turned>, i: nat)
    requires AllNews(turns) == [] && i < |turns|
    ensures turns[i].news == []
  {
    if i == |turns| - 1 {
    } else {
      NoNews(turns[..|turns| - 1], i);
    }
  }

  predicate TakesAll(command: Option<Command>) {
    command.Some? && command.value.Read? && command.value.max >= MAX_BYTES_PER_READ
  }

  predicate AllThrough(turns: seq<Turned>, commands: seq<Option<Command>>)
    requires |turns| <= |commands|
  {
    forall i | 0 <= i < |turns| :: turns[i].Through() && TakesAll(commands[i])
  }

  /** How many moves of the read position were lost. */
  function AllLost(turns: seq<Turned>): nat {
    if turns == [] then 0 else AllLost(turns[..|turns| - 1]) + turns[|turns| - 1].Lost()
  }

  function AllNews(turns: seq<Turned>): seq<u8> {
    if turns == [] then [] else AllNews(turns[..|turns| - 1]) + turns[|turns| - 1].news
  }

  function AllGot(turns: seq<Turned>): seq<u8> {
    if turns == [] then [] else AllGot(turns[..|turns| - 1]) + turns[|turns| - 1].Got()
  }

  lemma TurnsSnoc(turns: seq<Turned>, turn: Turned)
    ensures AllLost(turns + [turn]) == AllLost(turns) + turn.Lost() && AllNews(turns + [turn]) == AllNews(turns) + turn.news
    ensures AllGot(turns + [turn]) == AllGot(turns) + turn.Got()
  {
    assert (turns + [turn])[..|turns|] == turns;
  }

  lemma ThroughSnoc(turns: seq<Turned>, turn: Turned, commands: seq<Option<Command>>)
    requires |turns| < |commands|
    ensures AllThrough(turns + [turn], commands) <==>
            AllThrough(turns, commands) && turn.Through() && TakesAll(commands[|turns|])
  {
    hide Turned.Through, TakesAll;
    var all := turns + [turn];
    if AllThrough(all, commands) {
      assert all[|turns|] == turn;
      forall i | 0 <= i < |turns|
        ensures turns[i].Through() && TakesAll(commands[i])
      {
        assert all[i] == turns[i];
      }
    }
  }

  /**
   What one poll does to the target's unread bytes `u` and the probe's `l`.
   With `all` the bytes unread at the start plus those published meanwhile,
   it appends the first `taken` of them to the probe's and, if the move of
   the read position landed, takes exactly those off the target's. `observed`
   is how many bytes were visible when the write position was read.
   */
  ghost predicate Polled(u: seq<u8>, l: seq<u8>, u': seq<u8>, l': seq<u8>, ok: bool, landed: bool, taken: nat, observed: nat, news: seq<u8>) {
    var all := u + news;
    && taken <= |all| && l' == l + all[..taken] && u' == (if landed then all[taken..] else all)
    && taken <= MAX_BYTES_PER_READ && (!landed ==> taken > 0)
    && (ok ==> |u| <= observed <= |all| && taken == Moved(observed, BUFFER_SIZE - 1 - |l|))
  }

  lemma NothingTaken(u: seq<u8>, news: seq<u8>, l: seq<u8>)
    ensures Polled(u, l, u + news, l, false, true, 0, 0, news) && u + [] == u
    ensures u + news == [] ==> Polled(u, l, u + news, l, true, true, 0, 0, news)
  {
    assert l + (u + news)[..0] == l;
  }

  lemma BytesTaken(u: seq<u8>, first: seq<u8>, more: seq<u8>, l: seq<u8>, u': seq<u8>, l': seq<u8>, ok: bool, landed: bool, taken: nat)
    requires taken <= |u + first + more| && l' == l + (u + first + more)[..taken]
    requires u' == (if landed then (u + first + more)[taken..] else u + first + more)
    requires taken <= MAX_BYTES_PER_READ && (!landed ==> taken > 0) && (ok ==> taken == Moved(|u + first|, BUFFER_SIZE - 1 - |l|))
    ensures Polled(u, l, u', l', ok, landed, taken, |u + first|, first + more)
  {
    assert u + (first + more) == u + first + more;
  }

  lemma Regroup(d: seq<u8>, held: seq<u8>, n: nat, p: seq<u8>)
    requires n <= |held|
    ensures d + held + p == (d + held[..n]) + held[n..] + p
  {
  }

  /** A poll whose move landed loses no byte, repeats none and keeps their order. */
  lemma PollConserves(d: seq<u8>, u: seq<u8>, l: seq<u8>, u': seq<u8>, l': seq<u8>, ok: bool, taken: nat, observed: nat, news: seq<u8>)
    requires Polled(u, l, u', l', ok, true, taken, observed, news)
    ensures d + l' + u' == d + l + u + news
  {
    var all := u + news;
    assert all == all[..taken] + all[taken..];
    assert l + all[..taken] + all[taken..] == l + all;
  }

  /** A poll whose move was lost takes bytes over that will come again: the run taken is doubled and nothing is lost. */
  lemma LostMoveDoubles(d: seq<u8>, u: seq<u8>, l: seq<u8>, u': seq<u8>, l': seq<u8>, ok: bool, taken: nat, observed: nat, news: seq<u8>)
    requires Polled(u, l, u', l', ok, false, taken, observed, news)
    ensures var (p, z, r) := (d + l, (u + news)[..taken], (u + news)[taken..]);
            d + l + u + news == p + z + r && d + l' + u' == p + z + z + r
  {
    var all := u + news;
    assert all == all[..taken] + all[taken..];
  }

  /** `b` is `a` with `n` runs doubled, one after the other, each of them one poll's. */
  ghost predicate Doubled(a: seq<u8>, b: seq<u8>, n: nat)
    decreases n, 0
  {
    if n == 0 then a == b
    else exists p, z, r :: DoubledAt(a, b, n, p, z, r)
  }

  ghost predicate DoubledAt(a: seq<u8>, b: seq<u8>, n: nat, p: seq<u8>, z: seq<u8>, r: seq<u8>)
    requires n > 0
    decreases n - 1, 1
  {
    0 < |z| <= MAX_BYTES_PER_READ && b == p + z + z + r && Doubled(a, p + z + r, n - 1)
  }

  /** What is appended to the log is appended to the stream. */
  lemma {:induction false} DoubledAppend(a: seq<u8>, b: seq<u8>, n: nat, x: seq<u8>)
    requires Doubled(a, b, n)
    ensures Doubled(a + x, b + x, n)
    decreases n
  {
    if n == 0 {
    } else {
      var p, z, r :| DoubledAt(a, b, n, p, z, r);
      DoubledAppend(a, p + z + r, n - 1, x);
      assert p + z + r + x == p + z + (r + x);
      assert DoubledAt(a + x, b + x, n, p, z, r + x);
    }
  }

  /** Doubling loses nothing: the log is a subsequence of the stream. */
  lemma {:induction false} DoubledKeepsAll(a: seq<u8>, b: seq<u8>, n: nat)
    requires Doubled(a, b, n)
    ensures Subsequence(a, b) && |a| + n <= |b| <= |a| + n * MAX_BYTES_PER_READ
    decreases n
  {
    if n == 0 {
      SubsequenceRefl(a);
    } else {
      var p, z, r :| DoubledAt(a, b, n, p, z, r);
      DoubledKeepsAll(a, p + z + r, n - 1);
      assert p + (z + r) == p + z + r && p + z + (z + r) == b;
      SubsequenceInsert(a, p, z + r, z);
    }
  }

  /** `a` is left when some elements of `b` are dropped. */
  predicate Subsequence(a: seq<u8>, b: seq<u8>) {
    a == [] || (b != [] && (Subsequence(a, b[1..]) || (a[0] == b[0] && Subsequence(a[1..], b[1..]))))
  }

  lemma {:induction false} SubsequenceRefl(a: seq<u8>)
    ensures Subsequence(a, a)
  {
    if a == [] {
    } else {
      SubsequenceRefl(a[1..]);
    }
  }

  lemma {:induction false} SubsequenceBehind(a: seq<u8>, z: seq<u8>, y: seq<u8>)
    requires Subsequence(a, y)
    ensures Subsequence(a, z + y)
  {
    if z == [] {
      assert z + y == y;
    } else {
      assert (z + y)[1..] == z[1..] + y;
      SubsequenceBehind(a, z[1..], y);
    }
  }

  lemma SubsequenceStep(a: seq<u8>, h: u8, b: seq<u8>)
    ensures Subsequence(a, [h] + b) <==> a == [] || Subsequence(a, b) || (a[0] == h && Subsequence(a[1..], b))
  {
    assert ([h] + b)[1..] == b;
  }

  lemma {:induction false} SubsequenceInsert(a: seq<u8>, x: seq<u8>, y: seq<u8>, z: seq<u8>)
    requires Subsequence(a, x + y)
    ensures Subsequence(a, x + z + y)
    decreases x
  {
    hide Subsequence;
    if x == [] {
      assert x + y == y && x + z + y == z + y;
      SubsequenceBehind(a, z, y);
    } else {
      assert x + y == [x[0]] + (x[1..] + y) && x + z + y == [x[0]] + (x[1..] + z + y);
      SubsequenceStep(a, x[0], x[1..] + y);
      SubsequenceStep(a, x[0], x[1..] + z + y);
      if a == [] {
      } else if Subsequence(a, x[1..] + y) {
        SubsequenceInsert(a, x[1..], y, z);
      } else {
        SubsequenceInsert(a[1..], x[1..], y, z);
      }
    }
  }

  /** What one poll does to the stream. */
  lemma PollDoubles(logged: seq<u8>, d: seq<u8>, u: seq<u8>, l: seq<u8>, u': seq<u8>, l': seq<u8>, ok: bool, landed: bool, taken: nat, observed: nat, news: seq<u8>)
    requires Polled(u, l, u', l', ok, landed, taken, observed, news)
    ensures forall n: nat | Doubled(logged, d + l + u, n) ::
              Doubled(logged + news, d + l' + u', n + if landed then 0 else 1)
  {
    var (p, z, r) := (d + l, (u + news)[..taken], (u + news)[taken..]);
    if landed {
      PollConserves(d, u, l, u', l', ok, taken, observed, news);
    } else {
      LostMoveDoubles(d, u, l, u', l', ok, taken, observed, news);
    }
    assert |z| == taken;
    hide *;
    StreamStep(logged, d + l + u, news, d + l' + u', landed, p, z, r);
  }

  lemma StreamStep(logged: seq<u8>, s: seq<u8>, news: seq<u8>, s': seq<u8>, landed: bool, p: seq<u8>, z: seq<u8>, r: seq<u8>)
    requires if landed then s' == s + news else s + news == p + z + r && s' == p + z + z + r && 0 < |z| <= MAX_BYTES_PER_READ
    ensures forall n: nat | Doubled(logged, s, n) :: Doubled(logged + news, s', n + if landed then 0 else 1)
  {
    hide Doubled;
    forall n: nat | Doubled(logged, s, n)
      ensures Doubled(logged + news, s', n + if landed then 0 else 1)
    {
      DoubledAppend(logged, s, n, news);
      if !landed { DoubledOnce(logged + news, n, p, z, r); }
    }
  }

  lemma DoubledOnce(a: seq<u8>, n: nat, p: seq<u8>, z: seq<u8>, r: seq<u8>)
    requires Doubled(a, p + z + r, n) && 0 < |z| <= MAX_BYTES_PER_READ
    ensures Doubled(a, p + z + z + r, n + 1)
  {
    assert DoubledAt(a, p + z + z + r, n + 1, p, z, r);
  }

  lemma NoneDoubled(a: seq<u8>, b: seq<u8>)
    ensures Doubled(a, b, 0) <==> a == b
  {
  }

  /** The target logs on. */
  lemma LoggedOn(logged: seq<u8>, d: seq<u8>, l: seq<u8>, u: seq<u8>, news: seq<u8>)
    ensures forall n: nat | Doubled(logged, d + l + u, n) :: Doubled(logged + news, d + l + (u + news), n)
  {
    hide Doubled;
    assert d + l + (u + news) == d + l + u + news;
    forall n: nat | Doubled(logged, d + l + u, n)
      ensures Doubled(logged + news, d + l + u + news, n)
    {
      DoubledAppend(logged, d + l + u, n, news);
    }
  }

  /** A poll of a quiet target that goes through is `PollStep`. */
  lemma QuietPoll(u: seq<u8>, l: seq<u8>, u': seq<u8>, l': seq<u8>, ok: bool, taken: nat, observed: nat)
    requires Polled(u, l, u', l', ok, true, taken, observed, [])
    requires ok || (taken == 0 && |l| == BUFFER_SIZE - 1)
    ensures (u', l') == PollStep(u, l)
  {
    assert u + [] == u;
  }

  /** A poll with bytes to fetch and room for them moves at least one. */
  lemma PollMakesProgress(u: seq<u8>, l: seq<u8>, u': seq<u8>, l': seq<u8>, landed: bool, taken: nat, observed: nat, news: seq<u8>)
    requires Polled(u, l, u', l', true, landed, taken, observed, news)
    requires u != [] && |l| < BUFFER_SIZE - 1
    ensures taken > 0 && |l'| > |l|
  {
  }

  /** One poll and one full-size client read of a quiet target. */
  ghost predicate FullRound(u: seq<u8>, l: seq<u8>, d: seq<u8>, u': seq<u8>, l': seq<u8>, d': seq<u8>) {
    var (v, m) := PollStep(u, l);
    var (n, got) := ReadStep(m, MAX_BYTES_PER_READ);
    u' == v && l' == n && d' == d + got
  }

  /** With `left` rounds to go, the state is on the way of `n` rounds from `u`, `l` and `d`. */
  ghost predicate Reaches(u: seq<u8>, l: seq<u8>, d: seq<u8>, n: nat, u': seq<u8>, l': seq<u8>, d': seq<u8>, left: nat) {
    var (a, b, got) := Rounds(u, l, n);
    var (a', b', got') := Rounds(u', l', left);
    a == a' && b == b' && d + got == d' + got'
  }

  lemma StartOfRun(u: seq<u8>, l: seq<u8>, d: seq<u8>, n: nat)
    ensures Reaches(u, l, d, n, u, l, d, n)
  {
  }

  /** A full round takes the state one round on. */
  lemma OneRound(u: seq<u8>, l: seq<u8>, d: seq<u8>, n: nat, u1: seq<u8>, l1: seq<u8>, d1: seq<u8>, u2: seq<u8>, l2: seq<u8>, d2: seq<u8>, left: nat)
    requires Reaches(u, l, d, n, u1, l1, d1, left + 1) && FullRound(u1, l1, d1, u2, l2, d2)
    ensures Reaches(u, l, d, n, u2, l2, d2, left)
  {
    hide Rounds, PollStep, ReadStep;
    var (v, m) := PollStep(u1, l1);
    var (k, got) := ReadStep(m, MAX_BYTES_PER_READ);
    FirstRound(u1, l1, left);
    var more := Rounds(v, k, left).2;
    assert d1 + (got + more) == d1 + got + more;
  }

  lemma FirstRound(u: seq<u8>, l: seq<u8>, n: nat)
    ensures var (v, m) := PollStep(u, l);
            var (k, got) := ReadStep(m, MAX_BYTES_PER_READ);
            var (a, b, more) := Rounds(v, k, n);
            Rounds(u, l, n + 1) == (a, b, got + more)
  {
    hide PollStep, ReadStep;
  }

  lemma AllRounds(u: seq<u8>, l: seq<u8>, d: seq<u8>, n: nat, u': seq<u8>, l': seq<u8>, d': seq<u8>)
    requires Reaches(u, l, d, n, u', l', d', 0) && Rounds(u, l, n) == ([], [], l + u)
    ensures u' == [] && l' == [] && d' == d + l + u
  {
    assert d + (l + u) == d + l + u;
  }

  /** Successive rounds of one poll and one full-size client read: what is left on each side, and what the client got. */
  function Rounds(unread: seq<u8>, local: seq<u8>, n: nat): (seq<u8>, seq<u8>, seq<u8>)
    decreases n
  {
    if n == 0 then (unread, local, []) else
    var (u, l) := PollStep(unread, local);
    var (l', got) := ReadStep(l, MAX_BYTES_PER_READ);
    var (u', l'', more) := Rounds(u, l', n - 1);
    (u', l'', got + more)
  }

  /** A round keeps the order, and delivers 256 bytes or all there are. */
  lemma OneRoundDelivers(u: seq<u8>, l: seq<u8>)
    requires |l| < BUFFER_SIZE
    ensures var (v, m) := PollStep(u, l);
            var (k, got) := ReadStep(m, MAX_BYTES_PER_READ);
            && |k| < BUFFER_SIZE && got + (k + v) == l + u
            && (|v| + |k| + MAX_BYTES_PER_READ <= |u| + |l| || (v == [] && k == []))
  {
    var (v, m) := PollStep(u, l);
    var (k, got) := ReadStep(m, MAX_BYTES_PER_READ);
    assert m + v == l + u && got + k == m;
  }

  /** A quiet target is drained: after enough rounds the client has every byte, in order. */
  lemma {:induction false} Drains(unread: seq<u8>, local: seq<u8>, n: nat)
    requires |local| < BUFFER_SIZE && n * MAX_BYTES_PER_READ >= |unread| + |local|
    ensures Rounds(unread, local, n) == ([], [], local + unread)
    decreases n
  {
    if n == 0 {
    } else {
      hide Rounds, PollStep, ReadStep;
      var (v, m) := PollStep(unread, local);
      var (k, got) := ReadStep(m, MAX_BYTES_PER_READ);
      OneRoundDelivers(unread, local);
      FirstRound(unread, local, n - 1);
      Drains(v, k, n - 1);
    }
  }

  /** `bytes`, read from `start` on, has the unread bytes `u` of a ring in the places where the ring keeps them. */
  ghost predicate Faithful(bytes: seq<u8>, start: nat, ptr: nat, size: nat, rd: nat, u: seq<u8>)
    requires rd < size && |u| < size
  {
    forall i | 0 <= i < |u| ::
      var at := ptr + Advance(size, rd, i);
      start <= at < start + |bytes| ==> bytes[at - start] == u[i]
  }

  lemma FaithfulConcat(x: seq<u8>, y: seq<u8>, start: nat, ptr: nat, size: nat, rd: nat, u: seq<u8>)
    requires rd < size && |u| < size
    requires Faithful(x, start, ptr, size, rd, u) && Faithful(y, start + |x|, ptr, size, rd, u)
    ensures Faithful(x + y, start, ptr, size, rd, u)
  {
    hide Advance;
    forall i | 0 <= i < |u| && start <= ptr + Advance(size, rd, i) < start + |x + y|
      ensures (x + y)[ptr + Advance(size, rd, i) - start] == u[i]
    {
    }
  }

  lemma FaithfulCut(bytes: seq<u8>, start: nat, o: nat, n: nat, ptr: nat, size: nat, rd: nat, u: seq<u8>)
    requires rd < size && |u| < size && o + n <= |bytes|
    requires Faithful(bytes, start, ptr, size, rd, u)
    ensures Faithful(bytes[o..o + n], start + o, ptr, size, rd, u)
  {
    hide Advance;
  }

  /** A faithful run that starts at the read position and does not wrap holds the first unread bytes. */
  lemma FirstRun(bytes: seq<u8>, ptr: nat, size: nat, rd: nat, u: seq<u8>)
    requires rd < size && |u| < size && rd + |bytes| <= size && |bytes| <= |u|
    requires Faithful(bytes, ptr + rd, ptr, size, rd, u)
    ensures bytes == u[..|bytes|]
  {
    forall i | 0 <= i < |bytes|
      ensures bytes[i] == u[i]
    {
      assert Advance(size, rd, i) == rd + i;
    }
  }

  /** A faithful run from the start of the ring holds the unread bytes after the wrap. */
  lemma SecondRun(bytes: seq<u8>, ptr: nat, size: nat, rd: nat, u: seq<u8>, v: seq<u8>)
    requires rd < size && |v| < size && u <= v && size - rd + |bytes| <= |u|
    requires Faithful(bytes, ptr, ptr, size, rd, v)
    ensures bytes == u[size - rd..size - rd + |bytes|]
  {
    forall i | 0 <= i < |bytes|
      ensures bytes[i] == v[size - rd + i]
    {
      assert Advance(size, rd, size - rd + i) == i;
    }
  }
}
