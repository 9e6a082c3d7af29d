/** rtos/os_queue.c as it runs: a ring of byte slots in a buffer, proved to be the
    bounded deque of QueueSpec.dfy byte for byte. */
module Queue {
  import opened CBits
  import opened OsList
  import opened OsEvent
  import opened QueueSpec

  type Msg = seq<bv8>

  /** Slot `k` of the ring. */
  function Slot(b: seq<bv8>, size: nat, k: nat): Msg
    requires k * size + size <= |b|
  {
    b[k * size..k * size + size]
  }

  /** The slot `i` places on, where `i` is less than two turns. */
  function Wrap(i: nat, max: nat): nat {
    if i >= max then i - max else i
  }

  lemma SlotInside(k: nat, size: nat, max: nat)
    requires k < max
    ensures k * size + size <= max * size
  {
    assert max * size == k * size + (max - k) * size;
    MulAtLeast(size, max - k);
  }

  lemma SlotsApart(k: nat, t: nat, size: nat)
    requires k != t
    ensures k * size + size <= t * size || t * size + size <= k * size
  {
    if k < t {
      SlotInside(k, size, t);
    } else {
      SlotInside(t, size, k);
    }
  }

  /** The `cnt` messages from slot `head` on. */
  function Contents(b: seq<bv8>, size: nat, max: nat, head: nat, cnt: nat): (r: seq<Msg>)
    requires cnt <= max && (cnt > 0 ==> head < max) && max * size <= |b|
    ensures |r| == cnt
  {
    seq(cnt, j requires 0 <= j < cnt =>
      SlotInside(Wrap(head + j, max), size, max);
      Slot(b, size, Wrap(head + j, max)))
  }

  /** Overwriting slot `t` leaves the others alone. */
  lemma OtherSlots(b: seq<bv8>, b': seq<bv8>, size: nat, t: nat, k: nat, m: Msg)
    requires |b| == |b'| && |m| == size && k != t
    requires t * size + size <= |b| && k * size + size <= |b|
    requires b' == b[..t * size] + m + b[t * size + size..]
    ensures Slot(b', size, k) == Slot(b, size, k) && Slot(b', size, t) == m
  {
    SlotsApart(k, t, size);
  }

  lemma ThisSlot(b: seq<bv8>, b': seq<bv8>, size: nat, t: nat, m: Msg)
    requires |b| == |b'| && |m| == size && t * size + size <= |b|
    requires b' == b[..t * size] + m + b[t * size + size..]
    ensures Slot(b', size, t) == m
  {
  }

  /** Writing the slot behind the last message appends to the contents. */
  lemma AppendContents(b: seq<bv8>, b': seq<bv8>, size: nat, max: nat, head: nat, cnt: nat, m: Msg)
    requires cnt < max && head < max && max * size <= |b| && |b| == |b'| && |m| == size
    requires var t := Wrap(head + cnt, max);
             t * size + size <= |b| && b' == b[..t * size] + m + b[t * size + size..]
    ensures Contents(b', size, max, head, cnt + 1) == Contents(b, size, max, head, cnt) + [m]
  {
    var t := Wrap(head + cnt, max);
    forall j: nat | j < cnt + 1
      ensures Contents(b', size, max, head, cnt + 1)[j] == (Contents(b, size, max, head, cnt) + [m])[j]
    {
      var k := Wrap(head + j, max);
      SlotInside(k, size, max);
      if j < cnt {
        OtherSlots(b, b', size, t, k, m);
      } else {
        ThisSlot(b, b', size, t, m);
      }
    }
  }

  /** Writing the slot in front of the first message prepends to the contents. */
  lemma PrependContents(b: seq<bv8>, b': seq<bv8>, size: nat, max: nat, head: nat, cnt: nat, m: Msg)
    requires cnt < max && head < max && max * size <= |b| && |b| == |b'| && |m| == size
    requires var t := if head == 0 then max - 1 else head - 1;
             t * size + size <= |b| && b' == b[..t * size] + m + b[t * size + size..]
    ensures var t := if head == 0 then max - 1 else head - 1;
            Contents(b', size, max, t, cnt + 1) == [m] + Contents(b, size, max, head, cnt)
  {
    var t := if head == 0 then max - 1 else head - 1;
    forall j: nat | j < cnt + 1
      ensures Contents(b', size, max, t, cnt + 1)[j] == ([m] + Contents(b, size, max, head, cnt))[j]
    {
      var k := Wrap(t + j, max);
      SlotInside(k, size, max);
      if j == 0 {
        ThisSlot(b, b', size, t, m);
      } else {
        assert k == Wrap(head + (j - 1), max);
        OtherSlots(b, b', size, t, k, m);
      }
    }
  }

  /** Stepping over the first slot drops the first message. */
  lemma TailContents(b: seq<bv8>, size: nat, max: nat, head: nat, cnt: nat)
    requires 0 < cnt <= max && head < max && max * size <= |b|
    ensures head * size + size <= |b| && Contents(b, size, max, head, cnt)[0] == Slot(b, size, head)
    ensures Contents(b, size, max, Wrap(head + 1, max), cnt - 1) == Contents(b, size, max, head, cnt)[1..]
  {
    SlotInside(head, size, max);
    var c, t := Contents(b, size, max, head, cnt), Wrap(head + 1, max);
    assert Wrap(head + 0, max) == head;
    assert c[0] == Slot(b, size, Wrap(head + 0, max));
    forall j: nat | j < cnt - 1
      ensures Contents(b, size, max, t, cnt - 1)[j] == c[1..][j]
    {
      assert Wrap(t + j, max) == Wrap(head + (j + 1), max);
    }
  }

  // ---- The offsets themselves, whatever the size of the ring ----

  /** The buffer and the two byte offsets. */
  datatype Ring = Ring(buf: seq<bv8>, read: nat, write: nat)

  /** One message on: the sum is stored in a uint16_t before it is compared. */
  function NextOffset(off: nat, size: nat, total: nat): nat {
    var o := (off + size) % 0x1_0000;
    if o >= total then 0 else o
  }

  lemma NextOffsetInside(off: nat, size: nat, total: nat)
    requires off + size <= total < 0x1_0000
    ensures NextOffset(off, size, total) == if off + size == total then 0 else off + size
  {
    ModUnique(off + size, 0x1_0000, 0, off + size);
  }

  /** memcpy of `m` to `off`, where it fits. */
  function Copied(b: seq<bv8>, off: nat, m: Msg): (r: seq<bv8>)
    ensures |r| == |b|
  {
    if off + |m| <= |b| then b[..off] + m + b[off + |m|..] else b
  }

  /** queue_wirte_in with the normal option. */
  function StoreBack(r: Ring, total: nat, m: Msg): Ring {
    Ring(Copied(r.buf, r.write, m), r.read, NextOffset(r.write, |m|, total))
  }

  /** What a read of a message of `size` bytes copies out. */
  function Front(r: Ring, size: nat): Msg {
    if r.read + size <= |r.buf| then r.buf[r.read..r.read + size] else []
  }

  /** A new queue after normal writes of `ms`. */
  function Stored(buf: seq<bv8>, total: nat, ms: seq<Msg>): (r: Ring)
    ensures |r.buf| == |buf| && r.read == 0
  {
    if ms == [] then Ring(buf, 0, 0)
    else StoreBack(Stored(buf, total, ms[..|ms| - 1]), total, ms[|ms| - 1])
  }

  ghost predicate AllOfSize(ms: seq<Msg>, size: nat) {
    forall i :: 0 <= i < |ms| ==> |ms[i]| == size
  }

  /** `m` messages of `size` bytes, if there is more than one, do not reach the end of
      the ring before the last. */
  predicate LastStarts(m: nat, size: nat, total: nat) {
    m > 1 ==> (m - 1) * size < total
  }

  /** `j + 1` messages that do not reach the end leave the offset behind them. */
  lemma LastOffset(j: nat, size: nat, total: nat)
    requires size > 0 && (j + 1) * size < total < 0x1_0000
    ensures NextOffset(j * size, size, total) == (j + 1) * size && size <= (j + 1) * size
    ensures LastStarts(j + 1, size, total)
  {
    assert (j + 1) * size == j * size + size;
    NextOffsetInside(j * size, size, total);
  }

  /** Until the offset comes back below the start, the message stored first stays in
      front. */
  lemma {:induction false} StoredBeforeTurn(buf: seq<bv8>, total: nat, ms: seq<Msg>, size: nat)
    requires AllOfSize(ms, size) && |ms| * size <= |buf| && size > 0 && total < 0x1_0000
    requires LastStarts(|ms|, size, total)
    ensures ms != [] ==> Stored(buf, total, ms).write == NextOffset((|ms| - 1) * size, size, total)
    ensures ms != [] ==> Front(Stored(buf, total, ms), size) == ms[0]
    decreases |ms|
  {
    if ms != [] {
      var k, r := |ms| - 1, Stored(buf, total, ms[..|ms| - 1]);
      assert |ms| * size == k * size + size;
      if k > 0 {
        LastOffset(k - 1, size, total);
      }
      StoredBeforeTurn(buf, total, ms[..k], size);
      assert r.write == k * size;
      StoreBackFront(r, total, ms[k]);
    }
  }

  /** Storing at the start replaces the front, storing behind it does not. */
  lemma StoreBackFront(r: Ring, total: nat, m: Msg)
    requires r.read == 0 && r.write + |m| <= |r.buf| && (r.write == 0 || |m| <= r.write)
    ensures Front(StoreBack(r, total, m), |m|) == if r.write == 0 then m else Front(r, |m|)
  {
  }

  /** The number of messages that reach the end of the ring. */
  lemma Turn(size: nat, total: nat) returns (n: nat)
    requires size > 0
    ensures n >= 1 && n * size >= total && LastStarts(n, size, total)
  {
    n := 1;
    while n * size < total
      invariant n >= 1 && LastStarts(n, size, total)
      decreases total - n * size
    {
      assert (n + 1) * size == n * size + size;
      n := n + 1;
    }
  }

  /** The first message read is the first one written, for up to `cnt` normal writes. */
  ghost predicate FirstInFirstOut(buf: seq<bv8>, size: nat, cnt: nat, total: nat) {
    forall ms: seq<Msg> :: 0 < |ms| <= cnt && AllOfSize(ms, size) ==>
      Front(Stored(buf, total, ms), size) == ms[0]
  }

  /** After a turn the offset lies within the first message: the sum reaches the end of
      the ring, or is itself wrapped by the uint16_t. */
  lemma OffsetAfterTurn(n: nat, size: nat, total: nat)
    requires n >= 1 && 0 < size < 0x1_0000 && total < 0x1_0000
    requires n * size >= total && LastStarts(n, size, total)
    ensures NextOffset((n - 1) * size, size, total) < size
  {
    var sum := (n - 1) * size + size;
    assert sum == n * size;
    if n == 1 {
      assert (n - 1) * size == 0;
    }
    if sum < 0x1_0000 {
      ModUnique(sum, 0x1_0000, 0, sum);
    } else {
      ModUnique(sum, 0x1_0000, 1, sum - 0x1_0000);
    }
  }

  /** A message copied over the first one, `x` bytes into it. */
  lemma CopiedOver(b: seq<bv8>, x: nat, m: Msg, size: nat)
    requires |m| == size && x < size && x + size <= |b|
    ensures Copied(b, x, m)[..size] == b[..x] + m[..size - x]
  {
  }

  /** When the uint16_t product wraps, `n` writes go round what is left of the ring and
      the next one, though the queue is not full, overwrites all of the first message
      but its first `x` bytes. All of them are told OK. */
  lemma WrappedRingOverwrites(buf: seq<bv8>, size: nat, cnt: nat, total: nat) returns (n: nat, x: nat)
    requires 0 < size < 0x1_0000 && cnt * size <= |buf| && cnt > 1
    requires total < 0x1_0000 && total <= cnt * size - size
    ensures 1 <= n < cnt && x < size && x == NextOffset((n - 1) * size, size, total)
    ensures forall ms: seq<Msg> :: |ms| == n + 1 && AllOfSize(ms, size) ==>
              Front(Stored(buf, total, ms), size) == ms[0][..x] + ms[n][..size - x]
  {
    n := Turn(size, total);
    assert cnt * size == (cnt - 1) * size + size;
    assert n < cnt;
    x := NextOffset((n - 1) * size, size, total);
    OffsetAfterTurn(n, size, total);
    SlotInside(n, size, cnt);
    MulAtLeast(size, n);
    forall ms: seq<Msg> | |ms| == n + 1 && AllOfSize(ms, size)
      ensures Front(Stored(buf, total, ms), size) == ms[0][..x] + ms[n][..size - x]
    {
      StoredOver(buf, total, ms, size, n, x);
    }
  }

  lemma StoredOver(buf: seq<bv8>, total: nat, ms: seq<Msg>, size: nat, n: nat, x: nat)
    requires |ms| == n + 1 && n >= 1 && AllOfSize(ms, size) && total < 0x1_0000
    requires n * size + size <= |buf| && 0 < size <= n * size && LastStarts(n, size, total)
    requires x == NextOffset((n - 1) * size, size, total) && x < size
    ensures Front(Stored(buf, total, ms), size) == ms[0][..x] + ms[n][..size - x]
  {
    var r := Stored(buf, total, ms[..n]);
    StoredBeforeTurn(buf, total, ms[..n], size);
    assert r.write == x && r.buf[..size] == ms[0];
    CopiedOver(r.buf, x, ms[n], size);
    assert r.buf[..x] == r.buf[..size][..x];
  }

  /** The case the sum itself wraps in: with messages of 3000 bytes and room for 43, the
      23rd write starts 464 bytes into the first message. */
  lemma WrappedSumExample()
    ensures (3000 * 43) % 0x1_0000 == 63464 && NextOffset(21 * 3000, 3000, 63464) == 464
  {
  }

  lemma SlotsBelow(size: nat, cnt: nat, k: nat)
    requires k < cnt && size > 0
    ensures k * size < size * cnt
  {
    SlotInside(k, size, cnt);
    assert cnt * size == size * cnt;
  }

  lemma UnwrappedRingKeepsFirst(buf: seq<bv8>, size: nat, cnt: nat, ms: seq<Msg>)
    requires size > 0 && cnt * size <= |buf| && 0 < |ms| <= cnt && AllOfSize(ms, size)
    requires size * cnt < 0x1_0000
    ensures Front(Stored(buf, size * cnt, ms), size) == ms[0]
  {
    SlotsBelow(size, cnt, |ms| - 1);
    SlotInside(|ms| - 1, size, cnt);
    assert |ms| * size == (|ms| - 1) * size + size;
    StoredBeforeTurn(buf, size * cnt, ms, size);
  }

  /** `n` messages of zeros and one of ones. */
  function Distinct(size: nat, n: nat): (ms: seq<Msg>)
    ensures |ms| == n + 1 && AllOfSize(ms, size)
    ensures n > 0 ==> forall j :: 0 <= j < size ==> ms[0][j] == 0
    ensures forall j :: 0 <= j < size ==> ms[n][j] == 1
  {
    var zeros, ones := seq(size, j => 0 as bv8), seq(size, j => 1 as bv8);
    seq(n, i => zeros) + [ones]
  }

  lemma UnwrappedIsFirstInFirstOut(buf: seq<bv8>, size: nat, cnt: nat)
    requires size > 0 && cnt * size <= |buf| && size * cnt < 0x1_0000
    ensures FirstInFirstOut(buf, size, cnt, size * cnt)
  {
    forall ms: seq<Msg> | 0 < |ms| <= cnt && AllOfSize(ms, size)
      ensures Front(Stored(buf, size * cnt, ms), size) == ms[0]
    {
      UnwrappedRingKeepsFirst(buf, size, cnt, ms);
    }
  }

  lemma WrappedIsNotFirstInFirstOut(buf: seq<bv8>, size: nat, cnt: nat, total: nat)
    requires 0 < size < 0x1_0000 && cnt * size <= |buf| && cnt > 1
    requires total < 0x1_0000 && total <= cnt * size - size
    ensures !FirstInFirstOut(buf, size, cnt, total)
  {
    var n, x := WrappedRingOverwrites(buf, size, cnt, total);
    var ms := Distinct(size, n);
    assert Front(Stored(buf, total, ms), size) == ms[0][..x] + ms[n][..size - x];
    assert (ms[0][..x] + ms[n][..size - x])[x] == ms[n][0] != ms[0][x];
  }

  lemma WrapLoses(p: nat, size: nat, cnt: nat)
    requires size < 0x1_0000 && p == cnt * size
    ensures p >= 0x1_0000 ==> p % 0x1_0000 <= p - size && cnt > 1
    ensures p < 0x1_0000 ==> p % 0x1_0000 == p
  {
  }

  /** A queue delivers the first message first exactly when the size of its ring fits
      the uint16_t it is stored in. */
  lemma FirstInFirstOutIff(buf: seq<bv8>, size: nat, cnt: nat)
    requires 0 < size < 0x1_0000 && 0 < cnt < 0x1_0000 && cnt * size <= |buf|
    ensures FirstInFirstOut(buf, size, cnt, (size * cnt) % 0x1_0000) <==> size * cnt < 0x1_0000
  {
    assert size * cnt == cnt * size;
    WrapLoses(size * cnt, size, cnt);
    if size * cnt < 0x1_0000 {
      UnwrappedIsFirstInFirstOut(buf, size, cnt);
    } else {
      WrappedIsNotFirstInFirstOut(buf, size, cnt, (size * cnt) % 0x1_0000);
    }
  }

  /** On a ring that does not wrap, storing at the write offset appends, and the offset
      moves on to the next slot. */
  lemma StoreBackAppends(r: Ring, size: nat, max: nat, head: nat, cnt: nat, m: Msg)
    requires cnt < max && head < max && max * size <= |r.buf| && |m| == size && max * size < 0x1_0000
    requires r.write == Wrap(head + cnt, max) * size
    ensures r.write + size <= |r.buf|
    ensures var r' := StoreBack(r, max * size, m);
            && r'.write == Wrap(head + (cnt + 1), max) * size
            && Contents(r'.buf, size, max, head, cnt + 1) == Contents(r.buf, size, max, head, cnt) + [m]
  {
    var t := Wrap(head + cnt, max);
    SlotInside(t, size, max);
    StepForward(t, size, max);
    assert Wrap(t + 1, max) == Wrap(head + (cnt + 1), max);
    AppendContents(r.buf, StoreBack(r, max * size, m).buf, size, max, head, cnt, m);
  }

  function SlotBefore(head: nat, max: nat): nat
    requires head < max
  {
    if head == 0 then max - 1 else head - 1
  }

  /** The offset of an urgent message, stored in a uint16_t too. */
  function PreviousOffset(off: nat, size: nat, total: nat): nat {
    (if off <= 0 then total - size else off - size) % 0x1_0000
  }

  /** Storing there prepends, and the write offset stays behind the last message. */
  lemma StoreFrontPrepends(b: seq<bv8>, size: nat, max: nat, head: nat, cnt: nat, m: Msg)
    requires cnt < max && head < max && max * size <= |b| && |m| == size && max * size < 0x1_0000
    ensures var off, t := PreviousOffset(head * size, size, max * size), SlotBefore(head, max);
            && off == t * size && off + size <= |b| && Wrap(t + (cnt + 1), max) == Wrap(head + cnt, max)
            && Contents(b[..off] + m + b[off + size..], size, max, t, cnt + 1)
               == [m] + Contents(b, size, max, head, cnt)
  {
    var t := SlotBefore(head, max);
    StepBack(head, size, max);
    SlotInside(t, size, max);
    var off := t * size;
    ModUnique(off, 0x1_0000, 0, off);
    PrependContents(b, b[..off] + m + b[off + size..], size, max, head, cnt, m);
  }

  /** memcpy, one byte further. */
  lemma CopyByte(o: seq<bv8>, b: seq<bv8>, off: nat, m: Msg, i: nat)
    requires i < |m| && off + |m| <= |o| && b == o[..off] + m[..i] + o[off + i..]
    ensures b[off + i := m[i]] == o[..off] + m[..i + 1] + o[off + i + 1..]
  {
  }

  class OsQueue {
    const pool: array<bv8>  // queue_pool_start
    const msgSize: nat
    const totalSize: nat
    const msgMaxCnt: nat
    var msgCnt: nat
    var read: nat           // byte offsets
    var write: nat
    var readers: seq<Waiter<int>>        // read_event.wait_list
    var writers: seq<Waiter<Send<Msg>>>  // write_event.wait_list
    var wakes: seq<Wake<Msg>>            // the tasks made ready so far

    ghost var head: nat  // the slot of the first message

    ghost predicate Valid()
      reads this, pool
    {
      && msgMaxCnt * msgSize == totalSize <= pool.Length && totalSize < 0x1_0000
      && RingValid(msgMaxCnt, msgCnt, head)
      && read == head * msgSize
      && write == Wrap(head + msgCnt, msgMaxCnt) * msgSize
      && forall i :: 0 <= i < |writers| ==> |writers[i].reason.msg| == msgSize
    }

    ghost function Items(): seq<Msg>
      requires Valid()
      reads this, pool
    {
      Contents(pool[..], msgSize, msgMaxCnt, head, msgCnt)
    }

    ghost function Bytes(): Ring
      reads this, pool
    {
      Ring(pool[..], read, write)
    }

    ghost function View(): State<Msg>
      requires Valid()
      reads this, pool
    {
      State(Items(), msgMaxCnt, readers, writers)
    }

    /** queue_init over a buffer of the caller's. The uint16_t product is the size of
        the ring exactly when it does not wrap. */
    constructor (buf: array<bv8>, size: nat, cnt: nat)
      requires size < 0x1_0000 && cnt < 0x1_0000 && cnt * size <= buf.Length
      ensures pool == buf && msgSize == size && msgMaxCnt == cnt && totalSize == (size * cnt) % 0x1_0000
      ensures Valid() <==> size * cnt < 0x1_0000
      ensures Valid() ==> View() == State([], cnt, [], [])
      ensures Bytes() == Stored(buf[..], totalSize, [])
    {
      pool := buf;
      msgSize := size;
      totalSize := (size * cnt) % 0x1_0000;
      msgCnt := 0;
      msgMaxCnt := cnt;
      read, write := 0, 0;
      readers, writers, wakes := [], [], [];
      head := 0;
      new;
      assert size * cnt == cnt * size;
      assert 0 * size == 0;
    }

    /** memcpy of one message into the buffer. */
    method CopyIn(off: nat, msg: Msg)
      requires |msg| == msgSize && off + msgSize <= pool.Length
      modifies pool
      ensures var o := old(pool[..]); pool[..] == o[..off] + msg + o[off + msgSize..]
    {
      var i := 0;
      ghost var o := pool[..];
      while i < msgSize
        invariant 0 <= i <= msgSize
        invariant pool[..] == o[..off] + msg[..i] + o[off + i..]
      {
        CopyByte(o, pool[..], off, msg, i);
        pool[off + i] := msg[i];
        i := i + 1;
      }
    }

    /** queue_read_msg, the offset, a uint16_t. */
    method NextRead()
      modifies this`read
      ensures read == NextOffset(old(read), msgSize, totalSize)
    {
      read := (read + msgSize) % 0x1_0000;
      if read >= totalSize {
        read := 0;
      }
    }

    /** queue_wirte_in, the offset, a uint16_t. */
    method NextWrite()
      modifies this`write
      ensures write == NextOffset(old(write), msgSize, totalSize)
    {
      write := (write + msgSize) % 0x1_0000;
      if write >= totalSize {
        write := 0;
      }
    }

    /** queue_read_msg */
    method QueueReadMsg() returns (msg: Msg)
      requires read + msgSize <= pool.Length && msgCnt > 0
      modifies this`read, this`msgCnt, this`head
      ensures msg == Front(old(Bytes()), msgSize) && |msg| == msgSize
      ensures read == NextOffset(old(read), msgSize, totalSize) && msgCnt == old(msgCnt) - 1
      ensures old(Valid()) ==> Valid() && old(Items()) == [msg] + Items()
    {
      if Valid() {
        TailContents(pool[..], msgSize, msgMaxCnt, head, msgCnt);
      }
      msg := pool[read..read + msgSize];
      NextRead();
      msgCnt := msgCnt - 1;
      if old(Valid()) {
        StepForward(old(head), msgSize, msgMaxCnt);
      }
      head := Wrap(head + 1, msgMaxCnt);
    }

    /** queue_wirte_in, the offset of an urgent message. */
    method PreviousRead()
      modifies this`read
      ensures read == PreviousOffset(old(read), msgSize, totalSize)
    {
      if read <= 0 {
        read := (totalSize - msgSize) % 0x1_0000;
      } else {
        read := (read - msgSize) % 0x1_0000;
      }
    }

    /** queue_wirte_in: an urgent message goes in front of the first one. */
    method WriteUrgent(msg: Msg)
      requires Valid() && |msg| == msgSize && msgCnt < msgMaxCnt
      modifies this`read, this`msgCnt, this`head, pool
      ensures Valid() && Items() == [msg] + old(Items())
    {
      StoreFrontPrepends(pool[..], msgSize, msgMaxCnt, head, msgCnt, msg);
      PreviousRead();
      CopyIn(read, msg);
      msgCnt := msgCnt + 1;
      head := SlotBefore(head, msgMaxCnt);
    }

    /** queue_wirte_in: a normal message goes behind the last one. */
    method WriteNormal(msg: Msg)
      requires |msg| == msgSize && write + msgSize <= pool.Length
      modifies this`write, this`msgCnt, pool
      ensures Bytes() == StoreBack(old(Bytes()), totalSize, msg) && msgCnt == old(msgCnt) + 1
      ensures old(Valid() && msgCnt < msgMaxCnt) ==> Valid() && Items() == old(Items()) + [msg]
    {
      if Valid() && msgCnt < msgMaxCnt {
        StoreBackAppends(Bytes(), msgSize, msgMaxCnt, head, msgCnt, msg);
      }
      CopyIn(write, msg);
      NextWrite();
      msgCnt := msgCnt + 1;
    }

    /** queue_wirte_in. Without a known option nothing is written. */
    method QueueWriteIn(opt: int, msg: Msg)
      requires Valid() && |msg| == msgSize && (KnownOpt(opt) ==> msgCnt < msgMaxCnt)
      modifies this`read, this`write, this`msgCnt, this`head, pool
      ensures Valid() && Items() == Push(old(Items()), opt, msg)
    {
      if opt == URGENT {
        WriteUrgent(msg);
      } else if opt == NORMAL {
        SlotInside(Wrap(head + msgCnt, msgMaxCnt), msgSize, msgMaxCnt);
        WriteNormal(msg);
      }
    }

    /** os_queue_read. Returns none when the caller blocks. The pointers are not null. */
    method Read(who: Caller, opt: int) returns (ret: Option<Err>, msg: Option<Msg>)
      requires Valid()
      modifies this`read, this`write, this`msgCnt, this`head, this`readers, this`writers, this`wakes, pool
      ensures Valid()
      ensures var o := QueueSpec.Read(old(View()), who, opt);
              View() == o.st && ret == o.ret && msg == o.msg && wakes == old(wakes) + o.wakes
    {
      ghost var s := View();
      if msgCnt > 0 {
        TailContents(pool[..], msgSize, msgMaxCnt, head, msgCnt);
        var m := QueueReadMsg();
        assert s.items[0] == m && s.items[1..] == Items();
        if |writers| > 0 {
          var task := writers[0];
          writers := writers[1..];
          wakes := wakes + [Wake(task.task, Ok, None)];
          QueueWriteIn(task.reason.opt, task.reason.msg);
        }
        return Some(Ok), Some(m);
      } else {
        if who.ms < 0 || who.inIsr {
          return Some(PoolEmpty), None;
        }
        readers := InsertTask(readers, Waiter(who.task, who.prio, who.ms, opt));
        return None, None;
      }
    }

    /** os_queue_write */
    method Write(who: Caller, opt: int, msg: Msg) returns (ret: Option<Err>)
      requires Valid() && |msg| == msgSize
      modifies this`read, this`write, this`msgCnt, this`head, this`readers, this`writers, this`wakes, pool
      ensures Valid()
      ensures var o := QueueSpec.Write(old(View()), who, opt, msg);
              View() == o.st && ret == o.ret && o.msg == None && wakes == old(wakes) + o.wakes
    {
      if opt < 0 {
        return Some(ErrParam);
      }
      if |readers| > 0 {
        var task := readers[0];
        readers := readers[1..];
        wakes := wakes + [Wake(task.task, Ok, Some(msg))];
        return Some(Ok);
      } else if msgCnt < msgMaxCnt {
        QueueWriteIn(opt, msg);
        return Some(Ok);
      } else {
        if who.ms < 0 || who.inIsr {
          return Some(PoolFull);
        }
        var w := Waiter(who.task, who.prio, who.ms, Send(msg, opt));
        InsertedSizes(writers, w, msgSize);
        writers := InsertTask(writers, w);
        return None;
      }
    }

    /** os_event_notify_all on the writers. */
    method NotifyWriters(err: Err)
      modifies this`writers, this`wakes
      ensures writers == [] && wakes == old(wakes) + WakeAll<Msg, Send<Msg>>(old(writers), err)
    {
      while |writers| > 0
        invariant wakes + WakeAll<Msg, Send<Msg>>(writers, err)
                  == old(wakes) + WakeAll<Msg, Send<Msg>>(old(writers), err)
        decreases |writers|
      {
        wakes := wakes + [Wake(writers[0].task, err, None)];
        writers := writers[1..];
      }
    }

    /** os_event_notify_all on the readers. */
    method NotifyReaders(err: Err)
      modifies this`readers, this`wakes
      ensures readers == [] && wakes == old(wakes) + WakeAll<Msg, int>(old(readers), err)
    {
      while |readers| > 0
        invariant wakes + WakeAll<Msg, int>(readers, err) == old(wakes) + WakeAll<Msg, int>(old(readers), err)
        decreases |readers|
      {
        wakes := wakes + [Wake(readers[0].task, err, None)];
        readers := readers[1..];
      }
    }

    /** os_queue_clear */
    method Clear() returns (ret: Err)
      requires Valid()
      modifies this`read, this`write, this`msgCnt, this`head, this`readers, this`writers, this`wakes
      ensures Valid()
      ensures var o := QueueSpec.Clear(old(View()));
              View() == o.st && Some(ret) == o.ret && wakes == old(wakes) + o.wakes
    {
      NotifyWriters(ErrClear);
      NotifyReaders(ErrClear);
      msgCnt := 0;
      read := 0;
      write := 0;
      head := 0;
      assert 0 * msgSize == 0;
      ret := Ok;
    }

    /** os_queue_uninit */
    method Uninit() returns (ret: Err)
      requires Valid()
      modifies this`readers, this`writers, this`wakes
      ensures Valid()
      ensures var o := QueueSpec.Uninit(old(View()));
              View() == o.st && Some(ret) == o.ret && wakes == old(wakes) + o.wakes
    {
      NotifyReaders(ErrRemove);
      NotifyWriters(ErrRemove);
      ret := Ok;
    }
  }

  lemma InsertedSizes(ws: seq<Waiter<Send<Msg>>>, w: Waiter<Send<Msg>>, size: nat)
    requires (forall i :: 0 <= i < |ws| ==> |ws[i].reason.msg| == size) && |w.reason.msg| == size
    ensures forall i :: 0 <= i < |InsertTask(ws, w)| ==> |InsertTask(ws, w)[i].reason.msg| == size
  {
    forall i | 0 <= i < |InsertTask(ws, w)|
      ensures |InsertTask(ws, w)[i].reason.msg| == size
    {
      InsertMember(ws, w, InsertTask(ws, w)[i]);
    }
  }

  /** The head is a slot of the ring. */
  ghost predicate RingValid(max: nat, cnt: nat, head: nat) {
    cnt <= max && if max == 0 then head == 0 else head < max
  }

  /** One slot on: the byte offset wraps just when the slot does. */
  lemma StepForward(k: nat, size: nat, max: nat)
    requires k < max && max * size < 0x1_0000
    ensures NextOffset(k * size, size, max * size) == Wrap(k + 1, max) * size
  {
    SlotInside(k, size, max);
    NextOffsetInside(k * size, size, max * size);
    assert (k + 1) * size == k * size + size;
    if k + 1 < max {
      SlotInside(k + 1, size, max);
    }
  }

  /** One slot back. */
  lemma StepBack(k: nat, size: nat, max: nat)
    requires k < max
    ensures max * size >= size
    ensures (if k * size <= 0 then max * size - size else k * size - size)
            == (if k == 0 then max - 1 else k - 1) * size
  {
    MulAtLeast(size, max);
    assert (max - 1) * size == max * size - size;
    if k > 0 {
      assert (k - 1) * size == k * size - size;
      MulAtLeast(size, k);
    }
  }
}
