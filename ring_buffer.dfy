/**
 * A fixed-capacity circular store. `write` puts an element in the slot at
 * `writeIndex` and, once `count` has reached `size`, silently overwrites the
 * oldest live element by moving `readIndex` on as well; `read` copies the
 * live elements out oldest-first; `latest` looks at the slot written last.
 *
 * The ghost field `History` is everything ever passed to `Write`; the object
 * invariant `Valid` says that the live slots hold exactly `LastN(History, size)`.
 */
module RingBuffers {
  import opened Wrappers
  import opened Windows

  /** `i mod n` for `0 <= i < 2n`, without division. */
  function Wrap(i: int, n: int): int {
    if i < n then i else i - n
  }

  /** The code's `% size` on the index sums it computes agrees with `Wrap`. */
  lemma ModIsWrap(i: int, n: int)
    requires 0 <= i < 2 * n
    ensures i % n == Wrap(i, n)
  {
    if n <= i {
      assert i == 1 * n + (i - n);
    }
  }

  /** Slots `r`, `r+1`, ... (circularly) hold the elements of `w`, in order. */
  ghost predicate Holds<T>(slots: seq<Option<T>>, r: int, w: seq<T>)
  {
    0 <= r < |slots| && |w| <= |slots| &&
    forall i :: 0 <= i < |w| ==> slots[Wrap(r + i, |slots|)] == Some(w[i])
  }

  /** Slots from `k` onwards are empty. */
  ghost predicate EmptyFrom<T>(slots: seq<Option<T>>, k: int)
  {
    forall j :: 0 <= k <= j < |slots| ==> slots[j] == None
  }

  /** Filling the slot just past a window that is not full extends it by one. */
  lemma {:induction false} HoldsAppend<T>(slots: seq<Option<T>>, r: int, w: seq<T>, x: T)
    requires Holds(slots, r, w) && |w| < |slots|
    ensures Holds(slots[Wrap(r + |w|, |slots|) := Some(x)], r, w + [x])
  {
    var n, p := |slots|, Wrap(r + |w|, |slots|);
    var t := slots[p := Some(x)];
    forall i | 0 <= i < |w| + 1
      ensures t[Wrap(r + i, n)] == Some((w + [x])[i])
    {
      if i < |w| {
        assert Wrap(r + i, n) != p;
      }
    }
  }

  /** Overwriting the oldest slot of a full window drops its first element and appends the new one. */
  lemma {:induction false} HoldsEvict<T>(slots: seq<Option<T>>, r: int, w: seq<T>, x: T)
    requires Holds(slots, r, w) && |w| == |slots|
    ensures Holds(slots[r := Some(x)], Wrap(r + 1, |slots|), w[1..] + [x])
  {
    var n := |slots|;
    var t, r' := slots[r := Some(x)], Wrap(r + 1, n);
    forall i | 0 <= i < n
      ensures t[Wrap(r' + i, n)] == Some((w[1..] + [x])[i])
    {
      if i < n - 1 {
        assert Wrap(r' + i, n) == Wrap(r + i + 1, n);
        assert Wrap(r + i + 1, n) != r;
      }
    }
  }

  /**
   * The ring-buffer invariant on plain values: `slots` has `n > 0` slots,
   * `c` of them are live starting at `r`, the next write goes to `w`, and the
   * live slots hold the newest min(|h|, n) elements of the write history `h`.
   * Before the buffer has filled up, the live range starts at slot 0 and
   * every slot after it is still empty.
   */
  ghost predicate Inv<T>(slots: seq<Option<T>>, r: int, w: int, c: int, h: seq<T>)
  {
    0 < |slots| && 0 <= r < |slots| && 0 <= w < |slots| &&
    c == |LastN(h, |slots|)| &&
    w == Wrap(r + c, |slots|) &&
    Holds(slots, r, LastN(h, |slots|)) &&
    (|h| < |slots| ==> r == 0 && EmptyFrom(slots, c))
  }

  /**
   * One `write` step on plain values keeps the invariant and moves the window
   * by one `Push`: the element goes to slot `w`, the write cursor moves on,
   * and either the count grows or (when full) the read cursor moves on too.
   */
  lemma {:induction false} WriteStep<T>(slots: seq<Option<T>>, r: int, w: int, c: int, h: seq<T>, x: T,
                                        slots': seq<Option<T>>, r': int, w': int, c': int)
    requires Inv(slots, r, w, c, h)
    requires slots' == slots[w := Some(x)] && w' == Wrap(w + 1, |slots|)
    requires if c < |slots| then r' == r && c' == c + 1 else r' == Wrap(r + 1, |slots|) && c' == c
    ensures Inv(slots', r', w', c', h + [x])
    ensures LastN(h + [x], |slots|) == Push(LastN(h, |slots|), x, |slots|)
  {
    var n, live := |slots|, LastN(h, |slots|);
    LastNPush(h, x, n);
    if c < n {
      HoldsAppend(slots, r, live, x);
    } else {
      HoldsEvict(slots, r, live, x);
    }
  }

  /** The slot just before the write cursor holds the last element written, and is empty before the first write. */
  lemma {:induction false} LatestSlot<T>(slots: seq<Option<T>>, r: int, w: int, c: int, h: seq<T>)
    requires Inv(slots, r, w, c, h)
    ensures slots[Wrap(w + |slots| - 1, |slots|)] == if h == [] then None else Some(h[|h| - 1])
  {
    var n, live := |slots|, LastN(h, |slots|);
    if h == [] {
      assert Wrap(w + n - 1, n) == n - 1;
    } else {
      assert Wrap(w + n - 1, n) == Wrap(r + (c - 1), n);
      assert slots[Wrap(r + (c - 1), n)] == Some(live[c - 1]);
    }
  }

  class RingBuffer<T> {
    const size: nat
    const buffer: array<Option<T>>
    var readIndex: int
    var writeIndex: int
    var count: int

    /** Every element written so far, oldest first. */
    ghost var History: seq<T>

    /** The live elements, oldest first: the newest min(writes, size) of History. */
    ghost function Contents(): seq<T>
      reads this
      requires 0 < size
    {
      LastN(History, size)
    }

    ghost predicate Valid()
      reads this, buffer
    {
      size == buffer.Length && Inv(buffer[..], readIndex, writeIndex, count, History)
    }

    /** `init(size:)`: `size` empty slots and nothing written. */
    constructor (size: nat)
      requires 0 < size
      ensures Valid() && fresh(buffer)
      ensures this.size == size && History == [] && Contents() == []
    {
      this.size := size;
      buffer := new Option<T>[size](_ => None);
      readIndex, writeIndex, count := 0, 0, 0;
      History := [];
    }

    /** `write`: the live window moves by one overwrite-oldest step, and `count` stays min(writes, size). */
    method Write(element: T)
      requires Valid()
      modifies this, buffer
      ensures Valid()
      ensures History == old(History) + [element]
      ensures Contents() == Push(old(Contents()), element, size)
      ensures count == if |History| <= size then |History| else size
      ensures 0 <= readIndex < size && 0 <= writeIndex < size
    {
      buffer[writeIndex] := Some(element);
      ModIsWrap(writeIndex + 1, size);
      writeIndex := (writeIndex + 1) % size;
      if count < size {
        count := count + 1;
      } else {
        ModIsWrap(readIndex + 1, size);
        readIndex := (readIndex + 1) % size;
      }
      History := History + [element];
      WriteStep(old(buffer[..]), old(readIndex), old(writeIndex), old(count), old(History), element,
                buffer[..], readIndex, writeIndex, count);
    }

    /** `read`: a copy of the live elements, oldest first; every live slot is filled, so none is skipped. */
    method Read() returns (result: seq<T>)
      requires Valid()
      ensures result == Contents()
      ensures |result| == count
    {
      result := [];
      for i := 0 to count
        invariant result == Contents()[..i]
      {
        ModIsWrap(readIndex + i, size);
        var index := (readIndex + i) % size;
        assert buffer[..][index] == Some(Contents()[i]);
        match buffer[index]
        case Some(element) =>
          result := result + [element];
        case None =>
      }
    }

    /** `latest`: the element passed to the most recent write, or nothing before the first write. */
    function Latest(): (r: Option<T>)
      reads this, buffer
      requires Valid()
      ensures History == [] ==> r == None
      ensures History != [] ==> r == Some(History[|History| - 1])
    {
      ModIsWrap(writeIndex + size - 1, size);
      LatestSlot(buffer[..], readIndex, writeIndex, count, History);
      buffer[(writeIndex + size - 1) % size]
    }
  }
}
