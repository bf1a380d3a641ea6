/**
 * FilterQueue: a bounded FIFO of `long` values, oldest (head) first.
 *
 * The C++ class keeps a doubly linked list of malloc'ed nodes between
 * `_head` and `_tail`, plus the counters `_currentSize` and `_maxSize`.
 * Here the list is the sequence `elems` (elems[0] is the head), and the
 * counters are kept as separate fields, as in the source. Valid() ties
 * `currentSize` to the list length; `maxSize` is a capacity the list may
 * exceed after orderedWrite.
 */
module Queue {
  import opened Ordering

  datatype Option<T> = None | Some(value: T)

  /**
   * When FilterQueue::write leaves the list and `_currentSize` consistent.
   * Two cases are broken in the source: a one-element queue whose maxSize
   * is 0 or negative (the new tail is linked after the head and the head is
   * then freed), and an over-full queue (filled by orderedWrite) with
   * maxSize 1 (the list becomes one node, the counter is not reset).
   */
  function WriteDefined(n: nat, maxSize: int): (ok: bool)
    ensures n == 0 ==> ok
    ensures 1 <= maxSize && n <= maxSize ==> ok
  {
    !(n == 1 && maxSize <= 0) && !(maxSize == 1 && n > 1)
  }

  /**
   * The list after FilterQueue::write(v), branch for branch: some of the
   * newest old values, in order, then v at the tail.
   */
  function Written(s: seq<int>, maxSize: int, v: int): (r: seq<int>)
    requires WriteDefined(|s|, maxSize)
    ensures 1 <= |r| <= |s| + 1 && r[|r| - 1] == v
  {
    if |s| == 0 then [v]                // first item
    else if |s| < maxSize then s + [v]  // partially populated
    else if maxSize == 1 then [v]       // full, single slot
    else s[1..] + [v]                   // full: evict the oldest
  }

  /**
   * The newest `m` elements of `s`, in order (none when m is negative, all
   * of them when there are at most m).
   */
  function Newest(s: seq<int>, m: int): (r: seq<int>)
    ensures |r| == if m < 0 then 0 else if |s| < m then |s| else m
    ensures r == s[|s| - |r|..]
  {
    if m < 0 then [] else if |s| <= m then s else s[|s| - m..]
  }

  /** What replaying the writes of `s` into an empty queue of this capacity leaves. */
  function Replayed(s: seq<int>, maxSize: int): (r: seq<int>)
    requires maxSize >= 1 || |s| <= 1
    ensures |r| <= |s| && r == s[|s| - |r|..]
    ensures maxSize >= 1 ==> |r| <= maxSize
    ensures |s| <= maxSize ==> r == s
  {
    if maxSize >= 1 then Newest(s, maxSize) else s
  }

  /** On a queue within its capacity, a write keeps the newest maxSize values. */
  lemma WrittenKeepsNewest(s: seq<int>, maxSize: int, v: int)
    requires 1 <= maxSize && |s| <= maxSize
    ensures WriteDefined(|s|, maxSize)
    ensures Written(s, maxSize, v) == Newest(s + [v], maxSize)
  {
    var x := s + [v];
    if |s| == 0 {
      assert x == [v];
    } else if |s| < maxSize {
      assert Newest(x, maxSize) == x;
    } else if maxSize == 1 {
      assert Newest(x, maxSize) == x[|s|..] == [v];
    } else {
      assert Newest(x, maxSize) == x[1..] == s[1..] + [v];
    }
  }

  /**
   * A write never takes a queue over its capacity (maxSize >= 1), grows it by
   * one while there is room, and keeps it full once it is full.
   */
  lemma WrittenBounded(s: seq<int>, maxSize: int, v: int)
    requires 1 <= maxSize && |s| <= maxSize
    ensures WriteDefined(|s|, maxSize)
    ensures |s| < maxSize ==> |Written(s, maxSize, v)| == |s| + 1
    ensures |s| == maxSize ==> |Written(s, maxSize, v)| == maxSize
    ensures Written(s, maxSize, v)[|Written(s, maxSize, v)| - 1] == v
  {
    WrittenKeepsNewest(s, maxSize, v);
    var r := Newest(s + [v], maxSize);
    assert r == (s + [v])[|s| + 1 - |r|..];
    assert r[|r| - 1] == (s + [v])[|s|];
  }

  /** While there is room (or the queue is empty), a write appends v at the tail. */
  lemma WrittenWithRoom(s: seq<int>, maxSize: int, v: int)
    requires |s| < maxSize || s == []
    ensures WriteDefined(|s|, maxSize)
    ensures Written(s, maxSize, v) == s + [v]
  {
    if s == [] {
      assert s + [v] == [v];
    }
  }

  /** On a full queue a write drops the head and appends v at the tail. */
  lemma WrittenWhenFull(s: seq<int>, maxSize: int, v: int)
    requires 1 <= maxSize && |s| == maxSize
    ensures WriteDefined(|s|, maxSize)
    ensures Written(s, maxSize, v) == s[1..] + [v]
  {
    if maxSize == 1 {
      assert s[1..] + [v] == [v];
    }
  }

  /**
   * A write into an empty queue stores the value whatever maxSize is, so a
   * queue of capacity 0 ends up holding one value.
   */
  lemma WrittenIgnoresCapacityWhenEmpty(maxSize: int, v: int)
    ensures WriteDefined(0, maxSize)
    ensures Written([], maxSize, v) == [v]
    ensures maxSize <= 0 ==> |Written([], maxSize, v)| > maxSize
  {
  }

  /** The queue after writing each of `vs` in turn. */
  function WriteAll(s: seq<int>, maxSize: int, vs: seq<int>): (r: seq<int>)
    requires 1 <= maxSize && |s| <= maxSize
    ensures |r| <= maxSize
  {
    if vs == [] then s
    else
      var before := WriteAll(s, maxSize, vs[..|vs| - 1]);
      WrittenBounded(before, maxSize, vs[|vs| - 1]);
      Written(before, maxSize, vs[|vs| - 1])
  }

  /** Newest(Newest(x, m) + [v], m) == Newest(x + [v], m). */
  lemma NewestOfNewest(x: seq<int>, m: int, v: int)
    requires m >= 1
    ensures Newest(Newest(x, m) + [v], m) == Newest(x + [v], m)
  {
    var a := Newest(Newest(x, m) + [v], m);
    var b := Newest(x + [v], m);
    assert |a| == |b|;
    forall i | 0 <= i < |a| ensures a[i] == b[i] {
      if i == |a| - 1 {
      } else {
        var y := Newest(x, m);
        assert a[i] == (y + [v])[|y| + 1 - |a| + i];
        assert b[i] == x[|x| + 1 - |b| + i];
      }
    }
  }

  /**
   * Any sequence of writes leaves exactly the newest maxSize of everything
   * written, oldest first.
   */
  lemma {:induction false} WritesKeepNewest(s: seq<int>, maxSize: int, vs: seq<int>)
    requires 1 <= maxSize && |s| <= maxSize
    ensures WriteAll(s, maxSize, vs) == Newest(s + vs, maxSize)
  {
    if vs == [] {
      assert s + vs == s;
    } else {
      WritesKeepNewest(s, maxSize, vs[..|vs| - 1]);
      WriteOneMore(s, maxSize, vs);
    }
  }

  /** The induction step: the last write after a run that kept the newest values. */
  lemma WriteOneMore(s: seq<int>, maxSize: int, vs: seq<int>)
    requires 1 <= maxSize && |s| <= maxSize && vs != []
    requires WriteAll(s, maxSize, vs[..|vs| - 1]) == Newest(s + vs[..|vs| - 1], maxSize)
    ensures WriteAll(s, maxSize, vs) == Newest(s + vs, maxSize)
  {
    var init, last := vs[..|vs| - 1], vs[|vs| - 1];
    var before := WriteAll(s, maxSize, init);
    calc {
      WriteAll(s, maxSize, vs);
      Written(before, maxSize, last);
      { WrittenKeepsNewest(before, maxSize, last); }
      Newest(before + [last], maxSize);
      { NewestOfNewest(s + init, maxSize, last); }
      Newest(s + init + [last], maxSize);
      { AppendLast(s, vs); }
      Newest(s + vs, maxSize);
    }
  }

  lemma AppendLast(s: seq<int>, vs: seq<int>)
    requires vs != []
    ensures s + vs[..|vs| - 1] + [vs[|vs| - 1]] == s + vs
  {
    assert vs[..|vs| - 1] + [vs[|vs| - 1]] == vs;
  }

  /**
   * Writing maxSize + k values into an empty queue leaves it full, with the
   * (k+1)-th value written at the head and the last one at the tail.
   */
  lemma OldestAfterOverflow(maxSize: int, vs: seq<int>, k: nat)
    requires 1 <= maxSize && |vs| == maxSize + k
    ensures |WriteAll([], maxSize, vs)| == maxSize
    ensures WriteAll([], maxSize, vs)[0] == vs[k]
    ensures WriteAll([], maxSize, vs)[maxSize - 1] == vs[|vs| - 1]
  {
    WritesKeepNewest([], maxSize, vs);
    assert [] + vs == vs;
  }

  class FilterQueue {
    /** The values from `_head` to `_tail`. */
    var elems: seq<int>
    /** `_currentSize` */
    var currentSize: int
    /** `_maxSize`, a `long` the source never checks, so it may be 0 or negative. */
    var maxSize: int

    /** The list and the element counter agree. */
    ghost predicate Valid()
      reads this
    {
      currentSize == |elems|
    }

    /** No-argument constructor: empty, with capacity 0 until setMaxSize. */
    constructor ()
      ensures Valid() && elems == [] && currentSize == 0 && maxSize == 0
    {
      elems, currentSize, maxSize := [], 0, 0;
    }

    /** Empty queue of the given capacity. */
    constructor WithMaxSize(maxSize: int)
      ensures Valid() && elems == [] && currentSize == 0 && this.maxSize == maxSize
    {
      elems, currentSize, this.maxSize := [], 0, maxSize;
    }

    /**
     * Copy constructor: same maxSize, then the values of `other` written
     * one at a time from its head. A queue within its capacity is copied
     * exactly; the copy is a new object, so later writes to either one
     * leave the other alone.
     */
    constructor Copy(other: FilterQueue)
      requires other.Valid()
      requires other.maxSize >= 1 || |other.elems| <= 1
      ensures Valid() && maxSize == other.maxSize
      ensures elems == Replayed(other.elems, other.maxSize)
      ensures |other.elems| <= other.maxSize ==> elems == other.elems
    {
      elems, currentSize, maxSize := [], 0, other.maxSize;
      new;
      WriteEach(other.elems);
    }

    /**
     * operator=: forget the current list, take the other's maxSize and
     * replay its values. Assigning a queue to itself empties it: the list
     * is dropped before the source list is walked.
     */
    method Assign(other: FilterQueue)
      requires Valid() && other.Valid()
      requires other == this || other.maxSize >= 1 || |other.elems| <= 1
      modifies this
      ensures Valid() && maxSize == old(other.maxSize)
      ensures other != this ==> elems == Replayed(old(other.elems), old(other.maxSize))
      ensures other == this ==> elems == []
    {
      elems, currentSize, maxSize := [], 0, other.maxSize;
      WriteEach(other.elems);
    }

    /** The loop shared by the copy constructor and operator=. */
    method WriteEach(vs: seq<int>)
      requires Valid() && elems == []
      requires maxSize >= 1 || |vs| <= 1
      modifies this
      ensures Valid() && maxSize == old(maxSize)
      ensures elems == Replayed(vs, maxSize)
    {
      var i := 0;
      while i < |vs|
        invariant 0 <= i <= |vs|
        invariant Valid() && maxSize == old(maxSize)
        invariant maxSize >= 1 ==> elems == Newest(vs[..i], maxSize)
        invariant maxSize < 1 ==> elems == vs[..i]
      {
        ghost var before := elems;
        assert vs[..i + 1] == vs[..i] + [vs[i]];
        if maxSize >= 1 {
          WrittenKeepsNewest(before, maxSize, vs[i]);
          Write(vs[i]);
          calc {
            elems;
            Newest(before + [vs[i]], maxSize);
            { NewestOfNewest(vs[..i], maxSize, vs[i]); }
            Newest(vs[..i + 1], maxSize);
          }
        } else {
          Write(vs[i]);
        }
        i := i + 1;
      }
      assert vs[..i] == vs;
    }

    /** currentSize(): the number of stored values. */
    method CurrentSize() returns (n: int)
      requires Valid()
      ensures n == |elems|
    {
      n := currentSize;
    }

    /** maxSize(): the configured capacity. */
    method MaxSize() returns (m: int)
      ensures m == maxSize
    {
      m := maxSize;
    }

    /**
     * orderedWrite(v): walk from the head to the first value strictly
     * greater than `v` and link `v` in front of it, or at the tail when
     * there is none. No capacity check is made.
     */
    method OrderedWrite(v: int)
      requires Valid()
      modifies this
      ensures Valid() && maxSize == old(maxSize)
      ensures elems == Inserted(old(elems), v)
      ensures currentSize == old(currentSize) + 1
    {
      var k := 0;
      while k < |elems| && !(v < elems[k])
        invariant 0 <= k <= |elems|
        invariant forall j :: 0 <= j < k ==> elems[j] <= v
      {
        k := k + 1;
      }
      InsertionPointUnique(elems, v, k);
      elems := elems[..k] + [v] + elems[k..];
      currentSize := currentSize + 1;
    }

    /**
     * read(): the oldest value. The source returns nothing when the queue
     * is empty; that case is None here.
     */
    method Read() returns (r: Option<int>)
      requires Valid()
      ensures elems == [] ==> r == None
      ensures elems != [] ==> r == Some(elems[0])
    {
      if currentSize > 0 {
        r := Some(elems[0]);
      } else {
        r := None;
      }
    }

    /**
     * read(index): walk from the head counting positions and return the
     * value at `index`. The source falls off the end of the function when
     * no position matches (index negative or past the tail); that is None.
     */
    method ReadAt(index: int) returns (r: Option<int>)
      ensures 0 <= index < |elems| ==> r == Some(elems[index])
      ensures !(0 <= index < |elems|) ==> r == None
    {
      var i := 0;
      while i < |elems|
        invariant 0 <= i <= |elems|
        invariant !(0 <= index < i)
      {
        if i == index {
          return Some(elems[i]);
        }
        i := i + 1;
      }
      return None;
    }

    /**
     * setMaxSize(m): record the new capacity and, when the queue now holds
     * more than m values, free nodes from the head until it holds m (all
     * of them when m is negative). The newest values survive, in order.
     */
    method SetMaxSize(m: int)
      requires Valid()
      modifies this
      ensures Valid() && maxSize == m
      ensures elems == Newest(old(elems), m)
    {
      maxSize := m;
      if currentSize > maxSize {
        while elems != [] && currentSize > maxSize
          invariant Valid() && maxSize == m
          invariant |elems| <= |old(elems)|
          invariant elems == old(elems)[|old(elems)| - |elems|..]
          invariant |elems| >= (if m < 0 then 0 else m)
        {
          elems := elems[1..];
          currentSize := currentSize - 1;
        }
      }
    }

    /**
     * write(v): store `v` as the newest value, evicting the oldest when the
     * queue is full; see Written for the branches and WriteDefined for the
     * two states the source cannot handle.
     */
    method Write(v: int)
      requires Valid() && WriteDefined(currentSize, maxSize)
      modifies this
      ensures Valid() && maxSize == old(maxSize)
      ensures elems == Written(old(elems), maxSize, v)
    {
      if currentSize == 0 {
        elems := [v];
        currentSize := 1;
      } else if currentSize < maxSize {
        elems := elems + [v];
        currentSize := currentSize + 1;
      } else if maxSize == 1 {
        elems := [v];
      } else {
        elems := elems[1..] + [v];
      }
    }
  }

  /**
   * Copies are independent: writing to a copy leaves the original's values
   * as they were, and the copy then holds the newest maxSize values of the
   * original's followed by the new one. On a full queue the copy's write
   * drops its own head, not the original's.
   */
  method CopyThenWrite(q: FilterQueue, v: int) returns (c: FilterQueue)
    requires q.Valid() && 1 <= q.maxSize && |q.elems| <= q.maxSize
    ensures q.elems == old(q.elems) && q.maxSize == old(q.maxSize)
    ensures c != q && c.elems == Newest(q.elems + [v], q.maxSize)
  {
    c := new FilterQueue.Copy(q);
    WrittenKeepsNewest(c.elems, c.maxSize, v);
    c.Write(v);
  }
}
