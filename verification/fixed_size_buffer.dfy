/** The bounded history buffer of the plotter (`FixedSizeBuffer<T>`): a FIFO
    backed by a double-ended queue, where adding to a buffer that already
    holds `size` items first evicts the oldest one.

    The queue is a sequence whose head is the front (oldest item). */
module FixedSizeBuffer {
  import opened Wrappers
  import opened Seqs

  datatype Buffer<T> = Buffer(items: seq<T>, size: nat)

  /** `new(size)`: an empty buffer of the given size. */
  function New<T>(size: nat): (b: Buffer<T>)
    ensures b.items == [] && b.size == size
  {
    Buffer([], size)
  }

  /** The bound every buffer built from `New` keeps: at most `size` items, or
      at most one item when `size == 0` (the first add into a size-zero
      buffer finds it empty and so evicts nothing). */
  ghost predicate Bounded<T>(b: Buffer<T>)
  {
    |b.items| <= if b.size == 0 then 1 else b.size
  }

  /** `add(item)`: pops the front when the length has reached `size`, then
      pushes `item` at the back; returns what was popped. */
  function Add<T>(b: Buffer<T>, item: T): (r: (Buffer<T>, Option<T>))
    ensures r.0.size == b.size
    ensures b.size <= |b.items| && |b.items| > 0 ==>
              r.1 == Some(b.items[0]) && r.0.items == b.items[1..] + [item]
    ensures !(b.size <= |b.items| && |b.items| > 0) ==>
              r.1 == None && r.0.items == b.items + [item]
    ensures Bounded(b) ==> Bounded(r.0)
    ensures (if r.1.Some? then [r.1.value] else []) + r.0.items == b.items + [item]
  {
    if b.size <= |b.items| && |b.items| > 0 then
      (Buffer(b.items[1..] + [item], b.size), Some(b.items[0]))
    else
      (Buffer(b.items + [item], b.size), None)
  }

  /** `remove()`: pops the oldest item, or returns None when empty. */
  function Remove<T>(b: Buffer<T>): (r: (Buffer<T>, Option<T>))
    ensures r.0.size == b.size
    ensures r.1.None? <==> |b.items| == 0
    ensures r.1.Some? ==> [r.1.value] + r.0.items == b.items
    ensures r.1.None? ==> r.0 == b
    ensures Bounded(b) ==> Bounded(r.0)
  {
    if |b.items| == 0 then (b, None) else (Buffer(b.items[1..], b.size), Some(b.items[0]))
  }

  /** `clear()`: empties the contents and keeps the size. */
  function Clear<T>(b: Buffer<T>): (r: Buffer<T>)
    ensures r.items == [] && r.size == b.size
    ensures Bounded(r)
  {
    b.(items := [])
  }

  /** `first()`: the front item, None exactly when empty. */
  function First<T>(b: Buffer<T>): (r: Option<T>)
    ensures r.None? <==> |b.items| == 0
    ensures r.Some? ==> r.value == b.items[0]
  {
    if |b.items| == 0 then None else Some(b.items[0])
  }

  /** `last()`: looks up index `len.saturating_sub(1)`, which for an empty
      buffer is index 0 and therefore out of range. */
  function Last<T>(b: Buffer<T>): (r: Option<T>)
    ensures r.None? <==> |b.items| == 0
    ensures r.Some? ==> r.value == b.items[|b.items| - 1]
  {
    var idx := if |b.items| == 0 then 0 else |b.items| - 1;
    if idx < |b.items| then Some(b.items[idx]) else None
  }

  function Len<T>(b: Buffer<T>): nat { |b.items| }

  function Size<T>(b: Buffer<T>): nat { b.size }

  function IsEmpty<T>(b: Buffer<T>): bool { |b.items| == 0 }

  /** The accessors agree with one another and with the contents. */
  lemma AccessorsAgree<T>(b: Buffer<T>)
    ensures IsEmpty(b) <==> Len(b) == 0
    ensures IsEmpty(b) <==> First(b).None?
    ensures IsEmpty(b) <==> Last(b).None?
    ensures !IsEmpty(b) && Len(b) == 1 ==> First(b) == Last(b)
    ensures Size(b) == b.size && Len(b) == |b.items|
  {
  }

  /** `extend(iter)`: adds every item in order, discarding what is evicted. */
  function Extend<T>(b: Buffer<T>, s: seq<T>): (r: Buffer<T>)
    ensures r.size == b.size
    ensures Bounded(b) ==> Bounded(r)
    decreases |s|
  {
    if |s| == 0 then b else Extend(Add(b, s[0]).0, s[1..])
  }

  /** The items that `Extend(b, s)` evicts, in eviction order. */
  function Evicted<T>(b: Buffer<T>, s: seq<T>): seq<T>
    decreases |s|
  {
    if |s| == 0 then []
    else
      var (b', out) := Add(b, s[0]);
      (if out.Some? then [out.value] else []) + Evicted(b', s[1..])
  }

  /** Nothing is lost or reordered: what was evicted followed by what remains
      is exactly the old contents followed by the added items. */
  lemma {:induction false} ExtendConserves<T>(b: Buffer<T>, s: seq<T>)
    ensures Evicted(b, s) + Extend(b, s).items == b.items + s
    decreases |s|
  {
    if |s| > 0 {
      var (b', out) := Add(b, s[0]);
      var e0 := if out.Some? then [out.value] else [];
      var rest := s[1..];
      ExtendStep(b, s, b', e0);
      ExtendConserves(b', rest);
      var e := Evicted(b', rest);
      var x := Extend(b', rest).items;
      AppendAssoc(e0, e, x);
      AppendAssoc(e0, b'.items, rest);
      AppendAssoc(b.items, [s[0]], rest);
      assert s == [s[0]] + rest;
    }
  }

  /** One step of `Extend` and `Evicted`: the first item is added, and what
      it evicts comes first. */
  lemma ExtendStep<T>(b: Buffer<T>, s: seq<T>, b': Buffer<T>, e0: seq<T>)
    requires |s| > 0 && b' == Add(b, s[0]).0
    requires e0 == if Add(b, s[0]).1.Some? then [Add(b, s[0]).1.value] else []
    ensures Evicted(b, s) == e0 + Evicted(b', s[1..])
    ensures Extend(b, s) == Extend(b', s[1..])
    ensures e0 + b'.items == b.items + [s[0]]
  {
    EvictedStep(b, s);
  }

  lemma EvictedStep<T>(b: Buffer<T>, s: seq<T>)
    requires |s| > 0
    ensures var r := Add(b, s[0]);
            Evicted(b, s) == (if r.1.Some? then [r.1.value] else []) + Evicted(r.0, s[1..])
  {
  }

  function Min(a: int, b: int): int { if a <= b then a else b }

  /** For a buffer within its bound and `size >= 1`, extending keeps exactly
      the newest `min(size, |old| + |s|)` items of the old contents followed
      by `s`. */
  lemma {:induction false} ExtendKeepsNewest<T>(b: Buffer<T>, s: seq<T>)
    requires b.size >= 1 && |b.items| <= b.size
    ensures var all := b.items + s;
            Extend(b, s).items == all[|all| - Min(b.size, |all|)..]
    decreases |s|
  {
    if |s| > 0 {
      var b' := Add(b, s[0]).0;
      var all := b.items + s;
      var all' := b'.items + s[1..];
      assert all' == all[|all| - |all'|..];
      ExtendKeepsNewest(b', s[1..]);
    }
  }

  /** From an empty buffer of size `c >= 1`, the contents after `extend(s)`
      are the last `min(c, |s|)` items of `s`, in arrival order. */
  lemma ExtendFromEmpty<T>(c: nat, s: seq<T>)
    requires c >= 1
    ensures Extend(New<T>(c), s).items == s[|s| - Min(c, |s|)..]
  {
    var b := New<T>(c);
    ExtendKeepsNewest(b, s);
    assert b.items + s == s;
  }

  /** With `size == 0` the first add evicts nothing and leaves one item, and
      every later add returns the previous item: the buffer always holds just
      the latest item. */
  lemma SizeZeroHoldsLatest<T>(b: Buffer<T>, item: T)
    requires b.size == 0 && Bounded(b)
    ensures Add(b, item).0.items == [item]
    ensures Add(b, item).1 == (if |b.items| == 0 then None else Some(b.items[0]))
  {
  }

  /** `extend` on a size-zero buffer keeps only the last item. */
  lemma {:induction false} SizeZeroExtend<T>(b: Buffer<T>, s: seq<T>)
    requires b.size == 0 && Bounded(b) && |s| > 0
    ensures Extend(b, s).items == [s[|s| - 1]]
    decreases |s|
  {
    var b' := Add(b, s[0]).0;
    if |s| > 1 {
      SizeZeroExtend(b', s[1..]);
    }
  }

  /** The borrowing iterator: position `i` of `m`, where `m` is the length
      taken when the iterator was made. */
  datatype Iter<T> = Iter(buf: Buffer<T>, i: nat, m: nat)

  /** While the iterator borrows the buffer the buffer cannot change, so `m`
      stays its length. */
  ghost predicate ValidIter<T>(it: Iter<T>)
  {
    it.i <= it.m == |it.buf.items|
  }

  /** `iter()` / `into_iter()`. */
  function IterOf<T>(b: Buffer<T>): (it: Iter<T>)
    ensures ValidIter(it) && it.i == 0 && it.buf == b
  {
    Iter(b, 0, |b.items|)
  }

  /** `next()`: the item at `i` and the advanced iterator, or None at the end. */
  function Next<T>(it: Iter<T>): (r: (Iter<T>, Option<T>))
    requires ValidIter(it)
    ensures ValidIter(r.0) && r.0.buf == it.buf
    ensures r.1.None? <==> it.i == it.m
    ensures r.1.Some? ==> r.1.value == it.buf.items[it.i] && r.0.i == it.i + 1
    ensures r.1.None? ==> r.0 == it
  {
    if it.i < it.m then (it.(i := it.i + 1), Some(it.buf.items[it.i])) else (it, None)
  }

  /** Everything an iterator still yields, by calling `Next` until None. */
  function Collect<T>(it: Iter<T>): (s: seq<T>)
    requires ValidIter(it)
    ensures s == it.buf.items[it.i..]
    decreases it.m - it.i
  {
    var (it', x) := Next(it);
    match x
    case None => []
    case Some(v) => [v] + Collect(it')
  }

  /** The iterator yields the contents front to back, `len` items, and then
      None. */
  lemma IterYieldsContents<T>(b: Buffer<T>)
    ensures Collect(IterOf(b)) == b.items
    ensures |Collect(IterOf(b))| == Len(b)
    ensures Next(Iter(b, |b.items|, |b.items|)).1 == None
  {
  }
}
