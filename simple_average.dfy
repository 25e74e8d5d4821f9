/**
 * SimpleAverage of synaptics.h: a moving average over the last N values
 * fed to it, kept in a ring buffer together with a running sum.
 *
 * The values are modelled as unbounded integers and the division as C's
 * integer division, which truncates toward zero.
 */
module Averaging {

  /** C's `/` on int: the quotient truncated toward zero. */
  function CDiv(a: int, b: int): (q: int)
    requires b > 0
    ensures var r := a - q * b; -b < r < b && (a >= 0 ==> r >= 0) && (a < 0 ==> r <= 0)
  {
    if a >= 0 then a / b else -((-a) / b)
  }

  function Min(a: int, b: int): int
  {
    if a <= b then a else b
  }

  function Sum(s: seq<int>): int
  {
    if s == [] then 0 else Sum(s[..|s| - 1]) + s[|s| - 1]
  }

  /** The last min(|h|, n) values of h: the ones a buffer of size n still holds. */
  ghost function WindowOf(h: seq<int>, n: nat): (w: seq<int>)
    ensures |w| == Min(|h|, n)
  {
    h[|h| - Min(|h|, n)..]
  }

  /** Appending x to the history appends it to the window, dropping the window's oldest value once the window is full. */
  lemma WindowPush(h: seq<int>, n: nat, x: int)
    requires n >= 1
    ensures WindowOf(h + [x], n) == if |WindowOf(h, n)| == n then WindowOf(h, n)[1..] + [x] else WindowOf(h, n) + [x]
  {
  }

  /** The average SimpleAverage reports after the values h: 0 when empty, else the truncated mean of the window. */
  ghost function AverageOf(h: seq<int>, n: nat): int
  {
    var w := WindowOf(h, n);
    if w == [] then 0 else CDiv(Sum(w), |w|)
  }

  /** n copies of v. */
  function Repeat(v: int, n: nat): (s: seq<int>)
    ensures |s| == n
    ensures forall i :: 0 <= i < n ==> s[i] == v
  {
    if n == 0 then [] else Repeat(v, n - 1) + [v]
  }

  /** Removing the first value of a non-empty sequence takes it off the sum. */
  lemma {:induction false} SumDropFirst(s: seq<int>)
    requires s != []
    ensures Sum(s) == s[0] + Sum(s[1..])
    decreases |s|
  {
    if |s| > 1 {
      assert s[1..][..|s[1..]| - 1] == s[..|s| - 1][1..];
      SumDropFirst(s[..|s| - 1]);
    } else {
      assert s[1..] == [];
    }
  }

  lemma {:induction false} SumRepeat(v: int, n: nat)
    ensures Sum(Repeat(v, n)) == n * v
  {
    if n > 0 {
      assert Repeat(v, n)[..n - 1] == Repeat(v, n - 1);
      SumRepeat(v, n - 1);
    }
  }

  /** Every value of s lies in [lo, hi], so the sum lies in [|s| * lo, |s| * hi]. */
  lemma {:induction false} SumBounds(s: seq<int>, lo: int, hi: int)
    requires forall i :: 0 <= i < |s| ==> lo <= s[i] <= hi
    ensures |s| * lo <= Sum(s) <= |s| * hi
  {
    if s != [] {
      var init := s[..|s| - 1];
      assert forall i :: 0 <= i < |init| ==> init[i] == s[i];
      SumBounds(init, lo, hi);
      assert |s| * lo == |init| * lo + lo && |s| * hi == |init| * hi + hi;
    }
  }

  /** Truncating n * v by n gives v back. */
  lemma CDivMultiple(v: int, n: int)
    requires n > 0
    ensures CDiv(n * v, n) == v
  {
    CDivBounds(n * v, n, v, v);
  }

  /** Multiplying by a positive n keeps the order. */
  lemma MulMonotone(n: int, x: int, y: int)
    requires n > 0
    ensures x <= y ==> n * x <= n * y
  {
    assert n * y - n * x == n * (y - x);
  }

  /** A non-negative a between n * lo and n * hi has its floor quotient between lo and hi. */
  lemma FloorDivBounds(a: nat, n: int, lo: int, hi: int)
    requires n > 0 && n * lo <= a <= n * hi
    ensures lo <= a / n <= hi
  {
    var q, r := a / n, a % n;
    assert a == n * q + r && 0 <= r < n;
    MulMonotone(n, q, lo - 1);
    MulMonotone(n, hi + 1, q);
    assert n * (lo - 1) == n * lo - n && n * (hi + 1) == n * hi + n;
  }

  /** Truncating division keeps a mean between the least and the greatest value. */
  lemma CDivBounds(s: int, n: int, lo: int, hi: int)
    requires n > 0 && n * lo <= s <= n * hi
    ensures lo <= CDiv(s, n) <= hi
  {
    if s >= 0 {
      FloorDivBounds(s, n, lo, hi);
    } else {
      assert n * (-hi) == -(n * hi) && n * (-lo) == -(n * lo);
      FloorDivBounds(-s, n, -hi, -lo);
    }
  }

  /** The reported average lies between the least and the greatest value of the window. */
  lemma AverageWithinWindow(h: seq<int>, n: nat, lo: int, hi: int)
    requires forall i :: 0 <= i < |WindowOf(h, n)| ==> lo <= WindowOf(h, n)[i] <= hi
    requires WindowOf(h, n) != []
    ensures lo <= AverageOf(h, n) <= hi
  {
    var w := WindowOf(h, n);
    SumBounds(w, lo, hi);
    CDivBounds(Sum(w), |w|, lo, hi);
  }

  /**
   * After at least n equal values v, whatever came before, the window
   * holds only v and the average is v.
   */
  lemma ConstantInputConverges(h: seq<int>, v: int, k: nat, n: nat)
    requires n >= 1 && k >= n
    ensures WindowOf(h + Repeat(v, k), n) == Repeat(v, n)
    ensures AverageOf(h + Repeat(v, k), n) == v
  {
    var w := WindowOf(h + Repeat(v, k), n);
    assert |w| == n;
    forall i | 0 <= i < n
      ensures w[i] == v
    {
      assert w[i] == (h + Repeat(v, k))[|h| + k - n + i];
    }
    assert w == Repeat(v, n);
    SumRepeat(v, n);
    CDivMultiple(v, n);
  }

  /**
   * The slot of a ring of n slots holding the j-th oldest of count values,
   * when the next value goes to slot index: slot j while the ring is
   * filling, slot index + j with wrap-around once it is full.
   */
  function RingSlot(n: int, count: int, index: int, j: int): (slot: int)
    requires 0 <= count <= n && 0 <= index < n && 0 <= j < count
    ensures 0 <= slot < n
  {
    if count < n then j else if index + j < n then index + j else index + j - n
  }

  /** The ring buf, with count values and next slot index, holds the window w, oldest first. */
  ghost predicate Ring(buf: seq<int>, count: int, index: int, w: seq<int>)
  {
    |buf| >= 1 && 0 <= count <= |buf| && 0 <= index < |buf| &&
    (count < |buf| ==> index == count) && |w| == count &&
    forall j :: 0 <= j < count ==> buf[RingSlot(|buf|, count, index, j)] == w[j]
  }

  /** The slot after index, wrapping to 0 past the last. */
  function NextSlot(n: int, index: int): (next: int)
    ensures 0 <= index < n ==> 0 <= next < n
    ensures 0 <= index < n - 1 ==> next == index + 1
    ensures index == n - 1 ==> next == 0
  {
    if index + 1 >= n then 0 else index + 1
  }

  /** Writing x at the next slot appends x to the window, dropping its oldest value when the ring is full. */
  lemma RingPush(buf: seq<int>, count: int, index: int, w: seq<int>, x: int)
    requires Ring(buf, count, index, w)
    ensures Ring(buf[index := x], Min(count + 1, |buf|), NextSlot(|buf|, index),
                 if count == |buf| then w[1..] + [x] else w + [x])
  {
    var n := |buf|;
    var buf', count', index' := buf[index := x], Min(count + 1, n), NextSlot(n, index);
    var w' := if count == n then w[1..] + [x] else w + [x];
    forall j | 0 <= j < count'
      ensures buf'[RingSlot(n, count', index', j)] == w'[j]
    {
      if count < n {
        assert RingSlot(n, count', index', j) == j;
        if j < count {
          assert buf[RingSlot(n, count, index, j)] == w[j];
        }
      } else if j < count - 1 {
        assert RingSlot(n, count', index', j) == RingSlot(n, count, index, j + 1);
        assert buf[RingSlot(n, count, index, j + 1)] == w[j + 1];
      } else {
        assert RingSlot(n, count', index', j) == index;
      }
    }
  }

  /**
   * The averager's bookkeeping is consistent with the values h filtered
   * since the last reset: the ring buf holds their window and sum is the
   * window's sum.
   */
  ghost predicate Consistent(buf: seq<int>, count: int, index: int, sum: int, h: seq<int>)
  {
    Ring(buf, count, index, WindowOf(h, |buf|)) && sum == Sum(WindowOf(h, |buf|))
  }

  /**
   * One filter step keeps the bookkeeping consistent: add x to the sum,
   * take off the value it overwrites when the ring is full, write x at
   * the next slot, advance the slot and the count.
   */
  lemma FilterStep(buf: seq<int>, count: int, index: int, sum: int, h: seq<int>, x: int,
                    buf': seq<int>, count': int, index': int, sum': int)
    requires Consistent(buf, count, index, sum, h)
    requires buf' == buf[index := x]
    requires count' == Min(count + 1, |buf|) && index' == NextSlot(|buf|, index)
    requires sum' == sum + x - (if count == |buf| then buf[index] else 0)
    ensures Consistent(buf', count', index', sum', h + [x])
  {
    var w := WindowOf(h, |buf|);
    RingPush(buf, count, index, w, x);
    WindowPush(h, |buf|, x);
    SumPush(buf, count, index, w, x);
  }

  /** The running sum follows the window: x comes in and, once the ring is full, the value it overwrites goes out. */
  lemma SumPush(buf: seq<int>, count: int, index: int, w: seq<int>, x: int)
    requires Ring(buf, count, index, w)
    ensures Sum(if count == |buf| then w[1..] + [x] else w + [x])
            == Sum(w) + x - (if count == |buf| then buf[index] else 0)
  {
    var w' := if count == |buf| then w[1..] + [x] else w + [x];
    assert w'[..|w'| - 1] == if count == |buf| then w[1..] else w;
    if count == |buf| {
      SumDropFirst(w);
      assert buf[RingSlot(|buf|, count, index, 0)] == w[0];
    }
  }

  /** Before any value arrives the bookkeeping is consistent, whatever the buffer holds. */
  lemma EmptyConsistent(buf: seq<int>)
    requires |buf| >= 1
    ensures Consistent(buf, 0, 0, 0, [])
  {
    assert WindowOf([], |buf|) == [];
  }

}

/** The SimpleAverage class itself, specified by the theory above. */
module SimpleAveraging {
  import opened Averaging

  /** The ring buffer and its bookkeeping. */
  class SimpleAverage {
    const N: nat
    var buffer: array<int>
    var count: int
    var sum: int
    var index: int
    /** Every value passed to Filter since the last reset, oldest first. */
    ghost var history: seq<int>

    ghost function Window(): seq<int>
      reads this
    {
      WindowOf(history, N)
    }

    ghost predicate Valid()
      reads this, buffer
    {
      buffer.Length == N && Consistent(buffer[..], count, index, sum, history)
    }

    /** A fresh averager; its buffer's contents are never read before being written. */
    constructor (N: nat)
      requires N >= 1
      ensures Valid() && history == []
      ensures this.N == N && fresh(buffer)
      ensures count == 0 && sum == 0 && index == 0
    {
      this.N := N;
      buffer := new int[N];
      count, sum, index := 0, 0, 0;
      history := [];
      new;
      EmptyConsistent(buffer[..]);
    }

    /**
     * filter: adds a value, dropping the oldest when the buffer is full,
     * and returns the new average.
     */
    method Filter(x: int) returns (avg: int)
      requires Valid()
      modifies this, buffer
      ensures Valid() && buffer == old(buffer)
      ensures history == old(history) + [x]
      ensures buffer[..] == old(buffer[..])[old(index) := x]
      ensures count == Min(old(count) + 1, N) && index == NextSlot(N, old(index))
      ensures sum == old(sum) + x - (if old(count) == N then old(buffer[index]) else 0)
      ensures avg == AverageOf(history, N)
    {
      ghost var b, c, i, s, h := buffer[..], count, index, sum, history;
      sum := sum + x;
      if count == N {
        sum := sum - buffer[index];
      }
      buffer[index] := x;
      index := index + 1;
      if index >= N {
        index := 0;
      }
      if count < N {
        count := count + 1;
      }
      history := history + [x];
      FilterStep(b, c, i, s, h, x, buffer[..], count, index, sum);
      avg := CDiv(sum, count);
      assert avg == Average();
    }

    /** reset: forgets every value; the buffer's contents stay but are no longer read. */
    method Reset()
      requires buffer.Length == N && N >= 1
      modifies this
      ensures Valid() && history == []
      ensures count == 0 && sum == 0 && index == 0
      ensures buffer == old(buffer) && buffer[..] == old(buffer[..])
      ensures Count() == 0 && RunningSum() == 0
      ensures Oldest() == 0 && Newest() == 0 && Average() == 0
    {
      count, sum, index := 0, 0, 0;
      history := [];
      EmptyConsistent(buffer[..]);
    }

    /** count: how many values the window holds. */
    function Count(): (c: int)
      requires Valid()
      reads this, buffer
      ensures c == |Window()| == Min(|history|, N)
    {
      count
    }

    /** sum: the running sum, which is the sum of the window. */
    function RunningSum(): (s: int)
      requires Valid()
      reads this, buffer
      ensures s == Sum(Window())
    {
      sum
    }

    /** oldest: the oldest value of the window, 0 when it is empty. */
    function Oldest(): (v: int)
      requires Valid()
      reads this, buffer
      ensures Window() == [] ==> v == 0
      ensures Window() != [] ==> v == Window()[0]
    {
      if count == 0 then 0
      else
        assert buffer[..][RingSlot(N, count, index, 0)] == Window()[0];
        if count < N then buffer[0] else buffer[index]
    }

    /** newest: the value passed last, 0 when the window is empty. */
    function Newest(): (v: int)
      requires Valid()
      reads this, buffer
      ensures Window() == [] ==> v == 0
      ensures Window() != [] ==> v == Window()[|Window()| - 1] == history[|history| - 1]
    {
      if count == 0 then 0
      else
        var i := if index - 1 < 0 then count - 1 else index - 1;
        assert i == RingSlot(N, count, index, count - 1);
        assert buffer[..][i] == Window()[count - 1];
        buffer[i]
    }

    /** average: the truncated mean of the window, 0 when it is empty. */
    function Average(): (a: int)
      requires Valid()
      reads this, buffer
      ensures a == AverageOf(history, N)
    {
      if count == 0 then 0 else CDiv(sum, count)
    }
  }
}
