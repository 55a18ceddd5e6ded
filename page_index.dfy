/**
 * The free-space index (`PageIndex.java`): the page size is cut into 40 intervals of
 * `THRESHOLD = PAGE_SIZE / 40` bytes, and bucket i lists the pages whose free space divided by
 * `THRESHOLD` is i (bucket 40 takes a page that is entirely free). `PageCache.PAGE_SIZE` is not
 * part of this model; it is the constructor's parameter. The lock is left out.
 */
module PageIndex {
  import opened Wrappers

  const INTERVALS_NO: nat := 40

  /** `PageInfo`. */
  datatype PageInfo = PageInfo(pgno: int, freeSpace: int)

  /** Java's `/` on `int`, which truncates toward zero. */
  function JavaDiv(a: int, b: int): (q: int)
    requires b > 0
    ensures a >= 0 ==> 0 <= q * b <= a < q * b + b
    ensures a < 0 ==> q * b - b < a <= q * b <= 0
  {
    DivBounds(if a >= 0 then a else -a, b);
    if a >= 0 then a / b else -((-a) / b)
  }

  /** Euclidean division of a natural number, bounded by the divisor. */
  lemma DivBounds(a: nat, b: int)
    requires b > 0
    ensures 0 <= (a / b) * b <= a < (a / b) * b + b
  {
    var q, m := a / b, a % b;
    assert a == q * b + m && 0 <= m < b;
  }

  /** Truncating division never reverses an order. */
  lemma JavaDivMonotone(a: int, b: int, t: int)
    requires t > 0 && a <= b
    ensures JavaDiv(a, t) <= JavaDiv(b, t)
  {
    if 0 <= a {
      DivMonotone(a, b, t);
    } else if b < 0 {
      DivMonotone(-b, -a, t);
      assert JavaDiv(a, t) == -((-a) / t) && JavaDiv(b, t) == -((-b) / t);
    } else {
      NonNegativeDiv(-a, t);
      NonNegativeDiv(b, t);
    }
  }

  lemma NonNegativeDiv(a: nat, t: int)
    requires t > 0
    ensures a / t >= 0
  {
  }

  lemma DivMonotone(a: nat, b: nat, t: int)
    requires t > 0 && a <= b
    ensures a / t <= b / t
  {
    var q, r := a / t, b / t;
    assert q * t <= a;
    assert b < (r + 1) * t;
    MulLess(q, r + 1, t);
  }

  lemma MulLess(x: int, y: int, t: int)
    requires t > 0 && x * t < y * t
    ensures x < y
  {
    if x >= y {
      MulMono(y, x, t);
    }
  }

  lemma MulMono(x: int, y: int, t: int)
    requires t > 0 && x <= y
    ensures x * t <= y * t
  {
    assert y * t - x * t == (y - x) * t;
  }

  /** The buckets, as a whole. */
  predicate Buckets(ls: seq<seq<PageInfo>>)
  {
    |ls| == INTERVALS_NO + 1
  }

  /** Every page sits in the bucket of its free space. */
  predicate Bucketed(ls: seq<seq<PageInfo>>, threshold: int)
    requires threshold > 0
  {
    forall i, j :: 0 <= i < |ls| && 0 <= j < |ls[i]| ==> JavaDiv(ls[i][j].freeSpace, threshold) == i
  }

  /** How many pages the index holds. */
  function Total(ls: seq<seq<PageInfo>>): nat
  {
    if ls == [] then 0 else Total(ls[..|ls| - 1]) + |ls[|ls| - 1]|
  }

  lemma {:induction false} TotalUpdate(ls: seq<seq<PageInfo>>, i: nat, l: seq<PageInfo>)
    requires i < |ls|
    ensures Total(ls[i := l]) == Total(ls) - |ls[i]| + |l|
  {
    var n := |ls| - 1;
    if i < n {
      assert ls[i := l][..n] == ls[..n][i := l];
      TotalUpdate(ls[..n], i, l);
    } else {
      assert ls[i := l][..n] == ls[..n];
    }
  }

  /** `add`: the bucket `freeSpace / THRESHOLD` gets the page at its end. Java throws on an index
      outside the 41 buckets; the precondition says so. */
  function AddSpec(ls: seq<seq<PageInfo>>, threshold: int, pgno: int, freeSpace: int): (r: seq<seq<PageInfo>>)
    requires Buckets(ls) && threshold > 0 && 0 <= JavaDiv(freeSpace, threshold) <= INTERVALS_NO
    ensures Buckets(r)
  {
    var number := JavaDiv(freeSpace, threshold);
    ls[number := ls[number] + [PageInfo(pgno, freeSpace)]]
  }

  /** Adding puts one page more into the index, in its own bucket, and nowhere else. */
  lemma AddIsOneMore(ls: seq<seq<PageInfo>>, threshold: int, pgno: int, freeSpace: int)
    requires Buckets(ls) && threshold > 0 && 0 <= JavaDiv(freeSpace, threshold) <= INTERVALS_NO
    ensures var r := AddSpec(ls, threshold, pgno, freeSpace);
      && Total(r) == Total(ls) + 1
      && var b := JavaDiv(freeSpace, threshold);
         r[b] == ls[b] + [PageInfo(pgno, freeSpace)]
         && forall i :: 0 <= i < |ls| && i != b ==> r[i] == ls[i]
    ensures Bucketed(ls, threshold) ==> Bucketed(AddSpec(ls, threshold, pgno, freeSpace), threshold)
  {
    var b := JavaDiv(freeSpace, threshold);
    TotalUpdate(ls, b, ls[b] + [PageInfo(pgno, freeSpace)]);
  }

  /** The bucket `select` starts at: one past the request's own, capped at the last. Below the
      cap, every free-space amount bucketed at `n` or above exceeds the request. */
  function StartBucket(spaceSize: int, threshold: int): (n: int)
    requires threshold > 0
    ensures JavaDiv(spaceSize, threshold) <= INTERVALS_NO ==> n <= INTERVALS_NO
    ensures JavaDiv(spaceSize, threshold) < INTERVALS_NO ==>
      forall f :: JavaDiv(f, threshold) >= n ==> f > spaceSize
  {
    JavaDivOrder(threshold);
    var number := JavaDiv(spaceSize, threshold);
    if number < INTERVALS_NO then number + 1 else number
  }

  lemma JavaDivOrder(t: int)
    requires t > 0
    ensures forall a, b :: a <= b ==> JavaDiv(a, t) <= JavaDiv(b, t)
  {
    forall a, b | a <= b
      ensures JavaDiv(a, t) <= JavaDiv(b, t)
    {
      JavaDivMonotone(a, b, t);
    }
  }

  /** The lowest non-empty bucket from `b` on. */
  function FirstNonEmpty(ls: seq<seq<PageInfo>>, b: nat): (r: Option<nat>)
    requires Buckets(ls)
    ensures r.Some? ==> b <= r.value <= INTERVALS_NO && ls[r.value] != []
    ensures r.Some? ==> forall k :: b <= k < r.value ==> ls[k] == []
    ensures r.None? <==> forall k :: b <= k <= INTERVALS_NO ==> ls[k] == []
    decreases INTERVALS_NO + 1 - b
  {
    if b > INTERVALS_NO then None
    else if ls[b] == [] then FirstNonEmpty(ls, b + 1)
    else Some(b)
  }

  /** `select`: the head of the lowest non-empty bucket from the start bucket on, removed. */
  function SelectSpec(ls: seq<seq<PageInfo>>, threshold: int, spaceSize: int): (r: (seq<seq<PageInfo>>, Option<PageInfo>))
    requires Buckets(ls) && threshold > 0 && StartBucket(spaceSize, threshold) >= 0
    ensures Buckets(r.0)
  {
    match FirstNonEmpty(ls, StartBucket(spaceSize, threshold))
    case None => (ls, None)
    case Some(i) => (ls[i := ls[i][1..]], Some(ls[i][0]))
  }

  /** `select` finds nothing exactly when every bucket from the start on is empty, and then the
      index is unchanged; otherwise one page fewer remains. */
  lemma SelectOutcome(ls: seq<seq<PageInfo>>, threshold: int, spaceSize: int)
    requires Buckets(ls) && threshold > 0 && StartBucket(spaceSize, threshold) >= 0
    ensures var (r, p) := SelectSpec(ls, threshold, spaceSize);
      && (p.None? <==> forall k :: StartBucket(spaceSize, threshold) <= k <= INTERVALS_NO ==> ls[k] == [])
      && (p.None? ==> r == ls)
      && (p.Some? ==> Total(r) == Total(ls) - 1)
    ensures Bucketed(ls, threshold) ==> Bucketed(SelectSpec(ls, threshold, spaceSize).0, threshold)
  {
    var f := FirstNonEmpty(ls, StartBucket(spaceSize, threshold));
    if f.Some? {
      TotalUpdate(ls, f.value, ls[f.value][1..]);
    }
  }

  /** A page found above the request's own bucket has more free space than was asked for. */
  lemma SelectFits(ls: seq<seq<PageInfo>>, threshold: int, spaceSize: int)
    requires Buckets(ls) && threshold > 0 && StartBucket(spaceSize, threshold) >= 0
    requires Bucketed(ls, threshold) && JavaDiv(spaceSize, threshold) < INTERVALS_NO
    requires SelectSpec(ls, threshold, spaceSize).1.Some?
    ensures SelectSpec(ls, threshold, spaceSize).1.value.freeSpace > spaceSize
  {
    var i := FirstNonEmpty(ls, StartBucket(spaceSize, threshold)).value;
    var p := ls[i][0];
    assert JavaDiv(p.freeSpace, threshold) == i > JavaDiv(spaceSize, threshold);
    if p.freeSpace <= spaceSize {
      JavaDivMonotone(p.freeSpace, spaceSize, threshold);
    }
  }

  class PageIndex {
    const threshold: int
    const lists: array<seq<PageInfo>>

    ghost predicate Valid()
      reads this
    {
      lists.Length == INTERVALS_NO + 1 && threshold > 0
    }

    /** The 41 empty buckets. A page size under 40 would make `THRESHOLD` zero and every `add`
        divide by zero. */
    constructor (pageSize: int)
      requires pageSize >= INTERVALS_NO
      ensures Valid() && fresh(lists) && threshold == pageSize / INTERVALS_NO
      ensures lists[..] == seq(INTERVALS_NO + 1, _ => [])
    {
      threshold := pageSize / INTERVALS_NO;
      lists := new seq<PageInfo>[INTERVALS_NO + 1](_ => []);
    }

    method Add(pgno: int, freeSpace: int)
      requires Valid() && 0 <= JavaDiv(freeSpace, threshold) <= INTERVALS_NO
      modifies lists
      ensures lists[..] == AddSpec(old(lists[..]), threshold, pgno, freeSpace)
    {
      var number := JavaDiv(freeSpace, threshold);
      lists[number] := lists[number] + [PageInfo(pgno, freeSpace)];
    }

    method Select(spaceSize: int) returns (r: Option<PageInfo>)
      requires Valid() && StartBucket(spaceSize, threshold) >= 0
      modifies lists
      ensures (lists[..], r) == SelectSpec(old(lists[..]), threshold, spaceSize)
    {
      var number := JavaDiv(spaceSize, threshold);
      if number < INTERVALS_NO {
        number := number + 1;
      }
      while number <= INTERVALS_NO
        invariant StartBucket(spaceSize, threshold) <= number
        invariant FirstNonEmpty(lists[..], StartBucket(spaceSize, threshold)) == FirstNonEmpty(lists[..], number)
        invariant lists[..] == old(lists[..])
        decreases INTERVALS_NO + 1 - number
      {
        if |lists[number]| == 0 {
          number := number + 1;
          continue;
        }
        var p := lists[number][0];
        lists[number] := lists[number][1..];
        return Some(p);
      }
      return None;
    }
  }
}
