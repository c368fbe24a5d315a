/** Sequence operations that stand for the store's queries: `findOne` (the
    first match in natural order), `countDocuments`, `find`, and a cursor's
    `skip`/`limit`. */
module Collections {
  import opened Common

  function Min(a: int, b: int): int { if a <= b then a else b }

  /** The index of the first element satisfying `p`, as `findOne` returns
      the first matching document. */
  function FirstIndex<T>(s: seq<T>, p: T -> bool): (r: Option<nat>)
    ensures r.Some? ==> r.value < |s| && p(s[r.value])
    ensures r.Some? ==> forall j :: 0 <= j < r.value ==> !p(s[j])
    ensures r.None? ==> forall j :: 0 <= j < |s| ==> !p(s[j])
  {
    if s == [] then None
    else if p(s[0]) then Some(0)
    else match FirstIndex(s[1..], p)
      case None => None
      case Some(i) => Some(i + 1)
  }

  /** Two predicates that agree everywhere find the same first match. */
  lemma {:induction false} FirstIndexSame<T>(s: seq<T>, p: T -> bool, q: T -> bool)
    requires forall x :: p(x) == q(x)
    ensures FirstIndex(s, p) == FirstIndex(s, q)
  {
    if s != [] { FirstIndexSame(s[1..], p, q); }
  }

  /** When nothing before it matches, the first match in `s + [x]` is `x`. */
  lemma {:induction false} FirstIndexAppend<T>(s: seq<T>, x: T, p: T -> bool)
    requires FirstIndex(s, p).None? && p(x)
    ensures FirstIndex(s + [x], p) == Some(|s|)
  {
    if s == [] {
    } else {
      assert (s + [x])[1..] == s[1..] + [x];
      FirstIndexAppend(s[1..], x, p);
    }
  }

  /** Replacing the first match by another matching element keeps it the
      first match. */
  lemma {:induction false} FirstIndexUpdate<T>(s: seq<T>, i: nat, x: T, p: T -> bool)
    requires FirstIndex(s, p) == Some(i) && p(x)
    ensures FirstIndex(s[i := x], p) == Some(i)
  {
    if i > 0 {
      assert s[i := x][1..] == s[1..][i - 1 := x];
      FirstIndexUpdate(s[1..], i - 1, x, p);
    }
  }

  /** Replacing an element by one the predicate judges alike leaves the
      first match where it was. */
  lemma {:induction false} FirstIndexUpdateSame<T>(s: seq<T>, i: nat, v: T, p: T -> bool)
    requires i < |s| && p(v) == p(s[i])
    ensures FirstIndex(s[i := v], p) == FirstIndex(s, p)
  {
    if i > 0 {
      assert s[i := v][1..] == s[1..][i - 1 := v];
      FirstIndexUpdateSame(s[1..], i - 1, v, p);
    }
  }

  /** The elements satisfying `p`, in their original order. */
  function Filter<T>(s: seq<T>, p: T -> bool): (r: seq<T>)
    ensures |r| <= |s|
    ensures forall i :: 0 <= i < |r| ==> p(r[i])
    ensures forall x :: x in s && p(x) ==> x in r
    ensures forall x :: x in r ==> x in s
  {
    if s == [] then []
    else if p(s[0]) then [s[0]] + Filter(s[1..], p)
    else Filter(s[1..], p)
  }

  /** `countDocuments(filter)`. */
  function Count<T>(s: seq<T>, p: T -> bool): nat
  {
    |Filter(s, p)|
  }

  /** Replacing one element changes a count by what the two elements
      contribute. */
  lemma {:induction false} CountUpdate<T>(s: seq<T>, i: nat, x: T, p: T -> bool)
    requires i < |s|
    ensures Count(s[i := x], p) == Count(s, p) - (if p(s[i]) then 1 else 0) + (if p(x) then 1 else 0)
  {
    if i == 0 {
      assert s[i := x][1..] == s[1..];
    } else {
      assert s[i := x][1..] == s[1..][i - 1 := x];
      CountUpdate(s[1..], i - 1, x, p);
    }
  }

  function Reverse<T>(s: seq<T>): (r: seq<T>)
    ensures |r| == |s|
    ensures forall i :: 0 <= i < |s| ==> r[i] == s[|s| - 1 - i]
  {
    seq(|s|, i requires 0 <= i < |s| => s[|s| - 1 - i])
  }

  /** A cursor's `skip(skip).limit(limit)`; a limit of 0 means no limit. */
  function Paginate<T>(s: seq<T>, skip: nat, limit: nat): (r: seq<T>)
    ensures var lo := Min(skip, |s|);
            var hi := if limit == 0 then |s| else Min(lo + limit, |s|);
            r == s[lo..hi]
  {
    var rest := if skip <= |s| then s[skip..] else [];
    if limit == 0 || |rest| <= limit then rest else rest[..limit]
  }

  /** The offset a page number stands for: `(page - 1) * limit`, negative for
      page 0. */
  function SkipFor(page: nat, limit: nat): (r: int)
    ensures page == 0 ==> r == -(limit as int)
    ensures page >= 1 ==> r >= 0 && r + limit == page * limit
  {
    if page == 0 then -(limit as int)
    else
      var k: nat := page - 1;
      assert k * limit + limit == (k + 1) * limit;
      k * limit
  }

  /** The newest-first window of a chronological sequence, turned back into
      chronological order, is a contiguous slice that ends `skip` elements
      before the newest. */
  lemma NewestFirstWindow<T>(s: seq<T>, skip: nat, limit: nat)
    ensures var hi := |s| - Min(skip, |s|);
            var lo := if limit == 0 then 0 else hi - Min(limit, hi);
            Reverse(Paginate(Reverse(s), skip, limit)) == s[lo..hi]
  {
    var n := |s|;
    var hi := n - Min(skip, n);
    var lo := if limit == 0 then 0 else hi - Min(limit, hi);
    var w := Paginate(Reverse(s), skip, limit);
    assert |w| == hi - lo;
    var r := Reverse(w);
    forall i | 0 <= i < |r| ensures r[i] == s[lo..hi][i] {
      assert r[i] == w[|w| - 1 - i] == Reverse(s)[Min(skip, n) + |w| - 1 - i];
    }
  }
}
