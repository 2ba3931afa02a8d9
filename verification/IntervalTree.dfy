/** The interval tree, over any totally ordered scalar and whatever value its center takes. */
module IntervalTree {
  import opened Basics
  import Sorting

  const SIZE_MAX := 0xffff_ffff_ffff_ffff

  datatype Interval<S, V> = Interval(start: S, stop: S, value: V)

  /** The scalar's operations: its order, the center of two values, and the default value. */
  datatype Ops<!S> = Ops(le: (S, S) -> bool, mid: (S, S) -> S, zero: S)

  ghost predicate Comparable<S>(le: (S, S) -> bool, a: S, b: S) {
    (le(a, b) || le(b, a)) && (le(a, b) && le(b, a) ==> a == b)
  }

  ghost predicate Transits<S>(le: (S, S) -> bool, a: S, b: S, c: S) {
    le(a, b) && le(b, c) ==> le(a, c)
  }

  ghost predicate TotalOrder<S(!new)>(le: (S, S) -> bool) {
    (forall a, b :: Comparable(le, a, b)) && (forall a, b, c :: Transits(le, a, b, c))
  }

  predicate Less<S>(le: (S, S) -> bool, a: S, b: S) { !le(b, a) }

  /** The constructor with two end points puts them in order. */
  function MakeInterval<S(==, !new), V>(s: S, e: S, v: V, le: (S, S) -> bool): (r: Interval<S, V>)
    requires TotalOrder(le)
    ensures le(r.start, r.stop) && ((r.start == s && r.stop == e) || (r.start == e && r.stop == s)) && r.value == v
  {
    assert Comparable(le, s, e);
    Interval(if Less(le, e, s) then e else s, if Less(le, s, e) then e else s, v)
  }

  predicate StartOrder<S, V>(le: (S, S) -> bool, a: Interval<S, V>, b: Interval<S, V>) { le(a.start, b.start) }

  ghost predicate ByStart<S, V>(s: seq<Interval<S, V>>, le: (S, S) -> bool) {
    forall i, j :: 0 <= i < j < |s| ==> le(s[i].start, s[j].start)
  }

  ghost predicate Proper<S, V>(s: seq<Interval<S, V>>, le: (S, S) -> bool) {
    forall i :: 0 <= i < |s| ==> le(s[i].start, s[i].stop)
  }

  // -- Filtering --------------------------------------------------------------------------------------------

  /** The elements that satisfy p, in order. */
  function Filter<T>(s: seq<T>, p: T -> bool): (r: seq<T>)
    ensures |r| <= |s|
  {
    if s == [] then [] else Filter(s[..|s| - 1], p) + Only(s[|s| - 1], p)
  }

  function Only<T>(x: T, p: T -> bool): seq<T> { if p(x) then [x] else [] }

  lemma {:induction false} FilterMember<T>(s: seq<T>, p: T -> bool, x: T)
    requires x in Filter(s, p)
    ensures x in s && p(x)
    decreases |s|
  {
    if x !in Filter(s[..|s| - 1], p) {
    } else {
      FilterMember(s[..|s| - 1], p, x);
    }
  }

  lemma {:induction false} FilterCount<T>(s: seq<T>, p: T -> bool, x: T)
    ensures multiset(Filter(s, p))[x] == if p(x) then multiset(s)[x] else 0
    decreases |s|
  {
    if s == [] {
    } else {
      var n := |s| - 1;
      assert s == s[..n] + [s[n]];
      FilterCount(s[..n], p, x);
    }
  }

  lemma {:induction false} FilterKeepsOrder<S, V>(s: seq<Interval<S, V>>, p: Interval<S, V> -> bool, le: (S, S) -> bool)
    requires ByStart(s, le)
    ensures ByStart(Filter(s, p), le)
    decreases |s|
  {
    if s == [] {
    } else {
      var f := Filter(s[..|s| - 1], p);
      FilterKeepsOrder(s[..|s| - 1], p, le);
      forall i | 0 <= i < |f| ensures le(f[i].start, s[|s| - 1].start) {
        FilterMember(s[..|s| - 1], p, f[i]);
      }
    }
  }

  lemma {:induction false} FilterShrinks<T>(s: seq<T>, p: T -> bool, i: nat)
    requires i < |s| && !p(s[i])
    ensures |Filter(s, p)| < |s|
    decreases |s|
  {
    if i >= |s| - 1 {
    } else {
      FilterShrinks(s[..|s| - 1], p, i);
    }
  }

  // -- Trees ------------------------------------------------------------------------------------------------

  /** A missing child is Nil. */
  datatype Tree<S, V> = Nil | Node(center: S, intervals: seq<Interval<S, V>>, left: Tree<S, V>, right: Tree<S, V>)

  /** visit_all: all intervals, in the order visited. */
  function All<S, V>(t: Tree<S, V>): seq<Interval<S, V>> {
    match t
    case Nil => []
    case Node(_, iv, l, r) => All(l) + iv + All(r)
  }

  function Height<S, V>(t: Tree<S, V>): nat {
    match t
    case Nil => 0
    case Node(_, _, l, r) => 1 + if Height(l) < Height(r) then Height(r) else Height(l)
  }

  predicate IsLeft<S, V>(le: (S, S) -> bool, c: S, i: Interval<S, V>) { Less(le, i.stop, c) }

  predicate IsRight<S, V>(le: (S, S) -> bool, c: S, i: Interval<S, V>) { !IsLeft(le, c, i) && Less(le, c, i.start) }

  predicate IsHere<S, V>(le: (S, S) -> bool, c: S, i: Interval<S, V>) { !IsLeft(le, c, i) && !IsRight(le, c, i) }

  /** Every node's list is sorted by start; what ends before the center is left, what starts after it right. */
  ghost predicate Arranged<S, V>(t: Tree<S, V>, le: (S, S) -> bool) {
    match t
    case Nil => true
    case Node(c, iv, l, r) =>
      && ByStart(iv, le)
      && (forall i :: i in All(l) ==> Less(le, i.stop, c))
      && (forall i :: i in All(r) ==> Less(le, c, i.start))
      && Arranged(l, le) && Arranged(r, le)
  }

  // -- Queries ----------------------------------------------------------------------------------------------

  /** What visit_near visits of one node's own list. */
  function Here<S, V>(iv: seq<Interval<S, V>>, stop: S, le: (S, S) -> bool): seq<Interval<S, V>> {
    if |iv| > 0 && !Less(le, stop, iv[0].start) then iv else []
  }

  function IfSo<T>(b: bool, s: seq<T>): seq<T> { if b then s else [] }

  /** visit_near: the intervals it calls its function on, in order. */
  function VisitNear<S, V>(t: Tree<S, V>, start: S, stop: S, le: (S, S) -> bool): seq<Interval<S, V>> {
    match t
    case Nil => []
    case Node(c, iv, l, r) =>
      Here(iv, stop, le)
      + IfSo(le(start, c), VisitNear(l, start, stop, le))
      + IfSo(le(c, stop), VisitNear(r, start, stop, le))
  }

  predicate Overlaps<S, V>(le: (S, S) -> bool, start: S, stop: S, i: Interval<S, V>) {
    le(start, i.stop) && le(i.start, stop)
  }

  predicate Contained<S, V>(le: (S, S) -> bool, start: S, stop: S, i: Interval<S, V>) {
    le(start, i.start) && le(i.stop, stop)
  }

  /** visit_near visits every interval that overlaps the query as often as it occurs. */
  lemma {:induction false} OverlapIsVisited<S(!new), V>(t: Tree<S, V>, start: S, stop: S, x: Interval<S, V>,
                                                        le: (S, S) -> bool)
    requires TotalOrder(le) && Arranged(t, le) && Overlaps(le, start, stop, x)
    ensures multiset(VisitNear(t, start, stop, le))[x] == multiset(All(t))[x]
    decreases t
  {
    match t
    case Nil =>
    case Node(c, iv, l, r) =>
      OverlapIsVisited(l, start, stop, x, le);
      OverlapIsVisited(r, start, stop, x, le);
      HereIsVisited(iv, start, stop, x, le);
      LeftIsVisited(l, start, stop, x, c, le);
      RightIsVisited(r, start, stop, x, c, le);
      CountInThree(Here(iv, stop, le), IfSo(le(start, c), VisitNear(l, start, stop, le)),
                   IfSo(le(c, stop), VisitNear(r, start, stop, le)), x);
      CountInThree(All(l), iv, All(r), x);
  }

  lemma LeftIsVisited<S(!new), V>(l: Tree<S, V>, start: S, stop: S, x: Interval<S, V>, c: S, le: (S, S) -> bool)
    requires TotalOrder(le) && Overlaps(le, start, stop, x) && forall i :: i in All(l) ==> Less(le, i.stop, c)
    requires multiset(VisitNear(l, start, stop, le))[x] == multiset(All(l))[x]
    ensures multiset(IfSo(le(start, c), VisitNear(l, start, stop, le)))[x] == multiset(All(l))[x]
  {
    assert Transits(le, start, x.stop, c) && Comparable(le, x.stop, c);
    if x in All(l) { assert le(start, c); }
  }

  lemma RightIsVisited<S(!new), V>(r: Tree<S, V>, start: S, stop: S, x: Interval<S, V>, c: S, le: (S, S) -> bool)
    requires TotalOrder(le) && Overlaps(le, start, stop, x) && forall i :: i in All(r) ==> Less(le, c, i.start)
    requires multiset(VisitNear(r, start, stop, le))[x] == multiset(All(r))[x]
    ensures multiset(IfSo(le(c, stop), VisitNear(r, start, stop, le)))[x] == multiset(All(r))[x]
  {
    assert Transits(le, c, x.start, stop) && Comparable(le, c, x.start);
    if x in All(r) { assert le(c, stop); }
  }

  lemma HereIsVisited<S(!new), V>(iv: seq<Interval<S, V>>, start: S, stop: S, x: Interval<S, V>, le: (S, S) -> bool)
    requires TotalOrder(le) && ByStart(iv, le) && Overlaps(le, start, stop, x)
    ensures multiset(Here(iv, stop, le))[x] == multiset(iv)[x]
  {
    if x in iv {
      var k :| 0 <= k < |iv| && iv[k] == x;
      assert Transits(le, iv[0].start, x.start, stop);
    }
  }

  lemma CountInThree<T>(a: seq<T>, b: seq<T>, c: seq<T>, x: T)
    ensures multiset(a + b + c)[x] == multiset(a)[x] + multiset(b)[x] + multiset(c)[x]
  {
  }

  /** Whatever implies overlapping, filtering what visit_near visits gives what filtering all intervals gives. */
  lemma PruningIsExact<S(!new), V(!new)>(t: Tree<S, V>, orig: seq<Interval<S, V>>, start: S, stop: S,
                                         p: Interval<S, V> -> bool, le: (S, S) -> bool)
    requires TotalOrder(le) && Arranged(t, le) && multiset(All(t)) == multiset(orig)
    requires forall i :: i in orig && p(i) ==> Overlaps(le, start, stop, i)
    ensures multiset(Filter(VisitNear(t, start, stop, le), p)) == multiset(Filter(orig, p))
  {
    var v := VisitNear(t, start, stop, le);
    forall x ensures multiset(Filter(v, p))[x] == multiset(Filter(orig, p))[x] {
      SameCount(t, orig, start, stop, p, x, le);
    }
  }

  lemma SameCount<S(!new), V>(t: Tree<S, V>, orig: seq<Interval<S, V>>, start: S, stop: S, p: Interval<S, V> -> bool,
                              x: Interval<S, V>, le: (S, S) -> bool)
    requires TotalOrder(le) && Arranged(t, le) && multiset(All(t)) == multiset(orig)
    requires x in orig && p(x) ==> Overlaps(le, start, stop, x)
    ensures multiset(Filter(VisitNear(t, start, stop, le), p))[x] == multiset(Filter(orig, p))[x]
  {
    FilterCount(VisitNear(t, start, stop, le), p, x);
    FilterCount(orig, p, x);
    if p(x) { MatchIsVisited(t, orig, start, stop, x, le); }
  }

  lemma MatchIsVisited<S(!new), V>(t: Tree<S, V>, orig: seq<Interval<S, V>>, start: S, stop: S, x: Interval<S, V>,
                         le: (S, S) -> bool)
    requires TotalOrder(le) && Arranged(t, le) && multiset(All(t)) == multiset(orig)
    requires x in orig ==> Overlaps(le, start, stop, x)
    ensures multiset(VisitNear(t, start, stop, le))[x] == multiset(orig)[x]
  {
    if Overlaps(le, start, stop, x) {
      OverlapIsVisited(t, start, stop, x, le);
    } else {
      VisitedIsStored(t, start, stop, x, le);
      assert x !in multiset(All(t));
    }
  }

  lemma {:induction false} VisitedIsStored<S, V>(t: Tree<S, V>, start: S, stop: S, x: Interval<S, V>,
                                                 le: (S, S) -> bool)
    ensures x in VisitNear(t, start, stop, le) ==> x in All(t)
    decreases t
  {
    match t
    case Nil =>
    case Node(c, iv, l, r) =>
      VisitedIsStored(l, start, stop, x, le);
      VisitedIsStored(r, start, stop, x, le);
  }

  lemma FilterSnoc<T>(s: seq<T>, x: T, p: T -> bool)
    ensures Filter(s + [x], p) == Filter(s, p) + Only(x, p)
  {
    assert (s + [x])[..|s|] == s;
  }

  lemma {:induction false} FilterConcat<T>(s: seq<T>, t: seq<T>, p: T -> bool)
    ensures Filter(s + t, p) == Filter(s, p) + Filter(t, p)
    decreases |t|
  {
    if t == [] {
      assert s + t == s && Filter(t, p) == [];
      assert Filter(s, p) + [] == Filter(s, p);
    } else {
      var t', x := t[..|t| - 1], t[|t| - 1];
      assert t == t' + [x];
      calc {
        Filter(s + t, p);
      == { Associative(s, t', [x]); }
        Filter(s + t' + [x], p);
      == { FilterSnoc(s + t', x, p); }
        Filter(s + t', p) + Only(x, p);
      == { FilterConcat(s, t', p); }
        Filter(s, p) + Filter(t', p) + Only(x, p);
      == { Associative(Filter(s, p), Filter(t', p), Only(x, p)); }
        Filter(s, p) + (Filter(t', p) + Only(x, p));
      == { FilterSnoc(t', x, p); }
        Filter(s, p) + Filter(t, p);
      }
    }
  }

  method PushHere<T>(s: seq<T>, p: T -> bool, result0: seq<T>) returns (result: seq<T>)
    ensures result == result0 + Filter(s, p)
  {
    result := result0;
    for k := 0 to |s|
      invariant result == result0 + Filter(s[..k], p)
    {
      assert s[..k + 1][..k] == s[..k];
      if p(s[k]) {
        result := result + [s[k]];
      }
    }
    assert s[..|s|] == s;
  }

  lemma FilterOfThree<T>(r: seq<T>, a: seq<T>, b: seq<T>, c: seq<T>, p: T -> bool)
    ensures r + Filter(a, p) + Filter(b, p) + Filter(c, p) == r + Filter(a + b + c, p)
  {
    FilterConcat(a, b, p);
    FilterConcat(a + b, c, p);
    Associative(r, Filter(a, p), Filter(b, p));
    Associative(r, Filter(a + b, p), Filter(c, p));
  }

  /** visit_near with a function that pushes the intervals satisfying p onto the result. */
  method Collect<S, V>(t: Tree<S, V>, start: S, stop: S, p: Interval<S, V> -> bool, le: (S, S) -> bool,
                       result0: seq<Interval<S, V>>) returns (result: seq<Interval<S, V>>)
    ensures result == result0 + Filter(VisitNear(t, start, stop, le), p)
    decreases t
  {
    if t.Nil? {
      return result0;
    }
    var iv := t.intervals;
    var result1 := result0;
    if |iv| > 0 && !Less(le, stop, iv[0].start) {
      result1 := PushHere(iv, p, result0);
    }
    assert result1 == result0 + Filter(Here(iv, stop, le), p);
    var result2 := result1;
    if le(start, t.center) {
      result2 := Collect(t.left, start, stop, p, le, result1);
    }
    ghost var lefts := IfSo(le(start, t.center), VisitNear(t.left, start, stop, le));
    assert result2 == result1 + Filter(lefts, p);
    result := result2;
    if le(t.center, stop) {
      result := Collect(t.right, start, stop, p, le, result2);
    }
    ghost var rights := IfSo(le(t.center, stop), VisitNear(t.right, start, stop, le));
    assert result == result2 + Filter(rights, p);
    FilterOfThree(result0, Here(iv, stop, le), lefts, rights, p);
  }

  /** The intervals that overlap the query, for every query pair, also one with its ends reversed. */
  method FindOverlapping<S(!new), V(!new)>(t: Tree<S, V>, start: S, stop: S, le: (S, S) -> bool,
                           ghost orig: seq<Interval<S, V>>)
    returns (result: seq<Interval<S, V>>)
    requires TotalOrder(le) && Arranged(t, le) && multiset(All(t)) == multiset(orig)
    ensures multiset(result) == multiset(Filter(orig, (i: Interval<S, V>) => Overlaps(le, start, stop, i)))
  {
    var p := (i: Interval<S, V>) => Overlaps(le, start, stop, i);
    result := Collect(t, start, stop, p, le, []);
    PruningIsExact(t, orig, start, stop, p, le);
  }

  /** The intervals inside the query. */
  method FindContained<S(!new), V(!new)>(t: Tree<S, V>, start: S, stop: S, le: (S, S) -> bool,
                         ghost orig: seq<Interval<S, V>>)
    returns (result: seq<Interval<S, V>>)
    requires TotalOrder(le) && Arranged(t, le) && multiset(All(t)) == multiset(orig) && Proper(orig, le)
    ensures multiset(result) == multiset(Filter(orig, (i: Interval<S, V>) => Contained(le, start, stop, i)))
  {
    var p := (i: Interval<S, V>) => Contained(le, start, stop, i);
    forall i | i in orig && p(i) ensures Overlaps(le, start, stop, i) {
      assert Transits(le, start, i.start, i.stop) && Transits(le, i.start, i.stop, stop);
    }
    result := Collect(t, start, stop, p, le, []);
    PruningIsExact(t, orig, start, stop, p, le);
  }

  // -- Building ---------------------------------------------------------------------------------------------

  ghost predicate Splits<S, V>(s: seq<Interval<S, V>>, c: S, le: (S, S) -> bool,
                               lefts: seq<Interval<S, V>>, rights: seq<Interval<S, V>>, here: seq<Interval<S, V>>)
  {
    && lefts == Filter(s, (i: Interval<S, V>) => IsLeft(le, c, i))
    && rights == Filter(s, (i: Interval<S, V>) => IsRight(le, c, i))
    && here == Filter(s, (i: Interval<S, V>) => IsHere(le, c, i))
  }

  /** The loop that distributes the intervals. Whatever is neither left nor right crosses the center. */
  method Split<S, V>(ivals: seq<Interval<S, V>>, c: S, le: (S, S) -> bool)
    returns (lefts: seq<Interval<S, V>>, rights: seq<Interval<S, V>>, here: seq<Interval<S, V>>)
    ensures Splits(ivals, c, le, lefts, rights, here)
  {
    lefts, rights, here := [], [], [];
    for k := 0 to |ivals|
      invariant Splits(ivals[..k], c, le, lefts, rights, here)
    {
      assert ivals[..k + 1][..k] == ivals[..k];
      var i := ivals[k];
      if Less(le, i.stop, c) {
        lefts := lefts + [i];
      } else if Less(le, c, i.start) {
        rights := rights + [i];
      } else {
        assert le(i.start, c) && le(c, i.stop);
        here := here + [i];
      }
    }
    assert ivals[..|ivals|] == ivals;
  }

  lemma SplitKeepsAll<S(!new), V(!new)>(s: seq<Interval<S, V>>, c: S, le: (S, S) -> bool,
                            lefts: seq<Interval<S, V>>, rights: seq<Interval<S, V>>, here: seq<Interval<S, V>>)
    requires Splits(s, c, le, lefts, rights, here)
    ensures multiset(lefts) + multiset(here) + multiset(rights) == multiset(s)
  {
    forall x ensures (multiset(lefts) + multiset(here) + multiset(rights))[x] == multiset(s)[x] {
      FilterCount(s, (i: Interval<S, V>) => IsLeft(le, c, i), x);
      FilterCount(s, (i: Interval<S, V>) => IsRight(le, c, i), x);
      FilterCount(s, (i: Interval<S, V>) => IsHere(le, c, i), x);
    }
  }

  /** The least start. */
  function MinStart<S, V>(s: seq<Interval<S, V>>, le: (S, S) -> bool): (k: nat)
    requires s != []
    ensures k < |s|
  {
    if |s| == 1 then 0
    else
      var k := MinStart(s[..|s| - 1], le);
      if Less(le, s[|s| - 1].start, s[k].start) then |s| - 1 else k
  }

  /** The greatest stop; the last one among equals. */
  function MaxStop<S, V>(s: seq<Interval<S, V>>, le: (S, S) -> bool): (k: nat)
    requires s != []
    ensures k < |s|
  {
    if |s| == 1 then 0
    else
      var k := MaxStop(s[..|s| - 1], le);
      if !Less(le, s[|s| - 1].stop, s[k].stop) then |s| - 1 else k
  }

  ghost predicate Balanced<S(!new)>(ops: Ops<S>) {
    forall a, b :: ops.le(a, b) ==> ops.le(a, ops.mid(a, b)) && ops.le(ops.mid(a, b), b)
  }

  lemma {:induction false} MinStartIsLeast<S(!new), V>(s: seq<Interval<S, V>>, le: (S, S) -> bool, i: nat)
    requires TotalOrder(le) && i < |s|
    ensures le(s[MinStart(s, le)].start, s[i].start)
    decreases |s|
  {
    assert Comparable(le, s[MinStart(s, le)].start, s[|s| - 1].start) && Comparable(le, s[i].start, s[i].start);
    if |s| > 1 {
      var k := MinStart(s[..|s| - 1], le);
      assert Comparable(le, s[|s| - 1].start, s[k].start) && Transits(le, s[|s| - 1].start, s[k].start, s[i].start);
    }
    if |s| <= 1 || i >= |s| - 1 {
    } else {
      MinStartIsLeast(s[..|s| - 1], le, i);
    }
  }

  lemma {:induction false} MaxStopIsGreatest<S(!new), V>(s: seq<Interval<S, V>>, le: (S, S) -> bool, i: nat)
    requires TotalOrder(le) && i < |s|
    ensures le(s[i].stop, s[MaxStop(s, le)].stop)
    decreases |s|
  {
    assert Comparable(le, s[i].stop, s[i].stop);
    if |s| > 1 {
      var k := MaxStop(s[..|s| - 1], le);
      assert Comparable(le, s[|s| - 1].stop, s[k].stop) && Transits(le, s[i].stop, s[k].stop, s[|s| - 1].stop);
    }
    if |s| <= 1 || i >= |s| - 1 {
    } else {
      MaxStopIsGreatest(s[..|s| - 1], le, i);
    }
  }

  function Center<S, V>(ivals: seq<Interval<S, V>>, ops: Ops<S>): S
    requires ivals != []
  {
    ops.mid(ivals[MinStart(ivals, ops.le)].start, ivals[MaxStop(ivals, ops.le)].stop)
  }

  /** Where the center lies between its arguments, both children hold strictly fewer intervals than the input. */
  lemma ChildrenShrink<S(!new), V>(ivals: seq<Interval<S, V>>, ops: Ops<S>)
    requires TotalOrder(ops.le) && Balanced(ops) && ivals != [] && Proper(ivals, ops.le)
    ensures |Filter(ivals, (i: Interval<S, V>) => IsLeft(ops.le, Center(ivals, ops), i))| < |ivals|
    ensures |Filter(ivals, (i: Interval<S, V>) => IsRight(ops.le, Center(ivals, ops), i))| < |ivals|
  {
    var a, b := MinStart(ivals, ops.le), MaxStop(ivals, ops.le);
    MaxStopIsGreatest(ivals, ops.le, a);
    assert Transits(ops.le, ivals[a].start, ivals[a].stop, ivals[b].stop);
    FilterShrinks(ivals, (i: Interval<S, V>) => IsLeft(ops.le, Center(ivals, ops), i), b);
    FilterShrinks(ivals, (i: Interval<S, V>) => IsRight(ops.le, Center(ivals, ops), i), a);
  }

  /** Integer scalars: C++ division truncates toward zero. */
  function Half(n: int): int { if n < 0 then -(-n / 2) else n / 2 }

  function IntOps(): Ops<int> { Ops((a, b) => a <= b, (a, b) => Half(a + b), 0) }

  lemma IntOpsAreBalanced()
    ensures TotalOrder(IntOps().le) && Balanced(IntOps())
  {
  }

  // -- The building constructor -----------------------------------------------------------------------------

  /** depth is decremented before it is used and wraps around at zero. */
  function Decremented(depth: nat): nat { if depth == 0 then SIZE_MAX else depth - 1 }

  predicate IsLeaf(depth: nat, size: nat, minbucket: nat, maxbucket: nat) {
    Decremented(depth) == 0 || (size < minbucket && size < maxbucket)
  }

  /** What building promises: all intervals are kept, arranged for pruning, at no more than the given depth. */
  ghost predicate Built<S, V>(t: Tree<S, V>, ivals: seq<Interval<S, V>>, depth: nat, le: (S, S) -> bool) {
    && t.Node?
    && multiset(All(t)) == multiset(ivals)
    && Arranged(t, le)
    && Height(t) <= if depth == 0 then SIZE_MAX + 1 else depth
  }

  lemma SplitIsSorted<S(!new), V(!new)>(s: seq<Interval<S, V>>, c: S, le: (S, S) -> bool,
                            lefts: seq<Interval<S, V>>, rights: seq<Interval<S, V>>, here: seq<Interval<S, V>>)
    requires Splits(s, c, le, lefts, rights, here) && ByStart(s, le)
    ensures ByStart(lefts, le) && ByStart(rights, le) && ByStart(here, le)
  {
    FilterKeepsOrder(s, (i: Interval<S, V>) => IsLeft(le, c, i), le);
    FilterKeepsOrder(s, (i: Interval<S, V>) => IsRight(le, c, i), le);
    FilterKeepsOrder(s, (i: Interval<S, V>) => IsHere(le, c, i), le);
  }

  lemma PermutedFilter<T>(s: seq<T>, p: T -> bool, u: seq<T>)
    requires multiset(u) == multiset(Filter(s, p))
    ensures forall x :: x in u ==> p(x)
  {
    forall x | x in u ensures p(x) {
      assert x in multiset(u);
      FilterMember(s, p, x);
    }
  }

  lemma ThreeMultisets<T>(a: seq<T>, b: seq<T>, c: seq<T>)
    ensures multiset(a + b + c) == multiset(a) + multiset(b) + multiset(c)
  {
  }

  /** A child holds what it was given, arranged, or is missing when that was nothing. */
  ghost predicate Child<S, V>(t: Tree<S, V>, ivals: seq<Interval<S, V>>, depth: nat, le: (S, S) -> bool) {
    multiset(All(t)) == multiset(ivals) && Arranged(t, le) && Height(t) <= depth
  }

  lemma JoinIsBuilt<S(!new), V(!new)>(t: Tree<S, V>, ivals: seq<Interval<S, V>>, depth: nat, le: (S, S) -> bool,
                                      lefts: seq<Interval<S, V>>, rights: seq<Interval<S, V>>)
    requires t.Node? && depth <= SIZE_MAX && Decremented(depth) > 0
    requires Splits(ivals, t.center, le, lefts, rights, t.intervals) && ByStart(t.intervals, le)
    requires Child(t.left, lefts, Decremented(depth), le) && Child(t.right, rights, Decremented(depth), le)
    ensures Built(t, ivals, depth, le)
  {
    SplitKeepsAll(ivals, t.center, le, lefts, rights, t.intervals);
    ThreeMultisets(All(t.left), t.intervals, All(t.right));
    PermutedFilter(ivals, (i: Interval<S, V>) => IsLeft(le, t.center, i), All(t.left));
    PermutedFilter(ivals, (i: Interval<S, V>) => IsRight(le, t.center, i), All(t.right));
  }

  method SortByStart<S(!new), V(!new)>(ivals: seq<Interval<S, V>>, le: (S, S) -> bool) returns (r: seq<Interval<S, V>>)
    requires TotalOrder(le)
    ensures ByStart(r, le) && multiset(r) == multiset(ivals) && |r| == |ivals|
  {
    var byStart := (a: Interval<S, V>, b: Interval<S, V>) => StartOrder(le, a, b);
    forall a, b ensures byStart(a, b) || byStart(b, a) { assert Comparable(le, a.start, b.start); }
    forall a, b, c | byStart(a, b) && byStart(b, c) ensures byStart(a, c) {
      assert Transits(le, a.start, b.start, c.start);
    }
    r := Sorting.Sort(ivals, byStart);
  }

  method Build<S(==, !new), V(!new)>(ivals0: seq<Interval<S, V>>, depth: nat, minbucket: nat, maxbucket: nat,
                                     leftextent: S, rightextent: S, ops: Ops<S>)
    returns (t: Tree<S, V>)
    requires TotalOrder(ops.le) && depth <= SIZE_MAX
    requires leftextent == ops.zero == rightextent || ByStart(ivals0, ops.le)
    requires ivals0 != [] || IsLeaf(depth, 0, minbucket, maxbucket)
    ensures Built(t, ivals0, depth, ops.le)
    decreases if depth == 0 then SIZE_MAX + 1 else depth, 0
  {
    var depth' := Decremented(depth);
    var ivals := ivals0;
    var center := ops.zero;
    if ivals != [] {
      center := Center(ivals, ops);
    }
    if leftextent == ops.zero && rightextent == ops.zero {
      ivals := SortByStart(ivals, ops.le);
    }
    if depth' == 0 || (|ivals| < minbucket && |ivals| < maxbucket) {
      ivals := SortByStart(ivals, ops.le);
      t := Node(center, ivals, Nil, Nil);
      LeafIsBuilt(center, ivals, depth, ops.le);
    } else {
      var leftp, rightp := leftextent, rightextent;
      if leftextent == ops.zero && rightextent == ops.zero {
        leftp, rightp := ivals[0].start, ivals[MaxStop(ivals, ops.le)].stop;
      }
      t := BuildNode(ivals, center, depth', minbucket, maxbucket, leftp, rightp, ops, depth);
    }
    BuiltOfPermutation(t, ivals, ivals0, depth, ops.le);
  }

  lemma LeafIsBuilt<S, V>(center: S, ivals: seq<Interval<S, V>>, depth: nat, le: (S, S) -> bool)
    requires ByStart(ivals, le)
    ensures Built(Node(center, ivals, Nil, Nil), ivals, depth, le)
  {
    var nil: Tree<S, V> := Nil;
    assert All(nil) == [] && Height(nil) == 0;
    assert [] + ivals + [] == ivals;
    assert All(Node(center, ivals, nil, nil)) == ivals;
  }

  lemma BuiltOfPermutation<S, V>(t: Tree<S, V>, s: seq<Interval<S, V>>, s': seq<Interval<S, V>>, depth: nat,
                                 le: (S, S) -> bool)
    requires Built(t, s, depth, le) && multiset(s) == multiset(s')
    ensures Built(t, s', depth, le)
  {
  }

  /** Distributes sorted intervals over a node and its children. */
  method BuildNode<S(==, !new), V(!new)>(ivals: seq<Interval<S, V>>, center: S, depth': nat, minbucket: nat,
                     maxbucket: nat,
                                         leftp: S, rightp: S, ops: Ops<S>, ghost depth: nat)
    returns (t: Tree<S, V>)
    requires TotalOrder(ops.le) && depth <= SIZE_MAX && depth' == Decremented(depth) > 0
    requires ByStart(ivals, ops.le)
    ensures Built(t, ivals, depth, ops.le)
    decreases depth', 1
  {
    var lefts, rights, here := Split(ivals, center, ops.le);
    SplitIsSorted(ivals, center, ops.le, lefts, rights, here);
    var left, right := Nil, Nil;
    if lefts != [] {
      left := Build(lefts, depth', minbucket, maxbucket, leftp, center, ops);
    }
    if rights != [] {
      right := Build(rights, depth', minbucket, maxbucket, center, rightp, ops);
    }
    t := Node(center, here, left, right);
    JoinIsBuilt(t, ivals, depth, ops.le, lefts, rights);
  }
}
