/** Generic sequence helpers used across the model: first-match search,
    filtering, flattening, de-duplication in first-occurrence order, and
    Python's slice semantics. */
module Seqs {
  import opened Wrappers

  /** No element occurs twice. */
  predicate NoDuplicates<T(==)>(s: seq<T>) {
    forall i, j :: 0 <= i < j < |s| ==> s[i] != s[j]
  }

  /** The index of the first element satisfying `p`, if any. This is the shape
      of every "try these in order, take the first that works" loop in the
      scraper (`select_one`, the selector probes, the pattern cascade). */
  function FirstWhere<T>(s: seq<T>, p: T -> bool): (r: Option<nat>)
    ensures r.None? <==> forall k :: 0 <= k < |s| ==> !p(s[k])
    ensures r.Some? ==> r.value < |s| && p(s[r.value])
    ensures r.Some? ==> forall k :: 0 <= k < r.value ==> !p(s[k])
  {
    if |s| == 0 then None
    else if p(s[0]) then Some(0)
    else
      match FirstWhere(s[1..], p)
      case None => None
      case Some(k) => Some(k + 1)
  }

  /** The first match depends only on which elements satisfy the predicate. */
  lemma FirstWhereCongruent<T, U>(s1: seq<T>, p1: T -> bool, s2: seq<U>, p2: U -> bool)
    requires |s1| == |s2|
    requires forall k :: 0 <= k < |s1| ==> p1(s1[k]) == p2(s2[k])
    ensures FirstWhere(s1, p1) == FirstWhere(s2, p2)
  {
  }

  /** Dropping the second of two equal leading elements never changes which
      element is found first, only its position. */
  lemma FirstWhereDropsDuplicate<T>(s: seq<T>, p: T -> bool)
    requires |s| >= 2 && s[0] == s[1]
    ensures FirstWhere(s, p).None? <==> FirstWhere([s[0]] + s[2..], p).None?
    ensures FirstWhere(s, p).Some? ==>
      s[FirstWhere(s, p).value] == ([s[0]] + s[2..])[FirstWhere([s[0]] + s[2..], p).value]
  {
    assert s[1..] == [s[0]] + s[2..];
  }

  /** The position of the first occurrence of `x` in `s`. */
  function FirstIndex<T(==)>(s: seq<T>, x: T): (k: nat)
    requires x in s
    ensures k < |s| && s[k] == x
    ensures forall j :: 0 <= j < k ==> s[j] != x
  {
    if s[0] == x then 0 else 1 + FirstIndex(s[1..], x)
  }

  /** The elements of `s` satisfying `p`, in order. */
  function Filter<T>(s: seq<T>, p: T -> bool): (r: seq<T>)
    ensures |r| <= |s|
    ensures forall k :: 0 <= k < |r| ==> r[k] in s && p(r[k])
    ensures forall k :: 0 <= k < |s| && p(s[k]) ==> s[k] in r
  {
    if |s| == 0 then []
    else Filter(s[..|s| - 1], p) + (if p(s[|s| - 1]) then [s[|s| - 1]] else [])
  }

  /** `idx` lists, in increasing order, exactly the positions of `s` whose
      element satisfies `p`, and `r` holds those elements in that order. */
  ghost predicate IsPositions<T>(s: seq<T>, p: T -> bool, r: seq<T>, idx: seq<nat>) {
    && |idx| == |r|
    && (forall k :: 0 <= k < |idx| ==> idx[k] < |s| && r[k] == s[idx[k]])
    && (forall k, l :: 0 <= k < l < |idx| ==> idx[k] < idx[l])
    && (forall i :: 0 <= i < |s| ==> (i in idx <==> p(s[i])))
  }

  /** Where `Filter(s, p)` took its elements from: strictly increasing
      positions of `s`, exactly those whose element satisfies `p`. */
  function FilterPositions<T>(s: seq<T>, p: T -> bool): (idx: seq<nat>)
    ensures |idx| == |Filter(s, p)|
    ensures forall k :: 0 <= k < |idx| ==> idx[k] < |s| && Filter(s, p)[k] == s[idx[k]]
    ensures forall k, l :: 0 <= k < l < |idx| ==> idx[k] < idx[l]
    ensures forall i :: 0 <= i < |s| ==> (i in idx <==> p(s[i]))
  {
    if |s| == 0 then []
    else
      var prev := FilterPositions(s[..|s| - 1], p);
      PositionsSnoc(s, p, Filter(s[..|s| - 1], p), prev);
      prev + (if p(s[|s| - 1]) then [|s| - 1] else [])
  }

  /** Extending positions by the last element. */
  lemma {:induction false} PositionsSnoc<T>(s: seq<T>, p: T -> bool, r: seq<T>, prev: seq<nat>)
    requires |s| > 0
    requires IsPositions(s[..|s| - 1], p, r, prev)
    ensures var last := s[|s| - 1];
      IsPositions(s, p, r + (if p(last) then [last] else []), prev + (if p(last) then [|s| - 1] else []))
  {
    var n := |s| - 1;
    var init := s[..n];
    var r' := r + (if p(s[n]) then [s[n]] else []);
    var idx := prev + (if p(s[n]) then [n] else []);
    forall k | 0 <= k < |idx|
      ensures idx[k] < |s| && r'[k] == s[idx[k]]
    {
      if k < |prev| {
        assert init[prev[k]] == s[prev[k]];
      }
    }
    forall i | 0 <= i < |s|
      ensures i in idx <==> p(s[i])
    {
      if i < n {
        assert init[i] == s[i];
        assert i in idx <==> i in prev;
      } else {
        assert n !in prev;
      }
    }
  }

  /** The present results of `f` over `s`, in order: the
      `for x in xs: y = f(x); if y: out.append(y)` idiom. */
  function FilterMap<A, B>(s: seq<A>, f: A -> Option<B>): (r: seq<B>)
    ensures |r| <= |s|
  {
    if |s| == 0 then []
    else
      var y := f(s[|s| - 1]);
      FilterMap(s[..|s| - 1], f) + (if y.Some? then [y.value] else [])
  }

  /** `FilterMap` over each group in turn: the same idiom with two nested loops. */
  function FilterMapAll<A, B>(ss: seq<seq<A>>, f: A -> Option<B>): seq<B> {
    if |ss| == 0 then [] else FilterMapAll(ss[..|ss| - 1], f) + FilterMap(ss[|ss| - 1], f)
  }

  /** `idx` lists, in increasing order, exactly the positions of `s` where
      `f` yields a result, and `r` holds those results in that order. */
  ghost predicate IsMapPositions<A, B>(s: seq<A>, f: A -> Option<B>, r: seq<B>, idx: seq<nat>) {
    && |idx| == |r|
    && (forall k :: 0 <= k < |idx| ==> idx[k] < |s| && f(s[idx[k]]) == Some(r[k]))
    && (forall k, l :: 0 <= k < l < |idx| ==> idx[k] < idx[l])
    && (forall i :: 0 <= i < |s| ==> (i in idx <==> f(s[i]).Some?))
  }

  /** Where `FilterMap(s, f)` took its results from: result `k` is `f`'s
      result for element `idx[k]`, the positions increase, and an element is
      skipped exactly when `f` yields nothing for it. */
  function FilterMapPositions<A, B>(s: seq<A>, f: A -> Option<B>): (idx: seq<nat>)
    ensures IsMapPositions(s, f, FilterMap(s, f), idx)
  {
    if |s| == 0 then []
    else
      var prev := FilterMapPositions(s[..|s| - 1], f);
      MapPositionsSnoc(s, f, FilterMap(s[..|s| - 1], f), prev);
      prev + (if f(s[|s| - 1]).Some? then [|s| - 1] else [])
  }

  /** Extending result positions by the last element. */
  lemma {:induction false} MapPositionsSnoc<A, B>(s: seq<A>, f: A -> Option<B>, r: seq<B>, prev: seq<nat>)
    requires |s| > 0
    requires IsMapPositions(s[..|s| - 1], f, r, prev)
    ensures var y := f(s[|s| - 1]);
      IsMapPositions(s, f, r + (if y.Some? then [y.value] else []), prev + (if y.Some? then [|s| - 1] else []))
  {
    var n := |s| - 1;
    var init := s[..n];
    var y := f(s[n]);
    var r' := r + (if y.Some? then [y.value] else []);
    var idx := prev + (if y.Some? then [n] else []);
    forall k | 0 <= k < |idx|
      ensures idx[k] < |s| && f(s[idx[k]]) == Some(r'[k])
    {
      if k < |prev| {
        assert init[prev[k]] == s[prev[k]];
      }
    }
    forall i | 0 <= i < |s|
      ensures i in idx <==> f(s[i]).Some?
    {
      if i < n {
        assert init[i] == s[i];
        assert i in idx <==> i in prev;
      } else {
        assert n !in prev;
      }
    }
  }

  /** Lexicographic order on (group, position) pairs. */
  predicate PairBefore(a: (nat, nat), b: (nat, nat)) {
    a.0 < b.0 || (a.0 == b.0 && a.1 < b.1)
  }

  /** The nested form of `IsMapPositions`: `idx` lists, in lexicographic
      order, exactly the (group, position) pairs where `f` yields a result,
      and `r` holds those results in that order. */
  ghost predicate IsMapAllPositions<A, B>(ss: seq<seq<A>>, f: A -> Option<B>, r: seq<B>, idx: seq<(nat, nat)>) {
    && |idx| == |r|
    && (forall k :: 0 <= k < |idx| ==>
          idx[k].0 < |ss| && idx[k].1 < |ss[idx[k].0]| && f(ss[idx[k].0][idx[k].1]) == Some(r[k]))
    && (forall k, l :: 0 <= k < l < |idx| ==> PairBefore(idx[k], idx[l]))
    && (forall i, j :: 0 <= i < |ss| && 0 <= j < |ss[i]| ==> ((i, j) in idx <==> f(ss[i][j]).Some?))
  }

  /** The positions `q` of group `n`, paired with `n`. */
  function Tagged(n: nat, q: seq<nat>): (t: seq<(nat, nat)>)
    ensures |t| == |q|
    ensures forall k :: 0 <= k < |q| ==> t[k] == (n, q[k])
  {
    if |q| == 0 then [] else Tagged(n, q[..|q| - 1]) + [(n, q[|q| - 1])]
  }

  /** Where `FilterMapAll(ss, f)` took its results from: result `k` is `f`'s
      result for element `idx[k].1` of group `idx[k].0`, the pairs increase
      lexicographically, and an element is skipped exactly when `f` yields
      nothing for it. */
  function FilterMapAllPositions<A, B>(ss: seq<seq<A>>, f: A -> Option<B>): (idx: seq<(nat, nat)>)
    ensures IsMapAllPositions(ss, f, FilterMapAll(ss, f), idx)
  {
    if |ss| == 0 then []
    else
      var n := |ss| - 1;
      var prev := FilterMapAllPositions(ss[..n], f);
      var q := FilterMapPositions(ss[n], f);
      MapAllPositionsSnoc(ss, f, FilterMapAll(ss[..n], f), prev, FilterMap(ss[n], f), q);
      prev + Tagged(n, q)
  }

  /** A pair is in `Tagged(n, q)` exactly when its group is `n` and its
      position is in `q`. */
  lemma {:induction false} TaggedMember(n: nat, q: seq<nat>, i: nat, j: nat)
    ensures (i, j) in Tagged(n, q) <==> i == n && j in q
  {
    var t := Tagged(n, q);
    if (i, j) in t {
      var k :| 0 <= k < |t| && t[k] == (i, j);
      assert q[k] == j;
    }
    if i == n && j in q {
      var k :| 0 <= k < |q| && q[k] == j;
      assert t[k] == (i, j);
    }
  }

  /** Extending nested result positions by the last group. */
  lemma {:induction false} MapAllPositionsSnoc<A, B>(ss: seq<seq<A>>, f: A -> Option<B>, r: seq<B>, prev: seq<(nat, nat)>,
                                                     r2: seq<B>, q: seq<nat>)
    requires |ss| > 0
    requires IsMapAllPositions(ss[..|ss| - 1], f, r, prev)
    requires IsMapPositions(ss[|ss| - 1], f, r2, q)
    ensures IsMapAllPositions(ss, f, r + r2, prev + Tagged(|ss| - 1, q))
  {
    SnocResults(ss, f, r, prev, r2, q);
    SnocOrder(ss, f, r, prev, r2, q);
    SnocMembers(ss, f, r, prev, r2, q);
  }

  /** The results of the extended positions are the extended results. */
  lemma {:induction false} SnocResults<A, B>(ss: seq<seq<A>>, f: A -> Option<B>, r: seq<B>, prev: seq<(nat, nat)>,
                                             r2: seq<B>, q: seq<nat>)
    requires |ss| > 0
    requires IsMapAllPositions(ss[..|ss| - 1], f, r, prev)
    requires IsMapPositions(ss[|ss| - 1], f, r2, q)
    ensures var idx := prev + Tagged(|ss| - 1, q);
      forall k :: 0 <= k < |idx| ==>
        idx[k].0 < |ss| && idx[k].1 < |ss[idx[k].0]| && f(ss[idx[k].0][idx[k].1]) == Some((r + r2)[k])
  {
    var n := |ss| - 1;
    var init := ss[..n];
    var idx := prev + Tagged(n, q);
    forall k | 0 <= k < |idx|
      ensures idx[k].0 < |ss| && idx[k].1 < |ss[idx[k].0]| && f(ss[idx[k].0][idx[k].1]) == Some((r + r2)[k])
    {
      if k < |prev| {
        assert init[prev[k].0] == ss[prev[k].0];
      } else {
        assert idx[k] == (n, q[k - |prev|]);
      }
    }
  }

  /** Positions of earlier groups followed by increasing positions of the
      last group are in lexicographic order. */
  lemma {:induction false} SnocOrder<A, B>(ss: seq<seq<A>>, f: A -> Option<B>, r: seq<B>, prev: seq<(nat, nat)>,
                                           r2: seq<B>, q: seq<nat>)
    requires |ss| > 0
    requires IsMapAllPositions(ss[..|ss| - 1], f, r, prev)
    requires IsMapPositions(ss[|ss| - 1], f, r2, q)
    ensures var idx := prev + Tagged(|ss| - 1, q);
      forall k, l :: 0 <= k < l < |idx| ==> PairBefore(idx[k], idx[l])
  {
    var n := |ss| - 1;
    assert forall k :: 0 <= k < |prev| ==> prev[k].0 < n;
  }

  /** The extended positions are exactly the pairs where `f` yields. */
  lemma {:induction false} SnocMembers<A, B>(ss: seq<seq<A>>, f: A -> Option<B>, r: seq<B>, prev: seq<(nat, nat)>,
                                             r2: seq<B>, q: seq<nat>)
    requires |ss| > 0
    requires IsMapAllPositions(ss[..|ss| - 1], f, r, prev)
    requires IsMapPositions(ss[|ss| - 1], f, r2, q)
    ensures var idx := prev + Tagged(|ss| - 1, q);
      forall i, j :: 0 <= i < |ss| && 0 <= j < |ss[i]| ==> ((i, j) in idx <==> f(ss[i][j]).Some?)
  {
    var n := |ss| - 1;
    var init := ss[..n];
    var idx := prev + Tagged(n, q);
    forall i, j | 0 <= i < |ss| && 0 <= j < |ss[i]|
      ensures (i, j) in idx <==> f(ss[i][j]).Some?
    {
      TaggedMember(n, q, i, j);
      if i < n {
        assert init[i] == ss[i];
      } else {
        PairsBelow(prev, n, j);
      }
    }
  }

  /** A list of pairs whose groups are all below `n` holds no pair of group `n`. */
  lemma {:induction false} PairsBelow(prev: seq<(nat, nat)>, n: nat, j: nat)
    requires forall k :: 0 <= k < |prev| ==> prev[k].0 < n
    ensures (n, j) !in prev
  {
  }

  /** Concatenation of a sequence of sequences. */
  function Flatten<T>(ss: seq<seq<T>>): seq<T> {
    if |ss| == 0 then [] else Flatten(ss[..|ss| - 1]) + ss[|ss| - 1]
  }

  /** Keeps the first occurrence of each element, in order: the
      `if x not in seen: out.append(x); seen.add(x)` idiom. */
  function Dedup<T(==)>(s: seq<T>): (r: seq<T>)
    ensures NoDuplicates(r)
    ensures forall k :: 0 <= k < |r| ==> r[k] in s
    ensures forall k :: 0 <= k < |s| ==> s[k] in r
  {
    if |s| == 0 then []
    else
      var d := Dedup(s[..|s| - 1]);
      if s[|s| - 1] in d then d else d + [s[|s| - 1]]
  }

  /** Python's normalisation of a slice bound `i` against a length `n`:
      negative bounds count from the end, and both ends are clamped. */
  function SliceBound(i: int, n: nat): (r: nat)
    ensures r <= n
    ensures 0 <= i <= n ==> r == i
    ensures i > n ==> r == n
    ensures i < 0 ==> r == if n + i < 0 then 0 else n + i
  {
    if i < 0 then (if n + i < 0 then 0 else n + i)
    else if i > n then n
    else i
  }

  /** Python's `s[a:b]`. */
  function Slice<T>(s: seq<T>, a: int, b: int): (r: seq<T>)
    ensures |r| <= |s|
    ensures 0 <= a <= b <= |s| ==> r == s[a..b]
  {
    var lo := SliceBound(a, |s|);
    var hi := SliceBound(b, |s|);
    if lo < hi then s[lo..hi] else []
  }

  /** Python's `s[:n]`. */
  function Take<T>(s: seq<T>, n: int): (r: seq<T>)
    ensures n >= 0 ==> |r| <= n
    ensures n >= 0 ==> r == s[..if n < |s| then n else |s|]
    ensures n < 0 ==> r == s[..if |s| + n < 0 then 0 else |s| + n]
  {
    Slice(s, 0, n)
  }

  // ---------------------------------------------------------------------
  // Lemmas

  /** A non-empty sequence is its front followed by its last element. */
  lemma SplitLast<T>(s: seq<T>)
    requires |s| > 0
    ensures s == s[..|s| - 1] + [s[|s| - 1]]
  {
  }

  /** A non-empty prefix is the head followed by a prefix of the tail. */
  lemma PrefixCons<T>(s: seq<T>, k: nat)
    requires 1 <= k <= |s|
    ensures s[..k] == [s[0]] + s[1..][..k - 1]
  {
  }

  /** Filtering a sequence with a given head. */
  lemma FilterCons<T>(x: T, t: seq<T>, p: T -> bool)
    ensures Filter([x] + t, p) == (if p(x) then [x] else []) + Filter(t, p)
  {
    var head := if p(x) then [x] else [];
    assert [x][..0] == [] && [x][0] == x;
    assert Filter([x], p) == head by {
      assert Filter([x], p) == Filter([], p) + head;
      assert [] + head == head;
    }
    FilterAppend([x], t, p);
  }

  /** Dropping the last element of a concatenation with a non-empty right part. */
  lemma AppendInit<T>(a: seq<T>, b: seq<T>)
    requires |b| > 0
    ensures (a + b)[..|a + b| - 1] == a + b[..|b| - 1]
    ensures (a + b)[|a + b| - 1] == b[|b| - 1]
  {
  }

  /** Flattening with one more sequence at the end. */
  lemma FlattenSnoc<T>(ss: seq<seq<T>>, x: seq<T>)
    ensures Flatten(ss + [x]) == Flatten(ss) + x
  {
    assert (ss + [x])[..|ss|] == ss;
  }

  /** Appending to the last group appends to the flattening. */
  lemma {:induction false} FlattenExtendLast<T>(gs: seq<seq<T>>, x: T)
    requires |gs| > 0
    ensures Flatten(gs[..|gs| - 1] + [gs[|gs| - 1] + [x]]) == Flatten(gs) + [x]
  {
    var front := gs[..|gs| - 1];
    var g := gs[|gs| - 1];
    var h := front + [g + [x]];
    var f := Flatten(front);
    assert h[..|h| - 1] == front;
    assert Flatten(h) == f + (g + [x]);
    assert Flatten(gs) == f + g;
    assert f + (g + [x]) == (f + g) + [x];
  }


  lemma {:induction false} FlattenAppend<T>(a: seq<seq<T>>, b: seq<seq<T>>)
    ensures Flatten(a + b) == Flatten(a) + Flatten(b)
    decreases |b|
  {
    if |b| == 0 {
      assert a + b == a;
    } else {
      var b' := b[..|b| - 1];
      AppendInit(a, b);
      FlattenAppend(a, b');
      var x, y, z := Flatten(a), Flatten(b'), b[|b| - 1];
      assert Flatten(a + b) == Flatten(a + b') + z;
      assert (x + y) + z == x + (y + z);
    }
  }

  lemma {:induction false} FilterAppend<T>(a: seq<T>, b: seq<T>, p: T -> bool)
    ensures Filter(a + b, p) == Filter(a, p) + Filter(b, p)
    decreases |b|
  {
    if |b| == 0 {
      assert a + b == a;
    } else {
      var b' := b[..|b| - 1];
      var last := b[|b| - 1];
      AppendInit(a, b);
      FilterAppend(a, b', p);
      var x, y, z := Filter(a, p), Filter(b', p), (if p(last) then [last] else []);
      assert Filter(a + b, p) == Filter(a + b', p) + z;
      assert (x + y) + z == x + (y + z);
    }
  }

  /** The results of `f` over `s`, concatenated in order: the
      `for x in xs: out.extend(f(x))` idiom. */
  function ConcatMap<A, B>(s: seq<A>, f: A -> seq<B>): seq<B> {
    if |s| == 0 then []
    else ConcatMap(s[..|s| - 1], f) + f(s[|s| - 1])
  }

  lemma {:induction false} ConcatMapAppend<A, B>(a: seq<A>, b: seq<A>, f: A -> seq<B>)
    ensures ConcatMap(a + b, f) == ConcatMap(a, f) + ConcatMap(b, f)
    decreases |b|
  {
    if |b| == 0 {
      assert a + b == a;
    } else {
      var b' := b[..|b| - 1];
      AppendInit(a, b);
      ConcatMapAppend(a, b', f);
      var x, y, z := ConcatMap(a, f), ConcatMap(b', f), f(b[|b| - 1]);
      assert ConcatMap(a + b, f) == ConcatMap(a + b', f) + z;
      assert (x + y) + z == x + (y + z);
    }
  }

  /** When no input yields more than one result, there are at most as many
      results as inputs. */
  lemma {:induction false} ConcatMapAtMostOne<A, B>(s: seq<A>, f: A -> seq<B>)
    requires forall k :: 0 <= k < |s| ==> |f(s[k])| <= 1
    ensures |ConcatMap(s, f)| <= |s|
    decreases |s|
  {
    if |s| > 0 {
      ConcatMapAtMostOne(s[..|s| - 1], f);
    }
  }

  /** A property of every result of every input holds for the concatenation. */
  lemma {:induction false} ConcatMapKeeps<A, B>(s: seq<A>, f: A -> seq<B>, p: B -> bool)
    requires forall k, j :: 0 <= k < |s| && 0 <= j < |f(s[k])| ==> p(f(s[k])[j])
    ensures forall j :: 0 <= j < |ConcatMap(s, f)| ==> p(ConcatMap(s, f)[j])
    decreases |s|
  {
    if |s| > 0 {
      var init := s[..|s| - 1];
      assert forall k :: 0 <= k < |init| ==> init[k] == s[k];
      ConcatMapKeeps(init, f, p);
      var last := f(s[|s| - 1]);
      assert forall j :: 0 <= j < |last| ==> p(last[j]);
    }
  }

  /** Filtering keeps a duplicate-free sequence duplicate-free. */
  lemma {:induction false} FilterNoDuplicates<T>(s: seq<T>, p: T -> bool)
    requires NoDuplicates(s)
    ensures NoDuplicates(Filter(s, p))
    decreases |s|
  {
    if |s| > 0 {
      var init := s[..|s| - 1];
      assert NoDuplicates(init) by {
        forall i, j | 0 <= i < j < |init|
          ensures init[i] != init[j]
        {
          assert init[i] == s[i] && init[j] == s[j];
        }
      }
      FilterNoDuplicates(init, p);
      assert s[|s| - 1] !in init;
    }
  }

  lemma {:induction false} FilterMapAppend<A, B>(a: seq<A>, b: seq<A>, f: A -> Option<B>)
    ensures FilterMap(a + b, f) == FilterMap(a, f) + FilterMap(b, f)
    decreases |b|
  {
    if |b| == 0 {
      assert a + b == a;
    } else {
      var b' := b[..|b| - 1];
      var last := f(b[|b| - 1]);
      AppendInit(a, b);
      FilterMapAppend(a, b', f);
      var x, y, z := FilterMap(a, f), FilterMap(b', f), (if last.Some? then [last.value] else []);
      assert FilterMap(a + b, f) == FilterMap(a + b', f) + z;
      assert (x + y) + z == x + (y + z);
    }
  }

  /** Every produced element is a present result of `f` on some input, so a
      property of all present results holds of the whole output. */
  lemma {:induction false} FilterMapKeeps<A, B>(s: seq<A>, f: A -> Option<B>, p: B -> bool)
    requires forall k :: 0 <= k < |s| && f(s[k]).Some? ==> p(f(s[k]).value)
    ensures forall k :: 0 <= k < |FilterMap(s, f)| ==> p(FilterMap(s, f)[k])
    decreases |s|
  {
    if |s| > 0 {
      FilterMapKeeps(s[..|s| - 1], f, p);
    }
  }

  /** When every result is present, nothing is dropped and positions agree. */
  lemma {:induction false} FilterMapAllPresent<A, B>(s: seq<A>, f: A -> Option<B>)
    requires forall k :: 0 <= k < |s| ==> f(s[k]).Some?
    ensures |FilterMap(s, f)| == |s|
    ensures forall k :: 0 <= k < |s| ==> FilterMap(s, f)[k] == f(s[k]).value
    decreases |s|
  {
    if |s| > 0 {
      FilterMapAllPresent(s[..|s| - 1], f);
    }
  }

  /** Each input with a present result contributes that result. */
  lemma {:induction false} FilterMapContains<A, B>(s: seq<A>, x: A, f: A -> Option<B>)
    requires x in s && f(x).Some?
    ensures multiset(FilterMap(s, f))[f(x).value] >= 1
    decreases |s|
  {
    if s[|s| - 1] != x {
      assert x in s[..|s| - 1];
      FilterMapContains(s[..|s| - 1], x, f);
    }
  }

  lemma {:induction false} FilterMapAllAppend<A, B>(a: seq<seq<A>>, b: seq<seq<A>>, f: A -> Option<B>)
    ensures FilterMapAll(a + b, f) == FilterMapAll(a, f) + FilterMapAll(b, f)
    decreases |b|
  {
    if |b| == 0 {
      assert a + b == a;
    } else {
      var b' := b[..|b| - 1];
      AppendInit(a, b);
      FilterMapAllAppend(a, b', f);
      var x, y, z := FilterMapAll(a, f), FilterMapAll(b', f), FilterMap(b[|b| - 1], f);
      assert FilterMapAll(a + b, f) == FilterMapAll(a + b', f) + z;
      assert (x + y) + z == x + (y + z);
    }
  }

  lemma {:induction false} FilterMapAllKeeps<A, B>(ss: seq<seq<A>>, f: A -> Option<B>, p: B -> bool)
    requires forall i, k :: 0 <= i < |ss| && 0 <= k < |ss[i]| && f(ss[i][k]).Some? ==> p(f(ss[i][k]).value)
    ensures forall k :: 0 <= k < |FilterMapAll(ss, f)| ==> p(FilterMapAll(ss, f)[k])
    decreases |ss|
  {
    if |ss| > 0 {
      FilterMapAllKeeps(ss[..|ss| - 1], f, p);
      FilterMapKeeps(ss[|ss| - 1], f, p);
    }
  }

  /** `y` is the present result of `f` on some input of some group. */
  ghost predicate ProducedBy<A, B>(ss: seq<seq<A>>, f: A -> Option<B>, y: B) {
    exists i, j :: 0 <= i < |ss| && 0 <= j < |ss[i]| && f(ss[i][j]) == Some(y)
  }

  /** Every produced element is the present result of `f` on some input. */
  lemma FilterMapAllFrom<A, B>(ss: seq<seq<A>>, f: A -> Option<B>)
    ensures forall k :: 0 <= k < |FilterMapAll(ss, f)| ==> ProducedBy(ss, f, FilterMapAll(ss, f)[k])
  {
    forall i, j | 0 <= i < |ss| && 0 <= j < |ss[i]| && f(ss[i][j]).Some?
      ensures ProducedBy(ss, f, f(ss[i][j]).value)
    {
      assert f(ss[i][j]) == Some(f(ss[i][j]).value);
    }
    FilterMapAllKeeps(ss, f, (y: B) => ProducedBy(ss, f, y));
  }

  /** Every present result of `f` on an input is produced. */
  lemma FilterMapAllComplete<A, B>(ss: seq<seq<A>>, f: A -> Option<B>)
    ensures forall i, j :: 0 <= i < |ss| && 0 <= j < |ss[i]| && f(ss[i][j]).Some? ==>
      f(ss[i][j]).value in FilterMapAll(ss, f)
  {
    forall i, j | 0 <= i < |ss| && 0 <= j < |ss[i]| && f(ss[i][j]).Some?
      ensures f(ss[i][j]).value in FilterMapAll(ss, f)
    {
      FilterMapAllAt(ss, i, f);
      FilterMapContains(ss[i], ss[i][j], f);
    }
  }

  /** The output splits around any one group. */
  lemma {:induction false} FilterMapAllAt<A, B>(ss: seq<seq<A>>, i: nat, f: A -> Option<B>)
    requires i < |ss|
    ensures FilterMapAll(ss, f) == FilterMapAll(ss[..i], f) + FilterMap(ss[i], f) + FilterMapAll(ss[i + 1..], f)
    decreases |ss|
  {
    var init := ss[..|ss| - 1];
    if i == |ss| - 1 {
      assert init == ss[..i];
      assert ss[i + 1..] == [];
    } else {
      FilterMapAllAt(init, i, f);
      assert init[..i] == ss[..i] && init[i] == ss[i];
      var post := ss[i + 1..];
      assert post[..|post| - 1] == init[i + 1..];
      assert post[|post| - 1] == ss[|ss| - 1];
    }
  }

  /** An input that occurs in two different groups contributes its result twice. */
  lemma FilterMapAllRepeats<A, B>(ss: seq<seq<A>>, i: nat, j: nat, x: A, f: A -> Option<B>)
    requires i < j < |ss|
    requires x in ss[i] && x in ss[j] && f(x).Some?
    ensures multiset(FilterMapAll(ss, f))[f(x).value] >= 2
  {
    var v := f(x).value;
    var front := ss[..j];
    FilterMapAllAt(ss, j, f);
    FilterMapAllAt(front, i, f);
    assert front[i] == ss[i];
    FilterMapContains(ss[i], x, f);
    FilterMapContains(ss[j], x, f);
    assert multiset(FilterMapAll(front, f))[v] >= 1;
  }

  /** Occurrence positions are unaffected by appending. */
  lemma {:induction false} FirstIndexAppend<T>(a: seq<T>, b: seq<T>, x: T)
    requires x in a
    ensures FirstIndex(a + b, x) == FirstIndex(a, x)
    decreases |a|
  {
    if a[0] != x {
      assert (a + b)[1..] == a[1..] + b;
      FirstIndexAppend(a[1..], b, x);
    }
  }

  /** De-duplication keeps first-discovery order: an element that occurs
      earlier in the result was first seen earlier in the input. */
  lemma {:induction false} DedupOrder<T>(s: seq<T>)
    ensures forall i, j :: 0 <= i < j < |Dedup(s)| ==>
      FirstIndex(s, Dedup(s)[i]) < FirstIndex(s, Dedup(s)[j])
    decreases |s|
  {
    if |s| > 0 {
      var p := s[..|s| - 1];
      var y := s[|s| - 1];
      assert s == p + [y];
      DedupOrder(p);
      DedupSnoc(p, y);
      DedupOrderKeep(p, y);
      if y !in Dedup(p) {
        DedupOrderExtend(p, y);
      }
      var d := Dedup(p + [y]);
      assert forall i, j :: 0 <= i < j < |d| ==> FirstIndex(p + [y], d[i]) < FirstIndex(p + [y], d[j]);
    }
  }

  /** First positions in `p` are first positions in `p + [y]`. */
  lemma {:induction false} DedupOrderKeep<T>(p: seq<T>, y: T)
    requires forall i, j :: 0 <= i < j < |Dedup(p)| ==> FirstIndex(p, Dedup(p)[i]) < FirstIndex(p, Dedup(p)[j])
    ensures forall i, j :: 0 <= i < j < |Dedup(p)| ==>
      FirstIndex(p + [y], Dedup(p)[i]) < FirstIndex(p + [y], Dedup(p)[j])
  {
    var d := Dedup(p);
    forall k | 0 <= k < |d|
      ensures FirstIndex(p + [y], d[k]) == FirstIndex(p, d[k])
    {
      FirstIndexAppend(p, [y], d[k]);
    }
  }

  /** A new last element is found after every earlier one. */
  lemma {:induction false} DedupOrderExtend<T>(p: seq<T>, y: T)
    requires y !in Dedup(p)
    requires forall i, j :: 0 <= i < j < |Dedup(p)| ==>
      FirstIndex(p + [y], Dedup(p)[i]) < FirstIndex(p + [y], Dedup(p)[j])
    ensures forall i, j :: 0 <= i < j < |Dedup(p) + [y]| ==>
      FirstIndex(p + [y], (Dedup(p) + [y])[i]) < FirstIndex(p + [y], (Dedup(p) + [y])[j])
  {
    var d := Dedup(p);
    var r := d + [y];
    var s := p + [y];
    assert y !in p;
    assert FirstIndex(s, y) == |p|;
    forall i, j | 0 <= i < j < |r|
      ensures FirstIndex(s, r[i]) < FirstIndex(s, r[j])
    {
      if j < |d| {
        assert r[i] == d[i] && r[j] == d[j];
      } else {
        assert r[i] == d[i];
        FirstIndexAppend(p, [y], d[i]);
      }
    }
  }


  /** De-duplicating one more element: it is appended unless already kept. */
  lemma {:induction false} DedupSnoc<T>(s: seq<T>, y: T)
    ensures Dedup(s + [y]) == if y in Dedup(s) then Dedup(s) else Dedup(s) + [y]
  {
    assert (s + [y])[..|s + [y]| - 1] == s;
  }

  /** Appending only elements that were already present changes nothing. */
  lemma {:induction false} DedupAbsorbs<T>(a: seq<T>, b: seq<T>)
    requires forall x :: x in b ==> x in a
    ensures Dedup(a + b) == Dedup(a)
    decreases |b|
  {
    if |b| == 0 {
      assert a + b == a;
    } else {
      var b' := b[..|b| - 1];
      AppendInit(a, b);
      DedupAbsorbs(a, b');
    }
  }

  /** A sequence with no duplicates is its own de-duplication. */
  lemma {:induction false} DedupOfDistinct<T>(s: seq<T>)
    requires NoDuplicates(s)
    ensures Dedup(s) == s
    decreases |s|
  {
    if |s| > 0 {
      var p := s[..|s| - 1];
      assert NoDuplicates(p);
      DedupOfDistinct(p);
      assert s[|s| - 1] !in p;
      assert s == p + [s[|s| - 1]];
    }
  }
}
