/**
 * What the queue operations compute, stated over the front-to-back
 * sequence of element nodes of a queue. A node is an index into the heap;
 * `val` gives the string each element owns.
 */
module Spec {
  import opened Strings

  /** Every node of ns is an index below n. */
  ghost predicate InRange(ns: seq<int>, n: int)
  {
    forall i :: 0 <= i < |ns| ==> 0 <= ns[i] < n
  }

  /** The strings held by the nodes ns, front to back. */
  ghost function Values(ns: seq<int>, val: seq<string>): seq<string>
    requires InRange(ns, |val|)
  {
    seq(|ns|, i requires 0 <= i < |ns| => val[ns[i]])
  }

  lemma ValuesAppend(xs: seq<int>, ys: seq<int>, val: seq<string>)
    requires InRange(xs, |val|) && InRange(ys, |val|)
    ensures InRange(xs + ys, |val|)
    ensures Values(xs + ys, val) == Values(xs, val) + Values(ys, val)
  {
  }

  // ---------------------------------------------------------------- reverse

  ghost function ReverseSeq(s: seq<int>): seq<int>
  {
    if s == [] then [] else ReverseSeq(s[1..]) + [s[0]]
  }

  lemma {:induction false} ReverseAt(s: seq<int>)
    ensures |ReverseSeq(s)| == |s|
    ensures forall k :: 0 <= k < |s| ==> ReverseSeq(s)[k] == s[|s| - 1 - k]
  {
    if s != [] {
      ReverseAt(s[1..]);
    }
  }

  /** Reversing twice gives back the original order. */
  lemma ReverseInvolution(s: seq<int>)
    ensures ReverseSeq(ReverseSeq(s)) == s
  {
    ReverseAt(s);
    ReverseAt(ReverseSeq(s));
  }

  /** The reversed queue holds the same strings, back to front. */
  lemma ReverseValues(s: seq<int>, val: seq<string>)
    requires InRange(s, |val|)
    ensures InRange(ReverseSeq(s), |val|)
    ensures var vs := Values(ReverseSeq(s), val);
      |vs| == |s| && forall k :: 0 <= k < |s| ==> vs[k] == val[s[|s| - 1 - k]]
  {
    ReverseAt(s);
  }

  // ---------------------------------------------------------- delete dup

  /**
   * The nodes among ns[..m] that q_delete_dup keeps: ns[i] survives when
   * its successor ns[i + 1] holds a different string.
   */
  ghost function Pruned(ns: seq<int>, val: seq<string>, m: nat): seq<int>
    requires InRange(ns, |val|) && m < |ns|
  {
    if m == 0 then []
    else Pruned(ns, val, m - 1) + (if val[ns[m - 1]] != val[ns[m]] then [ns[m - 1]] else [])
  }

  /** The nodes that survive duplicate deletion: the last node of every run. */
  ghost function Dedup(ns: seq<int>, val: seq<string>): seq<int>
    requires InRange(ns, |val|)
  {
    if |ns| <= 1 then ns
    else (if val[ns[0]] == val[ns[1]] then [] else [ns[0]]) + Dedup(ns[1..], val)
  }

  /** Reference definition on strings: collapse each run of equal adjacent strings to one. */
  ghost function Collapse(vs: seq<string>): seq<string>
  {
    if |vs| <= 1 then vs
    else (if vs[0] == vs[1] then [] else [vs[0]]) + Collapse(vs[1..])
  }

  lemma {:induction false} PrunedCons(ns: seq<int>, val: seq<string>, m: nat)
    requires InRange(ns, |val|) && 1 <= m < |ns|
    ensures Pruned(ns, val, m)
         == (if val[ns[0]] == val[ns[1]] then [] else [ns[0]]) + Pruned(ns[1..], val, m - 1)
  {
    if m > 1 {
      PrunedCons(ns, val, m - 1);
    }
  }

  /** The loop's prefix of survivors, closed by the last node, is Dedup. */
  lemma {:induction false} PrunedIsDedup(ns: seq<int>, val: seq<string>)
    requires InRange(ns, |val|) && ns != []
    ensures Pruned(ns, val, |ns| - 1) + [ns[|ns| - 1]] == Dedup(ns, val)
  {
    if |ns| > 1 {
      var c := if val[ns[0]] == val[ns[1]] then [] else [ns[0]];
      var pr, last := Pruned(ns[1..], val, |ns| - 2), ns[|ns| - 1];
      PrunedCons(ns, val, |ns| - 1);
      PrunedIsDedup(ns[1..], val);
      assert ns[1..][|ns| - 2] == last;
      assert Dedup(ns, val) == c + Dedup(ns[1..], val);
      assert (c + pr) + [last] == c + (pr + [last]);
    }
  }

  /** The survivors are nodes of ns[..m], at most m of them. */
  lemma {:induction false} PrunedIn(ns: seq<int>, val: seq<string>, m: nat)
    requires InRange(ns, |val|) && m < |ns|
    ensures |Pruned(ns, val, m)| <= m
    ensures forall x :: x in Pruned(ns, val, m) ==> x in ns[..m]
  {
    if m > 0 {
      PrunedIn(ns, val, m - 1);
      assert ns[..m] == ns[..m - 1] + [ns[m - 1]];
    }
  }

  /** s without its element at index p (s itself when there is none). */
  function RemoveAt(s: seq<int>, p: nat): (r: seq<int>)
    ensures p < |s| ==> |r| == |s| - 1
  {
    if p < |s| then s[..p] + s[p + 1..] else s
  }

  /**
   * The queue as q_delete_dup's loop leaves it when its cursor has reached
   * ns[j] (j == |ns| is the sentinel, j == |ns| + 1 the end): each round at
   * an element ns[j - 1] drops the node before it, ns[j - 2], when the two
   * hold the same string; the round at the sentinel drops nothing.
   */
  ghost function Survivors(ns: seq<int>, val: seq<string>, j: nat): seq<int>
    requires InRange(ns, |val|) && 1 <= j
    decreases j
  {
    if j == 1 || ns == [] then ns
    else if j <= |ns| && val[ns[j - 2]] == val[ns[j - 1]] then
      RemoveAt(Survivors(ns, val, j - 1), |Pruned(ns, val, j - 2)|)
    else Survivors(ns, val, j - 1)
  }

  /** Closed form: the survivors of ns[..m - 1], then ns[m - 1..] untouched. */
  lemma {:induction false} SurvivorsForm(ns: seq<int>, val: seq<string>, j: nat)
    requires InRange(ns, |val|) && 1 <= j && ns != []
    ensures var m := if j < |ns| then j else |ns|;
      Survivors(ns, val, j) == Pruned(ns, val, m - 1) + ns[m - 1..]
  {
    if j == 1 {
      assert ns[0..] == ns;
    } else if j <= |ns| {
      SurvivorsForm(ns, val, j - 1);
      SurvivorsStep(ns, val, j);
    } else {
      SurvivorsForm(ns, val, j - 1);
    }
  }

  /** One round of the closed form, at an element ns[j - 1]. */
  lemma SurvivorsStep(ns: seq<int>, val: seq<string>, j: nat)
    requires InRange(ns, |val|) && 2 <= j <= |ns|
    requires Survivors(ns, val, j - 1) == Pruned(ns, val, j - 2) + ns[j - 2..]
    ensures Survivors(ns, val, j) == Pruned(ns, val, j - 1) + ns[j - 1..]
  {
    if val[ns[j - 2]] == val[ns[j - 1]] {
      SurvivorsDrop(ns, val, j);
    } else {
      SurvivorsKeep(ns, val, j);
    }
  }

  /** The round at ns[j - 1] when ns[j - 2] holds the same string: ns[j - 2] goes. */
  lemma SurvivorsDrop(ns: seq<int>, val: seq<string>, j: nat)
    requires InRange(ns, |val|) && 2 <= j <= |ns| && val[ns[j - 2]] == val[ns[j - 1]]
    requires Survivors(ns, val, j - 1) == Pruned(ns, val, j - 2) + ns[j - 2..]
    ensures Survivors(ns, val, j) == Pruned(ns, val, j - 1) + ns[j - 1..]
  {
    var pr, x, rest := Pruned(ns, val, j - 2), ns[j - 2], ns[j - 1..];
    assert ns[j - 2..] == [x] + rest;
    assert Pruned(ns, val, j - 1) == pr + [];
    DropAt(pr, x, rest);
    assert pr + [] == pr;
  }

  /** The round at ns[j - 1] when ns[j - 2] holds another string: nothing goes. */
  lemma SurvivorsKeep(ns: seq<int>, val: seq<string>, j: nat)
    requires InRange(ns, |val|) && 2 <= j <= |ns| && val[ns[j - 2]] != val[ns[j - 1]]
    requires Survivors(ns, val, j - 1) == Pruned(ns, val, j - 2) + ns[j - 2..]
    ensures Survivors(ns, val, j) == Pruned(ns, val, j - 1) + ns[j - 1..]
  {
    var pr, x, rest := Pruned(ns, val, j - 2), ns[j - 2], ns[j - 1..];
    assert ns[j - 2..] == [x] + rest;
    assert Pruned(ns, val, j - 1) == pr + [x];
    assert pr + ([x] + rest) == (pr + [x]) + rest;
  }

  /** Removing the element at index |pr| of pr + [x] + rest leaves pr + rest. */
  lemma DropAt(pr: seq<int>, x: int, rest: seq<int>)
    ensures RemoveAt(pr + ([x] + rest), |pr|) == pr + rest
  {
    var s := pr + ([x] + rest);
    assert s[..|pr|] == pr;
    assert s[|pr| + 1..] == rest;
  }

  /** Where ns[j - 1] and ns[j] stand among the survivors at step j. */
  lemma SurvivorsAt(ns: seq<int>, val: seq<string>, j: nat)
    requires InRange(ns, |val|) && 1 <= j <= |ns|
    ensures var p, cur := |Pruned(ns, val, j - 1)|, Survivors(ns, val, j);
      && |cur| == p + |ns| - j + 1 && cur[p] == ns[j - 1]
      && (j < |ns| ==> cur[p + 1] == ns[j])
  {
    SurvivorsForm(ns, val, j);
  }

  /** Survivors are nodes of ns. */
  lemma {:induction false} SurvivorsIn(ns: seq<int>, val: seq<string>, j: nat)
    requires InRange(ns, |val|) && 1 <= j
    ensures forall x :: x in Survivors(ns, val, j) ==> x in ns
  {
    if j > 1 && ns != [] {
      SurvivorsIn(ns, val, j - 1);
    }
  }

  /** When the loop has passed the sentinel, the survivors are Dedup. */
  lemma SurvivorsEnd(ns: seq<int>, val: seq<string>)
    requires InRange(ns, |val|)
    ensures Survivors(ns, val, |ns| + 1) == Dedup(ns, val)
    ensures ns != [] ==> Survivors(ns, val, |ns|) == Dedup(ns, val)
  {
    if ns != [] {
      SurvivorsForm(ns, val, |ns|);
      SurvivorsForm(ns, val, |ns| + 1);
      PrunedIsDedup(ns, val);
      assert ns[|ns| - 1..] == [ns[|ns| - 1]];
    }
  }

  /** Dedup on nodes agrees with Collapse on the strings they hold. */
  lemma {:induction false} DedupValues(ns: seq<int>, val: seq<string>)
    requires InRange(ns, |val|)
    ensures InRange(Dedup(ns, val), |val|)
    ensures Values(Dedup(ns, val), val) == Collapse(Values(ns, val))
  {
    if |ns| > 1 {
      DedupValues(ns[1..], val);
      assert Values(ns[1..], val) == Values(ns, val)[1..];
      var head := if val[ns[0]] == val[ns[1]] then [] else [ns[0]];
      ValuesAppend(head, Dedup(ns[1..], val), val);
    }
  }

  /** After collapsing, no two neighbours hold the same string. */
  lemma {:induction false} CollapseNoAdjacentEqual(vs: seq<string>)
    ensures forall i :: 0 <= i < |Collapse(vs)| - 1 ==> Collapse(vs)[i] != Collapse(vs)[i + 1]
    ensures |vs| > 0 ==> |Collapse(vs)| > 0 && Collapse(vs)[0] == vs[if |vs| > 1 && vs[0] == vs[1] then 1 else 0]
  {
    if |vs| > 1 {
      CollapseNoAdjacentEqual(vs[1..]);
      if vs[0] != vs[1] {
        var c := Collapse(vs[1..]);
        assert c[0] == vs[1..][if |vs| > 2 && vs[1] == vs[2] then 1 else 0];
      }
    }
  }

  /** Collapsing keeps every string that occurs and adds none. */
  lemma {:induction false} CollapseKeepsValues(vs: seq<string>, v: string)
    ensures v in Collapse(vs) <==> v in vs
  {
    if |vs| > 1 {
      CollapseKeepsValues(vs[1..], v);
      assert vs == [vs[0]] + vs[1..];
      if vs[0] == vs[1] {
        assert vs[1] in vs[1..];
      }
    }
  }

  /** A sequence without adjacent duplicates is left as it is. */
  lemma {:induction false} CollapseFixed(vs: seq<string>)
    requires forall i :: 0 <= i < |vs| - 1 ==> vs[i] != vs[i + 1]
    ensures Collapse(vs) == vs
  {
    if |vs| > 1 {
      CollapseFixed(vs[1..]);
      assert vs == [vs[0]] + vs[1..];
    }
  }

  /** Deleting duplicates twice is the same as deleting them once. */
  lemma CollapseIdempotent(vs: seq<string>)
    ensures Collapse(Collapse(vs)) == Collapse(vs)
  {
    CollapseNoAdjacentEqual(vs);
    CollapseFixed(Collapse(vs));
  }

  // ---------------------------------------------------------------- merge

  /**
   * The order q_merge_two splices two queues in: the front of xs goes
   * first when (strcmp(x, y) < 0) ^ descend, the front of ys otherwise.
   */
  ghost function MergeBy(xs: seq<int>, ys: seq<int>, val: seq<string>, descend: bool): (r: seq<int>)
    requires InRange(xs, |val|) && InRange(ys, |val|)
    ensures InRange(r, |val|)
    decreases |xs| + |ys|
  {
    if xs == [] then ys
    else if ys == [] then xs
    else if Less(val[xs[0]], val[ys[0]]) != descend then [xs[0]] + MergeBy(xs[1..], ys, val, descend)
    else [ys[0]] + MergeBy(xs, ys[1..], val, descend)
  }

  /** Merging loses no node and adds none. */
  lemma MergeByPermutation(xs: seq<int>, ys: seq<int>, val: seq<string>, descend: bool)
    requires InRange(xs, |val|) && InRange(ys, |val|)
    ensures multiset(MergeBy(xs, ys, val, descend)) == multiset(xs) + multiset(ys)
    ensures |MergeBy(xs, ys, val, descend)| == |xs| + |ys|
    ensures InRange(MergeBy(xs, ys, val, descend), |val|)
  {
    MergeByMultiset(xs, ys, val, descend);
    assert |multiset(MergeBy(xs, ys, val, descend))| == |multiset(xs) + multiset(ys)|;
  }

  lemma {:induction false} MergeByMultiset(xs: seq<int>, ys: seq<int>, val: seq<string>, descend: bool)
    requires InRange(xs, |val|) && InRange(ys, |val|)
    ensures multiset(MergeBy(xs, ys, val, descend)) == multiset(xs) + multiset(ys)
    decreases |xs| + |ys|
  {
    if xs != [] && ys != [] {
      if Less(val[xs[0]], val[ys[0]]) != descend {
        MergeByMultiset(xs[1..], ys, val, descend);
        assert xs == [xs[0]] + xs[1..];
        ConsMultiset(xs[0], MergeBy(xs[1..], ys, val, descend), xs[1..], ys);
      } else {
        MergeByMultiset(xs, ys[1..], val, descend);
        assert ys == [ys[0]] + ys[1..];
        ConsMultiset(ys[0], MergeBy(xs, ys[1..], val, descend), ys[1..], xs);
      }
    }
  }

  /** Putting x in front of r and of t keeps r's multiset equal to t's joined with u's. */
  lemma ConsMultiset(x: int, r: seq<int>, t: seq<int>, u: seq<int>)
    requires multiset(r) == multiset(t) + multiset(u)
    ensures multiset([x] + r) == multiset([x] + t) + multiset(u)
    ensures multiset([x] + r) == multiset(u) + multiset([x] + t)
  {
  }

  /** v stands before every node of ns in direction descend. */
  ghost predicate PrecedesAll(v: string, ns: seq<int>, val: seq<string>, descend: bool)
    requires InRange(ns, |val|)
  {
    forall k :: 0 <= k < |ns| ==> Ordered(v, val[ns[k]], descend)
  }

  lemma PrecedesSorted(v: string, ns: seq<int>, val: seq<string>, descend: bool)
    requires InRange(ns, |val|) && Sorted(Values(ns, val), descend)
    requires ns != [] ==> Ordered(v, val[ns[0]], descend)
    ensures PrecedesAll(v, ns, val, descend)
  {
    forall k | 0 <= k < |ns| ensures Ordered(v, val[ns[k]], descend) {
      if k > 0 {
        assert Values(ns, val)[0] == val[ns[0]] && Values(ns, val)[k] == val[ns[k]];
        OrderedTransitive(v, val[ns[0]], val[ns[k]], descend);
      }
    }
  }

  lemma PrecedesPermutation(v: string, a: seq<int>, b: seq<int>, r: seq<int>, val: seq<string>, descend: bool)
    requires InRange(a, |val|) && InRange(b, |val|) && InRange(r, |val|)
    requires PrecedesAll(v, a, val, descend) && PrecedesAll(v, b, val, descend)
    requires multiset(r) == multiset(a) + multiset(b)
    ensures PrecedesAll(v, r, val, descend)
  {
    forall j | 0 <= j < |r| ensures Ordered(v, val[r[j]], descend) {
      assert r[j] in multiset(a) + multiset(b);
      if r[j] in a {
        var k :| 0 <= k < |a| && a[k] == r[j];
      } else {
        var k :| 0 <= k < |b| && b[k] == r[j];
      }
    }
  }

  /**
   * The step of the merge: the front a[0] of one queue is taken, the rest
   * of the merge is a sorted permutation of a[1..] and the other queue b.
   */
  lemma MergeStepSorted(a: seq<int>, b: seq<int>, rest: seq<int>, val: seq<string>, descend: bool)
    requires a != [] && InRange(a, |val|) && InRange(b, |val|) && InRange(rest, |val|)
    requires Sorted(Values(a, val), descend) && Sorted(Values(b, val), descend)
    requires Sorted(Values(rest, val), descend)
    requires b != [] ==> Ordered(val[a[0]], val[b[0]], descend)
    requires multiset(rest) == multiset(a[1..]) + multiset(b)
    ensures Sorted(Values([a[0]] + rest, val), descend)
  {
    var v := val[a[0]];
    assert Sorted(Values(a[1..], val), descend) by {
      assert Values(a[1..], val) == Values(a, val)[1..];
    }
    forall k | 0 <= k < |a[1..]| ensures Ordered(v, val[a[1..][k]], descend) {
      assert Values(a, val)[0] == v && Values(a, val)[k + 1] == val[a[1..][k]];
    }
    PrecedesSorted(v, b, val, descend);
    PrecedesPermutation(v, a[1..], b, rest, val, descend);
    SortedCons(v, Values(rest, val), descend);
    ValuesAppend([a[0]], rest, val);
  }

  /** Merging two queues sorted in one direction yields a queue sorted in that direction. */
  lemma {:induction false} MergeBySorted(xs: seq<int>, ys: seq<int>, val: seq<string>, descend: bool)
    requires InRange(xs, |val|) && InRange(ys, |val|)
    requires Sorted(Values(xs, val), descend) && Sorted(Values(ys, val), descend)
    ensures Sorted(Values(MergeBy(xs, ys, val, descend), val), descend)
    decreases |xs| + |ys|
  {
    if xs != [] && ys != [] {
      var x, y := val[xs[0]], val[ys[0]];
      if Less(x, y) != descend {
        assert Values(xs[1..], val) == Values(xs, val)[1..];
        MergeBySorted(xs[1..], ys, val, descend);
        MergeByPermutation(xs[1..], ys, val, descend);
        assert Ordered(x, y, descend) by {
          if Less(x, y) { LessAsymmetric(x, y); }
        }
        MergeStepSorted(xs, ys, MergeBy(xs[1..], ys, val, descend), val, descend);
      } else {
        assert Values(ys[1..], val) == Values(ys, val)[1..];
        MergeBySorted(xs, ys[1..], val, descend);
        MergeByPermutation(xs, ys[1..], val, descend);
        assert Ordered(y, x, descend) by {
          if !descend && x != y { LessTotal(x, y); }
          if descend { LessAsymmetric(x, y); }
        }
        MergeStepSorted(ys, xs, MergeBy(xs, ys[1..], val, descend), val, descend);
      }
    }
  }

  /**
   * The merge seen from the middle: with m taken so far and xs[i..], ys[j..]
   * left, the next node taken is the front of one of them.
   */
  lemma MergeNext(xs: seq<int>, ys: seq<int>, val: seq<string>, descend: bool, i: nat, j: nat, m: seq<int>)
    requires InRange(xs, |val|) && InRange(ys, |val|) && i < |xs| && j < |ys|
    requires m == [] ==> i == 0 && j == 0
    requires m != [] ==> MergeBy(xs, ys, val, descend) == m + MergeBy(xs[i..], ys[j..], val, descend)
    ensures var take := Less(val[xs[i]], val[ys[j]]) != descend;
      var x := if take then xs[i] else ys[j];
      var i2, j2 := if take then i + 1 else i, if take then j else j + 1;
      MergeBy(xs, ys, val, descend) == (m + [x]) + MergeBy(xs[i2..], ys[j2..], val, descend)
  {
    var take := Less(val[xs[i]], val[ys[j]]) != descend;
    var x := if take then xs[i] else ys[j];
    var i2, j2 := if take then i + 1 else i, if take then j else j + 1;
    MergeFront(xs, ys, val, descend, i, j);
    if m == [] {
      assert xs[i..] == xs && ys[j..] == ys;
      assert [] + [x] == [x];
    } else {
      assert m + ([x] + MergeBy(xs[i2..], ys[j2..], val, descend))
          == (m + [x]) + MergeBy(xs[i2..], ys[j2..], val, descend);
    }
  }

  /** The first node the rest of the merge takes, from xs[i..] and ys[j..]. */
  lemma MergeFront(xs: seq<int>, ys: seq<int>, val: seq<string>, descend: bool, i: nat, j: nat)
    requires InRange(xs, |val|) && InRange(ys, |val|) && i < |xs| && j < |ys|
    ensures InRange(xs[i..], |val|) && InRange(ys[j..], |val|)
    ensures var take := Less(val[xs[i]], val[ys[j]]) != descend;
      MergeBy(xs[i..], ys[j..], val, descend)
      == if take then [xs[i]] + MergeBy(xs[i + 1..], ys[j..], val, descend)
         else [ys[j]] + MergeBy(xs[i..], ys[j + 1..], val, descend)
  {
    var a, b := xs[i..], ys[j..];
    assert a[0] == xs[i] && b[0] == ys[j];
    assert a[1..] == xs[i + 1..] && b[1..] == ys[j + 1..];
  }

  /** When one side is used up, the rest of the merge is the other side. */
  lemma MergeRest(xs: seq<int>, ys: seq<int>, val: seq<string>, descend: bool)
    requires InRange(xs, |val|) && InRange(ys, |val|) && (xs == [] || ys == [])
    ensures MergeBy(xs, ys, val, descend) == if xs == [] then ys else xs
  {
  }

  /** No node occurs twice in s. */
  ghost predicate Distinct(s: seq<int>)
  {
    forall i, j :: 0 <= i < j < |s| ==> s[i] != s[j]
  }

  /** No node lies in both a and b. */
  ghost predicate Disjoint(a: seq<int>, b: seq<int>)
  {
    forall x :: x in a ==> x !in b
  }

  /** A sequence of distinct nodes splits into two distinct, disjoint parts. */
  lemma DistinctSplit(a: seq<int>, b: seq<int>)
    requires Distinct(a + b)
    ensures Distinct(a) && Distinct(b) && Disjoint(a, b)
  {
    var s := a + b;
    forall i, j | 0 <= i < j < |a| ensures a[i] != a[j] {
      assert a[i] == s[i] && a[j] == s[j];
    }
    forall i, j | 0 <= i < j < |b| ensures b[i] != b[j] {
      assert b[i] == s[|a| + i] && b[j] == s[|a| + j];
    }
    forall x | x in a ensures x !in b {
      var i :| 0 <= i < |a| && a[i] == x;
      forall j | 0 <= j < |b| ensures b[j] != x {
        assert s[i] == x && s[|a| + j] == b[j];
      }
    }
  }

  /** A node not among distinct nodes r can go in front of them. */
  lemma DistinctCons(x: int, r: seq<int>)
    requires Distinct(r) && x !in r
    ensures Distinct([x] + r)
  {
    var s := [x] + r;
    forall i, j | 0 <= i < j < |s| ensures s[i] != s[j] {
      assert s[j] == r[j - 1];
      if i > 0 {
        assert s[i] == r[i - 1];
      }
    }
  }

  /** Merging two disjoint queues of distinct nodes gives distinct nodes. */
  lemma {:induction false} MergeByDistinct(xs: seq<int>, ys: seq<int>, val: seq<string>, descend: bool)
    requires InRange(xs, |val|) && InRange(ys, |val|)
    requires Distinct(xs) && Distinct(ys) && Disjoint(xs, ys)
    ensures Distinct(MergeBy(xs, ys, val, descend))
    decreases |xs| + |ys|
  {
    if xs != [] && ys != [] {
      if Less(val[xs[0]], val[ys[0]]) != descend {
        var t := xs[1..];
        assert xs == [xs[0]] + t;
        DistinctSplit([xs[0]], t);
        MergeByDistinct(t, ys, val, descend);
        var r := MergeBy(t, ys, val, descend);
        MergeByPermutation(t, ys, val, descend);
        assert xs[0] !in r by {
          assert xs[0] in [xs[0]] && xs[0] in xs;
          assert xs[0] !in t && xs[0] !in ys;
          assert xs[0] !in multiset(t) + multiset(ys);
        }
        DistinctCons(xs[0], r);
      } else {
        var t := ys[1..];
        assert ys == [ys[0]] + t;
        DistinctSplit([ys[0]], t);
        MergeByDistinct(xs, t, val, descend);
        var r := MergeBy(xs, t, val, descend);
        MergeByPermutation(xs, t, val, descend);
        assert ys[0] !in r by {
          assert ys[0] in [ys[0]] && ys[0] in ys;
          assert ys[0] !in t && ys[0] !in xs;
          assert ys[0] !in multiset(xs) + multiset(t);
        }
        DistinctCons(ys[0], r);
      }
    }
  }

  // ------------------------------------------------------------ merge all

  /** All the queues' nodes, front queue first. */
  ghost function Concat(qs: seq<seq<int>>): seq<int>
  {
    if qs == [] then [] else qs[0] + Concat(qs[1..])
  }

  /** Number of non-empty queues. */
  ghost function Busy(qs: seq<seq<int>>): nat
  {
    if qs == [] then 0 else (if qs[0] != [] then 1 else 0) + Busy(qs[1..])
  }

  /** Replacing one queue changes the pooled nodes by exactly that queue's nodes. */
  lemma {:induction false} ConcatUpdate(qs: seq<seq<int>>, k: nat, x: seq<int>)
    requires k < |qs|
    ensures multiset(Concat(qs[k := x])) + multiset(qs[k]) == multiset(Concat(qs)) + multiset(x)
  {
    if k == 0 {
      assert qs[k := x][1..] == qs[1..];
    } else {
      assert qs[k := x][1..] == qs[1..][k - 1 := x];
      ConcatUpdate(qs[1..], k - 1, x);
      calc {
        multiset(Concat(qs[k := x])) + multiset(qs[k]);
        multiset(qs[0]) + (multiset(Concat(qs[1..][k - 1 := x])) + multiset(qs[1..][k - 1]));
        multiset(qs[0]) + (multiset(Concat(qs[1..])) + multiset(x));
      }
    }
  }

  lemma {:induction false} BusyUpdate(qs: seq<seq<int>>, k: nat, x: seq<int>)
    requires k < |qs|
    ensures Busy(qs[k := x]) + (if qs[k] != [] then 1 else 0) == Busy(qs) + (if x != [] then 1 else 0)
  {
    if k == 0 {
      assert qs[k := x][1..] == qs[1..];
    } else {
      assert qs[k := x][1..] == qs[1..][k - 1 := x];
      BusyUpdate(qs[1..], k - 1, x);
    }
  }

  /** When every queue after the first is empty, the pool is the first queue. */
  lemma {:induction false} ConcatOnlyFirst(qs: seq<seq<int>>)
    requires qs != [] && forall k :: 1 <= k < |qs| ==> qs[k] == []
    ensures Concat(qs) == qs[0]
  {
    if |qs| > 1 {
      ConcatOnlyFirst(qs[1..]);
      assert qs[1..][0] == [];
    } else {
      assert qs[1..] == [];
    }
  }

  lemma {:induction false} ConcatRange(qs: seq<seq<int>>, n: int)
    requires forall k :: 0 <= k < |qs| ==> InRange(qs[k], n)
    ensures InRange(Concat(qs), n)
  {
    if qs != [] {
      ConcatRange(qs[1..], n);
    }
  }
}
