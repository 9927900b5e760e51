/**
 * The queue of strings of queue.c on a heap of list_head nodes. A node is
 * an index into the heap's tables; next[x] and prev[x] are its list_head
 * links, value[x] the string of the element_t around it, and queue[x] and
 * size[x] the fields of the queue_contex_t around it when x is the chain
 * node of a context. A queue is its sentinel node; its contents are the
 * element nodes of the ring through it, passed as a ghost sequence.
 */
module Queue {
  import opened Strings
  import opened Spec
  import opened Ring
  import opened Contexts

  /** What strncpy(dst, src, n) leaves in dst[..n] for a NUL-free src. */
  ghost function Copied(src: string, n: nat): seq<char>
  {
    seq(n, i requires 0 <= i < n => if i < |src| then src[i] else '\0')
  }

  /** strncpy into a buffer of at least n characters; the rest of dst is left alone. */
  method StrNCopy(dst: array<char>, src: string, n: int)
    requires 0 <= n <= dst.Length
    modifies dst
    ensures dst[..n] == Copied(src, n)
    ensures dst[n..] == old(dst[n..])
  {
    var i := 0;
    while i < n
      invariant 0 <= i <= n
      invariant forall k :: 0 <= k < i ==> dst[k] == (if k < |src| then src[k] else '\0')
      invariant dst[n..] == old(dst[n..])
    {
      dst[i] := if i < |src| then src[i] else '\0';
      i := i + 1;
    }
  }

  /**
   * q_delete_mid's cursors: fwd at ns[k] from the front and tail k steps back
   * from the sentinel. While they have not met, both move on.
   */
  lemma MidStep(nx: seq<int>, pv: seq<int>, h: int, ns: seq<int>, k: nat)
    requires IsRing(nx, pv, h, ns) && k < |ns| && 2 * k <= |ns|
    requires ns[k] != Succ(h, ns, |ns| - k) && nx[ns[k]] != Succ(h, ns, |ns| - k)
    ensures k + 1 < |ns| && 2 * (k + 1) <= |ns|
    ensures nx[ns[k]] == ns[k + 1]
    ensures 0 <= Succ(h, ns, |ns| - k) < |pv| && pv[Succ(h, ns, |ns| - k)] == Succ(h, ns, |ns| - (k + 1))
  {
    var n := |ns|;
    RingAt(nx, pv, h, ns, k);
    RingAt(nx, pv, h, ns, n - k - 1);
    if k > 0 {
      RingAt(nx, pv, h, ns, n - k);
      RingDistinct(nx, pv, h, ns, k, n - k);
      if k + 1 < n {
        RingDistinct(nx, pv, h, ns, k + 1, n - k);
      }
    }
  }

  /** When the cursors meet or are neighbours, fwd is the middle element ns[|ns| / 2]. */
  lemma MidEnd(nx: seq<int>, pv: seq<int>, h: int, ns: seq<int>, k: nat)
    requires IsRing(nx, pv, h, ns) && k < |ns| && 2 * k <= |ns|
    requires ns[k] == Succ(h, ns, |ns| - k) || nx[ns[k]] == Succ(h, ns, |ns| - k)
    ensures k == |ns| / 2
  {
    var n := |ns|;
    RingAt(nx, pv, h, ns, k);
    if k > 0 {
      RingDistinct(nx, pv, h, ns, k, n - k);
      if k + 1 < n {
        RingDistinct(nx, pv, h, ns, k + 1, n - k);
      }
    } else if n > 1 {
      RingAt(nx, pv, h, ns, 1);
    }
  }

  /** Step j of q_delete_dup seen on the ring of survivors cur: pos = ns[j] sits at p + 1. */
  lemma DupBefore(nx: seq<int>, pv: seq<int>, h: int, ns: seq<int>, val: seq<string>, j: nat, cur: seq<int>)
    requires InRange(ns, |val|) && 1 <= j < |ns|
    requires IsRing(nx, pv, h, cur) && cur == Survivors(ns, val, j)
    ensures var p := |Pruned(ns, val, j - 1)|;
      && p + 1 < |cur| && cur[p] == ns[j - 1] && cur[p + 1] == ns[j]
      && 0 <= ns[j] < |nx| && ns[j] != h && pv[ns[j]] == ns[j - 1]
      && (Cell(h, cur, p) == h || Cell(h, cur, p) in ns)
      && Survivors(ns, val, j + 1)
         == if val[ns[j - 1]] == val[ns[j]] then cur[..p] + cur[p + 1..] else cur
  {
    var p := |Pruned(ns, val, j - 1)|;
    SurvivorsAt(ns, val, j);
    RingAt(nx, pv, h, cur, p + 1);
    if p > 0 {
      SurvivorsIn(ns, val, j);
      assert cur[p - 1] in cur;
    }
  }

  /** After step j the cursor moves to ns[j + 1], or to the sentinel after the last element. */
  lemma DupAfter(nx: seq<int>, pv: seq<int>, h: int, ns: seq<int>, val: seq<string>, j: nat, cur: seq<int>)
    requires InRange(ns, |val|) && 1 <= j < |ns|
    requires IsRing(nx, pv, h, cur) && cur == Survivors(ns, val, j + 1)
    ensures 0 <= ns[j] < |nx| && nx[ns[j]] == (if j + 1 < |ns| then ns[j + 1] else h)
    ensures nx[ns[j]] != nx[h]
  {
    var p := |Pruned(ns, val, j)|;
    SurvivorsAt(ns, val, j + 1);
    RingAt(nx, pv, h, cur, p);
    if j + 1 < |ns| {
      RingDistinct(nx, pv, h, cur, p + 1, 0);
    } else {
      RingAt(nx, pv, h, cur, 0);
    }
  }

  /**
   * What q_merge_two's first loop keeps: the nodes m taken so far are
   * chained behind head in merge order, head1 (h1) is at xs[i], head2 (h2)
   * at ys[j], tail (*indirect) is the last node taken, and nothing else has
   * changed since the tables nx0, pv0.
   */
  ghost predicate MergeInv(nx: seq<int>, pv: seq<int>, head: int, another: int, descend: bool,
                           xs: seq<int>, ys: seq<int>, i: nat, j: nat, m: seq<int>,
                           h1: int, h2: int, tail: int, nx0: seq<int>, pv0: seq<int>, val: seq<string>)
  {
    && MergeOrder(head, another, descend, xs, ys, i, j, m, nx0, pv0, val)
    && MergeLinks(nx, pv, head, another, xs, ys, i, j, m, h1, h2, tail, nx0, pv0)
  }

  /** The order half of MergeInv: m is the front of the merge of xs and ys. */
  ghost predicate MergeOrder(head: int, another: int, descend: bool, xs: seq<int>, ys: seq<int>,
                             i: nat, j: nat, m: seq<int>, nx0: seq<int>, pv0: seq<int>, val: seq<string>)
  {
    && |val| == |nx0| && TwoRings(nx0, pv0, head, another, xs, ys)
    && InRange(xs, |val|) && InRange(ys, |val|)
    && Distinct(MergeBy(xs, ys, val, descend))
    && head !in MergeBy(xs, ys, val, descend) && another !in MergeBy(xs, ys, val, descend)
    && i <= |xs| && j <= |ys| && |m| == i + j
    && (m != [] ==> i < |xs| || j < |ys|)
    && (m != [] ==> MergeBy(xs, ys, val, descend) == m + MergeBy(xs[i..], ys[j..], val, descend))
  }

  /** The link half of MergeInv. */
  ghost predicate MergeLinks(nx: seq<int>, pv: seq<int>, head: int, another: int,
                             xs: seq<int>, ys: seq<int>, i: nat, j: nat, m: seq<int>,
                             h1: int, h2: int, tail: int, nx0: seq<int>, pv0: seq<int>)
  {
    && |nx| == |nx0| && |pv| == |pv0| && i <= |xs| && j <= |ys|
    && h1 == Succ(head, xs, i) && h2 == Succ(another, ys, j)
    && tail == Cell(head, m, |m|)
    && Chain(nx, pv, head, m)
    && Untouched(nx0, pv0, nx, pv, [head] + m)
  }

  /** Before q_merge_two's first loop: nothing taken, head1 and head2 at the fronts. */
  lemma MergeStart(nx: seq<int>, pv: seq<int>, head: int, another: int, descend: bool,
                   xs: seq<int>, ys: seq<int>, val: seq<string>)
    requires TwoRings(nx, pv, head, another, xs, ys) && |val| == |nx|
    ensures InRange(xs, |val|) && InRange(ys, |val|)
    ensures MergeInv(nx, pv, head, another, descend, xs, ys, 0, 0, [], nx[head], nx[another], head, nx, pv, val)
  {
    MergeByDistinct(xs, ys, val, descend);
    MergeCover(xs, ys, val, descend, head, another);
  }

  /** Every node of the merge comes from one of the two lists. */
  lemma MergeCover(xs: seq<int>, ys: seq<int>, val: seq<string>, descend: bool, head: int, another: int)
    requires InRange(xs, |val|) && InRange(ys, |val|)
    ensures forall z :: z in [head, another] + MergeBy(xs, ys, val, descend) ==> z in [head, another] + xs + ys
    ensures forall z :: z in MergeBy(xs, ys, val, descend) ==> z in xs || z in ys
  {
    var M := MergeBy(xs, ys, val, descend);
    MergeByPermutation(xs, ys, val, descend);
    forall z | z in M ensures z in xs || z in ys {
      assert z in multiset(M);
    }
  }

  /** The order half of one round of q_merge_two's first loop. */
  lemma MergeTake(head: int, another: int, descend: bool, xs: seq<int>, ys: seq<int>,
                  i: nat, j: nat, m: seq<int>, nx0: seq<int>, pv0: seq<int>, val: seq<string>)
    requires MergeOrder(head, another, descend, xs, ys, i, j, m, nx0, pv0, val)
    requires i < |xs| && j < |ys|
    ensures var take := Less(val[xs[i]], val[ys[j]]) != descend;
      var x := if take then xs[i] else ys[j];
      && MergeOrder(head, another, descend, xs, ys,
                    if take then i + 1 else i, if take then j else j + 1, m + [x], nx0, pv0, val)
      && Distinct(m) && head !in m && x !in m && x != head
  {
    var take := Less(val[xs[i]], val[ys[j]]) != descend;
    var x := if take then xs[i] else ys[j];
    var i2, j2 := if take then i + 1 else i, if take then j else j + 1;
    MergeNext(xs, ys, val, descend, i, j, m);
    var rest := MergeBy(xs[i2..], ys[j2..], val, descend);
    DistinctSplit(m + [x], rest);
    DistinctSplit(m, [x]);
    assert x in m + [x];
    assert forall z :: z in m ==> z in m + [x];
  }

  /** The link half of one round: x, the front of xs or of ys, is linked after tail. */
  lemma MergeLink(nx: seq<int>, pv: seq<int>, head: int, another: int,
                  xs: seq<int>, ys: seq<int>, i: nat, j: nat, m: seq<int>,
                  h1: int, h2: int, tail: int, nx0: seq<int>, pv0: seq<int>, x: int, first: bool)
    requires MergeLinks(nx, pv, head, another, xs, ys, i, j, m, h1, h2, tail, nx0, pv0)
    requires IsRing(nx0, pv0, head, xs) && IsRing(nx0, pv0, another, ys)
    requires Distinct(m) && head !in m && x !in m && x != head
    requires first ==> i < |xs| && x == h1
    requires !first ==> j < |ys| && x == h2
    ensures 0 <= tail < |nx| && 0 <= x < |nx|
    ensures var nx2, pv2 := nx[tail := x], pv[x := tail];
      MergeLinks(nx2, pv2, head, another, xs, ys,
                 if first then i + 1 else i, if first then j else j + 1, m + [x],
                 if first then nx2[h1] else h1, if first then h2 else nx2[h2], x, nx0, pv0)
  {
    if first {
      RingAt(nx0, pv0, head, xs, i);
    } else {
      RingAt(nx0, pv0, another, ys, j);
    }
    var m2 := m + [x];
    var nx2, pv2 := nx[tail := x], pv[x := tail];
    ChainExtend(nx, pv, head, m, x);
    assert tail == head || tail in m;
    assert x in m2 && forall z :: z in [head] + m ==> z in [head] + m2;
    assert nx2[x] == nx0[x];
    UntouchedLink(nx0, pv0, nx, pv, [head] + m, [head] + m2, tail, x, x, tail);
  }

  /**
   * When q_merge_two's first loop stops, the nodes left are the rest zs[k0..]
   * of one input ring (sentinel s, the `*node` the walk stops at), still
   * linked as in that ring, and the merge is m followed by them.
   */
  lemma SpliceFacts(nx: seq<int>, pv: seq<int>, head: int, another: int, descend: bool,
                    xs: seq<int>, ys: seq<int>, i: nat, j: nat, m: seq<int>,
                    h1: int, h2: int, tail: int, nx0: seq<int>, pv0: seq<int>, val: seq<string>,
                    s: int, zs: seq<int>, k0: nat)
    requires MergeInv(nx, pv, head, another, descend, xs, ys, i, j, m, h1, h2, tail, nx0, pv0, val)
    requires h1 == head || h2 == another
    requires s == (if h1 == head then another else head)
    requires zs == (if h1 == head then ys else xs) && k0 == (if h1 == head then j else i)
    ensures k0 <= |zs| && IsRing(nx0, pv0, s, zs) && s !in zs[k0..]
    ensures (if h1 == head then h2 else h1) == Succ(s, zs, k0)
    ensures m != [] ==> MergeBy(xs, ys, val, descend) == m + zs[k0..]
    ensures m == [] ==> MergeBy(xs, ys, val, descend) == zs && k0 == 0
    ensures k0 == |zs| <==> xs == [] && ys == []
    ensures Disjoint(zs[k0..], [head] + m)
  {
    var M := MergeBy(xs, ys, val, descend);
    var rest := zs[k0..];
    if h1 == head {
      SuccIsHead(nx0, pv0, head, xs, i);
    } else {
      SuccIsHead(nx0, pv0, another, ys, j);
    }
    if m != [] {
      MergeRest(xs[i..], ys[j..], val, descend);
      assert xs[i..] == [] || ys[j..] == [];
      DistinctSplit(m, rest);
      assert forall z :: z in rest ==> z in M;
    } else {
      MergeRest(xs, ys, val, descend);
      assert rest == zs;
    }
  }

  /**
   * What q_merge_two's second loop needs: following next from first visits
   * zs[k0..] in order and then reaches s; with nothing left, first is s and
   * s links to itself. tail is not one of the nodes walked.
   */
  ghost predicate WalkReady(nx: seq<int>, tail: int, first: int, s: int, zs: seq<int>, k0: nat)
  {
    && 0 <= tail < |nx| && 0 <= s < |nx| && InRange(zs, |nx|) && k0 <= |zs|
    && first == Succ(s, zs, k0) && s !in zs && tail !in zs[k0..]
    && (forall w {:trigger nx[zs[w]]} :: k0 <= w < |zs| ==> nx[zs[w]] == Succ(s, zs, w + 1))
    && (k0 == |zs| ==> nx[s] == s && s != tail)
  }

  /** The state q_merge_two's first loop leaves is ready for the walk ... */
  lemma WalkSetup(nx: seq<int>, pv: seq<int>, head: int, another: int, descend: bool,
                  xs: seq<int>, ys: seq<int>, i: nat, j: nat, m: seq<int>,
                  h1: int, h2: int, tail: int, nx0: seq<int>, pv0: seq<int>, val: seq<string>,
                  s: int, zs: seq<int>, k0: nat)
    requires MergeInv(nx, pv, head, another, descend, xs, ys, i, j, m, h1, h2, tail, nx0, pv0, val)
    requires h1 == head || h2 == another
    requires s == (if h1 == head then another else head)
    requires zs == (if h1 == head then ys else xs) && k0 == (if h1 == head then j else i)
    ensures WalkReady(nx, tail, if h1 == head then h2 else h1, s, zs, k0)
    ensures k0 == |zs| <==> xs == [] && ys == []
    ensures k0 == |zs| ==> tail == head && s == another
  {
    SpliceFacts(nx, pv, head, another, descend, xs, ys, i, j, m, h1, h2, tail, nx0, pv0, val, s, zs, k0);
    MergeLinksFacts(nx, pv, head, another, xs, ys, i, j, m, h1, h2, tail, nx0, pv0);
    RestLinks(nx0, pv0, nx, pv, s, zs, k0, [head] + m);
    if k0 == |zs| {
      MergeEmptyFacts(nx, pv, head, another, descend, xs, ys, i, j, m, h1, h2, tail, nx0, pv0, val);
    }
    WalkReadyIntro(nx, nx0, pv0, tail, if h1 == head then h2 else h1, s, zs, k0);
  }

  /** The facts about the chain built so far that the walk needs. */
  lemma MergeLinksFacts(nx: seq<int>, pv: seq<int>, head: int, another: int, xs: seq<int>, ys: seq<int>,
                        i: nat, j: nat, m: seq<int>, h1: int, h2: int, tail: int, nx0: seq<int>, pv0: seq<int>)
    requires MergeLinks(nx, pv, head, another, xs, ys, i, j, m, h1, h2, tail, nx0, pv0)
    ensures |nx0| == |nx| && 0 <= tail < |nx| && (tail == head || tail in m) && (m == [] ==> tail == head)
  {
  }

  /** With two empty lists the first loop has taken nothing and another is still alone. */
  lemma MergeEmptyFacts(nx: seq<int>, pv: seq<int>, head: int, another: int, descend: bool,
                        xs: seq<int>, ys: seq<int>, i: nat, j: nat, m: seq<int>,
                        h1: int, h2: int, tail: int, nx0: seq<int>, pv0: seq<int>, val: seq<string>)
    requires MergeInv(nx, pv, head, another, descend, xs, ys, i, j, m, h1, h2, tail, nx0, pv0, val)
    requires xs == [] && ys == []
    ensures m == [] && tail == head && head != another && nx[another] == another
  {
    assert another !in [head] + m;
  }

  /** WalkReady from the facts the first loop leaves. */
  lemma WalkReadyIntro(nx: seq<int>, nx0: seq<int>, pv0: seq<int>, tail: int, first: int, s: int,
                       zs: seq<int>, k0: nat)
    requires |nx0| == |nx| && 0 <= tail < |nx| && k0 <= |zs| && IsRing(nx0, pv0, s, zs)
    requires first == Succ(s, zs, k0) && tail !in zs[k0..]
    requires forall w {:trigger nx[zs[w]]} :: k0 <= w < |zs| ==> nx[zs[w]] == Succ(s, zs, w + 1)
    requires k0 == |zs| ==> nx[s] == s && s != tail
    ensures WalkReady(nx, tail, first, s, zs, k0)
  {
  }

  /** ... and for the splice. */
  lemma SpliceSetup(nx: seq<int>, pv: seq<int>, head: int, another: int, descend: bool,
                    xs: seq<int>, ys: seq<int>, i: nat, j: nat, m: seq<int>,
                    h1: int, h2: int, tail: int, nx0: seq<int>, pv0: seq<int>, val: seq<string>,
                    s: int, zs: seq<int>, k0: nat)
    requires MergeInv(nx, pv, head, another, descend, xs, ys, i, j, m, h1, h2, tail, nx0, pv0, val)
    requires h1 == head || h2 == another
    requires s == (if h1 == head then another else head)
    requires zs == (if h1 == head then ys else xs) && k0 == (if h1 == head then j else i)
    requires k0 < |zs|
    ensures SpliceReady(nx, pv, nx0, pv0, head, another, m, MergeBy(xs, ys, val, descend), tail, s, zs, k0)
  {
    SpliceFacts(nx, pv, head, another, descend, xs, ys, i, j, m, h1, h2, tail, nx0, pv0, val, s, zs, k0);
  }

  /**
   * What the end of q_merge_two starts from when nodes are left: the chain
   * m behind head ending at tail, the untouched rest zs[k0..] of the ring on
   * s, and ms, the merge, equal to m followed by that rest.
   */
  ghost predicate SpliceReady(nx: seq<int>, pv: seq<int>, nx0: seq<int>, pv0: seq<int>, head: int, another: int,
                              m: seq<int>, ms: seq<int>, tail: int, s: int, zs: seq<int>, k0: nat)
  {
    && |nx| == |nx0| && |pv| == |pv0| && 0 <= another < |nx| && head != another
    && Chain(nx, pv, head, m) && tail == Cell(head, m, |m|)
    && Untouched(nx0, pv0, nx, pv, [head] + m)
    && IsRing(nx0, pv0, s, zs) && k0 < |zs| && Disjoint(zs[k0..], [head] + m)
    && (m != [] ==> ms == m + zs[k0..]) && (m == [] ==> ms == zs && k0 == 0)
    && Distinct(ms) && head !in ms && another !in ms
  }

  /**
   * The end of q_merge_two when nodes are left: linking the rest after
   * tail, its last node back to head and another to itself gives the merged
   * ring on head and an empty ring on another.
   */
  lemma SpliceRing(nx: seq<int>, pv: seq<int>, nx0: seq<int>, pv0: seq<int>, head: int, another: int,
                   m: seq<int>, ms: seq<int>, tail: int, s: int, zs: seq<int>, k0: nat)
    requires SpliceReady(nx, pv, nx0, pv0, head, another, m, ms, tail, s, zs, k0)
    ensures 0 <= tail < |nx| && 0 <= zs[k0] < |nx| && 0 <= zs[|zs| - 1] < |nx|
    ensures var first, last := zs[k0], zs[|zs| - 1];
      var nx2 := nx[tail := first][last := head][another := another];
      var pv2 := pv[first := tail][head := last][another := another];
      IsRing(nx2, pv2, head, ms) && IsRing(nx2, pv2, another, [])
  {
    RestLinks(nx0, pv0, nx, pv, s, zs, k0, [head] + m);
    var rest := zs[k0..];
    assert zs[k0] == rest[0] && zs[|zs| - 1] == rest[|rest| - 1];
    if m == [] {
      assert rest == zs;
      MoveClose(nx, pv, head, another, zs);
    } else {
      SpliceClose(nx, pv, head, another, m, rest, ms);
    }
  }

  /** The same three rewrites touch nothing outside head, another and the merge. */
  lemma SpliceFrame(nx: seq<int>, pv: seq<int>, nx0: seq<int>, pv0: seq<int>, head: int, another: int,
                    m: seq<int>, ms: seq<int>, tail: int, s: int, zs: seq<int>, k0: nat)
    requires SpliceReady(nx, pv, nx0, pv0, head, another, m, ms, tail, s, zs, k0)
    ensures 0 <= tail < |nx| && 0 <= zs[k0] < |nx| && 0 <= zs[|zs| - 1] < |nx|
    ensures var first, last := zs[k0], zs[|zs| - 1];
      var nx2 := nx[tail := first][last := head][another := another];
      var pv2 := pv[first := tail][head := last][another := another];
      Untouched(nx0, pv0, nx2, pv2, [head, another] + ms)
  {
    var first, last := zs[k0], zs[|zs| - 1];
    var D := [head, another] + ms;
    if m == [] {
      SpliceCover(head, another, [], zs, ms);
    } else {
      SpliceCover(head, another, m, zs[k0..], ms);
    }
    assert first == zs[k0..][0] && last == zs[k0..][|zs[k0..]| - 1];
    var nx2, pv2 := nx[tail := first], pv[first := tail];
    var nx3, pv3 := nx2[last := head], pv2[head := last];
    UntouchedLink(nx0, pv0, nx, pv, [head] + m, D, tail, first, first, tail);
    UntouchedLink(nx0, pv0, nx2, pv2, D, D, last, head, head, last);
    UntouchedLink(nx0, pv0, nx3, pv3, D, D, another, another, another, another);
  }

  /** The nodes SpliceFrame rewrites all lie in head, another and the merge ms. */
  lemma SpliceCover(head: int, another: int, m: seq<int>, rest: seq<int>, ms: seq<int>)
    requires (m != [] ==> ms == m + rest) && (m == [] ==> ms == rest) && rest != []
    ensures forall z :: z in [head] + m ==> z in [head, another] + ms
    ensures rest[0] in [head, another] + ms && rest[|rest| - 1] in [head, another] + ms
  {
    assert rest[0] in ms && rest[|rest| - 1] in ms;
  }

  class Heap {
    var next: seq<int>
    var prev: seq<int>
    var value: seq<string>
    var queue: seq<int>
    var size: seq<int>

    /** Every table has a row for every node. */
    ghost predicate Valid()
      reads this
    {
      |prev| == |next| && |value| == |next| && |queue| == |next| && |size| == |next|
    }

    /** An empty heap. */
    constructor()
      ensures Valid() && next == []
    {
      next, prev, value, queue, size := [], [], [], [], [];
    }

    /** malloc: a fresh node whose links and context fields hold nothing yet. */
    method Alloc(v: string) returns (n: int)
      requires Valid()
      modifies this
      ensures Valid() && n == old(|next|)
      ensures next == old(next) + [Null] && prev == old(prev) + [Null]
      ensures value == old(value) + [v]
      ensures queue == old(queue) + [Null] && size == old(size) + [0]
    {
      n := |next|;
      next, prev, value := next + [Null], prev + [Null], value + [v];
      queue, size := queue + [Null], size + [0];
    }

    /** q_new: a fresh sentinel linked to itself, or NULL when malloc fails. */
    method New(mallocOk: bool) returns (head: int)
      requires Valid()
      modifies this
      ensures Valid()
      ensures !mallocOk ==> head == Null && unchanged(this)
      ensures mallocOk ==> head == old(|next|) && IsRing(next, prev, head, [])
      ensures mallocOk ==> next == old(next) + [head] && prev == old(prev) + [head]
      ensures mallocOk ==> value == old(value) + [""] && queue == old(queue) + [Null] && size == old(size) + [0]
    {
      if !mallocOk {
        return Null;
      }
      head := Alloc("");
      next, prev := next[head := head], prev[head := head];
    }

    /** list_add(node, head): node goes in right after head, which is at position p of ring h. */
    method ListAdd(node: int, head: int, ghost h: int, ghost ns: seq<int>, ghost p: nat)
      requires Valid() && IsRing(next, prev, h, ns) && p <= |ns| && head == Cell(h, ns, p)
      requires 0 <= node < |next| && node != h && node !in ns
      modifies this
      ensures Valid() && IsRing(next, prev, h, ns[..p] + [node] + ns[p..])
      ensures next == old(next)[node := Succ(h, ns, p)][head := node]
      ensures prev == old(prev)[Succ(h, ns, p) := node][node := head]
      ensures value == old(value) && queue == old(queue) && size == old(size)
    {
      RingLinks(next, prev, h, ns, p);
      RingInsert(next, prev, h, ns, p, node);
      var succ := next[head];
      next := next[node := succ][head := node];
      prev := prev[succ := node][node := head];
    }

    /** list_del(x) for the element x at position p of ring h; x keeps its stale links. */
    method ListDel(x: int, ghost h: int, ghost ns: seq<int>, ghost p: nat)
      requires Valid() && IsRing(next, prev, h, ns) && p < |ns| && x == ns[p]
      modifies this
      ensures Valid() && IsRing(next, prev, h, ns[..p] + ns[p + 1..])
      ensures next == old(next)[Cell(h, ns, p) := Succ(h, ns, p + 1)]
      ensures prev == old(prev)[Succ(h, ns, p + 1) := Cell(h, ns, p)]
      ensures value == old(value) && queue == old(queue) && size == old(size)
    {
      RingAt(next, prev, h, ns, p);
      RingRemove(next, prev, h, ns, p);
      var before, after := prev[x], next[x];
      next := next[before := after];
      prev := prev[after := before];
    }

    /**
     * q_insert_head(head, s) with head the node at position p of ring h:
     * fails when malloc or strdup fails or head is NULL, and otherwise puts a
     * fresh element holding s right after head.
     */
    method InsertHead(head: int, s: string, nodeOk: bool, dupOk: bool,
                      ghost h: int, ghost ns: seq<int>, ghost p: nat) returns (ok: bool)
      requires Valid()
      requires head != Null ==> IsRing(next, prev, h, ns) && p <= |ns| && head == Cell(h, ns, p)
      modifies this
      ensures Valid()
      ensures ok <==> nodeOk && dupOk && head != Null
      ensures !ok ==> unchanged(this)
      ensures ok ==> |next| == old(|next|) + 1
      ensures ok ==> IsRing(next, prev, h, ns[..p] + [old(|next|)] + ns[p..])
      ensures ok ==> value == old(value) + [s]
      ensures ok ==> Untouched(old(next), old(prev), next, prev, [head, Succ(h, ns, p)])
      ensures ok ==> queue[..old(|queue|)] == old(queue) && size[..old(|size|)] == old(size)
    {
      if !nodeOk || !dupOk || head == Null {
        return false;
      }
      ghost var nx0, pv0 := next, prev;
      var node := Alloc(s);
      RingFrame(nx0, pv0, next, prev, h, ns);
      ListAdd(node, head, h, ns, p);
      RingLinks(nx0, pv0, h, ns, p);
      ok := true;
    }

    /** q_insert_tail: q_insert_head on the last node of the queue. */
    method InsertTail(head: int, s: string, nodeOk: bool, dupOk: bool, ghost ns: seq<int>) returns (ok: bool)
      requires Valid() && head != Null && IsRing(next, prev, head, ns)
      modifies this
      ensures Valid()
      ensures ok <==> nodeOk && dupOk
      ensures !ok ==> unchanged(this)
      ensures ok ==> |next| == old(|next|) + 1
      ensures ok ==> IsRing(next, prev, head, ns + [old(|next|)])
      ensures ok ==> value == old(value) + [s]
      ensures ok ==> Untouched(old(next), old(prev), next, prev, [old(prev[head]), head])
      ensures ok ==> queue[..old(|queue|)] == old(queue) && size[..old(|size|)] == old(size)
    {
      RingLinks(next, prev, head, ns, |ns|);
      assert ns[..|ns|] + [|next|] + ns[|ns|..] == ns + [|next|];
      ok := InsertHead(prev[head], s, nodeOk, dupOk, head, ns, |ns|);
    }

    /** q_size: the number of elements, 0 for NULL. */
    method Size(head: int, ghost ns: seq<int>) returns (len: int)
      requires head != Null ==> IsRing(next, prev, head, ns)
      ensures len == if head == Null then 0 else |ns|
    {
      if head == Null {
        return 0;
      }
      len := 0;
      var pos := next[head];
      while pos != head
        invariant 0 <= len <= |ns| && pos == Succ(head, ns, len)
        decreases |ns| - len
      {
        RingAt(next, prev, head, ns, len);
        pos := next[pos];
        len := len + 1;
      }
    }

    /**
     * q_remove_head(head, sp, bufsize) with head the node at position p of
     * ring h: NULL when head is NULL or its list is empty; otherwise the
     * element after head is unlinked and returned, its string first copied
     * to sp by strncpy(sp, value, bufsize - 1) when sp is given.
     */
    method RemoveHead(head: int, sp: array?<char>, bufsize: int,
                      ghost h: int, ghost ns: seq<int>, ghost p: nat) returns (elem: int)
      requires Valid()
      requires head != Null ==> IsRing(next, prev, h, ns) && p <= |ns| && head == Cell(h, ns, p)
      requires head != Null ==> p < |ns| || ns == []
      requires sp != null ==> 1 <= bufsize <= sp.Length + 1
      modifies this, sp
      ensures elem == if head == Null || ns == [] then Null else ns[p]
      ensures elem == Null ==> unchanged(this) && (sp != null ==> unchanged(sp))
      ensures elem != Null ==> IsRing(next, prev, h, ns[..p] + ns[p + 1..])
      ensures elem != Null ==> Untouched(old(next), old(prev), next, prev, [head, Succ(h, ns, p + 1)])
      ensures elem != Null ==> |next| == old(|next|)
      ensures Valid() && value == old(value) && queue == old(queue) && size == old(size)
      ensures elem != Null && sp != null ==>
        sp[..bufsize - 1] == Copied(value[elem], bufsize - 1) && sp[bufsize - 1..] == old(sp[bufsize - 1..])
    {
      if head != Null {
        RingLinks(next, prev, h, ns, p);
      }
      if head == Null || next[head] == head {
        return Null;
      }
      elem := next[head];
      if sp != null {
        StrNCopy(sp, value[elem], bufsize - 1);
      }
      ListDel(next[head], h, ns, p);
    }

    /** q_remove_tail: q_remove_head on the node before the last one. */
    method RemoveTail(head: int, sp: array?<char>, bufsize: int, ghost ns: seq<int>) returns (elem: int)
      requires Valid() && head != Null && IsRing(next, prev, head, ns)
      requires sp != null ==> 1 <= bufsize <= sp.Length + 1
      modifies this, sp
      ensures elem == if ns == [] then Null else ns[|ns| - 1]
      ensures elem == Null ==> unchanged(this) && (sp != null ==> unchanged(sp))
      ensures elem != Null ==> IsRing(next, prev, head, ns[..|ns| - 1])
      ensures elem != Null ==> Untouched(old(next), old(prev), next, prev, [old(prev[prev[head]]), head])
      ensures elem != Null ==> |next| == old(|next|)
      ensures Valid() && value == old(value) && queue == old(queue) && size == old(size)
      ensures elem != Null && sp != null ==>
        sp[..bufsize - 1] == Copied(value[elem], bufsize - 1) && sp[bufsize - 1..] == old(sp[bufsize - 1..])
    {
      RingLinks(next, prev, head, ns, 0);
      if next[head] == head {
        return Null;
      }
      var p := |ns| - 1;
      RingAt(next, prev, head, ns, p);
      assert ns[..p] + ns[p + 1..] == ns[..p];
      elem := RemoveHead(prev[prev[head]], sp, bufsize, head, ns, p);
    }

    /**
     * q_delete_mid: false for NULL or an empty queue; otherwise unlinks the
     * element at index |ns| / 2 (counting from 0), found by walking one
     * cursor forward from the front and one backward from the sentinel.
     */
    method DeleteMid(head: int, ghost ns: seq<int>) returns (ok: bool)
      requires Valid() && (head != Null ==> IsRing(next, prev, head, ns))
      modifies this
      ensures ok <==> head != Null && ns != []
      ensures !ok ==> unchanged(this)
      ensures ok ==> IsRing(next, prev, head, ns[..|ns| / 2] + ns[|ns| / 2 + 1..])
      ensures ok ==> Untouched(old(next), old(prev), next, prev,
                               [Cell(head, ns, |ns| / 2), Succ(head, ns, |ns| / 2 + 1)])
      ensures Valid() && |next| == old(|next|)
      ensures value == old(value) && queue == old(queue) && size == old(size)
    {
      if head == Null {
        return false;
      }
      RingLinks(next, prev, head, ns, 0);
      if next[head] == head {
        return false;
      }
      ghost var n := |ns|;
      var fwd := next[head];
      RingAt(next, prev, head, ns, 0);
      var tail := prev[fwd];
      ghost var k := 0;
      while fwd != tail && next[fwd] != tail
        invariant unchanged(this)
        invariant 0 <= k < n && 2 * k <= n
        invariant fwd == ns[k] && tail == Succ(head, ns, n - k)
        decreases n - 2 * k
      {
        MidStep(next, prev, head, ns, k);
        fwd, tail := next[fwd], prev[tail];
        k := k + 1;
      }
      MidEnd(next, prev, head, ns, k);
      ghost var nx0, pv0, a, b := next, prev, Cell(head, ns, k), Succ(head, ns, k + 1);
      RingAt(next, prev, head, ns, k);
      ListDel(fwd, head, ns, k);
      UntouchedLink(nx0, pv0, nx0, pv0, [], [a, b], a, b, b, a);
      ok := true;
    }

    /**
     * The match branch of q_delete_dup's loop, with pos at position p + 1 of
     * ring h: pos->prev = pos->prev->prev, then pos->prev->next = pos.
     * Together this unlinks the element before pos, as list_del would.
     */
    method UnlinkBefore(pos: int, ghost h: int, ghost ns: seq<int>, ghost p: nat)
      requires Valid() && IsRing(next, prev, h, ns) && p + 1 < |ns| && pos == ns[p + 1]
      modifies this
      ensures Valid() && IsRing(next, prev, h, ns[..p] + ns[p + 1..])
      ensures Untouched(old(next), old(prev), next, prev, [Cell(h, ns, p), pos])
      ensures next == old(next)[Cell(h, ns, p) := pos]
      ensures prev == old(prev)[pos := Cell(h, ns, p)]
      ensures value == old(value) && queue == old(queue) && size == old(size)
    {
      RingAt(next, prev, h, ns, p);
      RingAt(next, prev, h, ns, p + 1);
      RingRemove(next, prev, h, ns, p);
      prev := prev[pos := prev[prev[pos]]];
      next := next[prev[pos] := pos];
    }

    /** What q_delete_dup's loop keeps, j elements into ns, with pos its cursor. */
    ghost predicate DupState(head: int, ns: seq<int>, j: nat, cur: seq<int>, pos: int,
                             nx0: seq<int>, pv0: seq<int>, val: seq<string>)
      reads this
    {
      && Valid() && |next| == |nx0| && |prev| == |pv0| && value == val
      && InRange(ns, |val|) && 1 <= j <= |ns| + 1 && head !in ns
      && cur == Survivors(ns, val, j) && IsRing(next, prev, head, cur)
      && pos == (if j < |ns| then ns[j] else if j == |ns| then head else next[head])
      && (j <= |ns| ==> pos != next[head])
      && Untouched(nx0, pv0, next, prev, [head] + ns)
    }

    /**
     * One round of q_delete_dup's loop at the element ns[j], the cursor's
     * step to pos->next included.
     */
    method DupElement(pos: int, head: int, ghost ns: seq<int>, ghost j: nat, ghost cur: seq<int>,
                      ghost nx0: seq<int>, ghost pv0: seq<int>, ghost val: seq<string>)
      returns (pos2: int, ghost cur2: seq<int>)
      requires DupState(head, ns, j, cur, pos, nx0, pv0, val) && j < |ns|
      modifies this
      ensures DupState(head, ns, j + 1, cur2, pos2, nx0, pv0, val)
      ensures queue == old(queue) && size == old(size)
    {
      DupBefore(next, prev, head, ns, value, j, cur);
      ghost var p := |Pruned(ns, value, j - 1)|;
      cur2 := Survivors(ns, value, j + 1);
      if value[prev[pos]] == value[pos] {
        assert cur2 == cur[..p] + cur[p + 1..];
        ghost var before := Cell(head, cur, p);
        assert before in [head] + ns && pos in [head] + ns;
        ghost var nx1, pv1 := next, prev;
        UnlinkBefore(pos, head, cur, p);
        UntouchedWiden(nx1, pv1, next, prev, [before, pos], [head] + ns);
        UntouchedTrans(nx0, pv0, nx1, pv1, next, prev, [head] + ns, [head] + ns);
      } else {
        assert cur2 == cur;
      }
      DupAfter(next, prev, head, ns, value, j, cur2);
      pos2 := next[pos];
    }

    /** The loop's round at the sentinel: pos moves on to head->next. */
    method DupSentinel(pos: int, head: int, ghost ns: seq<int>, ghost j: nat, ghost cur: seq<int>,
                       ghost nx0: seq<int>, ghost pv0: seq<int>, ghost val: seq<string>)
      returns (pos2: int)
      requires DupState(head, ns, j, cur, pos, nx0, pv0, val) && j == |ns|
      ensures DupState(head, ns, j + 1, cur, pos2, nx0, pv0, val)
    {
      SurvivorsEnd(ns, val);
      pos2 := next[pos];
    }

    /** One round of q_delete_dup's loop, at an element or at the sentinel. */
    method DupRound(pos: int, head: int, ghost ns: seq<int>, ghost j: nat, ghost cur: seq<int>,
                    ghost nx0: seq<int>, ghost pv0: seq<int>, ghost val: seq<string>)
      returns (pos2: int, ghost cur2: seq<int>, ghost j2: nat)
      requires DupState(head, ns, j, cur, pos, nx0, pv0, val) && j <= |ns|
      modifies this
      ensures j2 == j + 1 && DupState(head, ns, j2, cur2, pos2, nx0, pv0, val)
      ensures queue == old(queue) && size == old(size)
    {
      j2 := j + 1;
      if pos != head {
        pos2, cur2 := DupElement(pos, head, ns, j, cur, nx0, pv0, val);
      } else {
        pos2 := DupSentinel(pos, head, ns, j, cur, nx0, pv0, val);
        cur2 := cur;
      }
    }

    /** Before the loop: pos = head->next->next, one element in. */
    method DupStart(head: int, ghost ns: seq<int>) returns (pos: int)
      requires Valid() && head != Null && IsRing(next, prev, head, ns)
      ensures DupState(head, ns, 1, ns, pos, next, prev, value)
    {
      assert InRange(ns, |value|) && head !in ns;
      RingLinks(next, prev, head, ns, 0);
      if next[head] == head {
        pos := head;
      } else {
        RingAt(next, prev, head, ns, 0);
        pos := next[next[head]];
        RingLinks(next, prev, head, ns, 1);
        if |ns| > 1 {
          RingDistinct(next, prev, head, ns, 1, 0);
          assert pos == ns[1] && pos != next[head];
        } else {
          assert pos == head && pos != next[head];
        }
      }
      assert Untouched(next, prev, next, prev, [head] + ns);
    }

    /**
     * q_delete_dup: false for NULL; otherwise walks the queue and, whenever
     * an element holds the same string as the one before it, unlinks the one
     * before it. Of each run of equal strings the last element stays.
     */
    method DeleteDup(head: int, ghost ns: seq<int>) returns (ok: bool)
      requires Valid() && (head != Null ==> IsRing(next, prev, head, ns))
      modifies this
      ensures Valid() && |next| == old(|next|)
      ensures value == old(value) && queue == old(queue) && size == old(size)
      ensures ok <==> head != Null
      ensures !ok ==> unchanged(this)
      ensures ok ==> InRange(ns, |value|) && IsRing(next, prev, head, Dedup(ns, value))
      ensures ok ==> Untouched(old(next), old(prev), next, prev, [head] + ns)
    {
      if head == Null {
        return false;
      }
      ghost var n := |ns|;
      var pos := DupStart(head, ns);
      ghost var j := 1;
      ghost var cur := ns;
      ghost var val := value;
      while pos != next[head]
        invariant DupState(head, ns, j, cur, pos, old(next), old(prev), val)
        invariant queue == old(queue) && size == old(size)
        decreases n + 1 - j
      {
        pos, cur, j := DupRound(pos, head, ns, j, cur, old(next), old(prev), val);
      }
      SurvivorsEnd(ns, val);
      ok := true;
    }

    /**
     * Links exchanged on the nodes of done, and on no other node, against
     * the tables nx0, pv0.
     */
    ghost predicate Swapped(nx0: seq<int>, pv0: seq<int>, done: seq<int>)
      reads this
    {
      && |next| == |nx0| && |prev| == |pv0| && |nx0| == |pv0|
      && forall x :: 0 <= x < |nx0| ==>
           if x in done then next[x] == pv0[x] && prev[x] == nx0[x]
           else next[x] == nx0[x] && prev[x] == pv0[x]
    }

    /** One round of q_reverse's loop: exchanges node's links and returns its old next. */
    method SwapLinks(node: int, ghost nx0: seq<int>, ghost pv0: seq<int>, ghost done: seq<int>)
      returns (tmp: int)
      requires Valid() && Swapped(nx0, pv0, done) && 0 <= node < |nx0| && node !in done
      modifies this
      ensures Valid() && value == old(value) && queue == old(queue) && size == old(size)
      ensures Swapped(nx0, pv0, done + [node]) && tmp == nx0[node]
    {
      tmp := next[node];
      next := next[node := prev[node]];
      prev := prev[node := tmp];
    }

    /**
     * q_reverse: nothing for NULL; otherwise exchanges next and prev of the
     * sentinel and of every element, which runs the ring backwards.
     */
    method Reverse(head: int, ghost ns: seq<int>)
      requires Valid() && (head != Null ==> IsRing(next, prev, head, ns))
      modifies this
      ensures Valid() && value == old(value) && queue == old(queue) && size == old(size)
      ensures head == Null ==> unchanged(this)
      ensures head != Null ==> Swapped(old(next), old(prev), [head] + ns)
      ensures head != Null ==> IsRing(next, prev, head, ReverseSeq(ns))
    {
      if head == Null {
        return;
      }
      ghost var all := [head] + ns;
      ghost var k := 0;
      ghost var done: seq<int> := [];
      var now := head;
      while true
        invariant Valid() && value == old(value) && queue == old(queue) && size == old(size)
        invariant 0 <= k <= |ns| && now == Cell(head, ns, k) && done == all[..k]
        invariant Swapped(old(next), old(prev), done)
        decreases |ns| - k
      {
        CellFresh(old(next), old(prev), head, ns, k);
        RingLinks(old(next), old(prev), head, ns, k);
        var tmp := SwapLinks(now, old(next), old(prev), done);
        done := done + [now];
        now := tmp;
        if now == head {
          SuccIsHead(old(next), old(prev), head, ns, k);
          assert done == all;
          break;
        }
        k := k + 1;
      }
      RingSwapped(old(next), old(prev), next, prev, head, ns);
    }

    /** MergeInv on the current tables. */
    ghost predicate MergeState(head: int, another: int, descend: bool, xs: seq<int>, ys: seq<int>,
                               i: nat, j: nat, m: seq<int>, h1: int, h2: int, tail: int,
                               nx0: seq<int>, pv0: seq<int>, val: seq<string>)
      reads this
    {
      && Valid() && value == val
      && MergeInv(next, prev, head, another, descend, xs, ys, i, j, m, h1, h2, tail, nx0, pv0, val)
    }

    /**
     * One round of q_merge_two's first loop: the front node that goes first
     * is linked after *indirect, and its list's cursor moves on.
     */
    method MergeStep(head: int, another: int, descend: bool, h1: int, h2: int, tail: int,
                     ghost xs: seq<int>, ghost ys: seq<int>, ghost i: nat, ghost j: nat, ghost m: seq<int>,
                     ghost nx0: seq<int>, ghost pv0: seq<int>, ghost val: seq<string>)
      returns (a1: int, a2: int, t2: int, ghost i2: nat, ghost j2: nat, ghost m2: seq<int>)
      requires MergeState(head, another, descend, xs, ys, i, j, m, h1, h2, tail, nx0, pv0, val)
      requires h1 != head && h2 != another
      modifies this
      ensures MergeState(head, another, descend, xs, ys, i2, j2, m2, a1, a2, t2, nx0, pv0, val)
      ensures i2 + j2 == i + j + 1
      ensures queue == old(queue) && size == old(size)
    {
      var take := Less(value[h1], value[h2]) != descend;
      var x := if take then h1 else h2;
      assert h1 == xs[i] && h2 == ys[j];
      MergeTake(head, another, descend, xs, ys, i, j, m, nx0, pv0, val);
      MergeLink(next, prev, head, another, xs, ys, i, j, m, h1, h2, tail, nx0, pv0, x, take);
      i2, j2 := if take then i + 1 else i, if take then j else j + 1;
      m2 := m + [x];
      prev := prev[x := tail];
      next := next[tail := x];
      t2 := x;
      if take {
        a1, a2 := next[h1], h2;
      } else {
        a1, a2 := h1, next[h2];
      }
    }

    /**
     * q_merge_two: merges the list on another into the list on head, taking
     * at each step the front node that goes first in direction descend (the
     * one of head's list when strcmp says it is smaller, ascending, or not
     * smaller, descending), and leaves another empty. Both lists are
     * sentinel-headed rings; two NULL sentinels are a no-op.
     */
    method MergeTwo(head: int, another: int, descend: bool, ghost xs: seq<int>, ghost ys: seq<int>)
      requires Valid()
      requires (head == Null && another == Null) || TwoRings(next, prev, head, another, xs, ys)
      modifies this
      ensures Valid() && |next| == old(|next|) && value == old(value) && queue == old(queue) && size == old(size)
      ensures head == Null ==> next == old(next) && prev == old(prev)
      ensures head != Null && xs == [] && ys == [] ==>
        next == old(next)[head := another][another := another]
        && prev == old(prev)[head := another][another := another]
      ensures head != Null && (xs != [] || ys != []) ==>
        && InRange(xs, |value|) && InRange(ys, |value|)
        && IsRing(next, prev, head, MergeBy(xs, ys, value, descend)) && IsRing(next, prev, another, [])
        && Untouched(old(next), old(prev), next, prev, [head, another] + xs + ys)
    {
      if head == Null && another == Null {
        return;
      }
      ghost var val, nx0, pv0 := value, next, prev;
      assert InRange(xs, |val|) && InRange(ys, |val|);
      ghost var M := MergeBy(xs, ys, val, descend);
      MergeStart(next, prev, head, another, descend, xs, ys, val);
      var h1, h2, tail := next[head], next[another], head;
      ghost var i: nat, j: nat, m: seq<int> := 0, 0, [];
      while h1 != head && h2 != another
        invariant MergeState(head, another, descend, xs, ys, i, j, m, h1, h2, tail, nx0, pv0, val)
        invariant queue == old(queue) && size == old(size)
        invariant xs == [] && ys == [] ==> next == nx0 && prev == pv0
        decreases |xs| + |ys| - i - j
      {
        h1, h2, tail, i, j, m := MergeStep(head, another, descend, h1, h2, tail, xs, ys, i, j, m, nx0, pv0, val);
      }
      MergeFinish(head, another, descend, h1, h2, tail, xs, ys, i, j, m, nx0, pv0, val);
    }

    /**
     * The code of q_merge_two after its first loop: pick the list not used
     * up and the sentinel the walk stops at (`node`), then splice.
     */
    method MergeFinish(head: int, another: int, descend: bool, h1: int, h2: int, tail: int,
                       ghost xs: seq<int>, ghost ys: seq<int>, ghost i: nat, ghost j: nat, ghost m: seq<int>,
                       ghost nx0: seq<int>, ghost pv0: seq<int>, ghost val: seq<string>)
      requires MergeState(head, another, descend, xs, ys, i, j, m, h1, h2, tail, nx0, pv0, val)
      requires h1 == head || h2 == another
      modifies this
      ensures Valid() && |next| == old(|next|) && value == old(value) && queue == old(queue) && size == old(size)
      ensures xs == [] && ys == [] ==>
        next == old(next)[head := another][another := another]
        && prev == old(prev)[head := another][another := another]
      ensures xs != [] || ys != [] ==>
        && IsRing(next, prev, head, MergeBy(xs, ys, val, descend)) && IsRing(next, prev, another, [])
        && Untouched(nx0, pv0, next, prev, [head, another] + xs + ys)
    {
      ghost var M := MergeBy(xs, ys, val, descend);
      var stop := if h1 == head then another else head;
      var first := if h1 == head then h2 else h1;
      ghost var s := if h1 == head then another else head;
      ghost var zs := if h1 == head then ys else xs;
      ghost var k0 := if h1 == head then j else i;
      WalkSetup(next, prev, head, another, descend, xs, ys, i, j, m, h1, h2, tail, nx0, pv0, val, s, zs, k0);
      if k0 < |zs| {
        SpliceSetup(next, prev, head, another, descend, xs, ys, i, j, m, h1, h2, tail, nx0, pv0, val, s, zs, k0);
      }
      MergeSplice(head, another, tail, first, stop, s, zs, k0, m, M, nx0, pv0);
      if k0 < |zs| {
        MergeCover(xs, ys, val, descend, head, another);
        UntouchedWiden(nx0, pv0, next, prev, [head, another] + M, [head, another] + xs + ys);
      }
    }

    /**
     * The rest of q_merge_two after its first loop: first, the front of the
     * list not used up, is linked after *indirect (tail), the walk finds the
     * last node, which is linked back to head, and another is made an empty
     * list (INIT_LIST_HEAD).
     */
    method MergeSplice(head: int, another: int, tail: int, first: int, stop: int,
                       ghost s: int, ghost zs: seq<int>, ghost k0: nat, ghost m: seq<int>, ghost ms: seq<int>,
                       ghost nx0: seq<int>, ghost pv0: seq<int>)
      requires Valid() && WalkReady(next, tail, first, s, zs, k0) && stop == s
      requires 0 <= head < |next| && 0 <= another < |next| && head != another
      requires k0 == |zs| ==> tail == head && s == another
      requires k0 < |zs| ==> SpliceReady(next, prev, nx0, pv0, head, another, m, ms, tail, s, zs, k0)
      modifies this
      ensures Valid() && |next| == old(|next|) && value == old(value) && queue == old(queue) && size == old(size)
      ensures k0 == |zs| ==>
        next == old(next)[head := another][another := another]
        && prev == old(prev)[head := another][another := another]
      ensures k0 < |zs| ==>
        && IsRing(next, prev, head, ms) && IsRing(next, prev, another, [])
        && Untouched(nx0, pv0, next, prev, [head, another] + ms)
    {
      ghost var nxA, pvA := next, prev;
      assert 0 <= first < |next| by {
        if k0 < |zs| {
          assert zs[k0] in zs;
        }
      }
      prev := prev[first := tail];
      next := next[tail := first];
      var last := MergeWalk(first, stop, tail, s, zs, k0, nxA);
      next := next[last := head];
      prev := prev[head := last];
      next := next[another := another];
      prev := prev[another := another];
      if k0 < |zs| {
        SpliceRing(nxA, pvA, nx0, pv0, head, another, m, ms, tail, s, zs, k0);
        SpliceFrame(nxA, pvA, nx0, pv0, head, another, m, ms, tail, s, zs, k0);
      } else {
        assert next == nxA[head := another][another := another];
        assert prev == pvA[head := another][another := another];
      }
    }

    /**
     * q_merge_two's second loop: from first, follow next until the node
     * whose next is stop; that is the last node of zs, or first itself when
     * nothing is left.
     */
    method MergeWalk(first: int, stop: int, tail: int, ghost s: int, ghost zs: seq<int>, ghost k0: nat,
                     ghost nxA: seq<int>)
      returns (last: int)
      requires WalkReady(nxA, tail, first, s, zs, k0) && stop == s
      requires Valid() && |next| == |nxA| && next == nxA[tail := first]
      ensures 0 <= last < |next| && next[last] == stop
      ensures last == if k0 == |zs| then s else zs[|zs| - 1]
    {
      assert forall w :: k0 <= w < |zs| ==> zs[w] in zs[k0..];
      last := first;
      ghost var w := k0;
      while next[last] != stop
        invariant k0 <= w <= |zs| && last == Succ(s, zs, w)
        invariant w < |zs| || k0 == |zs|
        decreases |zs| - w
      {
        last := next[last];
        w := w + 1;
      }
      if k0 < |zs| {
        assert Succ(s, zs, w + 1) == s;
        assert w + 1 == |zs|;
      }
    }

    /** The invariant of q_merge, on this heap. */
    ghost predicate MergeAllState(head: int, descend: bool, ctxs: seq<int>, qs0: seq<seq<int>>, s0: seq<int>,
                                  nx0: seq<int>, pv0: seq<int>, rs: seq<seq<int>>)
      reads this
    {
      Valid() && MergeAllInv(next, prev, queue, size, value, head, descend, ctxs, qs0, s0, nx0, pv0, rs)
    }

    /**
     * The scans of q_merge: from the context at position k of the chain,
     * step forward past every context whose queue q_size finds empty.
     * Stops at the first non-empty queue, or at the chain head.
     */
    method Scan(from: int, head: int, ghost ctxs: seq<int>, ghost qs: seq<seq<int>>, ghost k: nat)
      returns (pos: int, ghost k2: nat)
      requires Valid() && Group(next, prev, queue, head, ctxs, qs) && k <= |ctxs| && from == Succ(head, ctxs, k)
      ensures k <= k2 <= |ctxs| && pos == Succ(head, ctxs, k2) && (pos == head <==> k2 == |ctxs|)
      ensures forall t :: k <= t < k2 ==> qs[t] == []
      ensures k2 < |ctxs| ==> qs[k2] != []
    {
      pos, k2 := from, k;
      while pos != head
        invariant k <= k2 <= |ctxs| && pos == Succ(head, ctxs, k2)
        invariant forall t :: k <= t < k2 ==> qs[t] == []
        decreases |ctxs| - k2
      {
        RingAt(next, prev, head, ctxs, k2);
        assert IsRing(next, prev, queue[pos], qs[k2]);
        var n := Size(queue[pos], qs[k2]);
        if n != 0 {
          break;
        }
        pos, k2 := next[pos], k2 + 1;
      }
      if k2 < |ctxs| {
        RingAt(next, prev, head, ctxs, k2);
      }
    }

    /**
     * The body of q_merge's LOOP: q_merge_two of the queues of contexts
     * cur (position a) and nxt (position b), then nxt's size field set
     * to 0.
     */
    method MergePair(head: int, cur: int, nxt: int, descend: bool, ghost ctxs: seq<int>, ghost qs0: seq<seq<int>>,
                     ghost s0: seq<int>, ghost nx0: seq<int>, ghost pv0: seq<int>, ghost rs: seq<seq<int>>,
                     ghost a: nat, ghost b: nat)
      returns (ghost rs2: seq<seq<int>>)
      requires MergeAllState(head, descend, ctxs, qs0, s0, nx0, pv0, rs)
      requires a < b < |ctxs| && cur == ctxs[a] && nxt == ctxs[b] && rs[b] != [] && (a == 0 || rs[a] != [])
      modifies this
      ensures MergeAllState(head, descend, ctxs, qs0, s0, nx0, pv0, rs2)
      ensures value == old(value) && queue == old(queue)
      ensures Busy(rs2[1..]) < Busy(rs[1..])
    {
      GroupPair(next, prev, queue, head, ctxs, rs, a, b);
      ghost var nx1, pv1 := next, prev;
      MergeTwo(queue[cur], queue[nxt], descend, rs[a], rs[b]);
      size := size[nxt := 0];
      MergeAllStep(nx1, pv1, next, prev, queue, old(size), value, head, descend, ctxs, qs0, s0, nx0, pv0, rs, a, b);
      rs2 := rs[a := MergeBy(rs[a], rs[b], value, descend)][b := []];
    }

    /**
     * q_merge(head, descend) on the chain head of contexts ctxs whose
     * queues hold qs: 0 for a NULL chain; otherwise every later queue is
     * merged into the first, each merged-away context's size field set to
     * 0, and the first context's size set to and returned as the number of
     * elements. Sorted inputs give a sorted result.
     */
    method Merge(head: int, descend: bool, ghost ctxs: seq<int>, ghost qs: seq<seq<int>>)
      returns (r: int, ghost rs: seq<seq<int>>)
      requires Valid()
      requires head != Null ==> Group(next, prev, queue, head, ctxs, qs) && ctxs != []
      modifies this
      ensures Valid() && |next| == old(|next|) && value == old(value) && queue == old(queue)
      ensures head == Null ==> r == 0 && next == old(next) && prev == old(prev) && size == old(size)
      ensures head != Null ==>
        && Group(next, prev, queue, head, ctxs, rs) && |rs| == |qs|
        && (forall k :: 1 <= k < |rs| ==> rs[k] == [])
        && multiset(rs[0]) == multiset(Concat(qs))
        && r == |Concat(qs)| && size[ctxs[0]] == r
        && (forall k :: 1 <= k < |ctxs| ==> size[ctxs[k]] == (if qs[k] != [] then 0 else old(size)[ctxs[k]]))
        && (forall z :: 0 <= z < |size| && z !in ctxs ==> size[z] == old(size)[z])
        && (AllSorted(qs, value, descend) ==> Sorted(Values(rs[0], value), descend))
        && Untouched(old(next), old(prev), next, prev, Heads(queue, ctxs) + Concat(qs))
    {
      if head == Null {
        return 0, qs;
      }
      ghost var s0, nx0, pv0 := size, next, prev;
      MergeAllStart(next, prev, queue, size, value, head, descend, ctxs, qs);
      rs := qs;
      while true
        invariant MergeAllState(head, descend, ctxs, qs, s0, nx0, pv0, rs)
        invariant value == old(value) && queue == old(queue)
        decreases Busy(rs[1..])
      {
        var done;
        done, rs := MergeRound(head, descend, ctxs, qs, s0, nx0, pv0, rs);
        if done {
          break;
        }
      }
      r := MergeEnd(head, descend, ctxs, qs, s0, nx0, pv0, rs);
    }

    /**
     * One pass of q_merge's outer loop: find the first non-empty queue after
     * the first context; if there is none, report done; otherwise merge it
     * into the first and go on merging pairs of non-empty queues (LOOP)
     * until a scan reaches the chain head.
     */
    method MergeRound(head: int, descend: bool, ghost ctxs: seq<int>, ghost qs0: seq<seq<int>>,
                      ghost s0: seq<int>, ghost nx0: seq<int>, ghost pv0: seq<int>, ghost rs: seq<seq<int>>)
      returns (done: bool, ghost rs2: seq<seq<int>>)
      requires MergeAllState(head, descend, ctxs, qs0, s0, nx0, pv0, rs)
      modifies this
      ensures MergeAllState(head, descend, ctxs, qs0, s0, nx0, pv0, rs2)
      ensures value == old(value) && queue == old(queue)
      ensures done ==> forall t :: 1 <= t < |ctxs| ==> rs2[t] == []
      ensures !done ==> Busy(rs2[1..]) < Busy(rs[1..])
    {
      rs2 := rs;
      var more, cur, nxt;
      ghost var a: nat, b: nat;
      more, cur, a, nxt, b := FirstPair(head, ctxs, rs2);
      if !more {
        return true, rs2;
      }
      while true
        invariant MergeAllState(head, descend, ctxs, qs0, s0, nx0, pv0, rs2)
        invariant value == old(value) && queue == old(queue) && |rs2| == |ctxs|
        invariant a < b < |ctxs| && cur == ctxs[a] && nxt == ctxs[b] && rs2[b] != [] && (a == 0 || rs2[a] != [])
        invariant Busy(rs2[1..]) <= Busy(rs[1..])
        decreases Busy(rs2[1..])
      {
        rs2 := MergePair(head, cur, nxt, descend, ctxs, qs0, s0, nx0, pv0, rs2, a, b);
        more, cur, a, nxt, b := NextPair(head, nxt, ctxs, rs2, b);
        if !more {
          break;
        }
      }
      done := false;
    }

    /**
     * The start of a pass of q_merge: cur is the first context and nxt the
     * first context after it whose queue is not empty; more is false when
     * there is none.
     */
    method FirstPair(head: int, ghost ctxs: seq<int>, ghost qs: seq<seq<int>>)
      returns (more: bool, cur: int, ghost a: nat, nxt: int, ghost b: nat)
      requires Valid() && Group(next, prev, queue, head, ctxs, qs) && ctxs != []
      ensures more ==> a < b < |ctxs| && cur == ctxs[a] && nxt == ctxs[b] && qs[b] != [] && a == 0
      ensures more ==> forall t :: 1 <= t < b ==> qs[t] == []
      ensures !more ==> forall t :: 1 <= t < |ctxs| ==> qs[t] == []
    {
      cur, a := next[head], 0;
      RingAt(next, prev, head, ctxs, 0);
      nxt, b := Scan(next[cur], head, ctxs, qs, 1);
      more := nxt != head;
    }

    /**
     * The scans after a merge in q_merge: cur is the first context after nxt
     * (position b) whose queue is not empty, and nxt2 the first such after
     * cur; more is false when either scan reaches the chain head, so that
     * at most one later queue is not empty.
     */
    method NextPair(head: int, nxt: int, ghost ctxs: seq<int>, ghost qs: seq<seq<int>>, ghost b: nat)
      returns (more: bool, cur: int, ghost a: nat, nxt2: int, ghost b2: nat)
      requires Valid() && Group(next, prev, queue, head, ctxs, qs) && b < |ctxs| && nxt == ctxs[b]
      ensures more ==> b < a < b2 < |ctxs| && cur == ctxs[a] && nxt2 == ctxs[b2] && qs[a] != [] && qs[b2] != []
      ensures more ==> (forall t :: b < t < a ==> qs[t] == []) && (forall t :: a < t < b2 ==> qs[t] == [])
      ensures !more ==>
        || (forall t :: b < t < |ctxs| ==> qs[t] == [])
        || (b < a < |ctxs| && qs[a] != [] && (forall t :: b < t < a ==> qs[t] == [])
            && forall t :: a < t < |ctxs| ==> qs[t] == [])
    {
      RingAt(next, prev, head, ctxs, b);
      cur, a := Scan(next[nxt], head, ctxs, qs, b + 1);
      if cur == head {
        return false, cur, a, cur, a;
      }
      RingAt(next, prev, head, ctxs, a);
      nxt2, b2 := Scan(next[cur], head, ctxs, qs, a + 1);
      more := nxt2 != head;
    }

    /**
     * The return of q_merge: the first context's size field set to the
     * q_size of its queue, which now holds every element.
     */
    method MergeEnd(head: int, descend: bool, ghost ctxs: seq<int>, ghost qs0: seq<seq<int>>,
                    ghost s0: seq<int>, ghost nx0: seq<int>, ghost pv0: seq<int>, ghost rs: seq<seq<int>>)
      returns (r: int)
      requires MergeAllState(head, descend, ctxs, qs0, s0, nx0, pv0, rs)
      requires forall t :: 1 <= t < |ctxs| ==> rs[t] == []
      modifies this
      ensures Valid() && next == old(next) && prev == old(prev) && value == old(value) && queue == old(queue)
      ensures r == |Concat(qs0)| && size == old(size)[ctxs[0] := r]
      ensures Group(next, prev, queue, head, ctxs, rs) && |rs| == |qs0|
      ensures multiset(rs[0]) == multiset(Concat(qs0))
      ensures forall k :: 1 <= k < |ctxs| ==> size[ctxs[k]] == (if qs0[k] != [] then 0 else s0[ctxs[k]])
      ensures forall z :: 0 <= z < |size| && z !in ctxs ==> size[z] == s0[z]
      ensures AllSorted(qs0, value, descend) ==> InRange(rs[0], |value|) && Sorted(Values(rs[0], value), descend)
      ensures Untouched(nx0, pv0, next, prev, Heads(queue, ctxs) + Concat(qs0))
    {
      MergeAllEnd(next, prev, queue, size, value, head, descend, ctxs, qs0, s0, nx0, pv0, rs);
      var first := next[head];
      r := Size(queue[first], rs[0]);
      MergeEndSizes(size, ctxs, qs0, s0, rs, r);
      size := size[first := r];
    }
  }
}
