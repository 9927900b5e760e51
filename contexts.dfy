/**
 * The chain of queue_contex_t that q_merge works on. The chain is a ring
 * of context nodes on its own sentinel; each context points (its q field,
 * the table qh) at the sentinel of one queue. A group is that picture with
 * no node serving two roles.
 */
module Contexts {
  import opened Strings
  import opened Spec
  import opened Ring

  /** The sentinels of the queues of the contexts ctxs, in chain order. */
  function Heads(qh: seq<int>, ctxs: seq<int>): (r: seq<int>)
    requires InRange(ctxs, |qh|)
    ensures |r| == |ctxs| && forall k :: 0 <= k < |ctxs| ==> r[k] == qh[ctxs[k]]
  {
    if ctxs == [] then [] else [qh[ctxs[0]]] + Heads(qh, ctxs[1..])
  }

  /** A queue (sentinel h, elements ns) shares no node with the chain. */
  ghost predicate Apart(head: int, ctxs: seq<int>, h: int, ns: seq<int>)
  {
    h != head && h !in ctxs && head !in ns && Disjoint(ns, ctxs)
  }

  /** Two queues share no node. */
  ghost predicate Separate(h: int, ns: seq<int>, h2: int, ns2: seq<int>)
  {
    h != h2 && h !in ns2 && h2 !in ns && Disjoint(ns, ns2)
  }

  /**
   * The contexts ctxs form a ring on head; context ctxs[k] owns the queue
   * whose sentinel is qh[ctxs[k]] and whose elements are qs[k]; the chain
   * and the queues are pairwise apart.
   */
  ghost predicate Group(nx: seq<int>, pv: seq<int>, qh: seq<int>, head: int, ctxs: seq<int>, qs: seq<seq<int>>)
  {
    && IsRing(nx, pv, head, ctxs) && |qh| == |nx| && |qs| == |ctxs|
    && (forall k :: 0 <= k < |ctxs| ==> IsRing(nx, pv, qh[ctxs[k]], qs[k]))
    && (forall k :: 0 <= k < |ctxs| ==> Apart(head, ctxs, qh[ctxs[k]], qs[k]))
    && (forall k, l :: 0 <= k < |ctxs| && 0 <= l < |ctxs| && k != l ==>
          Separate(qh[ctxs[k]], qs[k], qh[ctxs[l]], qs[l]))
  }

  /** Every queue of the group is sorted in direction descend. */
  ghost predicate AllSorted(qs: seq<seq<int>>, val: seq<string>, descend: bool)
  {
    forall k :: 0 <= k < |qs| ==> InRange(qs[k], |val|) && Sorted(Values(qs[k], val), descend)
  }

  lemma {:induction false} ConcatIn(qs: seq<seq<int>>, k: nat, z: int)
    requires k < |qs| && z in qs[k]
    ensures z in Concat(qs)
  {
    if k > 0 {
      ConcatIn(qs[1..], k - 1, z);
    }
  }

  /** Two queues of a group meet the precondition of q_merge_two. */
  lemma GroupPair(nx: seq<int>, pv: seq<int>, qh: seq<int>, head: int, ctxs: seq<int>, qs: seq<seq<int>>,
                  a: nat, b: nat)
    requires Group(nx, pv, qh, head, ctxs, qs) && a < |ctxs| && b < |ctxs| && a != b
    ensures 0 <= ctxs[a] < |qh| && 0 <= ctxs[b] < |qh|
    ensures TwoRings(nx, pv, qh[ctxs[a]], qh[ctxs[b]], qs[a], qs[b])
  {
    assert Separate(qh[ctxs[a]], qs[a], qh[ctxs[b]], qs[b]);
  }

  /** q_merge_two's inputs: two rings on distinct sentinels with no node in common. */
  ghost predicate TwoRings(nx: seq<int>, pv: seq<int>, head: int, another: int, xs: seq<int>, ys: seq<int>)
  {
    && IsRing(nx, pv, head, xs) && IsRing(nx, pv, another, ys)
    && head != another && head !in ys && another !in xs && Disjoint(xs, ys)
  }

  /**
   * Merging queue b into queue a (the new elements ms coming from the two,
   * only their nodes relinked) keeps the chain and every other queue, and
   * leaves a group.
   */
  lemma GroupMerge(nx: seq<int>, pv: seq<int>, nx2: seq<int>, pv2: seq<int>, qh: seq<int>, head: int,
                   ctxs: seq<int>, qs: seq<seq<int>>, a: nat, b: nat, ms: seq<int>)
    requires Group(nx, pv, qh, head, ctxs, qs) && a < |ctxs| && b < |ctxs| && a != b
    requires |nx2| == |nx| && |pv2| == |pv|
    requires IsRing(nx2, pv2, qh[ctxs[a]], ms) && IsRing(nx2, pv2, qh[ctxs[b]], [])
    requires Untouched(nx, pv, nx2, pv2, [qh[ctxs[a]], qh[ctxs[b]]] + qs[a] + qs[b])
    requires forall z :: z in ms ==> z in qs[a] || z in qs[b]
    ensures Group(nx2, pv2, qh, head, ctxs, qs[a := ms][b := []])
  {
    var qs2 := qs[a := ms][b := []];
    var F := [qh[ctxs[a]], qh[ctxs[b]]] + qs[a] + qs[b];
    GroupMergeRings(nx, pv, nx2, pv2, qh, head, ctxs, qs, a, b, ms);
    forall k | 0 <= k < |ctxs| ensures Apart(head, ctxs, qh[ctxs[k]], qs2[k]) {
      assert Apart(head, ctxs, qh[ctxs[k]], qs[k]);
      if k == a {
        assert Apart(head, ctxs, qh[ctxs[b]], qs[b]);
      }
    }
    forall k | 0 <= k < |ctxs| ensures qh[ctxs[k]] !in qs[k] {
      assert IsRing(nx, pv, qh[ctxs[k]], qs[k]);
    }
    forall k, l | 0 <= k < |ctxs| && 0 <= l < |ctxs| && k != l
      ensures Separate(qh[ctxs[k]], qs2[k], qh[ctxs[l]], qs2[l])
    {
      GroupMergeSeparate(qh, ctxs, qs, a, b, ms, k, l);
    }
  }

  /** The ring part of GroupMerge. */
  lemma GroupMergeRings(nx: seq<int>, pv: seq<int>, nx2: seq<int>, pv2: seq<int>, qh: seq<int>, head: int,
                        ctxs: seq<int>, qs: seq<seq<int>>, a: nat, b: nat, ms: seq<int>)
    requires Group(nx, pv, qh, head, ctxs, qs) && a < |ctxs| && b < |ctxs| && a != b
    requires |nx2| == |nx| && |pv2| == |pv|
    requires IsRing(nx2, pv2, qh[ctxs[a]], ms) && IsRing(nx2, pv2, qh[ctxs[b]], [])
    requires Untouched(nx, pv, nx2, pv2, [qh[ctxs[a]], qh[ctxs[b]]] + qs[a] + qs[b])
    ensures IsRing(nx2, pv2, head, ctxs)
    ensures forall k :: 0 <= k < |ctxs| ==> IsRing(nx2, pv2, qh[ctxs[k]], qs[a := ms][b := []][k])
  {
    var qs2 := qs[a := ms][b := []];
    var F := [qh[ctxs[a]], qh[ctxs[b]]] + qs[a] + qs[b];
    assert Apart(head, ctxs, qh[ctxs[a]], qs[a]) && Apart(head, ctxs, qh[ctxs[b]], qs[b]);
    assert Disjoint(ctxs, F) by {
      forall z | z in ctxs ensures z !in F {
        assert z !in qs[a] && z !in qs[b];
      }
    }
    RingFrameUntouched(nx, pv, nx2, pv2, F, head, ctxs);
    forall k | 0 <= k < |ctxs| ensures IsRing(nx2, pv2, qh[ctxs[k]], qs2[k]) {
      if k != a && k != b {
        var h := qh[ctxs[k]];
        assert Separate(h, qs[k], qh[ctxs[a]], qs[a]) && Separate(h, qs[k], qh[ctxs[b]], qs[b]);
        assert Disjoint(qs[k], F) by {
          forall z | z in qs[k] ensures z !in F {
            assert z !in qs[a] && z !in qs[b];
          }
        }
        RingFrameUntouched(nx, pv, nx2, pv2, F, h, qs[k]);
      }
    }
  }

  /** The separation part of GroupMerge, for one pair of queues. */
  lemma GroupMergeSeparate(qh: seq<int>, ctxs: seq<int>, qs: seq<seq<int>>, a: nat, b: nat, ms: seq<int>,
                           k: nat, l: nat)
    requires InRange(ctxs, |qh|) && |qs| == |ctxs| && a < |ctxs| && b < |ctxs| && a != b
    requires forall k, l :: 0 <= k < |ctxs| && 0 <= l < |ctxs| && k != l ==>
               Separate(qh[ctxs[k]], qs[k], qh[ctxs[l]], qs[l])
    requires forall k :: 0 <= k < |ctxs| ==> qh[ctxs[k]] !in qs[k]
    requires forall z :: z in ms ==> z in qs[a] || z in qs[b]
    requires k < |ctxs| && l < |ctxs| && k != l
    ensures var qs2 := qs[a := ms][b := []];
      Separate(qh[ctxs[k]], qs2[k], qh[ctxs[l]], qs2[l])
  {
    var qs2 := qs[a := ms][b := []];
    assert Separate(qh[ctxs[k]], qs[k], qh[ctxs[l]], qs[l]);
    assert qh[ctxs[a]] !in qs[a] && qh[ctxs[b]] !in qs[b];
    assert Separate(qh[ctxs[a]], qs[a], qh[ctxs[b]], qs[b]);
    if k == a && l != b {
      assert Separate(qh[ctxs[b]], qs[b], qh[ctxs[l]], qs[l]);
    } else if l == a && k != b {
      assert Separate(qh[ctxs[k]], qs[k], qh[ctxs[b]], qs[b]);
    }
  }

  /** Replacing queue a by ms and queue b by nothing keeps the pooled elements when ms is their merge. */
  lemma ConcatMerge(qs: seq<seq<int>>, a: nat, b: nat, ms: seq<int>)
    requires a < |qs| && b < |qs| && a != b
    requires multiset(ms) == multiset(qs[a]) + multiset(qs[b])
    ensures multiset(Concat(qs[a := ms][b := []])) == multiset(Concat(qs))
  {
    var c0, c1, c2 := multiset(Concat(qs)), multiset(Concat(qs[a := ms])), multiset(Concat(qs[a := ms][b := []]));
    ConcatUpdate(qs, a, ms);
    ConcatUpdate(qs[a := ms], b, []);
    assert qs[a := ms][b] == qs[b];
    assert c1 + multiset(qs[a]) == (c0 + multiset(qs[b])) + multiset(qs[a]);
    Cancel(c1, c0 + multiset(qs[b]), multiset(qs[a]));
    assert c2 + multiset(qs[b]) == c0 + multiset(qs[b]);
    Cancel(c2, c0, multiset(qs[b]));
  }

  lemma Cancel(x: multiset<int>, y: multiset<int>, z: multiset<int>)
    requires x + z == y + z
    ensures x == y
  {
    forall e ensures x[e] == y[e] {
      assert (x + z)[e] == (y + z)[e];
    }
  }

  /** Emptying queue b (b >= 1) after merging it into a non-empty one leaves exactly one fewer busy queue after the first. */
  lemma BusyMerge(qs: seq<seq<int>>, a: nat, b: nat, ms: seq<int>)
    requires a < |qs| && 1 <= b < |qs| && a != b && qs[b] != [] && ms != []
    requires a == 0 || qs[a] != []
    ensures Busy(qs[a := ms][b := []][1..]) == Busy(qs[1..]) - 1
  {
    var t := qs[1..];
    if a == 0 {
      assert qs[a := ms][b := []][1..] == t[b - 1 := []];
      BusyUpdate(t, b - 1, []);
    } else {
      assert qs[a := ms][1..] == t[a - 1 := ms];
      assert qs[a := ms][b := []][1..] == t[a - 1 := ms][b - 1 := []];
      BusyUpdate(t, a - 1, ms);
      BusyUpdate(t[a - 1 := ms], b - 1, []);
    }
  }

  /** Merging two sorted queues keeps every queue sorted. */
  lemma SortedMerge(qs: seq<seq<int>>, val: seq<string>, descend: bool, a: nat, b: nat)
    requires AllSorted(qs, val, descend) && a < |qs| && b < |qs| && a != b
    ensures InRange(qs[a], |val|) && InRange(qs[b], |val|)
    ensures AllSorted(qs[a := MergeBy(qs[a], qs[b], val, descend)][b := []], val, descend)
  {
    MergeBySorted(qs[a], qs[b], val, descend);
    assert Values([], val) == [];
  }

  // ------------------------------------------------------------ q_merge

  /**
   * What q_merge keeps while it merges, against the state it started from
   * (queues qs0, size fields s0, links nx0/pv0): the chain and the queues
   * form a group now holding queues rs; their elements are those it started
   * with; a later context holds elements only when it did at the start;
   * sorted inputs stay sorted; the size field of a later context reads 0
   * once its queue has been merged away and is untouched otherwise; and no
   * link outside the queues changes.
   */
  ghost predicate MergeAllInv(nx: seq<int>, pv: seq<int>, qh: seq<int>, sz: seq<int>, val: seq<string>,
                              head: int, descend: bool, ctxs: seq<int>, qs0: seq<seq<int>>, s0: seq<int>,
                              nx0: seq<int>, pv0: seq<int>, rs: seq<seq<int>>)
  {
    && Group(nx, pv, qh, head, ctxs, rs)
    && |val| == |nx| && |sz| == |nx| && |s0| == |nx| && |qs0| == |ctxs| && ctxs != []
    && multiset(Concat(rs)) == multiset(Concat(qs0))
    && (forall k :: 1 <= k < |rs| && rs[k] != [] ==> qs0[k] != [])
    && (AllSorted(qs0, val, descend) ==> AllSorted(rs, val, descend))
    && (forall k :: 1 <= k < |ctxs| ==>
          sz[ctxs[k]] == (if rs[k] == [] && qs0[k] != [] then 0 else s0[ctxs[k]]))
    && (forall z :: 0 <= z < |sz| && z !in ctxs[1..] ==> sz[z] == s0[z])
    && Untouched(nx0, pv0, nx, pv, Heads(qh, ctxs) + Concat(qs0))
  }

  /** Before the first merge. */
  lemma MergeAllStart(nx: seq<int>, pv: seq<int>, qh: seq<int>, sz: seq<int>, val: seq<string>,
                      head: int, descend: bool, ctxs: seq<int>, qs: seq<seq<int>>)
    requires Group(nx, pv, qh, head, ctxs, qs) && |val| == |nx| && |sz| == |nx| && ctxs != []
    ensures MergeAllInv(nx, pv, qh, sz, val, head, descend, ctxs, qs, sz, nx, pv, qs)
  {
  }

  /**
   * One merge of q_merge: queue b >= 1 (not empty) merged into queue a < b
   * (not empty unless it is the first), then the size field of context b
   * set to 0. The invariant holds for the new queues, and fewer later
   * queues are busy.
   */
  lemma MergeAllStep(nx: seq<int>, pv: seq<int>, nx2: seq<int>, pv2: seq<int>, qh: seq<int>, sz: seq<int>,
                     val: seq<string>, head: int, descend: bool, ctxs: seq<int>, qs0: seq<seq<int>>,
                     s0: seq<int>, nx0: seq<int>, pv0: seq<int>, rs: seq<seq<int>>, a: nat, b: nat)
    requires MergeAllInv(nx, pv, qh, sz, val, head, descend, ctxs, qs0, s0, nx0, pv0, rs)
    requires a < b < |ctxs| && rs[b] != [] && (a == 0 || rs[a] != [])
    requires InRange(rs[a], |val|) && InRange(rs[b], |val|)
    requires |nx2| == |nx| && |pv2| == |pv|
    requires IsRing(nx2, pv2, qh[ctxs[a]], MergeBy(rs[a], rs[b], val, descend))
    requires IsRing(nx2, pv2, qh[ctxs[b]], [])
    requires Untouched(nx, pv, nx2, pv2, [qh[ctxs[a]], qh[ctxs[b]]] + rs[a] + rs[b])
    ensures MergeAllInv(nx2, pv2, qh, sz[ctxs[b] := 0], val, head, descend, ctxs, qs0, s0, nx0, pv0,
                        rs[a := MergeBy(rs[a], rs[b], val, descend)][b := []])
    ensures Busy(rs[a := MergeBy(rs[a], rs[b], val, descend)][b := []][1..]) < Busy(rs[1..])
  {
    var ms := MergeBy(rs[a], rs[b], val, descend);
    var rs2 := rs[a := ms][b := []];
    MergeByPermutation(rs[a], rs[b], val, descend);
    forall z | z in ms ensures z in rs[a] || z in rs[b] {
      assert z in multiset(ms);
    }
    GroupMerge(nx, pv, nx2, pv2, qh, head, ctxs, rs, a, b, ms);
    ConcatMerge(rs, a, b, ms);
    BusyMerge(rs, a, b, ms);
    if AllSorted(qs0, val, descend) {
      SortedMerge(rs, val, descend, a, b);
    }
    MergeAllSizes(sz, ctxs, qs0, s0, rs, a, b, ms, nx, pv, qh, head);
    MergeAllFrame(nx, pv, nx2, pv2, qh, ctxs, qs0, nx0, pv0, rs, a, b);
    MergeAllAssemble(nx2, pv2, qh, sz[ctxs[b] := 0], val, head, descend, ctxs, qs0, s0, nx0, pv0, rs2);
  }

  /** MergeAllInv from its parts. */
  lemma MergeAllAssemble(nx: seq<int>, pv: seq<int>, qh: seq<int>, sz: seq<int>, val: seq<string>,
                         head: int, descend: bool, ctxs: seq<int>, qs0: seq<seq<int>>, s0: seq<int>,
                         nx0: seq<int>, pv0: seq<int>, rs: seq<seq<int>>)
    requires Group(nx, pv, qh, head, ctxs, rs)
    requires |val| == |nx| && |sz| == |nx| && |s0| == |nx| && |qs0| == |ctxs| && ctxs != []
    requires multiset(Concat(rs)) == multiset(Concat(qs0))
    requires forall k :: 1 <= k < |rs| && rs[k] != [] ==> qs0[k] != []
    requires AllSorted(qs0, val, descend) ==> AllSorted(rs, val, descend)
    requires forall k :: 1 <= k < |ctxs| ==>
               sz[ctxs[k]] == (if rs[k] == [] && qs0[k] != [] then 0 else s0[ctxs[k]])
    requires forall z :: 0 <= z < |sz| && z !in ctxs[1..] ==> sz[z] == s0[z]
    requires Untouched(nx0, pv0, nx, pv, Heads(qh, ctxs) + Concat(qs0))
    ensures MergeAllInv(nx, pv, qh, sz, val, head, descend, ctxs, qs0, s0, nx0, pv0, rs)
  {
  }

  /** The size-field half of MergeAllStep. */
  lemma MergeAllSizes(sz: seq<int>, ctxs: seq<int>, qs0: seq<seq<int>>, s0: seq<int>, rs: seq<seq<int>>,
                      a: nat, b: nat, ms: seq<int>, nx: seq<int>, pv: seq<int>, qh: seq<int>, head: int)
    requires IsRing(nx, pv, head, ctxs) && |sz| == |nx| && |s0| == |nx| && |qs0| == |ctxs| && |rs| == |ctxs|
    requires a < b < |ctxs| && rs[b] != [] && (a == 0 || rs[a] != []) && ms != []
    requires forall k :: 1 <= k < |rs| && rs[k] != [] ==> qs0[k] != []
    requires forall k :: 1 <= k < |ctxs| ==>
               sz[ctxs[k]] == (if rs[k] == [] && qs0[k] != [] then 0 else s0[ctxs[k]])
    requires forall z :: 0 <= z < |sz| && z !in ctxs[1..] ==> sz[z] == s0[z]
    ensures var rs2, sz2 := rs[a := ms][b := []], sz[ctxs[b] := 0];
      && (forall k :: 1 <= k < |rs2| && rs2[k] != [] ==> qs0[k] != [])
      && (forall k :: 1 <= k < |ctxs| ==>
            sz2[ctxs[k]] == (if rs2[k] == [] && qs0[k] != [] then 0 else s0[ctxs[k]]))
      && (forall z :: 0 <= z < |sz2| && z !in ctxs[1..] ==> sz2[z] == s0[z])
  {
    var rs2, sz2 := rs[a := ms][b := []], sz[ctxs[b] := 0];
    assert ctxs[b] == ctxs[1..][b - 1];
    forall k | 1 <= k < |ctxs|
      ensures sz2[ctxs[k]] == (if rs2[k] == [] && qs0[k] != [] then 0 else s0[ctxs[k]])
    {
      if k != b {
        assert ctxs[k] != ctxs[b];
      }
    }
  }

  /** The frame half of MergeAllStep: the merge moves only links of the pooled nodes. */
  lemma MergeAllFrame(nx: seq<int>, pv: seq<int>, nx2: seq<int>, pv2: seq<int>, qh: seq<int>, ctxs: seq<int>,
                      qs0: seq<seq<int>>, nx0: seq<int>, pv0: seq<int>, rs: seq<seq<int>>, a: nat, b: nat)
    requires InRange(ctxs, |qh|) && |rs| == |ctxs| && a < |ctxs| && b < |ctxs|
    requires multiset(Concat(rs)) == multiset(Concat(qs0))
    requires Untouched(nx0, pv0, nx, pv, Heads(qh, ctxs) + Concat(qs0))
    requires Untouched(nx, pv, nx2, pv2, [qh[ctxs[a]], qh[ctxs[b]]] + rs[a] + rs[b])
    ensures Untouched(nx0, pv0, nx2, pv2, Heads(qh, ctxs) + Concat(qs0))
  {
    var P := Heads(qh, ctxs) + Concat(qs0);
    var F := [qh[ctxs[a]], qh[ctxs[b]]] + rs[a] + rs[b];
    forall z | z in F ensures z in P {
      if z in rs[a] || z in rs[b] {
        if z in rs[a] {
          ConcatIn(rs, a, z);
        } else {
          ConcatIn(rs, b, z);
        }
        assert z in multiset(Concat(rs));
        assert z in Concat(qs0);
      } else {
        assert Heads(qh, ctxs)[a] == qh[ctxs[a]] && Heads(qh, ctxs)[b] == qh[ctxs[b]];
      }
    }
    UntouchedTrans(nx0, pv0, nx, pv, nx2, pv2, P, F);
  }

  /**
   * When the scan after the first context finds every later queue empty,
   * the first queue holds all the elements, in order when they were sorted.
   */
  lemma MergeAllEnd(nx: seq<int>, pv: seq<int>, qh: seq<int>, sz: seq<int>, val: seq<string>,
                    head: int, descend: bool, ctxs: seq<int>, qs0: seq<seq<int>>, s0: seq<int>,
                    nx0: seq<int>, pv0: seq<int>, rs: seq<seq<int>>)
    requires MergeAllInv(nx, pv, qh, sz, val, head, descend, ctxs, qs0, s0, nx0, pv0, rs)
    requires forall t :: 1 <= t < |ctxs| ==> rs[t] == []
    ensures 0 <= ctxs[0] < |qh| && IsRing(nx, pv, qh[ctxs[0]], rs[0])
    ensures multiset(rs[0]) == multiset(Concat(qs0)) && |rs[0]| == |Concat(qs0)|
    ensures forall k :: 1 <= k < |ctxs| ==> sz[ctxs[k]] == (if qs0[k] != [] then 0 else s0[ctxs[k]])
    ensures AllSorted(qs0, val, descend) ==> InRange(rs[0], |val|) && Sorted(Values(rs[0], val), descend)
  {
    ConcatOnlyFirst(rs);
    assert IsRing(nx, pv, qh[ctxs[0]], rs[0]);
    assert |multiset(rs[0])| == |multiset(Concat(qs0))|;
  }

  /** Setting the first context's size leaves the later contexts' and the rest as the invariant has them. */
  lemma MergeEndSizes(sz: seq<int>, ctxs: seq<int>, qs0: seq<seq<int>>, s0: seq<int>, rs: seq<seq<int>>, v: int)
    requires ctxs != [] && Distinct(ctxs) && InRange(ctxs, |sz|) && |s0| == |sz| && |rs| == |ctxs| && |qs0| == |ctxs|
    requires forall t :: 1 <= t < |ctxs| ==> rs[t] == []
    requires forall k :: 1 <= k < |ctxs| ==>
               sz[ctxs[k]] == (if rs[k] == [] && qs0[k] != [] then 0 else s0[ctxs[k]])
    requires forall z :: 0 <= z < |sz| && z !in ctxs[1..] ==> sz[z] == s0[z]
    ensures forall k :: 1 <= k < |ctxs| ==>
              sz[ctxs[0] := v][ctxs[k]] == (if qs0[k] != [] then 0 else s0[ctxs[k]])
    ensures forall z :: 0 <= z < |sz| && z !in ctxs ==> sz[ctxs[0] := v][z] == s0[z]
  {
    forall k | 1 <= k < |ctxs| ensures sz[ctxs[0] := v][ctxs[k]] == (if qs0[k] != [] then 0 else s0[ctxs[k]]) {
      assert ctxs[k] != ctxs[0];
    }
  }
}
