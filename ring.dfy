/**
 * The intrusive circular doubly-linked list of list.h, as link tables:
 * nx[x] and pv[x] are the next and prev links of node x. A list is a
 * sentinel h and the sequence ns of element nodes after it.
 */
module Ring {
  import opened Spec

  /** The NULL list_head pointer. */
  const Null: int := -1

  /** The node at position p of the cycle h, ns[0], ..., ns[|ns| - 1]. */
  function Cell(h: int, ns: seq<int>, p: nat): int
    requires p <= |ns|
  {
    if p == 0 then h else ns[p - 1]
  }

  /** The node that follows Cell(h, ns, p) on the cycle. */
  function Succ(h: int, ns: seq<int>, p: nat): int
    requires p <= |ns|
  {
    if p < |ns| then ns[p] else h
  }

  /**
   * Closed ring: every node's next is the following node, every node's
   * prev the preceding one, the sentinel sits between the last element and
   * the first, and no node occurs twice.
   */
  ghost predicate IsRing(nx: seq<int>, pv: seq<int>, h: int, ns: seq<int>)
  {
    && |nx| == |pv|
    && 0 <= h < |nx|
    && (forall i :: 0 <= i < |ns| ==> 0 <= ns[i] < |nx| && ns[i] != h)
    && (forall i, j :: 0 <= i < j < |ns| ==> ns[i] != ns[j])
    && nx[h] == (if ns == [] then h else ns[0])
    && pv[h] == (if ns == [] then h else ns[|ns| - 1])
    && (forall i :: 0 <= i < |ns| ==> nx[ns[i]] == (if i + 1 < |ns| then ns[i + 1] else h))
    && (forall i :: 0 <= i < |ns| ==> pv[ns[i]] == (if i == 0 then h else ns[i - 1]))
  }

  /** Links of every node of the old tables outside c are as they were. */
  ghost predicate Untouched(nx: seq<int>, pv: seq<int>, nx2: seq<int>, pv2: seq<int>, c: seq<int>)
  {
    && |nx| <= |nx2| && |pv| <= |pv2|
    && forall x :: 0 <= x < |nx| && x < |pv| && x !in c ==> nx2[x] == nx[x] && pv2[x] == pv[x]
  }

  /** A frame stays a frame for a larger footprint. */
  lemma UntouchedWiden(nx: seq<int>, pv: seq<int>, nx2: seq<int>, pv2: seq<int>, d: seq<int>, c: seq<int>)
    requires Untouched(nx, pv, nx2, pv2, d) && forall x :: x in d ==> x in c
    ensures Untouched(nx, pv, nx2, pv2, c)
  {
  }

  /** Two frames in a row, the second inside the first footprint, make one frame. */
  lemma UntouchedTrans(nx0: seq<int>, pv0: seq<int>, nx1: seq<int>, pv1: seq<int>,
                       nx2: seq<int>, pv2: seq<int>, c: seq<int>, d: seq<int>)
    requires Untouched(nx0, pv0, nx1, pv1, c) && Untouched(nx1, pv1, nx2, pv2, d)
    requires forall x :: x in d ==> x in c
    ensures Untouched(nx0, pv0, nx2, pv2, c)
  {
  }

  /** Rewriting one next link and one prev link inside a larger footprint keeps the frame. */
  lemma UntouchedLink(nx0: seq<int>, pv0: seq<int>, nx: seq<int>, pv: seq<int>, c: seq<int>, d: seq<int>,
                      a: int, va: int, b: int, vb: int)
    requires Untouched(nx0, pv0, nx, pv, c) && forall z :: z in c ==> z in d
    requires 0 <= a < |nx| && 0 <= b < |pv| && a in d && b in d
    ensures Untouched(nx0, pv0, nx[a := va], pv[b := vb], d)
  {
  }

  /** The links of element ns[k] of a ring. */
  lemma RingAt(nx: seq<int>, pv: seq<int>, h: int, ns: seq<int>, k: int)
    requires IsRing(nx, pv, h, ns) && 0 <= k < |ns|
    ensures 0 <= ns[k] < |nx| && ns[k] != h
    ensures nx[ns[k]] == (if k + 1 < |ns| then ns[k + 1] else h)
    ensures pv[ns[k]] == (if k == 0 then h else ns[k - 1])
  {
  }

  lemma RingIntro(nx: seq<int>, pv: seq<int>, h: int, ns: seq<int>)
    requires |nx| == |pv|
    requires 0 <= h < |nx|
    requires forall i :: 0 <= i < |ns| ==> 0 <= ns[i] < |nx| && ns[i] != h
    requires forall i, j :: 0 <= i < j < |ns| ==> ns[i] != ns[j]
    requires nx[h] == (if ns == [] then h else ns[0])
    requires pv[h] == (if ns == [] then h else ns[|ns| - 1])
    requires forall i :: 0 <= i < |ns| ==> nx[ns[i]] == (if i + 1 < |ns| then ns[i + 1] else h)
    requires forall i :: 0 <= i < |ns| ==> pv[ns[i]] == (if i == 0 then h else ns[i - 1])
    ensures IsRing(nx, pv, h, ns)
  {
  }

  /** Two positions of a ring hold the same node only if they are equal. */
  lemma RingDistinct(nx: seq<int>, pv: seq<int>, h: int, ns: seq<int>, k: int, l: int)
    requires IsRing(nx, pv, h, ns) && 0 <= k < |ns| && 0 <= l < |ns|
    ensures ns[k] == ns[l] <==> k == l
  {
    if k < l {
      assert ns[k] != ns[l];
    } else if l < k {
      assert ns[l] != ns[k];
    }
  }

  /** The cycle positions of a ring hold distinct nodes. */
  lemma CellDistinct(nx: seq<int>, pv: seq<int>, h: int, ns: seq<int>, k: nat, l: nat)
    requires IsRing(nx, pv, h, ns) && k <= |ns| && l <= |ns|
    ensures 0 <= Cell(h, ns, k) < |nx|
    ensures Cell(h, ns, k) == Cell(h, ns, l) <==> k == l
  {
    if k > 0 && l > 0 {
      RingDistinct(nx, pv, h, ns, k - 1, l - 1);
    } else if k > 0 {
      RingAt(nx, pv, h, ns, k - 1);
    } else if l > 0 {
      RingAt(nx, pv, h, ns, l - 1);
    }
  }

  /** Reading the links of a ring at a cycle position. */
  lemma RingLinks(nx: seq<int>, pv: seq<int>, h: int, ns: seq<int>, p: nat)
    requires IsRing(nx, pv, h, ns) && p <= |ns|
    ensures nx[Cell(h, ns, p)] == Succ(h, ns, p)
    ensures pv[Succ(h, ns, p)] == Cell(h, ns, p)
    ensures ns != [] ==> Succ(h, ns, p) != Cell(h, ns, p)
  {
  }

  /** A ring whose nodes keep their links stays a ring, whatever happens elsewhere. */
  lemma RingFrame(nx: seq<int>, pv: seq<int>, nx2: seq<int>, pv2: seq<int>, h: int, ns: seq<int>)
    requires IsRing(nx, pv, h, ns)
    requires |nx2| == |pv2| && |nx| <= |nx2|
    requires nx2[h] == nx[h] && pv2[h] == pv[h]
    requires forall i :: 0 <= i < |ns| ==> nx2[ns[i]] == nx[ns[i]] && pv2[ns[i]] == pv[ns[i]]
    ensures IsRing(nx2, pv2, h, ns)
  {
  }

  /** The same, with the frame given by Untouched and a disjoint footprint c. */
  lemma RingFrameUntouched(nx: seq<int>, pv: seq<int>, nx2: seq<int>, pv2: seq<int>, c: seq<int>, h: int, ns: seq<int>)
    requires IsRing(nx, pv, h, ns) && Untouched(nx, pv, nx2, pv2, c)
    requires |nx2| == |pv2| && h !in c && Disjoint(ns, c)
    ensures IsRing(nx2, pv2, h, ns)
  {
    forall i | 0 <= i < |ns| ensures nx2[ns[i]] == nx[ns[i]] && pv2[ns[i]] == pv[ns[i]] {
      assert ns[i] in ns;
    }
    RingFrame(nx, pv, nx2, pv2, h, ns);
  }

  /**
   * list_add(n, a) with a the node at position p: n->next = a->next,
   * a->next->prev = n, n->prev = a, a->next = n. The new node takes place p.
   */
  lemma RingInsert(nx: seq<int>, pv: seq<int>, h: int, ns: seq<int>, p: nat, n: int)
    requires IsRing(nx, pv, h, ns) && p <= |ns|
    requires 0 <= n < |nx| && n != h && n !in ns
    ensures var a, b := Cell(h, ns, p), Succ(h, ns, p);
      IsRing(nx[n := b][a := n], pv[b := n][n := a], h, ns[..p] + [n] + ns[p..])
  {
    var a, b := Cell(h, ns, p), Succ(h, ns, p);
    var nx2, pv2 := nx[n := b][a := n], pv[b := n][n := a];
    var ms := ns[..p] + [n] + ns[p..];
    InsertSentinel(nx, pv, h, ns, p, n);
    forall i | 0 <= i < |ms|
      ensures 0 <= ms[i] < |nx2| && ms[i] != h
      ensures nx2[ms[i]] == (if i + 1 < |ms| then ms[i + 1] else h)
      ensures pv2[ms[i]] == (if i == 0 then h else ms[i - 1])
    {
      if i < p {
        InsertLinksBefore(nx, pv, h, ns, p, n, i);
      } else if i == p {
        InsertLinksNew(nx, pv, h, ns, p, n);
      } else {
        InsertLinksAfter(nx, pv, h, ns, p, n, i);
      }
    }
    forall i, j | 0 <= i < j < |ms| ensures ms[i] != ms[j] {
      InsertedAt(ns, p, n, i);
      InsertedAt(ns, p, n, j);
      if i != p && j != p {
        RingDistinct(nx, pv, h, ns, if i < p then i else i - 1, if j < p then j else j - 1);
      } else if i == p {
        assert ns[j - 1] in ns;
      } else {
        assert ns[i] in ns;
      }
    }
    RingIntro(nx2, pv2, h, ms);
  }

  lemma InsertedAt(ns: seq<int>, p: nat, n: int, i: int)
    requires p <= |ns| && 0 <= i <= |ns|
    ensures var ms := ns[..p] + [n] + ns[p..];
      |ms| == |ns| + 1 && ms[i] == if i < p then ns[i] else if i == p then n else ns[i - 1]
  {
  }

  lemma InsertSentinel(nx: seq<int>, pv: seq<int>, h: int, ns: seq<int>, p: nat, n: int)
    requires IsRing(nx, pv, h, ns) && p <= |ns|
    requires 0 <= n < |nx| && n != h && n !in ns
    ensures var a, b := Cell(h, ns, p), Succ(h, ns, p);
      var nx2, pv2 := nx[n := b][a := n], pv[b := n][n := a];
      var ms := ns[..p] + [n] + ns[p..];
      && 0 <= a < |nx| && 0 <= b < |nx| && |ms| == |ns| + 1
      && nx2[h] == ms[0]
      && pv2[h] == ms[|ms| - 1]
  {
    if p > 0 { RingAt(nx, pv, h, ns, p - 1); }
    if p < |ns| { RingAt(nx, pv, h, ns, p); }
    InsertedAt(ns, p, n, 0);
    InsertedAt(ns, p, n, |ns|);
  }

  /** The links of the elements before the new node. */
  lemma InsertLinksBefore(nx: seq<int>, pv: seq<int>, h: int, ns: seq<int>, p: nat, n: int, i: int)
    requires IsRing(nx, pv, h, ns) && p <= |ns|
    requires 0 <= n < |nx| && n != h && n !in ns && 0 <= i < p
    ensures var a, b := Cell(h, ns, p), Succ(h, ns, p);
      var nx2, pv2 := nx[n := b][a := n], pv[b := n][n := a];
      var ms := ns[..p] + [n] + ns[p..];
      && 0 <= ms[i] < |nx| && ms[i] != h
      && nx2[ms[i]] == (if i + 1 < |ms| then ms[i + 1] else h)
      && pv2[ms[i]] == (if i == 0 then h else ms[i - 1])
  {
    InsertedAt(ns, p, n, i);
    InsertedAt(ns, p, n, i + 1);
    if i > 0 { InsertedAt(ns, p, n, i - 1); }
    RingAt(nx, pv, h, ns, i);
    if p < |ns| { RingDistinct(nx, pv, h, ns, i, p); }
    RingDistinct(nx, pv, h, ns, i, p - 1);
    assert ns[i] in ns;
  }

  /** The links of the new node. */
  lemma InsertLinksNew(nx: seq<int>, pv: seq<int>, h: int, ns: seq<int>, p: nat, n: int)
    requires IsRing(nx, pv, h, ns) && p <= |ns|
    requires 0 <= n < |nx| && n != h && n !in ns
    ensures var a, b := Cell(h, ns, p), Succ(h, ns, p);
      var nx2, pv2 := nx[n := b][a := n], pv[b := n][n := a];
      var ms := ns[..p] + [n] + ns[p..];
      && 0 <= ms[p] < |nx| && ms[p] != h
      && nx2[ms[p]] == (if p + 1 < |ms| then ms[p + 1] else h)
      && pv2[ms[p]] == (if p == 0 then h else ms[p - 1])
  {
    InsertedAt(ns, p, n, p);
    if p < |ns| { InsertedAt(ns, p, n, p + 1); RingAt(nx, pv, h, ns, p); assert ns[p] in ns; }
    if p > 0 { InsertedAt(ns, p, n, p - 1); RingAt(nx, pv, h, ns, p - 1); assert ns[p - 1] in ns; }
  }

  /** The links of the elements after the new node. */
  lemma InsertLinksAfter(nx: seq<int>, pv: seq<int>, h: int, ns: seq<int>, p: nat, n: int, i: int)
    requires IsRing(nx, pv, h, ns) && p <= |ns|
    requires 0 <= n < |nx| && n != h && n !in ns && p < i <= |ns|
    ensures var a, b := Cell(h, ns, p), Succ(h, ns, p);
      var nx2, pv2 := nx[n := b][a := n], pv[b := n][n := a];
      var ms := ns[..p] + [n] + ns[p..];
      && 0 <= ms[i] < |nx| && ms[i] != h
      && nx2[ms[i]] == (if i + 1 < |ms| then ms[i + 1] else h)
      && pv2[ms[i]] == (if i == 0 then h else ms[i - 1])
  {
    var a, b := Cell(h, ns, p), Succ(h, ns, p);
    var x := ns[i - 1];
    InsertedAt(ns, p, n, i);
    if i + 1 <= |ns| { InsertedAt(ns, p, n, i + 1); }
    InsertedAt(ns, p, n, i - 1);
    RingAt(nx, pv, h, ns, i - 1);
    assert x in ns;
    if p > 0 { RingDistinct(nx, pv, h, ns, i - 1, p - 1); }
    assert x != a && x != n;
    if i == p + 1 {
      assert x == b;
    } else {
      RingDistinct(nx, pv, h, ns, i - 1, p);
      assert x != b;
    }
  }

  /**
   * list_del(x) with x the element ns[p]: x->next->prev = x->prev,
   * x->prev->next = x->next. The ring closes over the gap.
   */
  lemma RingRemove(nx: seq<int>, pv: seq<int>, h: int, ns: seq<int>, p: nat)
    requires IsRing(nx, pv, h, ns) && p < |ns|
    ensures var a, b := Cell(h, ns, p), Succ(h, ns, p + 1);
      IsRing(nx[a := b], pv[b := a], h, ns[..p] + ns[p + 1..])
  {
    var a, b := Cell(h, ns, p), Succ(h, ns, p + 1);
    var nx2, pv2 := nx[a := b], pv[b := a];
    var ms := ns[..p] + ns[p + 1..];
    RemoveSentinel(nx, pv, h, ns, p);
    forall i | 0 <= i < |ms|
      ensures 0 <= ms[i] < |nx2| && ms[i] != h
      ensures nx2[ms[i]] == (if i + 1 < |ms| then ms[i + 1] else h)
      ensures pv2[ms[i]] == (if i == 0 then h else ms[i - 1])
    {
      RemoveLinksAt(nx, pv, h, ns, p, i);
    }
    RemoveDistinct(nx, pv, h, ns, p);
    RingIntro(nx2, pv2, h, ms);
  }

  /** The nodes left after removing ns[p] are still distinct. */
  lemma RemoveDistinct(nx: seq<int>, pv: seq<int>, h: int, ns: seq<int>, p: nat)
    requires IsRing(nx, pv, h, ns) && p < |ns|
    ensures var ms := ns[..p] + ns[p + 1..];
      forall i, j :: 0 <= i < j < |ms| ==> ms[i] != ms[j]
  {
    var ms := ns[..p] + ns[p + 1..];
    forall i, j | 0 <= i < j < |ms| ensures ms[i] != ms[j] {
      RemovedAt(ns, p, i);
      RemovedAt(ns, p, j);
      RingDistinct(nx, pv, h, ns, if i < p then i else i + 1, if j < p then j else j + 1);
    }
  }

  lemma RemoveSentinel(nx: seq<int>, pv: seq<int>, h: int, ns: seq<int>, p: nat)
    requires IsRing(nx, pv, h, ns) && p < |ns|
    ensures var a, b := Cell(h, ns, p), Succ(h, ns, p + 1);
      var nx2, pv2 := nx[a := b], pv[b := a];
      var ms := ns[..p] + ns[p + 1..];
      && 0 <= a < |nx| && 0 <= b < |nx| && |ms| == |ns| - 1
      && nx2[h] == (if ms == [] then h else ms[0])
      && pv2[h] == (if ms == [] then h else ms[|ms| - 1])
  {
    var a, b := Cell(h, ns, p), Succ(h, ns, p + 1);
    var ms := ns[..p] + ns[p + 1..];
    RingAt(nx, pv, h, ns, p);
    if p > 0 { RingAt(nx, pv, h, ns, p - 1); }
    if p + 1 < |ns| { RingAt(nx, pv, h, ns, p + 1); }
    if |ms| > 0 {
      RemovedAt(ns, p, 0);
      RemovedAt(ns, p, |ms| - 1);
    }
  }

  lemma RemovedAt(ns: seq<int>, p: nat, i: int)
    requires p < |ns| && 0 <= i < |ns| - 1
    ensures var ms := ns[..p] + ns[p + 1..];
      |ms| == |ns| - 1 && ms[i] == if i < p then ns[i] else ns[i + 1]
  {
  }

  lemma RemoveLinksAt(nx: seq<int>, pv: seq<int>, h: int, ns: seq<int>, p: nat, i: int)
    requires IsRing(nx, pv, h, ns) && p < |ns| && 0 <= i < |ns| - 1
    ensures var a, b := Cell(h, ns, p), Succ(h, ns, p + 1);
      var nx2, pv2 := nx[a := b], pv[b := a];
      var ms := ns[..p] + ns[p + 1..];
      && 0 <= ms[i] < |nx| && ms[i] != h
      && nx2[ms[i]] == (if i + 1 < |ms| then ms[i + 1] else h)
      && pv2[ms[i]] == (if i == 0 then h else ms[i - 1])
  {
    RemovedAt(ns, p, i);
    if i + 1 < |ns| - 1 { RemovedAt(ns, p, i + 1); }
    if i > 0 { RemovedAt(ns, p, i - 1); }
    RingAt(nx, pv, h, ns, p);
    if i < p {
      RingAt(nx, pv, h, ns, i);
      if p + 1 < |ns| { RingDistinct(nx, pv, h, ns, i, p + 1); }
      RingDistinct(nx, pv, h, ns, i, p - 1);
    } else {
      RingAt(nx, pv, h, ns, i + 1);
      if p > 0 { RingDistinct(nx, pv, h, ns, i + 1, p - 1); }
      if p + 1 < |ns| { RingDistinct(nx, pv, h, ns, i + 1, p + 1); }
    }
  }

  /** Exchanging every node's next and prev runs the same ring backwards. */
  lemma RingReverse(nx: seq<int>, pv: seq<int>, h: int, ns: seq<int>)
    requires IsRing(nx, pv, h, ns)
    ensures IsRing(pv, nx, h, ReverseSeq(ns))
  {
    ReverseAt(ns);
    RingMirror(nx, pv, h, ns, ReverseSeq(ns));
  }

  /** Only the last element is followed by the sentinel. */
  lemma SuccIsHead(nx: seq<int>, pv: seq<int>, h: int, ns: seq<int>, k: nat)
    requires IsRing(nx, pv, h, ns) && k <= |ns| && Succ(h, ns, k) == h
    ensures k == |ns|
  {
    if k < |ns| {
      RingAt(nx, pv, h, ns, k);
    }
  }

  /** The cells before position k do not include the one at k. */
  lemma CellFresh(nx: seq<int>, pv: seq<int>, h: int, ns: seq<int>, k: nat)
    requires IsRing(nx, pv, h, ns) && k <= |ns|
    ensures Cell(h, ns, k) == ([h] + ns)[k]
    ensures Cell(h, ns, k) !in ([h] + ns)[..k]
  {
    forall i | 0 <= i < k ensures ([h] + ns)[..k][i] != Cell(h, ns, k) {
      assert ([h] + ns)[..k][i] == Cell(h, ns, i);
      CellDistinct(nx, pv, h, ns, i, k);
    }
  }

  /** Tables in which every node of the ring has its two links exchanged hold the reversed ring. */
  lemma RingSwapped(nx: seq<int>, pv: seq<int>, nx2: seq<int>, pv2: seq<int>, h: int, ns: seq<int>)
    requires IsRing(nx, pv, h, ns)
    requires |nx2| == |pv2| && |nx| <= |nx2|
    requires forall x :: x in [h] + ns ==> nx2[x] == pv[x] && pv2[x] == nx[x]
    ensures IsRing(nx2, pv2, h, ReverseSeq(ns))
  {
    RingReverse(nx, pv, h, ns);
    ReverseAt(ns);
    var rs := ReverseSeq(ns);
    assert nx2[h] == pv[h] && pv2[h] == nx[h] by {
      assert h in [h] + ns;
    }
    forall i | 0 <= i < |rs| ensures nx2[rs[i]] == pv[rs[i]] && pv2[rs[i]] == nx[rs[i]] {
      assert rs[i] == ([h] + ns)[|ns| - i];
    }
    RingFrame(pv, nx, nx2, pv2, h, rs);
  }

  lemma RingMirror(nx: seq<int>, pv: seq<int>, h: int, ns: seq<int>, rs: seq<int>)
    requires IsRing(nx, pv, h, ns)
    requires |rs| == |ns| && forall k :: 0 <= k < |rs| ==> rs[k] == ns[|ns| - 1 - k]
    ensures IsRing(pv, nx, h, rs)
  {
    forall i, j | 0 <= i < j < |rs| ensures rs[i] != rs[j] {
      assert rs[i] == ns[|ns| - 1 - i] && rs[j] == ns[|ns| - 1 - j];
    }
    forall i | 0 <= i < |rs|
      ensures 0 <= rs[i] < |pv| && rs[i] != h
      ensures pv[rs[i]] == (if i + 1 < |rs| then rs[i + 1] else h)
      ensures nx[rs[i]] == (if i == 0 then h else rs[i - 1])
    {
      MirrorAt(nx, pv, h, ns, rs, i);
    }
    if rs != [] {
      assert rs[0] == ns[|ns| - 1] && rs[|rs| - 1] == ns[0];
    }
  }

  lemma MirrorAt(nx: seq<int>, pv: seq<int>, h: int, ns: seq<int>, rs: seq<int>, i: int)
    requires IsRing(nx, pv, h, ns)
    requires |rs| == |ns| && forall k :: 0 <= k < |rs| ==> rs[k] == ns[|ns| - 1 - k]
    requires 0 <= i < |rs|
    ensures 0 <= rs[i] < |pv| && rs[i] != h
    ensures pv[rs[i]] == (if i + 1 < |rs| then rs[i + 1] else h)
    ensures nx[rs[i]] == (if i == 0 then h else rs[i - 1])
  {
    var k := |ns| - 1 - i;
    assert rs[i] == ns[k];
    RingAt(nx, pv, h, ns, k);
    if i + 1 < |rs| {
      assert rs[i + 1] == ns[k - 1];
    }
    if i > 0 {
      assert rs[i - 1] == ns[k + 1];
    }
  }
  // ------------------------------------------------------------ chains

  /**
   * The front part of a ring under construction behind sentinel h: every
   * node of m is linked after the one before it (after h for the first);
   * the last node's next is not yet set.
   */
  ghost predicate Chain(nx: seq<int>, pv: seq<int>, h: int, m: seq<int>)
  {
    && |nx| == |pv| && 0 <= h < |nx| && InRange(m, |nx|)
    && forall t {:trigger Cell(h, m, t)} :: 0 <= t < |m| ==> nx[Cell(h, m, t)] == m[t] && pv[m[t]] == Cell(h, m, t)
  }

  /** Linking a fresh node x after the last cell of the chain extends the chain. */
  lemma ChainExtend(nx: seq<int>, pv: seq<int>, h: int, m: seq<int>, x: int)
    requires Chain(nx, pv, h, m) && Distinct(m) && h !in m
    requires 0 <= x < |nx| && x != h && x !in m
    ensures var tail := Cell(h, m, |m|);
      Chain(nx[tail := x], pv[x := tail], h, m + [x])
  {
    var tail := Cell(h, m, |m|);
    var nx2, pv2, m2 := nx[tail := x], pv[x := tail], m + [x];
    forall t | 0 <= t < |m2| ensures nx2[Cell(h, m2, t)] == m2[t] && pv2[m2[t]] == Cell(h, m2, t) {
      if t < |m| {
        assert m2[t] == m[t] && Cell(h, m2, t) == Cell(h, m, t);
        assert m[t] in m;
        if t > 0 {
          assert m[t - 1] != m[|m| - 1];
        } else {
          assert m[|m| - 1] in m;
        }
      }
    }
  }

  /** One node's links in a chain closed into a ring. */
  lemma ChainCloseAt(nx: seq<int>, pv: seq<int>, h: int, m: seq<int>, rest: seq<int>, i: int)
    requires Chain(nx, pv, h, m) && rest != [] && InRange(rest, |nx|)
    requires nx[Cell(h, m, |m|)] == rest[0] && pv[rest[0]] == Cell(h, m, |m|)
    requires forall u :: 0 <= u < |rest| - 1 ==> nx[rest[u]] == rest[u + 1] && pv[rest[u + 1]] == rest[u]
    requires nx[rest[|rest| - 1]] == h
    requires 0 <= i < |m + rest|
    ensures var ms := m + rest;
      && nx[ms[i]] == (if i + 1 < |ms| then ms[i + 1] else h)
      && pv[ms[i]] == (if i == 0 then h else ms[i - 1])
  {
    var ms := m + rest;
    if i < |m| {
      assert ms[i] == m[i] && Cell(h, m, i + 1) == m[i] && pv[m[i]] == Cell(h, m, i);
      if i + 1 < |m| {
        assert ms[i + 1] == m[i + 1];
      } else {
        assert ms[i + 1] == rest[0];
      }
      if i > 0 {
        assert ms[i - 1] == m[i - 1];
      }
    } else {
      var u := i - |m|;
      assert ms[i] == rest[u];
      if i + 1 < |ms| {
        assert ms[i + 1] == rest[u + 1];
      }
      if u > 0 {
        assert ms[i - 1] == rest[u - 1];
      } else if i > 0 {
        assert ms[i - 1] == m[|m| - 1];
      }
    }
  }

  /**
   * A chain m followed by nodes rest, each linked to the next, the last
   * linked back to the sentinel, is the ring m + rest.
   */
  lemma ChainClose(nx: seq<int>, pv: seq<int>, h: int, m: seq<int>, rest: seq<int>)
    requires Chain(nx, pv, h, m) && rest != [] && InRange(rest, |nx|)
    requires Distinct(m + rest) && h !in m + rest
    requires nx[Cell(h, m, |m|)] == rest[0] && pv[rest[0]] == Cell(h, m, |m|)
    requires forall u :: 0 <= u < |rest| - 1 ==> nx[rest[u]] == rest[u + 1] && pv[rest[u + 1]] == rest[u]
    requires nx[rest[|rest| - 1]] == h && pv[h] == rest[|rest| - 1]
    ensures IsRing(nx, pv, h, m + rest)
  {
    var ms := m + rest;
    forall i | 0 <= i < |ms|
      ensures 0 <= ms[i] < |nx| && ms[i] != h
      ensures nx[ms[i]] == (if i + 1 < |ms| then ms[i + 1] else h)
      ensures pv[ms[i]] == (if i == 0 then h else ms[i - 1])
    {
      assert ms[i] in ms;
      if i < |m| { assert ms[i] == m[i]; } else { assert ms[i] == rest[i - |m|]; }
      ChainCloseAt(nx, pv, h, m, rest, i);
    }
    if m == [] {
      assert ms == rest;
    } else {
      assert ms[0] == m[0] && Cell(h, m, 0) == h;
    }
    assert ms[|ms| - 1] == rest[|rest| - 1];
    RingIntro(nx, pv, h, ms);
  }
  /**
   * The tail zs[k0..] of a ring, none of whose nodes lies in c, keeps its
   * links in tables that changed only nodes of c.
   */
  lemma RestLinks(nx0: seq<int>, pv0: seq<int>, nx: seq<int>, pv: seq<int>,
                  s: int, zs: seq<int>, k0: nat, c: seq<int>)
    requires IsRing(nx0, pv0, s, zs) && k0 <= |zs|
    requires Untouched(nx0, pv0, nx, pv, c) && Disjoint(zs[k0..], c)
    ensures forall w {:trigger nx[zs[w]]} {:trigger pv[zs[w]]} :: k0 <= w < |zs| ==>
      nx[zs[w]] == Succ(s, zs, w + 1) && pv[zs[w]] == Cell(s, zs, w)
    ensures var rest := zs[k0..];
      forall u :: 0 <= u < |rest| - 1 ==> nx[rest[u]] == rest[u + 1] && pv[rest[u + 1]] == rest[u]
  {
    forall w | k0 <= w < |zs| ensures nx[zs[w]] == Succ(s, zs, w + 1) && pv[zs[w]] == Cell(s, zs, w) {
      assert zs[w] == zs[k0..][w - k0];
      RingAt(nx0, pv0, s, zs, w);
    }
    var rest := zs[k0..];
    forall u | 0 <= u < |rest| - 1 ensures nx[rest[u]] == rest[u + 1] && pv[rest[u + 1]] == rest[u] {
      assert rest[u] == zs[k0 + u] && rest[u + 1] == zs[k0 + u + 1];
    }
  }

  /** A chain keeps its links when only its last cell's next and nodes outside it change. */
  lemma ChainKept(nx: seq<int>, pv: seq<int>, nx2: seq<int>, pv2: seq<int>, h: int, m: seq<int>)
    requires Chain(nx, pv, h, m) && Distinct(m) && h !in m
    requires |nx2| == |pv2| == |nx|
    requires forall z :: z in m ==> pv2[z] == pv[z]
    requires forall z :: (z == h || z in m) && z != Cell(h, m, |m|) ==> nx2[z] == nx[z]
    ensures Chain(nx2, pv2, h, m)
  {
    forall t | 0 <= t < |m| ensures nx2[Cell(h, m, t)] == m[t] && pv2[m[t]] == Cell(h, m, t) {
      assert m[t] in m;
      if t > 0 {
        assert m[t - 1] in m && m[t - 1] != m[|m| - 1];
      } else {
        assert m[|m| - 1] in m;
      }
    }
  }

  /** SpliceClose for an empty chain: the rest alone becomes the ring on h. */
  lemma MoveClose(nx: seq<int>, pv: seq<int>, h: int, h2: int, rest: seq<int>)
    requires |nx| == |pv| && 0 <= h < |nx| && rest != [] && InRange(rest, |nx|) && 0 <= h2 < |nx|
    requires Distinct(rest) && h !in rest && h2 !in rest && h2 != h
    requires forall u :: 0 <= u < |rest| - 1 ==> nx[rest[u]] == rest[u + 1] && pv[rest[u + 1]] == rest[u]
    ensures var first, last := rest[0], rest[|rest| - 1];
      var nx2 := nx[h := first][last := h][h2 := h2];
      var pv2 := pv[first := h][h := last][h2 := h2];
      IsRing(nx2, pv2, h, rest) && IsRing(nx2, pv2, h2, [])
  {
    assert [] + rest == rest;
    SpliceClose(nx, pv, h, h2, [], rest, rest);
  }

  /**
   * The end of q_merge_two: the chain m behind h, spliced to the nodes rest
   * (already linked among themselves), the last of them linked back to h,
   * and the emptied sentinel h2 pointed at itself.
   */
  lemma SpliceClose(nx: seq<int>, pv: seq<int>, h: int, h2: int, m: seq<int>, rest: seq<int>, ms: seq<int>)
    requires ms == m + rest
    requires Chain(nx, pv, h, m) && rest != [] && InRange(rest, |nx|) && 0 <= h2 < |nx|
    requires Distinct(m + rest) && h !in m + rest && h2 !in m + rest && h2 != h
    requires forall u :: 0 <= u < |rest| - 1 ==> nx[rest[u]] == rest[u + 1] && pv[rest[u + 1]] == rest[u]
    ensures var tail, first, last := Cell(h, m, |m|), rest[0], rest[|rest| - 1];
      var nx2 := nx[tail := first][last := h][h2 := h2];
      var pv2 := pv[first := tail][h := last][h2 := h2];
      IsRing(nx2, pv2, h, ms) && IsRing(nx2, pv2, h2, [])
  {
    var tail, first, last := Cell(h, m, |m|), rest[0], rest[|rest| - 1];
    var nx2 := nx[tail := first][last := h][h2 := h2];
    var pv2 := pv[first := tail][h := last][h2 := h2];
    DistinctSplit(m, rest);
    assert first in rest && last in rest;
    assert first == ms[|m|] && last == ms[|ms| - 1];
    ChainKept(nx, pv, nx2, pv2, h, m);
    forall u | 0 <= u < |rest| - 1 ensures nx2[rest[u]] == rest[u + 1] && pv2[rest[u + 1]] == rest[u] {
      assert rest[u] == ms[|m| + u] && rest[u + 1] == ms[|m| + u + 1];
      assert rest[u] in ms && rest[u + 1] in ms;
    }
    ChainClose(nx2, pv2, h, m, rest);
  }
}
