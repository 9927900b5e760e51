/**
 * The string order the queue sorts and merges by. The queue compares its
 * values with strcmp; on strings without an embedded NUL that is the
 * lexicographic order on characters, a proper prefix coming first.
 */
module Strings {

  /** strcmp(a, b) < 0 */
  predicate Less(a: string, b: string)
  {
    if b == [] then false
    else if a == [] then true
    else if a[0] != b[0] then a[0] < b[0]
    else Less(a[1..], b[1..])
  }

  lemma {:induction false} LessIrreflexive(a: string)
    ensures !Less(a, a)
  {
    if a != [] {
      LessIrreflexive(a[1..]);
    }
  }

  lemma {:induction false} LessAsymmetric(a: string, b: string)
    requires Less(a, b)
    ensures !Less(b, a)
  {
    if a != [] && a[0] == b[0] {
      LessAsymmetric(a[1..], b[1..]);
    }
  }

  lemma {:induction false} LessTransitive(a: string, b: string, c: string)
    requires Less(a, b) && Less(b, c)
    ensures Less(a, c)
  {
    if a != [] && a[0] == b[0] && b[0] == c[0] {
      LessTransitive(a[1..], b[1..], c[1..]);
    }
  }

  /** strcmp(a, b) == 0 exactly when a == b */
  lemma {:induction false} LessTotal(a: string, b: string)
    requires a != b
    ensures Less(a, b) || Less(b, a)
  {
    if a != [] && b != [] && a[0] == b[0] {
      assert a == [a[0]] + a[1..] && b == [b[0]] + b[1..];
      LessTotal(a[1..], b[1..]);
    }
  }

  /** In a queue sorted in direction `descend`, x may stand before y. */
  predicate Ordered(x: string, y: string, descend: bool)
  {
    if descend then !Less(x, y) else !Less(y, x)
  }

  lemma OrderedTransitive(x: string, y: string, z: string, descend: bool)
    requires Ordered(x, y, descend) && Ordered(y, z, descend)
    ensures Ordered(x, z, descend)
  {
    if x != y && y != z {
      LessTotal(x, y);
      LessTotal(y, z);
      if descend {
        if Less(x, z) {
          LessTransitive(z, y, x);
          LessAsymmetric(z, x);
        }
      } else {
        if Less(z, x) {
          LessTransitive(x, y, z);
          LessAsymmetric(x, z);
        }
      }
    }
  }

  lemma OrderedTotal(x: string, y: string, descend: bool)
    ensures Ordered(x, y, descend) || Ordered(y, x, descend)
  {
    if x == y {
      LessIrreflexive(x);
    } else {
      LessTotal(x, y);
      if Less(x, y) { LessAsymmetric(x, y); } else { LessAsymmetric(y, x); }
    }
  }

  /** Every pair of values stands in the order `descend` asks for. */
  ghost predicate Sorted(vs: seq<string>, descend: bool)
  {
    forall i, j :: 0 <= i < j < |vs| ==> Ordered(vs[i], vs[j], descend)
  }

  lemma SortedCons(v: string, vs: seq<string>, descend: bool)
    requires Sorted(vs, descend)
    requires forall j :: 0 <= j < |vs| ==> Ordered(v, vs[j], descend)
    ensures Sorted([v] + vs, descend)
  {
    var ws := [v] + vs;
    forall i, j | 0 <= i < j < |ws| ensures Ordered(ws[i], ws[j], descend) {
      if i > 0 {
        assert ws[i] == vs[i - 1] && ws[j] == vs[j - 1];
      } else {
        assert ws[j] == vs[j - 1];
      }
    }
  }
}
