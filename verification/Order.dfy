/** Lexicographic order, as Rust compares strings (by bytes) and vectors of numbers. */
module Order {
  predicate LexLe(a: seq<nat>, b: seq<nat>) {
    a == [] || (b != [] && (a[0] < b[0] || (a[0] == b[0] && LexLe(a[1..], b[1..]))))
  }

  predicate LexLess(a: seq<nat>, b: seq<nat>) {
    !LexLe(b, a)
  }

  lemma {:induction false} LexTotal(a: seq<nat>, b: seq<nat>)
    ensures LexLe(a, b) || LexLe(b, a)
    ensures LexLe(a, a)
  {
    if a == [] {
    } else {
      LexTotal(a[1..], a[1..]);
      if b != [] {
        LexTotal(a[1..], b[1..]);
      }
    }
  }

  lemma {:induction false} LexTransitive(a: seq<nat>, b: seq<nat>, c: seq<nat>)
    requires LexLe(a, b) && LexLe(b, c)
    ensures LexLe(a, c)
  {
    if a != [] && a[0] == b[0] == c[0] {
      LexTransitive(a[1..], b[1..], c[1..]);
    }
  }

  lemma {:induction false} LexAntisymmetric(a: seq<nat>, b: seq<nat>)
    requires LexLe(a, b) && LexLe(b, a)
    ensures a == b
  {
    if a == [] {
    } else {
      LexAntisymmetric(a[1..], b[1..]);
      assert a == [a[0]] + a[1..] && b == [b[0]] + b[1..];
    }
  }

  /** The order is that of dictionaries: a prefix comes first, else the first difference decides. */
  lemma {:induction false} LexIsLexicographic(a: seq<nat>, b: seq<nat>)
    ensures LexLe(a, b) <==> a <= b || exists k :: FirstDifference(a, b, k) && a[k] < b[k]
  {
    if a == [] || b == [] || a[0] != b[0] {
      if a != [] && b != [] {
        assert FirstDifference(a, b, 0);
      }
      assert forall k :: FirstDifference(a, b, k) ==> k == 0;
    } else {
      LexIsLexicographic(a[1..], b[1..]);
      assert a <= b <==> a[1..] <= b[1..];
      forall k: int ensures FirstDifference(a, b, k + 1) <==> FirstDifference(a[1..], b[1..], k) {
        DifferenceShifts(a, b, k);
      }
      if k :| FirstDifference(a, b, k) && a[k] < b[k] {
        assert k > 0;
        assert FirstDifference(a[1..], b[1..], k - 1) && a[1..][k - 1] < b[1..][k - 1];
      }
      if k :| FirstDifference(a[1..], b[1..], k) && a[1..][k] < b[1..][k] {
        assert FirstDifference(a, b, k + 1) && a[k + 1] < b[k + 1];
      }
    }
  }

  /** Position `k` is the first at which the two differ. */
  ghost predicate FirstDifference(a: seq<nat>, b: seq<nat>, k: int) {
    0 <= k < |a| && k < |b| && a[k] != b[k] && forall i :: 0 <= i < k ==> a[i] == b[i]
  }

  lemma DifferenceShifts(a: seq<nat>, b: seq<nat>, k: int)
    requires a != [] && b != [] && a[0] == b[0]
    ensures FirstDifference(a, b, k + 1) <==> FirstDifference(a[1..], b[1..], k)
  {
    if FirstDifference(a[1..], b[1..], k) {
      assert forall i :: 0 < i < k + 1 ==> a[i] == a[1..][i - 1] && b[i] == b[1..][i - 1];
    }
    if FirstDifference(a, b, k + 1) {
      assert forall i :: 0 <= i < k ==> a[1..][i] == a[i + 1] && b[1..][i] == b[i + 1];
    }
  }
}
