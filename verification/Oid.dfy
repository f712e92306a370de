/** Object identifiers and their lexicographic order (snmp_oid_compare() of net-snmp). */
module Oid {

  type Oid = seq<nat>

  /** Negative, null or positive, from position i on. */
  function Compare(a: Oid, b: Oid, i: nat := 0): int
    decreases |a| - i
  {
    if i >= |a| || i >= |b| then (if |a| < |b| then -1 else if |a| > |b| then 1 else 0)
    else if a[i] < b[i] then -1
    else if a[i] > b[i] then 1
    else Compare(a, b, i + 1)
  }

  predicate Less(a: Oid, b: Oid)
  {
    Compare(a, b) < 0
  }

  lemma {:induction false} CompareEqual(a: Oid, b: Oid, i: nat)
    requires i <= |a| && i <= |b| && a[..i] == b[..i]
    ensures Compare(a, b, i) == 0 <==> a == b
    decreases |a| - i
  {
    if i < |a| && i < |b| {
      if a[i] == b[i] {
        assert a[..i + 1] == a[..i] + [a[i]] && b[..i + 1] == b[..i] + [b[i]];
        CompareEqual(a, b, i + 1);
      }
    } else {
      assert |a| == |b| ==> a == a[..i] && b == b[..i];
    }
  }

  lemma {:induction false} CompareFlips(a: Oid, b: Oid, i: nat)
    ensures Compare(b, a, i) == -Compare(a, b, i)
    decreases |a| - i
  {
    if i < |a| && i < |b| && a[i] == b[i] {
      CompareFlips(a, b, i + 1);
    }
  }

  lemma {:induction false} CompareTransitive(a: Oid, b: Oid, c: Oid, i: nat)
    requires i <= |a| && i <= |b| && i <= |c|
    requires Compare(a, b, i) <= 0 && Compare(b, c, i) <= 0
    ensures Compare(a, c, i) <= 0 && (Compare(a, b, i) < 0 || Compare(b, c, i) < 0 ==> Compare(a, c, i) < 0)
    decreases |a| - i
  {
    if i < |a| && i < |b| && i < |c| && a[i] == b[i] == c[i] {
      CompareTransitive(a, b, c, i + 1);
    }
  }

  /** The names agree up to i, and there a ends or has the smaller number. */
  predicate BranchesAt(a: Oid, b: Oid, i: nat)
  {
    i <= |a| && i < |b| && a[..i] == b[..i] && (i == |a| || a[i] < b[i])
  }

  lemma {:induction false} CompareBranches(a: Oid, b: Oid, i: nat)
    requires i <= |a| && i <= |b| && a[..i] == b[..i]
    ensures Compare(a, b, i) < 0 <==> exists k :: i <= k && BranchesAt(a, b, k)
    decreases |a| - i
  {
    if i < |a| && i < |b| && a[i] == b[i] {
      assert a[..i + 1] == a[..i] + [a[i]] && b[..i + 1] == b[..i] + [b[i]];
      CompareBranches(a, b, i + 1);
    } else {
      assert BranchesAt(a, b, i) <==> Compare(a, b, i) < 0;
      forall k: nat | i < k ensures !BranchesAt(a, b, k) {
        if i < |a| && i < |b| && k <= |a| && k <= |b| {
          assert a[..k][i] == a[i] && b[..k][i] == b[i];
        }
      }
    }
  }

  /** The order is the lexicographic one: a proper prefix, or a smaller number at the
      first difference. */
  lemma {:induction false} LessIsLexicographic(a: Oid, b: Oid)
    ensures Less(a, b) <==> exists k: nat :: BranchesAt(a, b, k)
  {
    CompareBranches(a, b, 0);
  }

  /** A strict total order. */
  lemma {:induction false} Ordered(a: Oid, b: Oid)
    ensures !Less(a, a) && (Less(a, b) || Less(b, a) || a == b) && !(Less(a, b) && Less(b, a))
  {
    CompareEqual(a, b, 0);
    CompareEqual(a, a, 0);
    CompareFlips(a, b, 0);
  }

  lemma {:induction false} Transitive(a: Oid, b: Oid, c: Oid)
    requires Less(a, b) && (b == c || Less(b, c))
    ensures Less(a, c)
  {
    if b != c {
      CompareTransitive(a, b, c, 0);
    }
  }

  // ---------- Tables under a prefix ----------

  lemma {:induction false} ShiftedCompare(p: Oid, x: Oid, y: Oid, i: nat)
    ensures Compare(p + x, p + y, |p| + i) == Compare(x, y, i)
    decreases |x| - i
  {
    if i < |x| && i < |y| && x[i] == y[i] {
      ShiftedCompare(p, x, y, i + 1);
    }
  }

  lemma {:induction false} PrefixedCompare(p: Oid, x: Oid, y: Oid, i: nat)
    requires i <= |p|
    ensures Compare(p + x, p + y, i) == Compare(x, y)
    decreases |p| - i
  {
    if i < |p| {
      PrefixedCompare(p, x, y, i + 1);
    } else {
      ShiftedCompare(p, x, y, 0);
    }
  }

  /** What is below the prefix is below the whole table. */
  lemma {:induction false} BelowPrefix(name: Oid, p: Oid, x: Oid, i: nat)
    requires i <= |name| && i <= |p| && Compare(name, p, i) < 0
    ensures Compare(name, p + x, i) < 0
    decreases |p| - i
  {
    if i < |p| && i < |name| && name[i] == p[i] {
      BelowPrefix(name, p, x, i + 1);
    }
  }

  /** What is not below the prefix and does not extend it is above the whole table. */
  lemma {:induction false} AbovePrefix(name: Oid, p: Oid, x: Oid, i: nat)
    requires i <= |name| && i <= |p| && name[..i] == p[..i]
    requires Compare(name, p, i) >= 0 && !(p <= name)
    ensures Compare(p + x, name, i) < 0
    decreases |p| - i
  {
    if i < |p| && i < |name| && name[i] == p[i] {
      assert name[..i + 1] == name[..i] + [name[i]] && p[..i + 1] == p[..i] + [p[i]];
      AbovePrefix(name, p, x, i + 1);
    }
  }
}
