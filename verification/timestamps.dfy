/**
 The order in which the deploy script sorts artifacts by their `updated_at`
 strings. Python compares `str` values code point by code point, and a proper
 prefix sorts before the longer string. Dafny's own `<` on sequences means
 "proper prefix", so the order is defined here explicitly.
 */
module Timestamps {

  /** Strictly-before in Python's string order. */
  predicate Less(a: string, b: string)
    decreases |a|
  {
    if |a| == 0 then |b| > 0
    else if |b| == 0 then false
    else if a[0] != b[0] then a[0] < b[0]
    else Less(a[1..], b[1..])
  }

  /** `a` sorts no later than `b`. */
  predicate AtMost(a: string, b: string) {
    !Less(b, a)
  }

  /** An independent reading of the same order: the strings agree on a common
      prefix of length `k`, after which `a` either ends or has the smaller code point. */
  ghost predicate DiffersFirstAt(a: string, b: string, k: nat) {
    && k <= |a| && k < |b|
    && a[..k] == b[..k]
    && (k == |a| || a[k] < b[k])
  }

  lemma {:induction false} LessIrreflexive(a: string)
    ensures !Less(a, a)
    decreases |a|
  {
    if |a| > 0 {
      LessIrreflexive(a[1..]);
    }
  }

  lemma {:induction false} LessTransitive(a: string, b: string, c: string)
    requires Less(a, b) && Less(b, c)
    ensures Less(a, c)
    decreases |a|
  {
    if |a| > 0 && a[0] == b[0] && b[0] == c[0] {
      LessTransitive(a[1..], b[1..], c[1..]);
    }
  }

  lemma {:induction false} LessTrichotomy(a: string, b: string)
    ensures Less(a, b) || a == b || Less(b, a)
    decreases |a|
  {
    if |a| > 0 && |b| > 0 && a[0] == b[0] {
      LessTrichotomy(a[1..], b[1..]);
      if a[1..] == b[1..] {
        assert a == [a[0]] + a[1..] && b == [b[0]] + b[1..];
      }
    }
  }

  lemma LessAsymmetric(a: string, b: string)
    requires Less(a, b)
    ensures !Less(b, a)
  {
    if Less(b, a) {
      LessTransitive(a, b, a);
      LessIrreflexive(a);
    }
  }

  /** `AtMost` is a total preorder, and in fact a total order. */
  lemma AtMostTotal(a: string, b: string)
    ensures AtMost(a, b) || AtMost(b, a)
    ensures AtMost(a, b) && AtMost(b, a) ==> a == b
  {
    LessTrichotomy(a, b);
    if Less(a, b) {
      LessAsymmetric(a, b);
    }
  }

  lemma AtMostTransitive(a: string, b: string, c: string)
    requires AtMost(a, b) && AtMost(b, c)
    ensures AtMost(a, c)
  {
    LessTrichotomy(a, b);
    LessTrichotomy(b, c);
    if Less(c, a) {
      if a == b {
      } else {
        LessTransitive(c, a, b);
      }
    }
  }

  /** `Less` holds exactly when the two strings first differ in `a`'s favour. */
  lemma {:induction false} LessHasFirstDifference(a: string, b: string)
    requires Less(a, b)
    ensures exists k: nat :: DiffersFirstAt(a, b, k)
    decreases |a|
  {
    if |a| == 0 {
      assert DiffersFirstAt(a, b, 0);
    } else if a[0] != b[0] {
      assert DiffersFirstAt(a, b, 0);
    } else {
      LessHasFirstDifference(a[1..], b[1..]);
      var k: nat :| DiffersFirstAt(a[1..], b[1..], k);
      assert a[..k + 1] == [a[0]] + a[1..][..k];
      assert b[..k + 1] == [b[0]] + b[1..][..k];
      assert DiffersFirstAt(a, b, k + 1);
    }
  }

  lemma {:induction false} FirstDifferenceIsLess(a: string, b: string, k: nat)
    requires DiffersFirstAt(a, b, k)
    ensures Less(a, b)
    decreases k
  {
    if k > 0 {
      assert a[0] == a[..k][0] == b[..k][0] == b[0];
      assert a[1..][..k - 1] == a[1..k] == a[..k][1..];
      assert b[1..][..k - 1] == b[1..k] == b[..k][1..];
      FirstDifferenceIsLess(a[1..], b[1..], k - 1);
    }
  }
}
