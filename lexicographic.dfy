/**
 * The order Kotlin's `String.compareTo` puts on strings: characters are
 * compared one by one from the left, the first difference decides, and a
 * proper prefix comes before every longer string that extends it.
 * `sortedBy` on a string key sorts ascending in this order.
 */
module Lexicographic {

  /**
   * `a` comes no later than `b` (`a.compareTo(b) <= 0`): either `a` is a
   * prefix of `b`, or at the first position where they differ `a` has the
   * smaller character.
   */
  predicate LexLe(a: string, b: string)
    ensures LexLe(a, b) <==> a <= b || exists i :: FirstDifferenceBelow(a, b, i)
    decreases |a|
  {
    if |a| == 0 then true
    else if |b| == 0 then
      assert forall i :: !FirstDifferenceBelow(a, b, i);
      false
    else if a[0] < b[0] then
      assert FirstDifferenceBelow(a, b, 0);
      true
    else if a[0] != b[0] then
      assert forall i :: 0 < i <= |a| && i <= |b| ==> a[..i][0] == a[0] && b[..i][0] == b[0];
      assert forall i :: !FirstDifferenceBelow(a, b, i);
      false
    else
      assert a <= b <==> a[1..] <= b[1..];
      ShiftFirstDifference(a, b);
      LexLe(a[1..], b[1..])
  }

  /** Position `i` is where `a` and `b` first differ, and `a` is smaller there. */
  predicate FirstDifferenceBelow(a: string, b: string, i: int)
  {
    0 <= i < |a| && i < |b| && a[..i] == b[..i] && a[i] < b[i]
  }

  /** Dropping an equal first character moves the first difference one place left. */
  lemma ShiftFirstDifference(a: string, b: string)
    requires |a| > 0 && |b| > 0 && a[0] == b[0]
    ensures (exists i :: FirstDifferenceBelow(a, b, i)) <==> (exists i :: FirstDifferenceBelow(a[1..], b[1..], i))
  {
    forall i | FirstDifferenceBelow(a, b, i) ensures FirstDifferenceBelow(a[1..], b[1..], i - 1) {
      assert i > 0;
      assert a[1..][..i - 1] == a[..i][1..] && b[1..][..i - 1] == b[..i][1..];
    }
    forall i | FirstDifferenceBelow(a[1..], b[1..], i) ensures FirstDifferenceBelow(a, b, i + 1) {
      assert a[..i + 1] == [a[0]] + a[1..][..i] && b[..i + 1] == [b[0]] + b[1..][..i];
    }
  }

  lemma {:induction false} LexLeReflexive(a: string)
    ensures LexLe(a, a)
    decreases |a|
  {
    if |a| > 0 {
      LexLeReflexive(a[1..]);
    }
  }

  lemma {:induction false} LexLeAntisymmetric(a: string, b: string)
    requires LexLe(a, b) && LexLe(b, a)
    ensures a == b
    decreases |a|
  {
    if |a| > 0 && |b| > 0 {
      LexLeAntisymmetric(a[1..], b[1..]);
      assert a == [a[0]] + a[1..] && b == [b[0]] + b[1..];
    }
  }

  lemma {:induction false} LexLeTransitive(a: string, b: string, c: string)
    requires LexLe(a, b) && LexLe(b, c)
    ensures LexLe(a, c)
    decreases |a|
  {
    if |a| > 0 && a[0] == b[0] && b[0] == c[0] {
      LexLeTransitive(a[1..], b[1..], c[1..]);
    }
  }

  lemma {:induction false} LexLeTotal(a: string, b: string)
    ensures LexLe(a, b) || LexLe(b, a)
    decreases |a|
  {
    if |a| > 0 && |b| > 0 && a[0] == b[0] {
      LexLeTotal(a[1..], b[1..]);
    }
  }

  /** A common prefix does not change how two strings compare. */
  lemma {:induction false} LexLeCommonPrefix(p: string, a: string, b: string)
    ensures LexLe(p + a, p + b) <==> LexLe(a, b)
    decreases |p|
  {
    if |p| > 0 {
      assert (p + a)[1..] == p[1..] + a;
      assert (p + b)[1..] == p[1..] + b;
      LexLeCommonPrefix(p[1..], a, b);
      assert (p + a)[0] == (p + b)[0];
    } else {
      assert p + a == a && p + b == b;
    }
  }

  /** The first differing character decides, whatever follows it. */
  lemma FirstDifferenceDecides(a: string, b: string, x: char, y: char)
    requires x < y
    ensures LexLe([x] + a, [y] + b) && !LexLe([y] + b, [x] + a)
  {
  }
}
