/** The record order of `sort_values(by=['Sort_Group', 'Sort_Num'])`
    (process_requirements.py:113): groups compare as Python strings, by code
    point, and numbers compare numerically. */
module Ordering {
  import IdentifierKey

  /** Python's `<` on str: lexicographic by code point, a proper prefix
      first. */
  predicate StrLt(a: string, b: string)
    decreases |a|
  {
    if |a| == 0 then |b| > 0
    else if |b| == 0 then false
    else if a[0] != b[0] then a[0] < b[0]
    else StrLt(a[1..], b[1..])
  }

  /** The (group, number) key of one record comes no later than another's. */
  predicate KeyLe(g1: string, n1: int, g2: string, n2: int) {
    StrLt(g1, g2) || (g1 == g2 && n1 <= n2)
  }

  // ---------------------------------------------------------------------------
  // String order
  // ---------------------------------------------------------------------------

  lemma {:induction false} StrLtIrreflexive(a: string)
    ensures !StrLt(a, a)
    decreases |a|
  {
    if |a| > 0 {
      StrLtIrreflexive(a[1..]);
    }
  }

  /** The length of the longest common prefix of a and b. */
  function CommonPrefix(a: string, b: string): (k: nat)
    ensures k <= |a| && k <= |b|
    ensures a[..k] == b[..k]
    ensures k < |a| && k < |b| ==> a[k] != b[k]
    decreases |a|
  {
    if |a| == 0 || |b| == 0 || a[0] != b[0] then 0
    else
      var k := CommonPrefix(a[1..], b[1..]);
      assert a[..k + 1] == [a[0]] + a[1..][..k];
      assert b[..k + 1] == [b[0]] + b[1..][..k];
      k + 1
  }

  /** a comes before b exactly when a is a proper prefix of b, or at the
      first position where they differ a holds the smaller character. */
  lemma {:induction false} StrLtAtFirstDifference(a: string, b: string)
    ensures var k := CommonPrefix(a, b);
      StrLt(a, b) <==> (k == |a| && k < |b|) || (k < |a| && k < |b| && a[k] < b[k])
    decreases |a|
  {
    if |a| > 0 && |b| > 0 && a[0] == b[0] {
      StrLtAtFirstDifference(a[1..], b[1..]);
      var k := CommonPrefix(a[1..], b[1..]);
      assert k < |a| - 1 && k < |b| - 1 ==> a[1..][k] == a[k + 1] && b[1..][k] == b[k + 1];
    }
  }

  lemma {:induction false} StrLtTransitive(a: string, b: string, c: string)
    requires StrLt(a, b) && StrLt(b, c)
    ensures StrLt(a, c)
    decreases |a|
  {
    if |a| > 0 && a[0] == b[0] && b[0] == c[0] {
      StrLtTransitive(a[1..], b[1..], c[1..]);
    }
  }

  /** Any two strings are equal or ordered one way round. */
  lemma {:induction false} StrLtTotal(a: string, b: string)
    ensures a == b || StrLt(a, b) || StrLt(b, a)
    decreases |a|
  {
    if |a| > 0 && |b| > 0 && a[0] == b[0] {
      StrLtTotal(a[1..], b[1..]);
      if a[1..] == b[1..] {
        assert a == [a[0]] + a[1..] && b == [b[0]] + b[1..];
      }
    }
  }

  lemma StrLtAsymmetric(a: string, b: string)
    ensures !(StrLt(a, b) && StrLt(b, a))
  {
    if StrLt(a, b) && StrLt(b, a) {
      StrLtTransitive(a, b, a);
      StrLtIrreflexive(a);
    }
  }

  // ---------------------------------------------------------------------------
  // Key order
  // ---------------------------------------------------------------------------

  lemma KeyLeTransitive(g1: string, n1: int, g2: string, n2: int, g3: string, n3: int)
    requires KeyLe(g1, n1, g2, n2) && KeyLe(g2, n2, g3, n3)
    ensures KeyLe(g1, n1, g3, n3)
  {
    if StrLt(g1, g2) && StrLt(g2, g3) {
      StrLtTransitive(g1, g2, g3);
    }
  }

  lemma KeyLeTotal(g1: string, n1: int, g2: string, n2: int)
    ensures KeyLe(g1, n1, g2, n2) || KeyLe(g2, n2, g1, n1)
  {
    StrLtTotal(g1, g2);
  }

  /** Two keys that each come no later than the other are the same key. */
  lemma KeyLeAntisymmetric(g1: string, n1: int, g2: string, n2: int)
    requires KeyLe(g1, n1, g2, n2) && KeyLe(g2, n2, g1, n1)
    ensures g1 == g2 && n1 == n2
  {
    StrLtAsymmetric(g1, g2);
    if g1 != g2 {
      if StrLt(g1, g2) {
        StrLtIrreflexive(g1);
      }
    }
  }

  // ---------------------------------------------------------------------------
  // The orderings the identifiers rely on
  // ---------------------------------------------------------------------------

  /** Groups order alphabetically and, within a group, numbers order
      numerically: "GRM" 2 before "GRM" 10 although "10" < "2" as text. */
  lemma NaturalOrder()
    ensures KeyLe("BRD", 5, "GRM", 1) && !KeyLe("GRM", 1, "BRD", 5)
    ensures KeyLe("GRM", 2, "GRM", 10) && !KeyLe("GRM", 10, "GRM", 2)
    ensures StrLt("10", "2")
  {
  }

  /** The sentinel group sorts after every group that is empty or starts
      with a character below 'Z', which covers the upper-case module codes
      other than those starting with 'Z'. */
  lemma SentinelAfterCodes(g: string, n: int)
    requires g == "" || g[0] < 'Z'
    ensures KeyLe(g, n, IdentifierKey.GroupSentinel, IdentifierKey.NumberSentinel)
    ensures g != "" ==> !KeyLe(IdentifierKey.GroupSentinel, IdentifierKey.NumberSentinel, g, n)
  {
  }

  /** The sentinel key does not always sort last: lower-case groups and
      groups such as "ZZZZ" or "Zone" sort after it. */
  lemma SentinelNotAlwaysLast()
    ensures StrLt(IdentifierKey.GroupSentinel, "grm")
    ensures StrLt(IdentifierKey.GroupSentinel, "ZZZZ")
    ensures StrLt(IdentifierKey.GroupSentinel, "Zone")
  {
  }
}
