/** The Python `str` and `re` primitives the requirements processor relies on:
    `strip()`, `replace()`, `split()`, `"sep".join()`, `re.split` with
    `re.IGNORECASE` on a literal label, and `re.search(r'\d+', ...)` followed
    by `int()`.  Where Python consults Unicode tables (whitespace, case folding,
    decimal digits) this module uses their ASCII part. */
module PyStrings {

  datatype Option<T> = None | Some(value: T)

  // ---------------------------------------------------------------------------
  // Characters
  // ---------------------------------------------------------------------------

  /** `c.isspace()` for c below U+0080: space, \t \n \v \f \r and \x1c..\x1f. */
  predicate IsWs(c: char) {
    c == ' ' || ('\t' <= c <= '\r') || ('\U{1C}' <= c <= '\U{1F}')
  }

  predicate AllWs(s: string) {
    forall k :: 0 <= k < |s| ==> IsWs(s[k])
  }

  /** The ASCII digits matched by `\d`. */
  predicate IsDigit(c: char) {
    '0' <= c <= '9'
  }

  predicate AllDigits(s: string) {
    forall k :: 0 <= k < |s| ==> IsDigit(s[k])
  }

  /** ASCII lower-casing, the comparison `re.IGNORECASE` makes for ASCII letters. */
  function Lower(c: char): char {
    if 'A' <= c <= 'Z' then (c as int + 32) as char else c
  }

  predicate SameChar(a: char, b: char, ignoreCase: bool) {
    if ignoreCase then Lower(a) == Lower(b) else a == b
  }

  // ---------------------------------------------------------------------------
  // Matching a pattern at a position
  // ---------------------------------------------------------------------------

  /** p occurs in s at position k: the |p| characters of s from k agree with
      p, case-insensitively when ignoreCase holds. */
  predicate MatchAt(s: string, k: nat, p: string, ignoreCase: bool)
    decreases |p|
  {
    k <= |s| && (|p| == 0 || (k < |s| && SameChar(s[k], p[0], ignoreCase) && MatchAt(s, k + 1, p[1..], ignoreCase)))
  }

  /** `s.startswith(p)`. */
  predicate StartsWith(s: string, p: string, ignoreCase: bool) {
    MatchAt(s, 0, p, ignoreCase)
  }

  /** A match lies inside s. */
  lemma {:induction false} MatchAtFits(s: string, k: nat, p: string, ignoreCase: bool)
    ensures MatchAt(s, k, p, ignoreCase) ==> k + |p| <= |s|
    decreases |p|
  {
    if |p| > 0 {
      MatchAtFits(s, k + 1, p[1..], ignoreCase);
    }
  }

  /** A case-sensitive match is the equality of p with a slice of s. */
  lemma {:induction false} MatchAtExact(s: string, k: nat, p: string)
    ensures MatchAt(s, k, p, false) <==> k + |p| <= |s| && s[k..k + |p|] == p
    decreases |p|
  {
    if |p| > 0 {
      MatchAtExact(s, k + 1, p[1..]);
      if k + |p| <= |s| {
        assert s[k..k + |p|] == [s[k]] + s[k + 1..k + |p|];
        assert p == [p[0]] + p[1..];
      }
    }
  }

  /** A one-character pattern matches where s holds that character. */
  lemma MatchAtChar(s: string, k: nat, c: char)
    requires k < |s|
    ensures MatchAt(s, k, [c], false) <==> s[k] == c
  {
    assert [c][1..] == [];
  }

  /** A case-sensitive match is also a case-insensitive one. */
  lemma {:induction false} MatchAtIgnoringCase(s: string, k: nat, p: string)
    ensures MatchAt(s, k, p, false) ==> MatchAt(s, k, p, true)
    decreases |p|
  {
    if |p| > 0 {
      MatchAtIgnoringCase(s, k + 1, p[1..]);
    }
  }

  /** Dropping d characters moves every match d places left. */
  lemma {:induction false} MatchAtShift(s: string, d: nat, k: nat, p: string, ignoreCase: bool)
    requires d <= |s|
    ensures MatchAt(s[d..], k, p, ignoreCase) <==> MatchAt(s, d + k, p, ignoreCase)
    decreases |p|
  {
    if |p| > 0 {
      MatchAtShift(s, d, k + 1, p[1..], ignoreCase);
      if k < |s| - d {
        assert s[d..][k] == s[d + k];
      }
    }
  }

  /** Case-sensitive startswith is Dafny's prefix relation. */
  lemma StartsWithIsPrefix(s: string, p: string)
    ensures StartsWith(s, p, false) <==> p <= s
  {
    MatchAtExact(s, 0, p);
    if |p| <= |s| {
      assert s[0..|p|] == s[..|p|];
    }
  }

  // ---------------------------------------------------------------------------
  // strip()
  // ---------------------------------------------------------------------------

  /** Number of whitespace characters at the start of s. */
  function LeadingWs(s: string): (n: nat)
    ensures n <= |s|
    ensures forall k :: 0 <= k < n ==> IsWs(s[k])
    ensures n < |s| ==> !IsWs(s[n])
  {
    if |s| > 0 && IsWs(s[0]) then
      var m := LeadingWs(s[1..]);
      assert forall k :: 1 <= k < 1 + m ==> s[k] == s[1..][k - 1];
      1 + m
    else 0
  }

  /** Number of whitespace characters at the end of s. */
  function TrailingWs(s: string): (n: nat)
    ensures n <= |s|
    ensures forall k :: |s| - n <= k < |s| ==> IsWs(s[k])
    ensures n < |s| ==> !IsWs(s[|s| - 1 - n])
  {
    if |s| > 0 && IsWs(s[|s| - 1]) then 1 + TrailingWs(s[..|s| - 1]) else 0
  }

  /** s neither starts nor ends with whitespace. */
  predicate Unpadded(s: string) {
    |s| > 0 ==> !IsWs(s[0]) && !IsWs(s[|s| - 1])
  }

  /** `s.strip()`: s without its leading and trailing whitespace.  The result
      is the slice of s that starts after the leading whitespace, and
      everything outside that slice is whitespace. */
  function Strip(s: string): (r: string)
    ensures |r| > 0 ==> !IsWs(r[0]) && !IsWs(r[|r| - 1])
    ensures LeadingWs(s) + |r| <= |s| && r == s[LeadingWs(s)..LeadingWs(s) + |r|]
    ensures AllWs(s[..LeadingWs(s)]) && AllWs(s[LeadingWs(s) + |r|..])
  {
    var i := LeadingWs(s);
    var t := s[i..];
    var r := t[..|t| - TrailingWs(t)];
    assert s[i + |r|..] == t[|r|..];
    r
  }

  /** A piece of s that starts s and begins and ends with non-whitespace
      survives strip() as a prefix of the result. */
  lemma StripKeepsPrefix(s: string, w: string)
    requires |w| > 0 && w <= s
    requires !IsWs(w[0]) && !IsWs(w[|w| - 1])
    ensures w <= Strip(s)
  {
    var r := Strip(s);
    assert LeadingWs(s) == 0;
  }

  /** strip() is the identity on a string that has no whitespace at either end. */
  lemma StripUnpadded(s: string)
    requires |s| > 0 ==> !IsWs(s[0]) && !IsWs(s[|s| - 1])
    ensures Strip(s) == s
  {
    var r := Strip(s);
    assert LeadingWs(s) == 0;
  }

  // ---------------------------------------------------------------------------
  // find / split / join
  // ---------------------------------------------------------------------------

  /** `s.find(p, from)`, with |s| in place of -1: the first position at or
      after from where p matches. */
  function FindFrom(s: string, p: string, ignoreCase: bool, from: nat): (i: nat)
    requires |p| > 0 && from <= |s|
    ensures from <= i <= |s|
    ensures i < |s| ==> i + |p| <= |s|
    decreases |s| - from
  {
    MatchAtFits(s, from, p, ignoreCase);
    if from == |s| || MatchAt(s, from, p, ignoreCase) then from
    else FindFrom(s, p, ignoreCase, from + 1)
  }

  /** FindFrom stops at the first match at or after `from`: p matches where
      it stops, unless it ran off the end, and nowhere before. */
  lemma {:induction false} FindFromSpec(s: string, p: string, ignoreCase: bool, from: nat)
    requires |p| > 0 && from <= |s|
    ensures var i := FindFrom(s, p, ignoreCase, from);
      && (i < |s| ==> MatchAt(s, i, p, ignoreCase))
      && (forall k :: from <= k < i ==> !MatchAt(s, k, p, ignoreCase))
    decreases |s| - from
  {
    if from < |s| && !MatchAt(s, from, p, ignoreCase) {
      FindFromSpec(s, p, ignoreCase, from + 1);
    }
  }

  /** `s.find(p)`, with |s| in place of -1. */
  function Find(s: string, p: string, ignoreCase: bool): (i: nat)
    requires |p| > 0
    ensures i <= |s|
    ensures i < |s| ==> i + |p| <= |s|
  {
    FindFrom(s, p, ignoreCase, 0)
  }

  /** Find stops at the first match in s, or at |s| when there is none. */
  lemma FindSpec(s: string, p: string, ignoreCase: bool)
    requires |p| > 0
    ensures var i := Find(s, p, ignoreCase);
      && (i < |s| ==> MatchAt(s, i, p, ignoreCase))
      && (forall k :: 0 <= k < i ==> !MatchAt(s, k, p, ignoreCase))
  {
    FindFromSpec(s, p, ignoreCase, 0);
  }

  /** Searching a suffix finds the same occurrences, d places to the left. */
  lemma {:induction false} FindFromShift(s: string, p: string, ignoreCase: bool, d: nat, from: nat)
    requires |p| > 0 && d + from <= |s|
    ensures FindFrom(s[d..], p, ignoreCase, from) + d == FindFrom(s, p, ignoreCase, d + from)
    decreases |s| - d - from
  {
    MatchAtShift(s, d, from, p, ignoreCase);
    if d + from < |s| {
      FindFromShift(s, p, ignoreCase, d, from + 1);
    }
  }

  /** Searching s[d..] from its start is searching s from d. */
  lemma FindSuffix(s: string, p: string, ignoreCase: bool, d: nat)
    requires |p| > 0 && d <= |s|
    ensures Find(s[d..], p, ignoreCase) + d == FindFrom(s, p, ignoreCase, d)
  {
    FindFromShift(s, p, ignoreCase, d, 0);
  }

  /** A string with no occurrence of p has none in any of its suffixes. */
  lemma FindInSuffix(s: string, p: string, ignoreCase: bool, n: nat)
    requires |p| > 0 && n <= |s| && Find(s, p, ignoreCase) == |s|
    ensures Find(s[n..], p, ignoreCase) == |s| - n
  {
    FindFromShift(s, p, ignoreCase, n, 0);
    FindFromLater(s, p, ignoreCase, 0, n);
  }

  /** Starting the search later, but not past the first match, finds the same. */
  lemma {:induction false} FindFromLater(s: string, p: string, ignoreCase: bool, a: nat, b: nat)
    requires |p| > 0 && a <= b <= |s| && b <= FindFrom(s, p, ignoreCase, a)
    ensures FindFrom(s, p, ignoreCase, b) == FindFrom(s, p, ignoreCase, a)
    decreases b - a
  {
    if a < b {
      FindFromLater(s, p, ignoreCase, a + 1, b);
    }
  }

  /** A string that lacks some character of p has no occurrence of p. */
  lemma FindMissingChar(s: string, p: string, j: nat)
    requires j < |p| && p[j] !in s
    ensures Find(s, p, false) == |s|
  {
    FindSpec(s, p, false);
    MatchAtHas(s, Find(s, p, false), p, j);
  }

  /** Every character of a case-sensitive match occurs in s. */
  lemma {:induction false} MatchAtHas(s: string, k: nat, p: string, j: nat)
    requires j < |p|
    ensures MatchAt(s, k, p, false) ==> p[j] in s
    decreases j
  {
    if j > 0 {
      MatchAtHas(s, k + 1, p[1..], j - 1);
    } else {
      assert MatchAt(s, k, p, false) ==> s[k] in s;
    }
  }

  /** A one-character pattern is found from `from` exactly when the character
      occurs there, and it is found at an occurrence. */
  lemma FindCharFrom(s: string, c: char, from: nat)
    requires from <= |s|
    ensures var i := FindFrom(s, [c], false, from);
      && (i == |s| <==> c !in s[from..])
      && (i < |s| ==> s[i] == c)
  {
    var i := FindFrom(s, [c], false, from);
    FindFromSpec(s, [c], false, from);
    FindCharBeforeFrom(s, c, from);
    if i < |s| {
      MatchAtChar(s, i, c);
      assert s[from..][i - from] == c;
    } else {
      assert s[from..i] == s[from..];
    }
  }

  /** What precedes the find from `from` does not contain the character. */
  lemma FindCharBeforeFrom(s: string, c: char, from: nat)
    requires from <= |s|
    ensures c !in s[from..FindFrom(s, [c], false, from)]
  {
    var i := FindFrom(s, [c], false, from);
    FindFromSpec(s, [c], false, from);
    forall k | from <= k < i ensures s[k] != c {
      MatchAtChar(s, k, c);
    }
  }

  /** FindCharFrom from the start of s. */
  lemma FindChar(s: string, c: char)
    ensures Find(s, [c], false) == |s| <==> c !in s
    ensures Find(s, [c], false) < |s| ==> s[Find(s, [c], false)] == c
  {
    FindCharFrom(s, c, 0);
    assert s[0..] == s;
  }

  /** FindCharBeforeFrom from the start of s. */
  lemma FindCharBefore(s: string, c: char)
    ensures c !in s[..Find(s, [c], false)]
  {
    FindCharBeforeFrom(s, c, 0);
    assert s[0..Find(s, [c], false)] == s[..Find(s, [c], false)];
  }

  /** The search for c from `from` stops at k when s[k] is c and no c comes
      between. */
  lemma FindCharAt(s: string, c: char, from: nat, k: nat)
    requires from <= k < |s| && s[k] == c && c !in s[from..k]
    ensures FindFrom(s, [c], false, from) == k
  {
    var i := FindFrom(s, [c], false, from);
    FindCharFrom(s, c, from);
    FindCharBeforeFrom(s, c, from);
    assert s[from..][k - from] == c;
    assert forall j :: from <= j < i ==> s[from..i][j - from] == s[j];
    assert forall j :: from <= j < k ==> s[from..k][j - from] == s[j];
  }

  /** `s.split(sep)` (ignoreCase false) and `re.split(sep, s, flags=re.IGNORECASE)`
      for a literal sep without special characters (ignoreCase true), on the
      text from `from`: the pieces between the leftmost non-overlapping
      occurrences of sep, all of them. */
  function SplitFrom(s: string, sep: string, ignoreCase: bool, from: nat): (r: seq<string>)
    requires |sep| > 0 && from <= |s|
    ensures |r| >= 1
    decreases |s| - from
  {
    var i := FindFrom(s, sep, ignoreCase, from);
    if i == |s| then [s[from..]] else [s[from..i]] + SplitFrom(s, sep, ignoreCase, i + |sep|)
  }

  /** `s.split(sep)` / `re.split(sep, s)`. */
  function SplitOn(s: string, sep: string, ignoreCase: bool): (r: seq<string>)
    requires |sep| > 0
    ensures |r| >= 1
  {
    SplitFrom(s, sep, ignoreCase, 0)
  }

  /** One step of SplitFrom where the search succeeds at i. */
  lemma SplitFromAt(s: string, sep: string, ignoreCase: bool, from: nat, i: nat, next: nat)
    requires |sep| > 0 && from <= |s| && i < |s| && i == FindFrom(s, sep, ignoreCase, from)
    requires next == i + |sep|
    ensures from <= i && next <= |s|
    ensures SplitFrom(s, sep, ignoreCase, from) == [s[from..i]] + SplitFrom(s, sep, ignoreCase, next)
  {
  }

  /** Two steps of SplitFrom where the search succeeds at i and then at j. */
  lemma SplitFromTwo(s: string, sep: string, ignoreCase: bool, from: nat, i: nat, m: nat, j: nat, next: nat)
    requires |sep| > 0 && from <= |s| && i < |s| && i == FindFrom(s, sep, ignoreCase, from)
    requires m == i + |sep| && j < |s| && j == FindFrom(s, sep, ignoreCase, m) && next == j + |sep|
    ensures var r := SplitFrom(s, sep, ignoreCase, from);
      && |r| >= 3 && r[0] == s[from..i] && r[1] == s[m..j]
      && r[2..] == SplitFrom(s, sep, ignoreCase, next)
  {
    SplitFromAt(s, sep, ignoreCase, from, i, m);
    SplitFromAt(s, sep, ignoreCase, m, j, next);
    TwoThenRest(SplitFrom(s, sep, ignoreCase, from), s[from..i], s[m..j],
                SplitFrom(s, sep, ignoreCase, m), SplitFrom(s, sep, ignoreCase, next));
  }

  /** SplitFrom where the search succeeds at i and then fails. */
  lemma SplitFromOnce(s: string, sep: string, ignoreCase: bool, from: nat, i: nat, next: nat)
    requires |sep| > 0 && from <= |s| && i < |s| && i == FindFrom(s, sep, ignoreCase, from)
    requires next == i + |sep| && FindFrom(s, sep, ignoreCase, next) == |s|
    ensures var r := SplitFrom(s, sep, ignoreCase, from);
      |r| == 2 && r[0] == s[from..i] && r[1] == s[next..]
  {
    SplitFromAt(s, sep, ignoreCase, from, i, next);
    SplitFromLast(s, sep, ignoreCase, next);
  }

  /** The first piece of a split is the text up to the first occurrence, and
      there is a second piece exactly when there is an occurrence. */
  lemma SplitFromHead(s: string, sep: string, ignoreCase: bool, from: nat)
    requires |sep| > 0 && from <= |s|
    ensures var r, i := SplitFrom(s, sep, ignoreCase, from), FindFrom(s, sep, ignoreCase, from);
      && r[0] == s[from..i]
      && (|r| > 1 <==> i < |s|)
  {
    var i := FindFrom(s, sep, ignoreCase, from);
    if i < |s| {
      SplitFromAt(s, sep, ignoreCase, from, i, i + |sep|);
    } else {
      SplitFromLast(s, sep, ignoreCase, from);
    }
  }

  /** The second piece of a split, when there is one, is the text between the
      first occurrence and the next one (or the end). */
  lemma SplitFromSecond(s: string, sep: string, ignoreCase: bool, from: nat, i: nat, next: nat)
    requires |sep| > 0 && from <= |s| && i < |s| && i == FindFrom(s, sep, ignoreCase, from)
    requires next == i + |sep|
    ensures next <= |s|
    ensures var r := SplitFrom(s, sep, ignoreCase, from);
      |r| > 1 && r[1] == s[next..FindFrom(s, sep, ignoreCase, next)]
  {
    SplitFromAt(s, sep, ignoreCase, from, i, next);
    SplitFromHead(s, sep, ignoreCase, next);
    SecondOfCons(SplitFrom(s, sep, ignoreCase, from), s[from..i], SplitFrom(s, sep, ignoreCase, next));
  }

  /** The split from 0 has a second piece exactly when the separator occurs,
      and that piece runs from the first occurrence to the next one. */
  lemma SplitOnSecond(s: string, sep: string, ignoreCase: bool)
    requires |sep| > 0
    ensures var r, i := SplitOn(s, sep, ignoreCase), Find(s, sep, ignoreCase);
      && (i == |s| ==> |r| == 1)
      && (i < |s| ==> |r| > 1 && r[1] == s[i + |sep|..FindFrom(s, sep, ignoreCase, i + |sep|)])
  {
    var i := FindFrom(s, sep, ignoreCase, 0);
    if i < |s| {
      SplitFromSecond(s, sep, ignoreCase, 0, i, i + |sep|);
    } else {
      SplitFromLast(s, sep, ignoreCase, 0);
    }
  }

  /** The second element of a list built in front of another is that list's first. */
  lemma SecondOfCons(all: seq<string>, x: string, rest: seq<string>)
    requires |rest| >= 1 && all == [x] + rest
    ensures |all| > 1 && all[1] == rest[0]
  {
  }

  /** A list of at least two pieces seen as its first two and the rest. */
  lemma TwoThenRest(all: seq<string>, a: string, b: string, tail: seq<string>, rest: seq<string>)
    requires all == [a] + tail && tail == [b] + rest
    ensures |all| == |rest| + 2 && all[0] == a && all[1] == b && all[2..] == rest
  {
    assert all[2..] == tail[1..];
  }

  /** One step of SplitFrom where the search fails. */
  lemma SplitFromLast(s: string, sep: string, ignoreCase: bool, from: nat)
    requires |sep| > 0 && from <= |s| && FindFrom(s, sep, ignoreCase, from) == |s|
    ensures SplitFrom(s, sep, ignoreCase, from) == [s[from..]]
  {
  }

  /** `sep.join(pieces)`. */
  function Join(pieces: seq<string>, sep: string): string {
    if |pieces| == 0 then ""
    else if |pieces| == 1 then pieces[0]
    else pieces[0] + sep + Join(pieces[1..], sep)
  }

  /** Joining the pieces of the split from `from` gives back s[from..]. */
  predicate JoinedBack(s: string, sep: string, from: nat)
    requires |sep| > 0 && from <= |s|
  {
    Join(SplitFrom(s, sep, false, from), sep) == s[from..]
  }

  lemma {:induction false} JoinOfSplitFrom(s: string, sep: string, from: nat)
    requires |sep| > 0 && from <= |s|
    ensures JoinedBack(s, sep, from)
    decreases |s| - from
  {
    var i := FindFrom(s, sep, false, from);
    if i < |s| {
      var next := i + |sep|;
      SplitFromAt(s, sep, false, from, i, next);
      JoinOfSplitFrom(s, sep, next);
      FindFromSpec(s, sep, false, from);
      MatchAtExact(s, i, sep);
      SliceAround(s, from, i, next, sep);
      JoinStep(SplitFrom(s, sep, false, from), s[from..i], SplitFrom(s, sep, false, next), sep, s[next..], s[from..]);
    } else {
      SplitFromLast(s, sep, false, from);
    }
  }

  /** Join of a piece in front of others whose join is known. */
  lemma JoinStep(all: seq<string>, x: string, rest: seq<string>, sep: string, tail: string, whole: string)
    requires |rest| >= 1 && all == [x] + rest
    requires Join(rest, sep) == tail && whole == x + sep + tail
    ensures Join(all, sep) == whole
  {
    assert all[1..] == rest;
  }

  /** A suffix is the text before b, the text from b to c, and the rest. */
  lemma SliceAround(s: string, a: nat, b: nat, c: nat, mid: string)
    requires a <= b <= c <= |s| && s[b..c] == mid
    ensures s[a..] == s[a..b] + mid + s[c..]
  {
  }

  /** `sep.join(s.split(sep)) == s`. */
  lemma JoinOfSplit(s: string, sep: string)
    requires |sep| > 0
    ensures Join(SplitOn(s, sep, false), sep) == s
  {
    JoinOfSplitFrom(s, sep, 0);
    assert s[0..] == s;
  }

  /** Number of occurrences of c in s. */
  function CountChar(s: string, c: char): nat {
    if |s| == 0 then 0 else (if s[0] == c then 1 else 0) + CountChar(s[1..], c)
  }

  /** c occurs in s exactly when it is counted there. */
  lemma {:induction false} CountCharZero(s: string, c: char)
    ensures CountChar(s, c) == 0 <==> c !in s
    decreases |s|
  {
    if |s| > 0 {
      CountCharZero(s[1..], c);
      assert s == [s[0]] + s[1..];
    }
  }

  /** Occurrences of c in a concatenation. */
  lemma {:induction false} CountCharConcat(a: string, b: string, c: char)
    ensures CountChar(a + b, c) == CountChar(a, c) + CountChar(b, c)
    decreases |a|
  {
    if |a| > 0 {
      assert (a + b)[1..] == a[1..] + b;
      CountCharConcat(a[1..], b, c);
    } else {
      assert a + b == b;
    }
  }

  /** A text cut at one occurrence of c holds one occurrence more than its
      two sides. */
  lemma CountCharAround(s: string, c: char, from: nat, i: nat)
    requires from <= i < |s| && s[i] == c
    ensures CountChar(s[from..], c) == CountChar(s[from..i], c) + 1 + CountChar(s[i + 1..], c)
  {
    assert s[from..] == s[from..i] + [c] + s[i + 1..];
    CountCharConcat(s[from..i] + [c], s[i + 1..], c);
    CountCharConcat(s[from..i], [c], c);
  }

  /** No piece of a list contains c. */
  predicate NoPieceHas(pieces: seq<string>, c: char) {
    forall k :: 0 <= k < |pieces| ==> c !in pieces[k]
  }

  lemma NoPieceHasCons(all: seq<string>, x: string, rest: seq<string>, c: char)
    requires all == [x] + rest && c !in x && NoPieceHas(rest, c)
    ensures NoPieceHas(all, c) && |all| == |rest| + 1
  {
    assert forall k :: 1 <= k < |all| ==> all[k] == rest[k - 1];
  }

  /** The occurrences of c in s are the one Find stops at and those after it. */
  lemma CountAfterFirst(s: string, c: char)
    requires Find(s, [c], false) < |s|
    ensures CountChar(s, c) == 1 + CountChar(s[Find(s, [c], false) + 1..], c)
  {
    var i := Find(s, [c], false);
    FindChar(s, c);
    FindCharBefore(s, c);
    CountCharAround(s, c, 0, i);
    assert s[0..] == s && s[0..i] == s[..i];
    CountCharZero(s[..i], c);
  }

  /** Splitting on one character gives one more piece than the character
      occurs, and no piece contains the character. */
  lemma {:induction false} SplitCharPiecesFrom(s: string, c: char, from: nat)
    requires from <= |s|
    ensures |SplitFrom(s, [c], false, from)| == CountChar(s[from..], c) + 1
    ensures NoPieceHas(SplitFrom(s, [c], false, from), c)
    decreases |s| - from
  {
    FindCharFrom(s, c, from);
    FindCharBeforeFrom(s, c, from);
    var i := FindFrom(s, [c], false, from);
    if i == |s| {
      SplitFromLast(s, [c], false, from);
      CountCharZero(s[from..], c);
    } else {
      SplitFromAt(s, [c], false, from, i, i + 1);
      SplitCharPiecesFrom(s, c, i + 1);
      CountCharAround(s, c, from, i);
      CountCharZero(s[from..i], c);
      NoPieceHasCons(SplitFrom(s, [c], false, from), s[from..i], SplitFrom(s, [c], false, i + 1), c);
    }
  }

  /** SplitCharPiecesFrom for the whole string. */
  lemma SplitCharPieces(s: string, c: char)
    ensures |SplitOn(s, [c], false)| == CountChar(s, c) + 1
    ensures NoPieceHas(SplitOn(s, [c], false), c)
  {
    SplitCharPiecesFrom(s, c, 0);
    assert s[0..] == s;
  }

  // ---------------------------------------------------------------------------
  // replace
  // ---------------------------------------------------------------------------

  /** `s.replace(pat, rep)`: scanning left to right, every occurrence of pat
      that starts where the scan stands is replaced by rep and skipped. */
  function ReplaceAll(s: string, pat: string, rep: string): string
    requires |pat| > 0
    decreases |s|
  {
    MatchAtFits(s, 0, pat, false);
    if |s| == 0 then ""
    else if StartsWith(s, pat, false) then rep + ReplaceAll(s[|pat|..], pat, rep)
    else [s[0]] + ReplaceAll(s[1..], pat, rep)
  }

  /** A string with no occurrence of pat is left alone by replace. */
  lemma {:induction false} ReplaceAbsent(s: string, pat: string, rep: string)
    requires |pat| > 0 && Find(s, pat, false) == |s|
    ensures ReplaceAll(s, pat, rep) == s
    decreases |s|
  {
    if |s| > 0 {
      FindInSuffix(s, pat, false, 1);
      ReplaceAbsent(s[1..], pat, rep);
      assert s == [s[0]] + s[1..];
    }
  }

  /** Where s does not start with p, the first occurrence in s is one past the
      first occurrence in s[1..]. */
  lemma FindCons(s: string, p: string)
    requires |p| > 0 && |s| > 0 && !StartsWith(s, p, false)
    ensures Find(s, p, false) == 1 + Find(s[1..], p, false)
  {
    FindFromShift(s, p, false, 1, 0);
  }

  /** Replace cuts s at its first occurrence of pat: the text before it,
      then rep, then the replace of what follows the occurrence; with no
      occurrence s is left alone. */
  predicate CutAtFirst(s: string, pat: string, rep: string)
    requires |pat| > 0
  {
    var i := Find(s, pat, false);
    if i == |s| then ReplaceAll(s, pat, rep) == s
    else ReplaceAll(s, pat, rep) == s[..i] + rep + ReplaceAll(s[i + |pat|..], pat, rep)
  }

  lemma {:induction false} ReplaceAtFirst(s: string, pat: string, rep: string)
    requires |pat| > 0
    ensures CutAtFirst(s, pat, rep)
    decreases |s|
  {
    if |s| > 0 && !StartsWith(s, pat, false) {
      ReplaceAtFirst(s[1..], pat, rep);
      ReplaceAtFirstCons(s, pat, rep);
    } else if |s| > 0 {
      ReplaceAtStart(s, pat, rep);
    }
  }

  /** ReplaceAtFirst where s starts with pat. */
  lemma ReplaceAtStart(s: string, pat: string, rep: string)
    requires |pat| > 0 && StartsWith(s, pat, false)
    ensures CutAtFirst(s, pat, rep)
  {
    MatchAtFits(s, 0, pat, false);
    var i := Find(s, pat, false);
    assert i == 0;
    assert s[..i] == "";
    assert s[i + |pat|..] == s[|pat|..];
  }

  /** Replace steps over a first character where no occurrence starts. */
  lemma ReplaceSkip(s: string, pat: string, rep: string)
    requires |pat| > 0 && |s| > 0 && !StartsWith(s, pat, false)
    ensures ReplaceAll(s, pat, rep) == [s[0]] + ReplaceAll(s[1..], pat, rep)
  {
  }

  /** Replace leaves alone a prefix that holds no first character of pat,
      since no occurrence can start inside it. */
  lemma {:induction false} ReplaceSkipsPrefix(w: string, x: string, pat: string, rep: string)
    requires |pat| > 0 && pat[0] !in w
    ensures ReplaceAll(w + x, pat, rep) == w + ReplaceAll(x, pat, rep)
    decreases |w|
  {
    if |w| > 0 {
      assert (w + x)[0] == w[0];
      assert (w + x)[1..] == w[1..] + x;
      ReplaceSkipsPrefix(w[1..], x, pat, rep);
    } else {
      assert w + x == x;
    }
  }

  /** Slices of s against slices of s[1..], one place further right. */
  lemma SliceCons(s: string, j: nat, k: nat, n: nat)
    requires k == j + 1 && k + n <= |s|
    ensures s[..k] == [s[0]] + s[1..][..j]
    ensures s[k + n..] == s[1..][j + n..]
  {
  }

  /** Regrouping a character in front of a three-part text. */
  lemma ConsRegroup(whole: string, c: char, tail: string, x: string, rep: string, y: string, pre: string)
    requires whole == [c] + tail && tail == x + rep + y && pre == [c] + x
    ensures whole == pre + rep + y
  {
  }

  /** The inductive step of ReplaceAtFirst. */
  lemma ReplaceAtFirstCons(s: string, pat: string, rep: string)
    requires |pat| > 0 && |s| > 0 && !StartsWith(s, pat, false)
    requires CutAtFirst(s[1..], pat, rep)
    ensures CutAtFirst(s, pat, rep)
  {
    var t := s[1..];
    var j := Find(t, pat, false);
    var k := Find(s, pat, false);
    FindCons(s, pat);
    ReplaceSkip(s, pat, rep);
    if j < |t| {
      SliceCons(s, j, k, |pat|);
      ConsRegroup(ReplaceAll(s, pat, rep), s[0], ReplaceAll(t, pat, rep),
                  t[..j], rep, ReplaceAll(t[j + |pat|..], pat, rep), s[..k]);
    } else {
      assert [s[0]] + t == s;
    }
  }

  /** CutAtFirst read on the text from `from`, where the search from `from`
      succeeds at i. */
  lemma CutAtFirstFrom(s: string, pat: string, rep: string, from: nat, i: nat, next: nat)
    requires |pat| > 0 && from <= |s| && i < |s| && i == FindFrom(s, pat, false, from)
    requires next == i + |pat|
    ensures from <= i && next <= |s|
    ensures ReplaceAll(s[from..], pat, rep) == s[from..i] + rep + ReplaceAll(s[next..], pat, rep)
  {
    var t := s[from..];
    ReplaceAtFirst(t, pat, rep);
    FindSuffix(s, pat, false, from);
    var j := Find(t, pat, false);
    SuffixSlices(s, from, j, i, |pat|, next);
  }

  /** The two slices of s[from..] around an occurrence at i, as slices of s. */
  lemma SuffixSlices(s: string, from: nat, j: nat, i: nat, n: nat, next: nat)
    requires i == from + j && next == i + n && next <= |s|
    ensures s[from..][..j] == s[from..i]
    ensures s[from..][j + n..] == s[next..]
  {
  }

  /** CutAtFirst read on the text from `from`, where the search fails. */
  lemma NoCutFrom(s: string, pat: string, rep: string, from: nat)
    requires |pat| > 0 && from <= |s| && FindFrom(s, pat, false, from) == |s|
    ensures ReplaceAll(s[from..], pat, rep) == s[from..]
  {
    ReplaceAtFirst(s[from..], pat, rep);
    FindSuffix(s, pat, false, from);
  }

  /** Replace on the text from `from` is the join with rep of the split on
      pat from `from`. */
  lemma {:induction false} ReplaceIsJoinOfSplitFrom(s: string, pat: string, rep: string, from: nat)
    requires |pat| > 0 && from <= |s|
    ensures ReplaceAll(s[from..], pat, rep) == Join(SplitFrom(s, pat, false, from), rep)
    decreases |s| - from
  {
    var i := FindFrom(s, pat, false, from);
    if i < |s| {
      var next := i + |pat|;
      CutAtFirstFrom(s, pat, rep, from, i, next);
      SplitFromAt(s, pat, false, from, i, next);
      ReplaceIsJoinOfSplitFrom(s, pat, rep, next);
      JoinStep(SplitFrom(s, pat, false, from), s[from..i], SplitFrom(s, pat, false, next), rep,
               ReplaceAll(s[next..], pat, rep), ReplaceAll(s[from..], pat, rep));
    } else {
      NoCutFrom(s, pat, rep, from);
      SplitFromLast(s, pat, false, from);
    }
  }

  /** `s.replace(pat, rep) == rep.join(s.split(pat))`. */
  lemma ReplaceIsJoinOfSplit(s: string, pat: string, rep: string)
    requires |pat| > 0
    ensures ReplaceAll(s, pat, rep) == Join(SplitOn(s, pat, false), rep)
  {
    ReplaceIsJoinOfSplitFrom(s, pat, rep, 0);
    assert s[0..] == s;
  }

  /** Unfolding replace for a one-character pattern. */
  lemma ReplaceCharStep(s: string, c: char, rep: string)
    requires |s| > 0
    ensures ReplaceAll(s, [c], rep) ==
      (if s[0] == c then rep else [s[0]]) + ReplaceAll(s[1..], [c], rep)
  {
    MatchAtChar(s, 0, c);
    assert s[0..] == s;
  }

  /** Replace of a one-character pattern acts on each character separately. */
  lemma {:induction false} ReplaceCharConcat(a: string, b: string, c: char, rep: string)
    ensures ReplaceAll(a + b, [c], rep) == ReplaceAll(a, [c], rep) + ReplaceAll(b, [c], rep)
    decreases |a|
  {
    if |a| > 0 {
      ReplaceCharStep(a + b, c, rep);
      ReplaceCharStep(a, c, rep);
      assert (a + b)[1..] == a[1..] + b;
      ReplaceCharConcat(a[1..], b, c, rep);
    } else {
      assert a + b == b;
    }
  }

  /** Replacing one character by another maps the string position by position. */
  lemma {:induction false} ReplaceCharByChar(s: string, a: char, b: char)
    ensures |ReplaceAll(s, [a], [b])| == |s|
    ensures forall k :: 0 <= k < |s| ==>
      ReplaceAll(s, [a], [b])[k] == if s[k] == a then b else s[k]
    decreases |s|
  {
    if |s| > 0 {
      ReplaceCharStep(s, a, [b]);
      ReplaceCharByChar(s[1..], a, b);
    }
  }

  /** A string without c is left alone by replacing c. */
  lemma {:induction false} ReplaceCharAbsent(s: string, c: char, rep: string)
    requires c !in s
    ensures ReplaceAll(s, [c], rep) == s
    decreases |s|
  {
    if |s| > 0 {
      ReplaceCharStep(s, c, rep);
      ReplaceCharAbsent(s[1..], c, rep);
      assert s == [s[0]] + s[1..];
    }
  }

  /** After replacing every c by a text that has no c, no c is left. */
  lemma {:induction false} ReplaceCharRemoves(s: string, c: char, rep: string)
    requires c !in rep
    ensures c !in ReplaceAll(s, [c], rep)
    decreases |s|
  {
    if |s| > 0 {
      ReplaceCharStep(s, c, rep);
      ReplaceCharRemoves(s[1..], c, rep);
    }
  }

  // ---------------------------------------------------------------------------
  // re.search(r'\d+', s) and int()
  // ---------------------------------------------------------------------------

  /** Index of the first digit of s, or |s| when it has none. */
  function FindDigit(s: string): (i: nat)
    ensures i <= |s|
    ensures forall k :: 0 <= k < i ==> !IsDigit(s[k])
    ensures i < |s| ==> IsDigit(s[i])
  {
    if |s| == 0 || IsDigit(s[0]) then 0
    else
      var j := FindDigit(s[1..]);
      assert forall k :: 1 <= k < 1 + j ==> s[k] == s[1..][k - 1];
      1 + j
  }

  /** Length of the run of digits that starts s. */
  function DigitPrefix(s: string): (n: nat)
    ensures n <= |s|
    ensures forall k :: 0 <= k < n ==> IsDigit(s[k])
    ensures n < |s| ==> !IsDigit(s[n])
  {
    if |s| > 0 && IsDigit(s[0]) then
      var m := DigitPrefix(s[1..]);
      assert forall k :: 1 <= k < 1 + m ==> s[k] == s[1..][k - 1];
      1 + m
    else 0
  }

  /** `re.search(r'\d+', s).group()`, or None when the search fails: the
      leftmost maximal run of digits. */
  function FirstDigitRun(s: string): (r: Option<string>)
    ensures r.None? <==> forall k :: 0 <= k < |s| ==> !IsDigit(s[k])
    ensures r.Some? ==>
      var i, d := FindDigit(s), r.value;
      && |d| > 0 && AllDigits(d)
      && i + |d| <= |s| && s[i..i + |d|] == d
      && (forall k :: 0 <= k < i ==> !IsDigit(s[k]))
      && (i + |d| < |s| ==> !IsDigit(s[i + |d|]))
  {
    var i := FindDigit(s);
    if i == |s| then None
    else
      var n := DigitPrefix(s[i..]);
      Some(s[i..i + n])
  }

  /** `int(d)` for a string of ASCII digits. */
  function DigitsValue(d: string): nat
    requires AllDigits(d)
  {
    if |d| == 0 then 0
    else 10 * DigitsValue(d[..|d| - 1]) + (d[|d| - 1] as int - '0' as int)
  }

  /** Leading zeros do not change the value, as with `int("007") == 7`. */
  lemma {:induction false} DigitsValueLeadingZero(d: string)
    requires AllDigits(d)
    ensures AllDigits("0" + d) && DigitsValue("0" + d) == DigitsValue(d)
    decreases |d|
  {
    if |d| > 0 {
      assert ("0" + d)[..|d|] == "0" + d[..|d| - 1];
      DigitsValueLeadingZero(d[..|d| - 1]);
    } else {
      assert "0" + d == "0";
    }
  }
}
