/** The identifier decomposer `parse_id_title_sort_key`
    (process_requirements.py:26-63): a compound first column such as
    "GRM-USC 1-Create grooming schedule" becomes a display id, a title and the
    (group, number) sort key. */
module IdentifierKey {
  import opened PyStrings

  /** The group and number given to an identifier that cannot be decomposed,
      so that it sorts late. */
  const GroupSentinel := "ZZZ"
  const NumberSentinel := 9999

  const EnDash := '\U{2013}'
  const EmDash := '\U{2014}'

  datatype IdKey = IdKey(id: string, title: string, sortGroup: string, sortNum: nat)

  /** The identifier with en dash and em dash turned into '-'. */
  function NormalizeDashes(raw: string): string {
    ReplaceAll(ReplaceAll(raw, [EnDash], "-"), [EmDash], "-")
  }

  /** The number of the first digit run of a token, or fallback when it has
      no digit. */
  function SortNumber(token: string, fallback: nat): nat {
    match FirstDigitRun(token)
    case Some(d) => DigitsValue(d)
    case None => fallback
  }

  /** `parse_id_title_sort_key(raw_string)`. */
  function ParseIdTitleSortKey(raw: string): IdKey {
    KeyOfParts(raw, SplitOn(NormalizeDashes(raw), "-", false))
  }

  /** The key built from the dash-separated parts of the normalised identifier. */
  function KeyOfParts(raw: string, parts: seq<string>): IdKey {
    if |parts| >= 3 then
      IdKey(Strip(parts[0]) + " - " + Strip(parts[1]),
            Strip(Join(parts[2..], "-")),
            Strip(parts[0]),
            SortNumber(parts[1], 0))
    else if |parts| == 2 then
      IdKey(raw, "", Strip(parts[0]), SortNumber(parts[1], NumberSentinel))
    else
      IdKey(raw, "", GroupSentinel, NumberSentinel)
  }

  /** Dash normalisation changes exactly the en and em dashes, position by
      position. */
  lemma NormalizeDashesPointwise(raw: string)
    ensures |NormalizeDashes(raw)| == |raw|
    ensures forall k :: 0 <= k < |raw| ==>
      NormalizeDashes(raw)[k] == if raw[k] == EnDash || raw[k] == EmDash then '-' else raw[k]
  {
    ReplaceCharByChar(raw, EnDash, '-');
    ReplaceCharByChar(ReplaceAll(raw, [EnDash], "-"), EmDash, '-');
  }

  /** Index of the first '-' of s (|s| when there is none). */
  function FirstDash(s: string): nat {
    Find(s, "-", false)
  }

  /** Index of the second '-' of s (|s| when there is none). */
  function SecondDash(s: string): nat
    requires FirstDash(s) < |s|
  {
    FindFrom(s, "-", false, FirstDash(s) + 1)
  }

  /** With two or more dashes, the first two are inside s, in order. */
  lemma TwoDashes(s: string)
    requires CountChar(s, '-') >= 2
    ensures FirstDash(s) < |s| && SecondDash(s) < |s|
    ensures s[FirstDash(s)] == '-' && s[SecondDash(s)] == '-'
  {
    CountCharZero(s, '-');
    FindChar(s, '-');
    CountAfterFirst(s, '-');
    CountCharZero(s[FirstDash(s) + 1..], '-');
    FindCharFrom(s, '-', FirstDash(s) + 1);
  }

  /** The text before the first dash and between the first two holds no dash. */
  lemma DashFree(s: string)
    requires FirstDash(s) < |s|
    ensures '-' !in s[..FirstDash(s)] && '-' !in s[FirstDash(s) + 1..SecondDash(s)]
  {
    FindCharBefore(s, '-');
    FindCharBeforeFrom(s, '-', FirstDash(s) + 1);
  }

  /** When s has two dashes, the split on '-' is the text before the first
      dash, the text between the first two, and the split of what follows the
      second. */
  lemma DashTokens(s: string)
    requires FirstDash(s) < |s| && SecondDash(s) < |s|
    ensures var parts := SplitOn(s, "-", false);
      && |parts| >= 3
      && parts[0] == s[..FirstDash(s)]
      && parts[1] == s[FirstDash(s) + 1..SecondDash(s)]
      && parts[2..] == SplitFrom(s, "-", false, SecondDash(s) + 1)
  {
    var i, j := FirstDash(s), SecondDash(s);
    SplitFromTwo(s, "-", false, 0, i, i + 1, j, j + 1);
    assert s[0..i] == s[..i];
  }

  /** The key of three or more parts. */
  lemma KeyOfSeveralParts(raw: string, parts: seq<string>, a: string, b: string, title: string)
    requires |parts| >= 3 && parts[0] == a && parts[1] == b && Join(parts[2..], "-") == title
    ensures KeyOfParts(raw, parts) == IdKey(Strip(a) + " - " + Strip(b), Strip(title), Strip(a), SortNumber(b, 0))
  {
  }

  /** With two or more dashes of any kind: the id joins the stripped text
      before the first dash and between the first two dashes with " - ", the
      title is everything after the second dash (later dashes included),
      stripped, the group is the stripped first token, and the number is the
      first digit run of the second token, 0 if it has none. */
  lemma ParseSeveralDashes(raw: string)
    requires CountChar(NormalizeDashes(raw), '-') >= 2
    ensures FirstDash(NormalizeDashes(raw)) < |NormalizeDashes(raw)|
    ensures
      var s := NormalizeDashes(raw);
      var i, j := FirstDash(s), SecondDash(s);
      && i < j < |s| && s[i] == '-' && s[j] == '-'
      && '-' !in s[..i] && '-' !in s[i + 1..j]
      && ParseIdTitleSortKey(raw) ==
           IdKey(Strip(s[..i]) + " - " + Strip(s[i + 1..j]),
                 Strip(s[j + 1..]),
                 Strip(s[..i]),
                 SortNumber(s[i + 1..j], 0))
  {
    SeveralDashesKey(raw, NormalizeDashes(raw));
  }

  /** ParseSeveralDashes for any normalised text s. */
  lemma SeveralDashesKey(raw: string, s: string)
    requires CountChar(s, '-') >= 2
    ensures FirstDash(s) < |s|
    ensures
      var i, j := FirstDash(s), SecondDash(s);
      && i < j < |s| && s[i] == '-' && s[j] == '-'
      && '-' !in s[..i] && '-' !in s[i + 1..j]
      && KeyOfParts(raw, SplitOn(s, "-", false)) ==
           IdKey(Strip(s[..i]) + " - " + Strip(s[i + 1..j]),
                 Strip(s[j + 1..]),
                 Strip(s[..i]),
                 SortNumber(s[i + 1..j], 0))
  {
    TwoDashes(s);
    DashFree(s);
    SeveralDashesParts(s);
    var i, j := FirstDash(s), SecondDash(s);
    KeyOfSeveralParts(raw, SplitOn(s, "-", false), s[..i], s[i + 1..j], s[j + 1..]);
  }

  /** With two or more dashes, the first two parts of the split are the text
      before the first dash and between the first two, and the remaining
      parts rejoin to the text after the second. */
  lemma SeveralDashesParts(s: string)
    requires CountChar(s, '-') >= 2
    ensures FirstDash(s) < |s| && SecondDash(s) < |s|
    ensures var parts, i, j := SplitOn(s, "-", false), FirstDash(s), SecondDash(s);
      && |parts| >= 3 && parts[0] == s[..i] && parts[1] == s[i + 1..j]
      && Join(parts[2..], "-") == s[j + 1..]
  {
    TwoDashes(s);
    DashTokens(s);
    JoinOfSplitFrom(s, "-", SecondDash(s) + 1);
  }

  /** No dash of any of the three kinds. */
  predicate DashFreeText(s: string) {
    '-' !in s && EnDash !in s && EmDash !in s
  }

  /** The identifier built from two dash-free tokens and a title: the key
      gives the tokens back stripped, joined with " - " for the id, and the
      title with its own dashes normalised, stripped. */
  lemma ParseBuiltIdentifier(a: string, b: string, title: string)
    requires DashFreeText(a) && DashFreeText(b)
    ensures ParseIdTitleSortKey(a + "-" + b + "-" + title) ==
      IdKey(Strip(a) + " - " + Strip(b), Strip(NormalizeDashes(title)), Strip(a), SortNumber(b, 0))
  {
    NormalizeBuilt(a, b, title);
    var s := NormalizeDashes(a + "-" + b + "-" + title);
    BuiltDashes(a, b, NormalizeDashes(title), s);
    BuiltKey(a + "-" + b + "-" + title, a, b, NormalizeDashes(title), s);
  }

  /** The key of the split of s whose first two dashes surround b, after a
      and before t. */
  lemma BuiltKey(raw: string, a: string, b: string, t: string, s: string)
    requires FirstDash(s) == |a| < |s| && SecondDash(s) == |a| + 1 + |b| < |s|
    requires s[..|a|] == a && s[|a| + 1..|a| + 1 + |b|] == b && s[|a| + 1 + |b| + 1..] == t
    ensures KeyOfParts(raw, SplitOn(s, "-", false)) ==
      IdKey(Strip(a) + " - " + Strip(b), Strip(t), Strip(a), SortNumber(b, 0))
  {
    DashTokens(s);
    JoinOfSplitFrom(s, "-", |a| + 1 + |b| + 1);
    KeyOfSeveralParts(raw, SplitOn(s, "-", false), a, b, t);
  }

  /** In a built identifier the first two dashes are the two joining ones. */
  lemma BuiltDashes(a: string, b: string, t: string, s: string)
    requires '-' !in a && '-' !in b && s == a + "-" + b + "-" + t
    ensures FirstDash(s) == |a| && FirstDash(s) < |s| && SecondDash(s) == |a| + 1 + |b| < |s|
    ensures s[..|a|] == a && s[|a| + 1..|a| + 1 + |b|] == b && s[|a| + 1 + |b| + 1..] == t
  {
    var i, j := |a|, |a| + 1 + |b|;
    assert s[..i] == a && s[i + 1..j] == b && s[j + 1..] == t;
    assert s[i] == '-' && s[j] == '-';
    FindCharAt(s, '-', 0, i);
    FindCharAt(s, '-', i + 1, j);
  }

  /** Normalising the built identifier only touches the title. */
  lemma NormalizeBuilt(a: string, b: string, title: string)
    requires DashFreeText(a) && DashFreeText(b)
    ensures NormalizeDashes(a + "-" + b + "-" + title) == a + "-" + b + "-" + NormalizeDashes(title)
  {
    var raw := a + "-" + b + "-" + title;
    var lhs, rhs := NormalizeDashes(raw), a + "-" + b + "-" + NormalizeDashes(title);
    NormalizeDashesPointwise(raw);
    NormalizeDashesPointwise(title);
    var n := |a| + |b| + 2;
    forall k | 0 <= k < |raw| ensures lhs[k] == rhs[k] {
      if k < |a| {
        assert raw[k] == a[k] && rhs[k] == a[k] && a[k] in a;
      } else if k == |a| || k == n - 1 {
        assert raw[k] == '-' && rhs[k] == '-';
      } else if k < n - 1 {
        assert raw[k] == b[k - |a| - 1] && rhs[k] == b[k - |a| - 1] && b[k - |a| - 1] in b;
      } else {
        assert raw[k] == title[k - n] && rhs[k] == NormalizeDashes(title)[k - n];
      }
    }
  }

  /** Exactly one dash: the first dash is inside s and none follows it. */
  lemma OneDash(s: string)
    requires CountChar(s, '-') == 1
    ensures FirstDash(s) < |s| && s[FirstDash(s)] == '-'
    ensures '-' !in s[FirstDash(s) + 1..]
    ensures FindFrom(s, "-", false, FirstDash(s) + 1) == |s|
  {
    CountCharZero(s, '-');
    FindChar(s, '-');
    CountAfterFirst(s, '-');
    CountCharZero(s[FirstDash(s) + 1..], '-');
    FindCharFrom(s, '-', FirstDash(s) + 1);
  }

  /** When the first dash of s is its last, the split on '-' is the text
      before it and the text after it. */
  lemma OneDashTokens(s: string)
    requires FirstDash(s) < |s| && FindFrom(s, "-", false, FirstDash(s) + 1) == |s|
    ensures var parts := SplitOn(s, "-", false);
      |parts| == 2 && parts[0] == s[..FirstDash(s)] && parts[1] == s[FirstDash(s) + 1..]
  {
    var i := FirstDash(s);
    SplitFromOnce(s, "-", false, 0, i, i + 1);
    assert s[0..i] == s[..i];
  }

  /** With exactly one dash: the id is the raw identifier itself (dashes not
      normalised), the title is empty, the group is the stripped text before
      the dash and the number is the first digit run after it, 9999 if none. */
  lemma ParseOneDash(raw: string)
    requires CountChar(NormalizeDashes(raw), '-') == 1
    ensures
      var s := NormalizeDashes(raw);
      var i := FirstDash(s);
      && i < |s| && s[i] == '-' && '-' !in s[..i] && '-' !in s[i + 1..]
      && ParseIdTitleSortKey(raw) ==
           IdKey(raw, "", Strip(s[..i]), SortNumber(s[i + 1..], NumberSentinel))
  {
    var s := NormalizeDashes(raw);
    OneDash(s);
    FindCharBefore(s, '-');
    OneDashTokens(s);
    KeyOfTwoParts(raw, SplitOn(s, "-", false), s[..FirstDash(s)], s[FirstDash(s) + 1..]);
  }

  /** The key of exactly two parts. */
  lemma KeyOfTwoParts(raw: string, parts: seq<string>, a: string, b: string)
    requires |parts| == 2 && parts[0] == a && parts[1] == b
    ensures KeyOfParts(raw, parts) == IdKey(raw, "", Strip(a), SortNumber(b, NumberSentinel))
  {
  }

  /** An identifier with no dash of any kind keeps its raw text as id and
      gets the sentinel key ("ZZZ", 9999). */
  lemma ParseNoDash(raw: string)
    requires '-' !in raw && EnDash !in raw && EmDash !in raw
    ensures ParseIdTitleSortKey(raw) == IdKey(raw, "", GroupSentinel, NumberSentinel)
  {
    var s := NormalizeDashes(raw);
    NormalizeDashesPointwise(raw);
    assert '-' !in s by {
      forall k | 0 <= k < |s| ensures s[k] != '-' {
        assert raw[k] in raw;
      }
    }
    FindChar(s, '-');
    SplitFromLast(s, "-", false, 0);
    assert s[0..] == s;
  }
}
