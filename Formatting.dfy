/** The two presentation transforms applied to the conversation and
    confirmation sections of a requirement (process_requirements.py:10-22). */
module Formatting {
  import opened PyStrings

  /** The line-break marker the rendered table uses inside a cell. */
  const LineBreak := "<br>"

  /** What every "Test" of a confirmation becomes: a new bulleted item. */
  const TestItem := "<br>• **Test**"

  /** `format_confirmation`: "N/A" for an empty section; otherwise every
      "Test" starts a new bulleted item, one leading line break is dropped and
      the text is stripped. */
  function FormatConfirmation(text: string): (r: string)
    ensures |r| > 0 ==> !IsWs(r[0]) && !IsWs(r[|r| - 1])
  {
    if text == "" then "N/A"
    else
      var formatted := ReplaceAll(text, "Test", TestItem);
      var trimmed := if StartsWith(formatted, LineBreak, false) then formatted[4..] else formatted;
      Strip(trimmed)
  }

  /** `format_conversation`: "" for an empty section; otherwise every "." is
      followed by a line break, except the periods of "e.g.", which are masked
      as "e_g_" while the breaks are inserted, and the text is stripped. */
  function FormatConversation(text: string): (r: string)
    ensures |r| > 0 ==> !IsWs(r[0]) && !IsWs(r[|r| - 1])
  {
    if text == "" then ""
    else
      var masked := ReplaceAll(text, "e.g.", "e_g_");
      var broken := ReplaceAll(masked, ".", ".<br>");
      var restored := ReplaceAll(broken, "e_g_", "e.g.");
      Strip(restored)
  }

  // ---------------------------------------------------------------------------
  // Confirmation
  // ---------------------------------------------------------------------------

  /** An empty confirmation section reads "N/A". */
  lemma ConfirmationEmpty()
    ensures FormatConfirmation("") == "N/A"
  {
  }

  /** A confirmation that starts with "Test" starts with a bullet, not a
      line break: the marker inserted before its first "Test" is the one
      that is dropped. */
  lemma ConfirmationLeadingTest(text: string)
    requires "Test" <= text
    ensures "• **Test**" <= FormatConfirmation(text)
  {
    StartsWithIsPrefix(text, "Test");
    var formatted := ReplaceAll(text, "Test", TestItem);
    assert formatted == TestItem + ReplaceAll(text[4..], "Test", TestItem);
    StartsWithIsPrefix(formatted, LineBreak);
    StripKeepsPrefix(formatted[4..], "• **Test**");
  }

  /** Without "Test" and a leading line break, a confirmation is only stripped. */
  lemma ConfirmationWithoutTest(text: string)
    requires text != "" && Find(text, "Test", false) == |text|
    requires !(LineBreak <= text)
    ensures FormatConfirmation(text) == Strip(text)
  {
    ReplaceAbsent(text, "Test", TestItem);
    StartsWithIsPrefix(text, LineBreak);
  }

  /** Only one leading line break is removed: a confirmation that already
      begins with two keeps the second. */
  lemma ConfirmationKeepsSecondBreak(rest: string)
    ensures LineBreak <= FormatConfirmation(LineBreak + LineBreak + rest)
  {
    var text := LineBreak + LineBreak + rest;
    assert text == (LineBreak + LineBreak) + rest;
    ReplaceSkipsPrefix(LineBreak + LineBreak, rest, "Test", TestItem);
    var formatted := ReplaceAll(text, "Test", TestItem);
    assert formatted == LineBreak + (LineBreak + ReplaceAll(rest, "Test", TestItem));
    StartsWithIsPrefix(formatted, LineBreak);
    StripKeepsPrefix(formatted[4..], LineBreak);
  }

  // ---------------------------------------------------------------------------
  // Conversation
  // ---------------------------------------------------------------------------

  /** Reference definition of the conversation transform: a left-to-right
      scan that copies "e.g." as it is and follows every other period with a
      line break. */
  function BreakSentences(s: string): string
    decreases |s|
  {
    if |s| == 0 then ""
    else if StartsWith(s, "e.g.", false) then "e.g." + BreakSentences(s[4..])
    else if s[0] == '.' then ".<br>" + BreakSentences(s[1..])
    else [s[0]] + BreakSentences(s[1..])
  }

  /** The first two replacements of `format_conversation`. */
  ghost function MaskAndBreak(s: string): string {
    ReplaceAll(ReplaceAll(s, "e.g.", "e_g_"), ".", ".<br>")
  }

  lemma MaskAndBreakStep(s: string)
    requires |s| > 0
    ensures MaskAndBreak(s) ==
      if StartsWith(s, "e.g.", false) then "e_g_" + MaskAndBreak(s[4..])
      else if s[0] == '.' then ".<br>" + MaskAndBreak(s[1..])
      else [s[0]] + MaskAndBreak(s[1..])
  {
    if StartsWith(s, "e.g.", false) {
      ReplaceCharConcat("e_g_", ReplaceAll(s[4..], "e.g.", "e_g_"), '.', ".<br>");
      ReplaceCharAbsent("e_g_", '.', ".<br>");
    } else {
      ReplaceCharConcat([s[0]], ReplaceAll(s[1..], "e.g.", "e_g_"), '.', ".<br>");
      ReplaceCharStep([s[0]], '.', ".<br>");
    }
  }

  /** A prefix without 'e' and '.' of the masked text was already in the input. */
  lemma {:induction false} MaskAndBreakPrefix(s: string, w: string)
    requires 'e' !in w && '.' !in w
    ensures w <= MaskAndBreak(s) ==> w <= s
    decreases |w|
  {
    if |w| > 0 && |s| > 0 {
      MaskAndBreakStep(s);
      if !StartsWith(s, "e.g.", false) && s[0] != '.' {
        MaskAndBreakPrefix(s[1..], w[1..]);
        assert w <= MaskAndBreak(s) ==> w == [s[0]] + w[1..];
      }
    }
  }

  /** On text with no "e_g_" of its own, mask, break and restore is the
      reference scan. */
  lemma {:induction false} RestoreIsBreakSentences(s: string)
    requires Find(s, "e_g_", false) == |s|
    ensures ReplaceAll(MaskAndBreak(s), "e_g_", "e.g.") == BreakSentences(s)
    decreases |s|
  {
    if |s| > 0 {
      MaskAndBreakStep(s);
      if StartsWith(s, "e.g.", false) {
        FindInSuffix(s, "e_g_", false, 4);
        RestoreIsBreakSentences(s[4..]);
        assert ("e_g_" + MaskAndBreak(s[4..]))[4..] == MaskAndBreak(s[4..]);
      } else if s[0] == '.' {
        FindInSuffix(s, "e_g_", false, 1);
        RestoreIsBreakSentences(s[1..]);
        ReplaceSkipsPrefix(".<br>", MaskAndBreak(s[1..]), "e_g_", "e.g.");
      } else {
        FindInSuffix(s, "e_g_", false, 1);
        RestoreIsBreakSentences(s[1..]);
        if s[0] == 'e' {
          var t := [s[0]] + MaskAndBreak(s[1..]);
          assert t[1..] == MaskAndBreak(s[1..]);
          // s itself does not start with "e_g_", so neither does s[1..] with "_g_"
          assert !StartsWith(s, "e_g_", false);
          StartsWithIsPrefix(s, "e_g_");
          assert "_g_" <= s[1..] ==> "e_g_" <= s;
          MaskAndBreakPrefix(s[1..], "_g_");
          StartsWithIsPrefix(t, "e_g_");
        } else {
          ReplaceSkipsPrefix([s[0]], MaskAndBreak(s[1..]), "e_g_", "e.g.");
        }
      }
    }
  }

  /** `format_conversation` on a section without "e_g_" is the stripped
      reference scan: "e.g." survives and every other period is followed by a
      line break. */
  lemma ConversationBreaksSentences(text: string)
    requires Find(text, "e_g_", false) == |text|
    ensures FormatConversation(text) == Strip(BreakSentences(text))
  {
    if text != "" {
      RestoreIsBreakSentences(text);
    }
  }

  /** An empty conversation section stays empty. */
  lemma ConversationEmpty()
    ensures FormatConversation("") == ""
  {
  }

  /** Text without periods passes through the reference scan unchanged. */
  lemma {:induction false} BreakSentencesNoPeriod(s: string)
    requires '.' !in s
    ensures BreakSentences(s) == s
    decreases |s|
  {
    if |s| > 0 {
      assert !StartsWith(s, "e.g.", false) by {
        if |s| >= 4 { assert s[1] in s; }
      }
      BreakSentencesNoPeriod(s[1..]);
      assert s == [s[0]] + s[1..];
    }
  }
}
