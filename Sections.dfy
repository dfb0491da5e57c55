/** The label-delimited section split of the per-row pipeline
    (process_requirements.py:84-93): the text blob of a row is cut at the
    case-insensitive labels "Conversation:", "Confirmation:" and
    "Dependencies:" into the card text, the conversation and the
    confirmation. */
module Sections {
  import opened PyStrings

  const ConversationLabel := "Conversation:"
  const ConfirmationLabel := "Confirmation:"
  const DependenciesLabel := "Dependencies:"

  /** The project-code boilerplate removed from the card text, and the
      residual code removed after it. */
  const CardBoilerplate := "GRM - USC"
  const CardCode := "USC"

  datatype Sections = Sections(card: string, conversation: string, confirmation: string)

  /** `pieces[1] if len(pieces) > 1 else ""`. */
  function SecondPiece(pieces: seq<string>): string {
    if |pieces| > 1 then pieces[1] else ""
  }

  /** The card text: both codes removed, in that order, then stripped. */
  function CleanCard(s: string): (r: string)
    ensures Unpadded(r)
  {
    Strip(ReplaceAll(ReplaceAll(s, CardBoilerplate, ""), CardCode, ""))
  }

  /** The three sections of a row's text blob. */
  function SplitSections(text: string): (r: Sections)
    ensures Unpadded(r.card)
  {
    var splitCard := SplitOn(text, ConversationLabel, true);
    var remaining := SecondPiece(splitCard);
    var splitConv := SplitOn(remaining, ConfirmationLabel, true);
    var remaining2 := SecondPiece(splitConv);
    var splitConf := SplitOn(remaining2, DependenciesLabel, true);
    Sections(CleanCard(splitCard[0]), Strip(splitConv[0]), Strip(splitConf[0]))
  }

  // ---------------------------------------------------------------------------
  // Reference reading by search
  // ---------------------------------------------------------------------------

  /** The text before the first case-insensitive occurrence of marker (all of
      s when there is none). */
  function Before(s: string, marker: string): string
    requires |marker| > 0
  {
    s[..Find(s, marker, true)]
  }

  /** The text after the first case-insensitive occurrence of marker, up to
      the next occurrence or the end; "" when marker does not occur. */
  function After(s: string, marker: string): string
    requires |marker| > 0
  {
    var i := Find(s, marker, true);
    if i == |s| then "" else s[i + |marker|..FindFrom(s, marker, true, i + |marker|)]
  }

  /** The first piece of the split on a marker is the text before it. */
  lemma FirstPieceIsBefore(s: string, marker: string)
    requires |marker| > 0
    ensures SplitOn(s, marker, true)[0] == Before(s, marker)
  {
    SplitFromHead(s, marker, true, 0);
    assert s[0..Find(s, marker, true)] == s[..Find(s, marker, true)];
  }

  /** The second piece of the split on a marker is the text after its first
      occurrence and before its second: a repeated marker cuts the section
      short, and an absent marker gives "". */
  lemma SecondPieceIsAfter(s: string, marker: string)
    requires |marker| > 0
    ensures SecondPiece(SplitOn(s, marker, true)) == After(s, marker)
  {
    SplitOnSecond(s, marker, true);
  }

  /** The sections, read by search: the card is the cleaned text before the
      first "Conversation:"; the conversation is the stripped text after it,
      up to a second "Conversation:", cut at the first "Confirmation:"; the
      confirmation is the stripped text after that "Confirmation:", up to a
      second one, cut at the first "Dependencies:". */
  lemma SectionsBySearch(text: string)
    ensures var rest1 := After(text, ConversationLabel);
      var rest2 := After(rest1, ConfirmationLabel);
      SplitSections(text) ==
        Sections(CleanCard(Before(text, ConversationLabel)),
                 Strip(Before(rest1, ConfirmationLabel)),
                 Strip(Before(rest2, DependenciesLabel)))
  {
    var rest1 := After(text, ConversationLabel);
    var rest2 := After(rest1, ConfirmationLabel);
    FirstPieceIsBefore(text, ConversationLabel);
    SecondPieceIsAfter(text, ConversationLabel);
    FirstPieceIsBefore(rest1, ConfirmationLabel);
    SecondPieceIsAfter(rest1, ConfirmationLabel);
    FirstPieceIsBefore(rest2, DependenciesLabel);
  }

  /** Without "Conversation:" the whole blob is card text and the other two
      sections are empty. */
  lemma NoConversationLabel(text: string)
    requires Find(text, ConversationLabel, true) == |text|
    ensures SplitSections(text) == Sections(CleanCard(text), "", "")
  {
    SectionsBySearch(text);
    assert text[..|text|] == text;
    assert After("", ConfirmationLabel) == "";
  }

  /** A blob that starts with "Conversation:" (in any case) has empty card
      text. */
  lemma LeadingConversationLabel(text: string)
    requires StartsWith(text, ConversationLabel, true)
    ensures SplitSections(text).card == ""
  {
    SectionsBySearch(text);
    assert Find(text, ConversationLabel, true) == 0;
    assert ReplaceAll("", CardBoilerplate, "") == "";
  }

  /** Card text without any 'U' is only stripped. */
  lemma CleanCardWithoutCodes(s: string)
    requires 'U' !in s
    ensures CleanCard(s) == Strip(s)
  {
    FindMissingChar(s, CardBoilerplate, 6);
    ReplaceAbsent(s, CardBoilerplate, "");
    FindMissingChar(s, CardCode, 0);
    ReplaceAbsent(s, CardCode, "");
  }
}
