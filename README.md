# Requirements export normaliser: a Dafny model

This project models `process_requirements.py`, a script that turns a
semi-structured requirements export into a sorted table. Each CSV row has
three parts:

- a compound first column such as `GRM-USC 1-Create grooming schedule`;
- middle columns whose text is divided by the labels `Conversation:`,
  `Confirmation:` and `Dependencies:`;
- a category column.

The script decomposes the identifier into a display id, a title and a
`(group, number)` sort key. It cuts the text into card text, conversation
and confirmation, and reformats the latter two. It drops rows whose card text
is shorter than five characters, and sorts the records by key. Finally it
projects the records to five display cells with line breaks turned into
`<br>`.

The model has six modules: two of shared primitives (`PyStrings`, `Ordering`) and four for the stages of the script:

- `PyStrings` holds the Python string primitives the script relies on. These
  are `str.strip()`, `str.replace`, `str.split`, and `re.split` with
  `re.IGNORECASE` on a literal label (all pieces, no `maxsplit`). Also here:
  `"-".join`, and `re.search(r'\d+')` followed by `int()`. Matching and
  searching are defined on positions (`MatchAt`, `FindFrom`, `SplitFrom`).
- `Formatting` holds `format_confirmation` and `format_conversation`.
- `IdentifierKey` holds `parse_id_title_sort_key`.
- `Sections` holds the three label splits and the card-text cleaning.
- `Ordering` holds Python string order and the `(group, number)` key order
  used by `sort_values`.
- `Requirements` holds the row record, the row filter, the row loop (a
  method with a loop invariant), the sort (an insertion-sort method proved
  sorted, a permutation and stable: records of one key keep their row order,
  and these three properties determine the result), the display projection and the whole run.

The model's input is an already-parsed sequence of rows (`seq<seq<string>>`).
Its output is a `Report`: the table of display rows and the total shown in
the summary line.

Four consequences of the code are easy to miss:

- **Repeated labels.** The three label splits return every piece, not at
  most two. The conversation is the text between the first and the *second*
  `Conversation:` (cut at the first `Confirmation:`). A repeated label
  therefore truncates a section (`Sections.SecondPieceIsAfter`).
- **A row whose text starts with a label is dropped.** In the row
  `GRM-USC 2-Create grooming schedule,Conversation: ...,Feature`, all of the
  middle text follows `Conversation:`. Its card text is therefore empty and
  the row is dropped (`Requirements.LabelFirstRowDropped`).
- **A confirmation can start with a line break.** Only one leading `<br>`
  is removed, so every confirmation that begins with `<br><br>` keeps one
  (`Formatting.ConfirmationKeepsSecondBreak`).
- **The sentinel group does not always sort last.** `"ZZZ"` sorts after
  every group that is empty or starts below `'Z'`, which covers the
  upper-case module codes. Lower-case groups and groups such as `"ZZZZ"` or
  `"Zone"` sort after it (`Ordering.SentinelAfterCodes`,
  `Ordering.SentinelNotAlwaysLast`).

## Model

| member | source | states |
|---|---|---|
| PyStrings.ReplaceAll | process_requirements.py:12 | `str.replace`, leftmost and non-overlapping; its meaning is given by ReplaceAtFirst, ReplaceIsJoinOfSplit and ReplaceAbsent |
| PyStrings.SplitOn | process_requirements.py:29 | `str.split(sep)`, and `re.split` on a literal label, with every piece kept; at least one piece; described by SplitFromHead, SplitOnSecond, SplitCharPieces and JoinOfSplit |
| PyStrings.SplitFrom | process_requirements.py:84 | the pieces of the split from a position onwards; at least one piece |
| PyStrings.Join | process_requirements.py:43 | `sep.join(pieces)`; JoinOfSplit and JoinOfSplitFrom make it the inverse of the split |
| PyStrings.Find | process_requirements.py:84 | the position of the first label occurrence, `|s|` for none, and a match fits inside s; described by FindSpec |
| PyStrings.FindFrom | process_requirements.py:88 | the same from a start position, at or after it; described by FindFromSpec |
| PyStrings.DigitsValue | process_requirements.py:52 | `int()` of an ASCII digit string; DigitsValueLeadingZero shows leading zeros are ignored |
| PyStrings.IsWs | process_requirements.py:75 | the characters `strip()` removes (at lines 14, 22, 75, 85, 89 and 93): the ASCII characters `str.isspace` accepts; Strip's contract is stated with it |
| PyStrings.MatchAt | process_requirements.py:84 | a label occurs at a position, compared character by character, case-insensitively under `re.IGNORECASE` (lines 84, 88, 92); MatchAtExact makes the case-sensitive form slice equality and MatchAtIgnoringCase relates the two |
| PyStrings.SameChar | process_requirements.py:84 | character equality, after ASCII lower-casing under `re.IGNORECASE` |
| PyStrings.Lower | process_requirements.py:84 | the ASCII case folding `re.IGNORECASE` applies to `A`..`Z` |
| PyStrings.StartsWith | process_requirements.py:13 | `formatted.startswith('<br>')`; StartsWithIsPrefix makes it Dafny's prefix relation |
| PyStrings.MatchAtExact | process_requirements.py:13 | a case-sensitive match at k is the equality of the pattern with the slice of s at k |
| PyStrings.StartsWithIsPrefix | process_requirements.py:13 | case-sensitive `startswith` holds exactly when the pattern is a prefix |
| PyStrings.Strip | process_requirements.py:75 | `strip()`: the result is the slice of the input after its leading whitespace, it has no whitespace at either end, and everything cut off is whitespace |
| PyStrings.StripUnpadded | process_requirements.py:75 | text that neither starts nor ends with whitespace is its own strip |
| PyStrings.StripKeepsPrefix | process_requirements.py:14 | a prefix that starts and ends with non-whitespace survives stripping |
| PyStrings.FindSpec | process_requirements.py:84 | the label search stops at the first match (case-insensitive when asked), and there is no match before it; `|s|` means none |
| PyStrings.FindFromSpec | process_requirements.py:88 | the same for a search that starts at a given position |
| PyStrings.FindMissingChar | process_requirements.py:85 | text that lacks some character of a pattern has no occurrence of it |
| PyStrings.FindCharAt | process_requirements.py:29 | the search for a character stops at its first occurrence after the start |
| PyStrings.SplitFromHead | process_requirements.py:84 | the first piece of a split is the text up to the first separator, and there is a second piece exactly when a separator occurs |
| PyStrings.SplitOnSecond | process_requirements.py:86 | the second piece exists exactly when the separator occurs, and runs from its first occurrence to the next occurrence or the end |
| PyStrings.SplitCharPieces | process_requirements.py:29 | `split('-')` gives one piece more than there are dashes, and no piece contains a dash |
| PyStrings.JoinOfSplit | process_requirements.py:43 | joining the pieces of a split with the separator gives the text back |
| PyStrings.JoinOfSplitFrom | process_requirements.py:43 | the same for the pieces after a given position, which is how the title keeps its dashes |
| PyStrings.ReplaceAtFirst | process_requirements.py:12 | `replace` keeps the text before the first occurrence, substitutes it and continues after it; without an occurrence the text is unchanged |
| PyStrings.ReplaceAbsent | process_requirements.py:85 | replacing an absent pattern changes nothing |
| PyStrings.ReplaceIsJoinOfSplit | process_requirements.py:12 | `s.replace(p, r)` equals `r.join(s.split(p))` |
| PyStrings.ReplaceCharByChar | process_requirements.py:27 | replacing one character by another keeps the length and changes exactly the positions that held it |
| PyStrings.ReplaceCharRemoves | process_requirements.py:117 | after replacing a character by text without it, the character no longer occurs |
| PyStrings.ReplaceCharAbsent | process_requirements.py:117 | replacing an absent character changes nothing |
| PyStrings.CountCharZero | process_requirements.py:29 | a character occurs zero times exactly when it is absent |
| PyStrings.FirstDigitRun | process_requirements.py:50 | `re.search(r'\d+')`: None exactly when there is no digit; otherwise the run is non-empty, all digits, maximal, and starts at the first digit |
| PyStrings.DigitsValueLeadingZero | process_requirements.py:52 | a leading zero does not change the value |
| PyStrings.MatchAtIgnoringCase | process_requirements.py:84 | a case-sensitive match of a label is also an `IGNORECASE` match |
| Formatting.FormatConfirmation | process_requirements.py:10-14 | the result never starts or ends with whitespace |
| Formatting.ConfirmationEmpty | process_requirements.py:11 | an empty confirmation reads "N/A" |
| Formatting.ConfirmationLeadingTest | process_requirements.py:12-13 | a confirmation starting with "Test" yields a result starting with the bullet `• **Test**` |
| Formatting.ConfirmationWithoutTest | process_requirements.py:10-14 | without "Test" and without a leading `<br>`, the confirmation is only stripped |
| Formatting.ConfirmationKeepsSecondBreak | process_requirements.py:12-14 | exactly one leading `<br>` is removed: every text starting with two keeps the second |
| Formatting.FormatConversation | process_requirements.py:17-22 | the result never starts or ends with whitespace |
| Formatting.ConversationBreaksSentences | process_requirements.py:17-22 | for text without "e_g_", the mask/break/restore chain equals a left-to-right scan that keeps every "e.g." and follows every other "." with `<br>`, stripped |
| Formatting.RestoreIsBreakSentences | process_requirements.py:19-21 | the three replacements together equal that scan, before stripping |
| Formatting.ConversationEmpty | process_requirements.py:18 | an empty conversation stays empty |
| Formatting.BreakSentencesNoPeriod | process_requirements.py:20 | text without a period is left alone by the scan |
| IdentifierKey.NormalizeDashes | process_requirements.py:27 | the two dash replacements; described by NormalizeDashesPointwise |
| IdentifierKey.SortNumber | process_requirements.py:50-54 | the number of the first digit run of a token, or the fallback (0 at line 54, 9999 at line 61) when it has none; FirstDigitRun describes the run |
| IdentifierKey.ParseIdTitleSortKey | process_requirements.py:26-63 | `parse_id_title_sort_key`; its result in all three cases is given by ParseSeveralDashes, ParseOneDash and ParseNoDash |
| IdentifierKey.KeyOfParts | process_requirements.py:31-61 | the key from the dash-separated parts; described by dash positions in SeveralDashesParts and ParseSeveralDashes (two dashes or more), OneDashTokens and ParseOneDash (one dash) and ParseNoDash (none) |
| IdentifierKey.NormalizeDashesPointwise | process_requirements.py:27 | dash normalisation keeps the length and maps exactly en and em dashes to '-' |
| IdentifierKey.ParseSeveralDashes | process_requirements.py:37-54 | with two or more dashes after normalisation: id is the stripped first and second tokens joined by " - ", title is everything after the second dash (later dashes kept), stripped, group is the stripped first token, number is the first digit run of the second token or 0 |
| IdentifierKey.ParseBuiltIdentifier | process_requirements.py:27-54 | parsing `a-b-title` for dash-free tokens gives back `Strip(a) + " - " + Strip(b)`, the stripped normalised title, `Strip(a)` and the number of `b` |
| IdentifierKey.ParseOneDash | process_requirements.py:56-61 | with exactly one dash: id is the raw text (not normalised), title is empty, group is the stripped text before the dash, number is the first digit run after it or 9999 |
| IdentifierKey.ParseNoDash | process_requirements.py:31-35 | with no dash of any kind, the key is exactly (raw, "", "ZZZ", 9999) |
| IdentifierKey.SeveralDashesParts | process_requirements.py:29-43 | with two or more dashes, the split's first two parts are the text before the first dash and between the first two, and the rest rejoins to the text after the second |
| IdentifierKey.SeveralDashesKey | process_requirements.py:37-54 | with two or more dashes, the first two lie inside the text in order with no dash before or between them, and the key is built from the text before the first, between the two, and after the second |
| IdentifierKey.DashTokens | process_requirements.py:29 | splitting on '-' when two dashes exist gives at least three parts: the text before the first dash, the text between the first two, then the split of the rest |
| IdentifierKey.OneDashTokens | process_requirements.py:29 | splitting on a single dash gives exactly the text before it and the text after it |
| IdentifierKey.TwoDashes | process_requirements.py:37 | two or more dashes put the first two inside the text, in order |
| IdentifierKey.OneDash | process_requirements.py:56 | a single dash lies inside the text and none follows it |
| Sections.SecondPiece | process_requirements.py:86 | `pieces[1]` when there is one, else ""; described by SecondPieceIsAfter |
| Sections.CleanCard | process_requirements.py:85 | the cleaned card text has no whitespace at either end |
| Sections.SplitSections | process_requirements.py:84-93 | the card section has no whitespace at either end |
| Sections.FirstPieceIsBefore | process_requirements.py:85 | the first piece of a label split is the text before the first case-insensitive label |
| Sections.SecondPieceIsAfter | process_requirements.py:86 | the second piece is the text after the first label up to the next one, or "" without a label |
| Sections.SectionsBySearch | process_requirements.py:84-93 | card, conversation and confirmation equal the search-based reading: text before the first "Conversation:", cleaned; text after it up to a repeated label, cut at "Confirmation:", stripped; and likewise for the confirmation with "Dependencies:" |
| Sections.NoConversationLabel | process_requirements.py:86 | without "Conversation:" the whole text is card text and both other sections are empty |
| Sections.LeadingConversationLabel | process_requirements.py:85 | text starting with "Conversation:" in any case has empty card text |
| Sections.CleanCardWithoutCodes | process_requirements.py:85 | card text without 'U' is only stripped |
| Ordering.StrLt | process_requirements.py:113 | Python `<` on str; StrLtAtFirstDifference gives its meaning and the lemmas below make it a strict total order |
| Ordering.KeyLe | process_requirements.py:113 | the (group, number) order of `sort_values`; KeyLeTransitive, KeyLeTotal and KeyLeAntisymmetric make it a total order |
| Ordering.StrLtAtFirstDifference | process_requirements.py:113 | string order: a before b exactly when a is a proper prefix of b, or a has the smaller character where they first differ |
| Ordering.CommonPrefix | process_requirements.py:113 | the common prefix length is within both strings, the prefixes agree, and the next characters differ |
| Ordering.StrLtIrreflexive | process_requirements.py:113 | no string sorts before itself |
| Ordering.StrLtTransitive | process_requirements.py:113 | string order is transitive |
| Ordering.StrLtTotal | process_requirements.py:113 | any two strings are equal or ordered one way round |
| Ordering.StrLtAsymmetric | process_requirements.py:113 | two strings are never each before the other |
| Ordering.KeyLeTransitive | process_requirements.py:113 | the (group, number) order is transitive |
| Ordering.KeyLeTotal | process_requirements.py:113 | any two keys are ordered one way round |
| Ordering.KeyLeAntisymmetric | process_requirements.py:113 | keys ordered both ways are equal |
| Ordering.NaturalOrder | process_requirements.py:113 | "BRD" sorts before "GRM", and number 2 before 10 although "10" < "2" as text |
| Ordering.SentinelAfterCodes | process_requirements.py:34-35 | the sentinel key sorts after every group that is empty or starts below 'Z' |
| Ordering.SentinelNotAlwaysLast | process_requirements.py:34 | "grm", "ZZZZ" and "Zone" sort after the sentinel "ZZZ" |
| Requirements.MiddleText | process_requirements.py:81 | the middle fields rejoined with ','; ShortRowDropped shows it is empty for rows of at most two fields |
| Requirements.ParseRow | process_requirements.py:73-106 | a kept row has two fields or more and card text of at least five characters with no whitespace at either end |
| Requirements.KeepRow | process_requirements.py:96-106 | a record is made exactly when the card text has at least five characters, and its user story is that card text |
| Requirements.ParseRowKept | process_requirements.py:74-96 | a row is kept exactly when it has two fields or more and the cleaned text before its first "Conversation:" has at least five characters |
| Requirements.ParseRowRecord | process_requirements.py:98-106 | the record of a kept row is [group, number, id, title, card text, formatted conversation, formatted confirmation], each section as found by label search |
| Requirements.ShortRowDropped | process_requirements.py:74-81 | rows of at most two fields are dropped, since their middle text is empty |
| Requirements.LeadingLabelDropped | process_requirements.py:96 | a row whose middle text starts with "Conversation:" is dropped |
| Requirements.LabelFirstRowDropped | process_requirements.py:81-96 | the row "GRM-USC 2-Create grooming schedule", "Conversation: staff need alerts....", "Feature" is dropped |
| Requirements.CardLengthBoundary | process_requirements.py:96 | for every row of two fields or more: cleaned card text of length 4 drops the row, of length 5 keeps it with that card text as user story |
| Requirements.ParseRows | process_requirements.py:73-106 | the records of all rows, in row order; described by CollectMembers and CollectAppend, and computed by CollectRecords |
| Requirements.Collect | process_requirements.py:73-106 | the collection has at most one record per row |
| Requirements.CollectAppend | process_requirements.py:73 | records keep the input order: collecting two stretches of rows gives the first's records then the second's |
| Requirements.CollectMembers | process_requirements.py:73-106 | a record is collected exactly when some row yields it |
| Requirements.CollectRecords | process_requirements.py:73-106 | the row loop, with `continue` for skipped rows, returns exactly the records of the rows in order |
| Requirements.Insert | process_requirements.py:113 | inserting adds exactly one record (as multisets) |
| Requirements.Ties | process_requirements.py:113 | the records sharing a given key, in sequence order, are no more than the sequence holds |
| Requirements.TiesMembers | process_requirements.py:113 | a record is among the ties of k exactly when it is in the sequence and has k's key |
| Requirements.TiesAppend | process_requirements.py:113 | the ties of a concatenation are the ties of each part, in order |
| Requirements.InsertTies | process_requirements.py:113 | inserting into a sorted sequence puts x after every record of its own key (stability) |
| Requirements.NoTiesAfter | process_requirements.py:113 | records that all come strictly after x share no key with it |
| Requirements.StableSortUnique | process_requirements.py:113 | two sorted sequences that list the records of every key in the same order are equal: sorted order plus tie order fix the result |
| Requirements.SortedHeadsAgree | process_requirements.py:113 | two such sequences start with the same record |
| Requirements.TiesOfTail | process_requirements.py:113 | dropping an equal first record from both keeps their ties equal |
| Requirements.InsertSorted | process_requirements.py:113 | inserting into a sorted sequence keeps it sorted by (group, number) |
| Requirements.InsertLowerBound | process_requirements.py:113 | a lower bound of x and of a sequence is a lower bound of the insertion |
| Requirements.ConsSorted | process_requirements.py:113 | a lower bound put in front of a sorted sequence keeps it sorted |
| Requirements.SortRecords | process_requirements.py:113 | the result is sorted by (group ascending, number ascending), is a permutation of the records, and keeps the records of each key in input order (a stable sort, as pandas' multi-column `sort_values` is) |
| Requirements.SortedKeysUnique | process_requirements.py:113 | two sorted permutations of the same records list the same keys in the same order, so the sort fixes all but the order of ties |
| Requirements.RemoveAt | process_requirements.py:113 | removing a record keeps a sorted sequence sorted, with one copy fewer |
| Requirements.FirstKeysAgree | process_requirements.py:113 | two sorted permutations start with records of the same key |
| Requirements.PrefixSameKey | process_requirements.py:113 | in a sorted sequence, records up to one with the first record's key all share it |
| Requirements.KeySqueezed | process_requirements.py:113 | a record between two of one key has that key |
| Requirements.Display | process_requirements.py:115-117 | the five display cells of a record; described by DisplayAll and DisplayOfSingleLine |
| Requirements.Cell | process_requirements.py:117 | a cell holds no '\n' after the replacement |
| Requirements.CellOfSingleLine | process_requirements.py:117 | a cell without '\n' is unchanged |
| Requirements.DisplayAll | process_requirements.py:115-117 | one display row per record in the same order, each with the five display cells and no '\n' |
| Requirements.DisplayOfSingleLine | process_requirements.py:115 | a record without line breaks shows its five display fields unchanged, sort columns dropped |
| Requirements.ProcessRequirements | process_requirements.py:110-125 | the table is the display of the stable sort of the collected records (sorted, a permutation, ties in row order; unique by StableSortUnique), no cell holds '\n', and the reported total equals the number of collected records |

## Left out

- Reading the file, skipping the two metadata lines, and CSV quoting
  (`readlines()[2:]`, `csv.reader`) are I/O and library parsing. The model
  starts from already-parsed rows.
- The pandas DataFrame and `to_markdown` rendering are a foreign library.
  The table is modelled as a sequence of five-cell display rows, and the
  markdown layout is not modelled.
- Writing the output file and the console prints are I/O. This includes the
  `iloc[1]` example line, which fails when fewer than two records remain.
- The category column (`row[-1].strip()`) is computed by the script but never
  used, so it is not modelled.
- Python's Unicode behaviour is modelled on ASCII. `strip()` removes the
  ASCII whitespace `str.isspace` accepts (space, `\t`..`\r`, `\x1c`..`\x1f`)
  and not Unicode spaces. `IGNORECASE` folds only `A`..`Z`. `\d` and `int()`
  accept only `0`..`9`.
- pandas' `sort_values` on the two sort columns is taken to be stable (ties
  in row order), as its multi-column sort is; its algorithm is not modelled.
- Formatting.ConversationBreaksSentences: covers only text that contains no
  `e_g_` of its own. On other text the script's restore step also turns the
  author's own `e_g_` into `e.g.`, and the lemma says nothing about that.
