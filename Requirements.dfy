/** The record pipeline and the sorted table of the requirements export
    (process_requirements.py:72-125): every parsed row becomes a record or is
    dropped, the records are sorted by (group, number), and each becomes a
    five-cell display row without embedded line breaks. */
module Requirements {
  import opened PyStrings
  import opened Formatting
  import opened IdentifierKey
  import opened Sections
  import opened Ordering

  /** Rows whose cleaned card text is shorter than this are dropped. */
  const MinCardLength := 5

  /** One collected row: the two hidden sort columns and the five display
      columns. */
  datatype Record = Record(sortGroup: string, sortNum: nat, id: string, title: string,
                           userStory: string, details: string, verification: string)

  /** One row of the rendered table. */
  datatype DisplayRow = DisplayRow(id: string, title: string, userStory: string,
                                   details: string, verification: string)

  /** What the output document is built from: the table and the total shown
      in its summary line. */
  datatype Report = Report(total: nat, table: seq<DisplayRow>)

  /** A row as delivered by the CSV reader. */
  type Row = seq<string>

  // ---------------------------------------------------------------------------
  // One row
  // ---------------------------------------------------------------------------

  /** The text blob: the fields between the first and the last, rejoined
      with ','. */
  function MiddleText(row: Row): string
    requires |row| >= 2
  {
    Join(row[1..|row| - 1], ",")
  }

  /** The record of one row, or None when the row is dropped. */
  function ParseRow(row: Row): (r: Option<Record>)
    ensures r.Some? ==> |row| >= 2 && |r.value.userStory| >= MinCardLength
    ensures r.Some? ==> Unpadded(r.value.userStory)
  {
    if |row| < 2 then None
    else KeepRow(ParseIdTitleSortKey(Strip(row[0])), SplitSections(MiddleText(row)))
  }

  /** The record of a row's key and sections, unless the card text is too
      short. */
  function KeepRow(key: IdKey, sections: Sections): (r: Option<Record>)
    ensures r.Some? <==> |sections.card| >= MinCardLength
    ensures r.Some? ==> r.value.userStory == sections.card
  {
    if |sections.card| < MinCardLength then None
    else
      Some(Record(key.sortGroup, key.sortNum, key.id, key.title, sections.card,
                  FormatConversation(sections.conversation),
                  FormatConfirmation(sections.confirmation)))
  }

  /** A row is kept exactly when it has two fields or more and the cleaned
      text before its first "Conversation:" has at least five characters. */
  lemma ParseRowKept(row: Row)
    ensures ParseRow(row).Some? <==>
      |row| >= 2 && |CleanCard(Before(MiddleText(row), ConversationLabel))| >= MinCardLength
  {
    if |row| >= 2 {
      SectionsBySearch(MiddleText(row));
    }
  }

  /** The record of a kept row, read by search: the key of the stripped first
      field, the card text, and the formatted sections found by the labels. */
  lemma ParseRowRecord(row: Row)
    requires ParseRow(row).Some?
    ensures var text := MiddleText(row);
      var key := ParseIdTitleSortKey(Strip(row[0]));
      var rest1 := After(text, ConversationLabel);
      var rest2 := After(rest1, ConfirmationLabel);
      ParseRow(row).value ==
        Record(key.sortGroup, key.sortNum, key.id, key.title,
               CleanCard(Before(text, ConversationLabel)),
               FormatConversation(Strip(Before(rest1, ConfirmationLabel))),
               FormatConfirmation(Strip(Before(rest2, DependenciesLabel))))
  {
    SectionsBySearch(MiddleText(row));
  }

  /** A row of at most two fields is dropped: its text blob is empty. */
  lemma ShortRowDropped(row: Row)
    requires |row| <= 2
    ensures ParseRow(row) == None
  {
    if |row| == 2 {
      assert row[1..|row| - 1] == [];
      NoConversationLabel("");
    }
  }

  /** A text blob that begins with "Conversation:" has no card text, so its
      row is dropped. */
  lemma LeadingLabelDropped(row: Row)
    requires |row| >= 2 && StartsWith(MiddleText(row), ConversationLabel, true)
    ensures ParseRow(row) == None
  {
    LeadingConversationLabel(MiddleText(row));
  }

  /** A row laid out as "id,Conversation: ...,category" is dropped: all of
      its text follows the label, so its card text is empty. */
  lemma LabelFirstRowDropped()
    ensures ParseRow(["GRM-USC 2-Create grooming schedule",
                      ConversationLabel + " staff need alerts.Confirmation: Test alerts fire.Dependencies: none",
                      "Feature"]) == None
  {
    var text := ConversationLabel + " staff need alerts.Confirmation: Test alerts fire.Dependencies: none";
    var row := ["GRM-USC 2-Create grooming schedule", text, "Feature"];
    assert row[1..|row| - 1] == [text];
    StartsWithIsPrefix(text, ConversationLabel);
    MatchAtIgnoringCase(text, 0, ConversationLabel);
    LeadingLabelDropped(row);
  }

  /** Card text of four characters is dropped, of five kept, and the kept
      record's user story is that card text. */
  lemma CardLengthBoundary(row: Row)
    requires |row| >= 2
    ensures var card := CleanCard(Before(MiddleText(row), ConversationLabel));
      && (|card| == 4 ==> ParseRow(row) == None)
      && (|card| == 5 ==> ParseRow(row).Some? && ParseRow(row).value.userStory == card)
  {
    SectionsBySearch(MiddleText(row));
  }

  // ---------------------------------------------------------------------------
  // All rows
  // ---------------------------------------------------------------------------

  /** The record of a row as a sequence of zero or one records. */
  function Kept(o: Option<Record>): seq<Record> {
    if o.Some? then [o.value] else []
  }

  /** The records a row parser f yields for rows, in row order. */
  function Collect(f: Row -> Option<Record>, rows: seq<Row>): (r: seq<Record>)
    ensures |r| <= |rows|
  {
    if |rows| == 0 then [] else Collect(f, rows[..|rows| - 1]) + Kept(f(rows[|rows| - 1]))
  }

  /** The records of the rows of an export. */
  function ParseRows(rows: seq<Row>): seq<Record> {
    Collect(ParseRow, rows)
  }

  /** One more row adds its record, if any, at the end. */
  lemma CollectStep(f: Row -> Option<Record>, rows: seq<Row>, i: nat)
    requires i < |rows|
    ensures Collect(f, rows[..i + 1]) == Collect(f, rows[..i]) + Kept(f(rows[i]))
  {
    assert rows[..i + 1][..i] == rows[..i];
  }

  /** Records keep the order of their rows: the records of two stretches of
      input, one after the other, are those of the first then those of the
      second. */
  lemma {:induction false} CollectAppend(f: Row -> Option<Record>, a: seq<Row>, b: seq<Row>)
    ensures Collect(f, a + b) == Collect(f, a) + Collect(f, b)
    decreases |b|
  {
    if |b| > 0 {
      var b' := b[..|b| - 1];
      assert (a + b)[..|a + b| - 1] == a + b';
      assert (a + b)[|a + b| - 1] == b[|b| - 1];
      CollectAppend(f, a, b');
    } else {
      assert a + b == a;
    }
  }

  /** A record is collected exactly when some row yields it. */
  lemma {:induction false} CollectMembers(f: Row -> Option<Record>, rows: seq<Row>, r: Record)
    ensures r in Collect(f, rows) <==> exists i :: 0 <= i < |rows| && f(rows[i]) == Some(r)
    decreases |rows|
  {
    if |rows| > 0 {
      var init := rows[..|rows| - 1];
      CollectMembers(f, init, r);
      if exists i :: 0 <= i < |init| && f(init[i]) == Some(r) {
        var i :| 0 <= i < |init| && f(init[i]) == Some(r);
        assert rows[i] == init[i];
      }
      if exists i :: 0 <= i < |rows| && f(rows[i]) == Some(r) {
        var i :| 0 <= i < |rows| && f(rows[i]) == Some(r);
        if i < |init| {
          assert init[i] == rows[i];
        }
      }
    }
  }

  /** The row loop: rows that pass the checks are appended to the collection
      in turn, the others skipped. */
  method CollectRecords(rows: seq<Row>) returns (records: seq<Record>)
    ensures records == ParseRows(rows)
  {
    records := [];
    var i := 0;
    while i < |rows|
      invariant 0 <= i <= |rows|
      invariant records == ParseRows(rows[..i])
    {
      var row := rows[i];
      CollectStep(ParseRow, rows, i);
      i := i + 1;
      if |row| < 2 {
        continue;
      }
      var rawFirstCol := Strip(row[0]);
      var key := ParseIdTitleSortKey(rawFirstCol);
      var fullText := Join(row[1..|row| - 1], ",");
      var sections := SplitSections(fullText);
      if |sections.card| < MinCardLength {
        continue;
      }
      records := records + [Record(key.sortGroup, key.sortNum, key.id, key.title, sections.card,
                                   FormatConversation(sections.conversation),
                                   FormatConfirmation(sections.confirmation))];
    }
    assert rows[..|rows|] == rows;
  }

  // ---------------------------------------------------------------------------
  // Sorting
  // ---------------------------------------------------------------------------

  predicate RecordLe(x: Record, y: Record) {
    KeyLe(x.sortGroup, x.sortNum, y.sortGroup, y.sortNum)
  }

  /** Ascending by (group, number). */
  predicate SortedByKey(rs: seq<Record>) {
    forall i, j :: 0 <= i < j < |rs| ==> RecordLe(rs[i], rs[j])
  }

  /** x placed after every record it does not come before, so that among
      records of one key the later one goes last. */
  function Insert(x: Record, rs: seq<Record>): (r: seq<Record>)
    ensures multiset(r) == multiset(rs) + multiset{x}
    ensures |r| == |rs| + 1
  {
    if |rs| == 0 then [x]
    else if RecordLe(rs[0], x) then
      assert rs == [rs[0]] + rs[1..];
      [rs[0]] + Insert(x, rs[1..])
    else [x] + rs
  }

  /** y comes no later than any record of rs. */
  predicate LowerBound(y: Record, rs: seq<Record>) {
    forall j :: 0 <= j < |rs| ==> RecordLe(y, rs[j])
  }

  /** A lower bound of a sorted sequence can be put in front of it. */
  lemma ConsSorted(y: Record, rs: seq<Record>)
    requires SortedByKey(rs) && LowerBound(y, rs)
    ensures SortedByKey([y] + rs)
  {
    var r := [y] + rs;
    forall i, j | 0 <= i < j < |r| ensures RecordLe(r[i], r[j]) {
      assert r[j] == rs[j - 1];
      if i > 0 {
        assert r[i] == rs[i - 1];
      }
    }
  }

  /** Whatever comes no later than x and than every record of rs comes no
      later than every record of Insert(x, rs). */
  lemma {:induction false} InsertLowerBound(y: Record, x: Record, rs: seq<Record>)
    requires LowerBound(y, rs) && RecordLe(y, x)
    ensures LowerBound(y, Insert(x, rs))
    decreases |rs|
  {
    if |rs| > 0 && RecordLe(rs[0], x) {
      InsertLowerBound(y, x, rs[1..]);
      var r := Insert(x, rs);
      assert r == [rs[0]] + Insert(x, rs[1..]);
      forall j | 0 <= j < |r| ensures RecordLe(y, r[j]) {
        if j > 0 {
          assert r[j] == Insert(x, rs[1..])[j - 1];
        }
      }
    }
  }

  /** Inserting into a sorted sequence keeps it sorted. */
  lemma {:induction false} InsertSorted(x: Record, rs: seq<Record>)
    requires SortedByKey(rs)
    ensures SortedByKey(Insert(x, rs))
    decreases |rs|
  {
    if |rs| > 0 {
      if !RecordLe(rs[0], x) {
        KeyLeTotal(x.sortGroup, x.sortNum, rs[0].sortGroup, rs[0].sortNum);
        forall j | 0 <= j < |rs| ensures RecordLe(x, rs[j]) {
          if j > 0 {
            KeyLeTransitive(x.sortGroup, x.sortNum, rs[0].sortGroup, rs[0].sortNum,
                            rs[j].sortGroup, rs[j].sortNum);
          }
        }
        ConsSorted(x, rs);
      } else {
        InsertSorted(x, rs[1..]);
        assert LowerBound(rs[0], rs[1..]) by {
          forall j | 0 <= j < |rs[1..]| ensures RecordLe(rs[0], rs[1..][j]) {
            assert rs[1..][j] == rs[j + 1];
          }
        }
        InsertLowerBound(rs[0], x, rs[1..]);
        ConsSorted(rs[0], Insert(x, rs[1..]));
      }
    }
  }

  /** The sort: records inserted one by one into a sorted prefix. It is
      stable: the records of each key keep their input order. */
  method SortRecords(records: seq<Record>) returns (sorted: seq<Record>)
    ensures SortedByKey(sorted)
    ensures multiset(sorted) == multiset(records)
    ensures forall k :: Ties(sorted, k) == Ties(records, k)
  {
    sorted := [];
    var i := 0;
    while i < |records|
      invariant 0 <= i <= |records|
      invariant SortedByKey(sorted)
      invariant multiset(sorted) == multiset(records[..i])
      invariant forall k :: Ties(sorted, k) == Ties(records[..i], k)
    {
      assert records[..i + 1] == records[..i] + [records[i]];
      forall k ensures Ties(Insert(records[i], sorted), k) == Ties(records[..i + 1], k) {
        InsertTies(records[i], sorted, k);
        TiesAppend(records[..i], [records[i]], k);
      }
      InsertSorted(records[i], sorted);
      sorted := Insert(records[i], sorted);
      i := i + 1;
    }
    assert records[..|records|] == records;
  }

  predicate SameKey(x: Record, y: Record) {
    x.sortGroup == y.sortGroup && x.sortNum == y.sortNum
  }

  /** Two sorted arrangements of the same records list the same keys in the
      same order: the sort fixes everything except the order of records that
      share a key. */
  lemma {:induction false} SortedKeysUnique(a: seq<Record>, b: seq<Record>)
    requires SortedByKey(a) && SortedByKey(b) && multiset(a) == multiset(b)
    ensures |a| == |b|
    ensures forall i :: 0 <= i < |a| ==> SameKey(a[i], b[i])
    decreases |a|
  {
    assert |a| == |multiset(a)| == |multiset(b)| == |b|;
    if |a| > 0 {
      var p := FirstKeysAgree(a, b);
      var b' := RemoveAt(b, p);
      assert a == [a[0]] + a[1..];
      assert multiset(a[1..]) == multiset(b');
      SortedKeysUnique(a[1..], b');
      PrefixSameKey(b, p);
      forall i | 0 < i < |a| ensures SameKey(a[i], b[i]) {
        assert a[i] == a[1..][i - 1];
        if i <= p {
          assert b'[i - 1] == b[i - 1];
        } else {
          assert b'[i - 1] == b[i];
        }
      }
    }
  }

  /** The first records of two sorted arrangements of the same records share
      a key, and the first of one sits at some position p of the other. */
  lemma FirstKeysAgree(a: seq<Record>, b: seq<Record>) returns (p: nat)
    requires SortedByKey(a) && SortedByKey(b) && multiset(a) == multiset(b) && |a| > 0
    ensures p < |b| && b[p] == a[0] && SameKey(a[0], b[0])
  {
    assert a[0] in multiset(b) && b[0] in multiset(a);
    p :| 0 <= p < |b| && b[p] == a[0];
    var q :| 0 <= q < |a| && a[q] == b[0];
    assert RecordLe(b[0], a[0]) by { if p > 0 { assert RecordLe(b[0], b[p]); } }
    assert RecordLe(a[0], b[0]) by { if q > 0 { assert RecordLe(a[0], a[q]); } }
    KeyLeAntisymmetric(a[0].sortGroup, a[0].sortNum, b[0].sortGroup, b[0].sortNum);
  }

  /** Removing one record keeps a sorted sequence sorted. */
  lemma RemoveAt(b: seq<Record>, p: nat) returns (b': seq<Record>)
    requires SortedByKey(b) && p < |b|
    ensures b' == b[..p] + b[p + 1..] && |b'| == |b| - 1
    ensures SortedByKey(b') && multiset(b') == multiset(b) - multiset{b[p]}
  {
    b' := b[..p] + b[p + 1..];
    assert b == b[..p] + [b[p]] + b[p + 1..];
    forall i, j | 0 <= i < j < |b'| ensures RecordLe(b'[i], b'[j]) {
      var i' := if i < p then i else i + 1;
      var j' := if j < p then j else j + 1;
      assert b'[i] == b[i'] && b'[j] == b[j'];
    }
  }

  /** In a sorted sequence, every record up to one that shares the first
      record's key shares it too. */
  lemma PrefixSameKey(b: seq<Record>, p: nat)
    requires SortedByKey(b) && p < |b| && SameKey(b[0], b[p])
    ensures forall i :: 0 <= i <= p ==> SameKey(b[i], b[0])
  {
    forall i | 0 < i < p ensures SameKey(b[i], b[0]) {
      KeySqueezed(b[0], b[i], b[p]);
    }
  }

  /** A record between two records of one key has that key too. */
  lemma KeySqueezed(x: Record, y: Record, z: Record)
    requires RecordLe(x, y) && RecordLe(y, z)
    requires SameKey(x, z)
    ensures SameKey(y, x)
  {
    KeyLeTransitive(y.sortGroup, y.sortNum, z.sortGroup, z.sortNum, x.sortGroup, x.sortNum);
    KeyLeAntisymmetric(x.sortGroup, x.sortNum, y.sortGroup, y.sortNum);
  }

  // ---------------------------------------------------------------------------
  // Stability
  // ---------------------------------------------------------------------------

  /** The records of rs that share k's key, in the order of rs. */
  function Ties(rs: seq<Record>, k: Record): (t: seq<Record>)
    ensures |t| <= |rs|
  {
    if |rs| == 0 then []
    else (if SameKey(rs[0], k) then [rs[0]] else []) + Ties(rs[1..], k)
  }

  /** A record is among the ties of k exactly when it is in rs and shares k's key. */
  lemma {:induction false} TiesMembers(rs: seq<Record>, k: Record, x: Record)
    ensures x in Ties(rs, k) <==> x in rs && SameKey(x, k)
    decreases |rs|
  {
    if |rs| > 0 {
      TiesMembers(rs[1..], k, x);
      assert rs == [rs[0]] + rs[1..];
    }
  }

  /** The ties of a concatenation are the ties of each part, in order. */
  lemma {:induction false} TiesAppend(a: seq<Record>, b: seq<Record>, k: Record)
    ensures Ties(a + b, k) == Ties(a, k) + Ties(b, k)
    decreases |a|
  {
    if |a| == 0 {
      assert a + b == b;
    } else {
      assert (a + b)[1..] == a[1..] + b;
      TiesAppend(a[1..], b, k);
    }
  }

  /** Inserting into a sorted sequence places x after every record of its
      own key: the ties of k gain x at the end, if x has k's key. */
  lemma {:induction false} InsertTies(x: Record, rs: seq<Record>, k: Record)
    requires SortedByKey(rs)
    ensures Ties(Insert(x, rs), k) == Ties(rs, k) + Ties([x], k)
    decreases |rs|
  {
    if |rs| == 0 {
    } else if RecordLe(rs[0], x) {
      SortedTail(rs);
      InsertTies(x, rs[1..], k);
      assert ([rs[0]] + Insert(x, rs[1..]))[1..] == Insert(x, rs[1..]);
    } else {
      assert ([x] + rs)[1..] == rs;
      if SameKey(x, k) {
        NoTiesAfter(x, rs, k);
      }
    }
  }

  /** Records that all come after x share no key with it. */
  lemma NoTiesAfter(x: Record, rs: seq<Record>, k: Record)
    requires SortedByKey(rs) && |rs| > 0 && !RecordLe(rs[0], x) && SameKey(x, k)
    ensures Ties(rs, k) == []
  {
    forall y | y in rs ensures !SameKey(y, k) {
      var j :| 0 <= j < |rs| && rs[j] == y;
      if SameKey(y, k) {
        KeyLeTransitive(rs[0].sortGroup, rs[0].sortNum, y.sortGroup, y.sortNum, x.sortGroup, x.sortNum);
      }
    }
    if Ties(rs, k) != [] {
      TiesMembers(rs, k, Ties(rs, k)[0]);
    }
  }

  /** Two sorted sequences that list the records of every key in the same
      order are the same sequence: sorted order and tie order determine the
      sort's result completely. */
  lemma {:induction false} StableSortUnique(a: seq<Record>, b: seq<Record>)
    requires SortedByKey(a) && SortedByKey(b)
    requires forall k :: Ties(a, k) == Ties(b, k)
    ensures a == b
    decreases |a|
  {
    TiesOfHead(a);
    TiesOfHead(b);
    if |a| > 0 && |b| > 0 {
      SortedHeadsAgree(a, b);
      forall k ensures Ties(a[1..], k) == Ties(b[1..], k) {
        TiesOfTail(a, b, k);
      }
      SortedTail(a);
      SortedTail(b);
      StableSortUnique(a[1..], b[1..]);
      assert a == [a[0]] + a[1..] && b == [b[0]] + b[1..];
    }
  }

  /** Two sorted sequences with the same ties start with the same record. */
  lemma SortedHeadsAgree(a: seq<Record>, b: seq<Record>)
    requires SortedByKey(a) && SortedByKey(b) && |a| > 0 && |b| > 0
    requires forall k :: Ties(a, k) == Ties(b, k)
    ensures a[0] == b[0]
  {
    TiesOfHead(a);
    TiesOfHead(b);
    TiesMembers(b, a[0], a[0]);
    TiesMembers(a, b[0], b[0]);
    var p :| 0 <= p < |b| && b[p] == a[0];
    var q :| 0 <= q < |a| && a[q] == b[0];
    assert RecordLe(b[0], a[0]) by { if p > 0 { assert RecordLe(b[0], b[p]); } }
    assert RecordLe(a[0], b[0]) by { if q > 0 { assert RecordLe(a[0], a[q]); } }
    KeyLeAntisymmetric(a[0].sortGroup, a[0].sortNum, b[0].sortGroup, b[0].sortNum);
    assert Ties(b, a[0])[0] == b[0];
  }

  /** Dropping an equal first record from both keeps the ties equal. */
  lemma TiesOfTail(a: seq<Record>, b: seq<Record>, k: Record)
    requires |a| > 0 && |b| > 0 && a[0] == b[0] && Ties(a, k) == Ties(b, k)
    ensures Ties(a[1..], k) == Ties(b[1..], k)
  {
    var head := if SameKey(a[0], k) then [a[0]] else [];
    assert Ties(a, k) == head + Ties(a[1..], k) && Ties(b, k) == head + Ties(b[1..], k);
    assert Ties(a[1..], k) == Ties(a, k)[|head|..];
  }

  /** The first record of a sequence is the first of its own ties. */
  lemma TiesOfHead(rs: seq<Record>)
    ensures |rs| > 0 ==> Ties(rs, rs[0]) != [] && Ties(rs, rs[0])[0] == rs[0]
  {
  }

  lemma SortedTail(rs: seq<Record>)
    requires SortedByKey(rs) && |rs| > 0
    ensures SortedByKey(rs[1..])
  {
    forall i, j | 0 <= i < j < |rs[1..]| ensures RecordLe(rs[1..][i], rs[1..][j]) {
      assert rs[1..][i] == rs[i + 1] && rs[1..][j] == rs[j + 1];
    }
  }

  // ---------------------------------------------------------------------------
  // Projection
  // ---------------------------------------------------------------------------

  /** A table cell: every embedded '\n' becomes a line-break marker. */
  function Cell(s: string): (r: string)
    ensures '\n' !in r
  {
    ReplaceCharRemoves(s, '\n', LineBreak);
    ReplaceAll(s, "\n", LineBreak)
  }

  /** Text without '\n' is its own cell. */
  lemma CellOfSingleLine(s: string)
    requires '\n' !in s
    ensures Cell(s) == s
  {
    ReplaceCharAbsent(s, '\n', LineBreak);
  }

  /** The five display cells of a record; the sort columns are dropped. */
  function Display(r: Record): DisplayRow {
    DisplayRow(Cell(r.id), Cell(r.title), Cell(r.userStory), Cell(r.details), Cell(r.verification))
  }

  predicate SingleLine(d: DisplayRow) {
    '\n' !in d.id && '\n' !in d.title && '\n' !in d.userStory && '\n' !in d.details && '\n' !in d.verification
  }

  /** The table: one display row per record, in the same order. */
  function DisplayAll(rs: seq<Record>): (t: seq<DisplayRow>)
    ensures |t| == |rs|
    ensures forall i :: 0 <= i < |rs| ==> t[i] == Display(rs[i]) && SingleLine(t[i])
  {
    seq(|rs|, i requires 0 <= i < |rs| => Display(rs[i]))
  }

  /** A record whose cells hold no '\n' is displayed as it is. */
  lemma DisplayOfSingleLine(r: Record)
    requires '\n' !in r.id && '\n' !in r.title && '\n' !in r.userStory
    requires '\n' !in r.details && '\n' !in r.verification
    ensures Display(r) == DisplayRow(r.id, r.title, r.userStory, r.details, r.verification)
  {
    CellOfSingleLine(r.id);
    CellOfSingleLine(r.title);
    CellOfSingleLine(r.userStory);
    CellOfSingleLine(r.details);
    CellOfSingleLine(r.verification);
  }

  // ---------------------------------------------------------------------------
  // The whole run
  // ---------------------------------------------------------------------------

  /** Collect, sort and project: the table lists the display rows of the
      stable sort of the collected records (unique by StableSortUnique), and
      the total is the number of collected records. */
  method ProcessRequirements(rows: seq<Row>) returns (report: Report)
    ensures report.total == |report.table| == |ParseRows(rows)|
    ensures exists sorted :: SortedByKey(sorted) && multiset(sorted) == multiset(ParseRows(rows))
                             && (forall k :: Ties(sorted, k) == Ties(ParseRows(rows), k))
                             && report.table == DisplayAll(sorted)
    ensures forall i :: 0 <= i < |report.table| ==> SingleLine(report.table[i])
  {
    var records := CollectRecords(rows);
    var sorted := SortRecords(records);
    assert |sorted| == |multiset(sorted)| == |multiset(records)| == |records|;
    var table := DisplayAll(sorted);
    report := Report(|table|, table);
  }
}
