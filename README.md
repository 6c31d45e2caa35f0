# vCard contact selector — Dafny model

This project models the contact-selection engine of `VCFApp`, a small desktop tool
that loads a `.vcf` file, lists its contacts as check boxes, lets the user tick
contacts, and exports the ticked ones to a new `.vcf` file. The window's widgets
are not modelled. What is modelled is the logic the widgets drive:

- **Parser** (`VCard`, with `App.ParseEntries`, `App.ExtractName` and
  `App.NumberEntries` as the loops of `load_vcf`).
  - The file text is cut at every `BEGIN:VCARD`, and whatever comes before the
    first marker is dropped.
  - Each piece is stripped. A piece without `END:VCARD` is dropped. Any other
    piece is rebuilt as `BEGIN:VCARD\n` + the text before its first `END:VCARD`
    + `END:VCARD`.
  - The surviving records are numbered 0, 1, … in order.
  - Each record gets a display name: the stripped rest of its first line that
    starts with `FN:`, or `Unnamed Contact` when no line does.
- **Record store and selection** (`App.ContactSelector`).
  - The object holds the contact list in display order, the map from a contact's
    identity (`original_index`) to its ticked state, and the two check-box flags.
  - Its methods are load, the two toggles, ticking one contact, select all and
    unselect all.
  - A ghost field records the list in file order. `Valid()` ties the displayed
    list to it.
- **Orders** (`Ordering`).
  - The list is sorted with Python's stable `list.sort`, modelled as insertion
    sort. The key is either the lower-cased name or the identity.
  - The model proves that the displayed list is always one of two orders:
    - file order;
    - alphabetical order, with ties kept in file order.
- **View and counter** (`Selection`).
  - The list the window draws is all contacts, or only the ticked ones, in display
    order. It is rebuilt on load, on either toggle and on select or unselect all;
    `View` is the list the next rebuild draws from the current state.
    A missing key reads as unticked.
  - The "Selected" count is the number of true values in the map.
- **Exporter** (`Exporter`).
  - When nothing is ticked, the outcome is the "No Selection" warning.
  - Otherwise the records of the ticked contacts are taken in file order, each is
    followed by a line feed, and every line feed is stored as CR LF. The outcome
    carries that text together with the number of records written.
  - The model proves that reading the written file back yields the exported
    records again.

Strings are sequences of characters. `str.strip()` and `str.lower()` are modelled
on ASCII (see "Left out").

Files:

| file | module |
|---|---|
| `wrappers.dfy` | `Wrappers`: `Option` |
| `text.dfy` | `Text`: strip, find, split, join, lower, CRLF translation |
| `vcard.dfy` | `VCard`: record splitting, display names, numbering, well-formed records, parse of a joined export |
| `ordering.dfy` | `Ordering`: string order, the stable sort, stability, recovering file order |
| `selection.dfy` | `Selection`: selection map, count, select all, the filtered view |
| `export.dfy` | `Exporter`: export outcome and its properties |
| `app.dfy` | `App`: the loops of `load_vcf` and the `ContactSelector` class |

## Model

| member | source | states |
|---|---|---|
| Text.StripLeft | vcard_selector.py:99 | the result is a suffix of the input, what was removed is all whitespace, and the result does not start with whitespace |
| Text.StripRight | vcard_selector.py:99 | the result is a prefix of the input, what was removed is all whitespace, and the result does not end with whitespace |
| Text.Strip | vcard_selector.py:99 | the stripped text is empty or begins and ends with a non-whitespace character |
| Text.StripPadded | vcard_selector.py:99 | stripping `pre + x + post` with all-whitespace `pre`, `post` and unpadded `x` gives exactly `x` |
| Text.StripIsSlice | vcard_selector.py:99 | the stripped text is a contiguous slice of the input |
| Text.IndexOf | vcard_selector.py:100 | `Some(i)` is an occurrence with none before it; `None` exactly when the pattern occurs nowhere (`'END:VCARD' in entry`) |
| Text.Split | vcard_selector.py:97 | a split always has at least one piece, so `[1:]` and `[0]` are defined |
| Text.SplitJoin | vcard_selector.py:97 | joining the pieces of a split with the separator rebuilds the string |
| Text.SplitPiecesAvoid | vcard_selector.py:97 | no piece of a split contains the separator |
| Text.SplitHead | vcard_selector.py:101 | the first piece is the text before the first separator |
| Text.Join | vcard_selector.py:195 | `sep.join(parts)`; no contract; specified by Text.SplitJoin and used by VCard.ParseJoinedRecords |
| Text.FirstOccurrenceInPrefix | vcard_selector.py:101 | cutting just after the first occurrence keeps it first, and the text before it has none |
| Text.ToCrlf | vcard_selector.py:194-195 | in the stored text every line feed is preceded by a carriage return |
| Text.CrlfRoundTrip | vcard_selector.py:194-195 | turning CR LF back into LF recovers the text written, for every text |
| Text.Lower | vcard_selector.py:116 | `str.lower()` on ASCII letters; no contract; it is the sort key `NameKey` |
| VCard.SegmentRecord | vcard_selector.py:99-101 | strip the piece, test for `END:VCARD`, rebuild the record; no contract; specified by VCard.SegmentRecordWellFormed, VCard.MalformedSegmentDropped and VCard.TailYieldsRecord |
| VCard.ParseRecords | vcard_selector.py:96-102 | the records of a file; no contract; specified by VCard.ParsedRecordsWellFormed, VCard.LeadingTextIgnored, VCard.NoMarkerNoRecords and VCard.ParseJoinedRecords, and computed by App.ParseEntries |
| VCard.Records | vcard_selector.py:98-102 | each piece yields at most one record |
| VCard.RecordsAppend | vcard_selector.py:98-102 | the records of consecutive runs of pieces are the concatenation of their records |
| VCard.RecordsSnoc | vcard_selector.py:98-102 | one more piece appends its record, if it yields one, at the end |
| VCard.RecordsStep | vcard_selector.py:98-102 | one iteration of the pieces loop extends the records of the pieces before it |
| VCard.MalformedSegmentDropped | vcard_selector.py:100 | a piece without `END:VCARD` adds no record and leaves the records around it unchanged |
| VCard.NoMarkerNoRecords | vcard_selector.py:97-98 | text without `BEGIN:VCARD` yields no record |
| VCard.LeadingTextIgnored | vcard_selector.py:97-98 | marker-free text in front of the first marker changes nothing |
| VCard.SegmentRecordWellFormed | vcard_selector.py:99-101 | a marker-free piece that yields a record yields a well-formed one |
| VCard.RecordsWellFormed | vcard_selector.py:98-102 | every record of marker-free pieces is well formed |
| VCard.ParsedRecordsWellFormed | vcard_selector.py:96-102 | every record of any file begins with `BEGIN:VCARD\n`, ends with `END:VCARD`, and has a body without markers or leading whitespace |
| VCard.CleanRecord | vcard_selector.py:101 | a clean body wrapped in the two markers is a well-formed record |
| VCard.TailYieldsRecord | vcard_selector.py:99-101 | the piece a well-formed record leaves in a joined export yields that record again |
| VCard.ParseJoinedRecords | vcard_selector.py:96-102 | parsing well-formed records joined by line feeds, with a final line feed, gives exactly those records in order |
| VCard.FirstNameAt | vcard_selector.py:109-112 | the name is the stripped rest of the first line that starts with `FN:`; earlier lines do not count and later ones are ignored |
| VCard.FirstNameNone | vcard_selector.py:108 | with no `FN:` line the name is `Unnamed Contact` |
| VCard.FirstName | vcard_selector.py:108-112 | the name loop over the lines; no contract; specified by VCard.FirstNameAt and VCard.FirstNameNone |
| VCard.DisplayName | vcard_selector.py:108-112 | `FirstName` of the record's lines `data.split('\n')`; no contract; computed by App.ExtractName |
| VCard.EnumerateStep | vcard_selector.py:107-113 | numbering one more record appends its contact, carrying its position and display name |
| VCard.Enumerate | vcard_selector.py:107-113 | each record paired with its position and display name; no contract; specified by VCard.EnumerateStep and VCard.LoadedContactsFacts, and computed by App.NumberEntries |
| VCard.LoadedContacts | vcard_selector.py:96-113 | the contacts of a file; no contract; specified by VCard.LoadedContactsFacts |
| VCard.LoadedContactsFacts | vcard_selector.py:107-113 | loaded contacts are numbered 0..N-1 by position, with no gaps, and each is a well-formed record carrying its own display name |
| VCard.LoadedMember | vcard_selector.py:113 | every member of a loaded list is a loaded contact |
| Ordering.LexLess | vcard_selector.py:116 | Python's `<` on strings; no contract; specified by Ordering.LexLessIrreflexive, Ordering.LexLessTransitive, Ordering.LexLessTotal and Ordering.LexLessAsymmetric |
| Ordering.LexLessIrreflexive | vcard_selector.py:116 | no string sorts before itself |
| Ordering.LexLessTransitive | vcard_selector.py:116 | string order is transitive |
| Ordering.LexLessTotal | vcard_selector.py:116 | any two different strings are ordered one way or the other |
| Ordering.LexLessAsymmetric | vcard_selector.py:116 | string order is asymmetric |
| Ordering.BeforeAsymmetric | vcard_selector.py:116 | key order is asymmetric for both keys |
| Ordering.NotBeforeTransitive | vcard_selector.py:116 | "not smaller" is transitive for both keys: keys form a total preorder |
| Ordering.Insert | vcard_selector.py:116 | insertion adds exactly the element: the multiset grows by it |
| Ordering.SortBy | vcard_selector.py:116 | sorting permutes the list |
| Ordering.SortSorted | vcard_selector.py:116 | the sorted list is ordered by the key and is a permutation of the input |
| Ordering.SortOfSorted | vcard_selector.py:116 | general fact about the sort (the window never re-sorts by the key it is already ordered by): sorting a list that is already ordered leaves it unchanged |
| Ordering.SortIdempotent | vcard_selector.py:116 | general fact about the sort: sorting twice by the same key equals sorting once |
| Ordering.InsertStable | vcard_selector.py:116 | inserting a contact that precedes all others in file order keeps name-then-file order |
| Ordering.SortByNameStable | vcard_selector.py:116 | sorting a file-ordered list by lower-cased name yields name order with ties in file order (the sort is stable) |
| Ordering.PrecedesTransitive | vcard_selector.py:116 | name-then-file order is transitive |
| Ordering.SortedByIndexUnique | vcard_selector.py:157 | a list ordered by identity is the only strictly ascending arrangement of its elements |
| Ordering.RestoreFileOrder | vcard_selector.py:157 | sorting any permutation of the loaded list by identity gives back the file order |
| Selection.IsSelected | vcard_selector.py:127 | `selection_states.get(k, False)`; no contract; a missing key reads as false |
| Selection.CountSelected | vcard_selector.py:176 | the count is at most the number of keys, and it is 0 exactly when no value is true |
| Selection.Range | vcard_selector.py:107 | `{0, ..., n-1}` has exactly the numbers below `n` and `n` elements |
| Selection.NumberedIds | vcard_selector.py:107 | the identities of a numbered list are `{0, ..., N-1}` |
| Selection.PermutationIds | vcard_selector.py:155-157 | reordering keeps the set of identities |
| Selection.SetAllStep | vcard_selector.py:165-166 | one iteration of select all sets one more identity |
| Selection.SetAll | vcard_selector.py:165-166 | the map after the select-all (or, with `false`, the unselect-all) loop; no contract; specified by Selection.SetAllEntries and Selection.CountAfterSetAll, and computed by App.ContactSelector.SetEvery |
| Selection.SetAllEntries | vcard_selector.py:165-171 | afterwards the listed identities map to the value and every other key keeps its entry |
| Selection.CountAfterSetAll | vcard_selector.py:164-176 | with all identities set, the count is N for select all and 0 for unselect all, and no unknown key is added |
| Selection.SetAllOverLoaded | vcard_selector.py:164-176 | over any display order, every contact is then ticked or unticked, and the count is N or 0 |
| Selection.SelectedOnly | vcard_selector.py:125-128 | the filtered list has exactly the contacts whose identity is ticked (missing key = unticked) and is no longer than the list |
| Selection.Projection | vcard_selector.py:125-128 | all contacts, or the ticked ones; no contract; specified by App.ViewFacts |
| Selection.SelectedOnlyIndexAscending | vcard_selector.py:125-128 | filtering keeps file order |
| Selection.SelectedOnlyNameThenIndex | vcard_selector.py:125-128 | filtering keeps name-then-file order |
| Selection.AscendingIdsSize | vcard_selector.py:186-188 | a strictly ascending list has as many identities as elements |
| Selection.SelectedOnlyCount | vcard_selector.py:176 | with only known keys, the ticked contacts number exactly the "Selected" count |
| Exporter.ExportedContacts | vcard_selector.py:185-188 | the ticked contacts after sorting by identity; no contract; specified by Exporter.ExportedFromFileOrder and Exporter.ExportedInFileOrder |
| Exporter.Joined | vcard_selector.py:195 | `'\n'.join(selected_data) + '\n'`; no contract; specified by VCard.ParseJoinedRecords through Exporter.ExportRoundTrip |
| Exporter.Export | vcard_selector.py:180-195 | the warning exactly when the count is 0; otherwise the reported number is the number of records written, and every line feed stored is preceded by a carriage return |
| Exporter.ExportedFromFileOrder | vcard_selector.py:185-188 | the contacts written are the file order filtered by the selection, whatever the display order |
| Exporter.ExportedInFileOrder | vcard_selector.py:185-188 | the contacts written are in file order and are exactly the ticked loaded contacts |
| Exporter.ExportIgnoresDisplayOrder | vcard_selector.py:186 | the export outcome does not depend on the display order |
| Exporter.ExportCount | vcard_selector.py:197 | with only known keys, the reported number equals the "Selected" count |
| Exporter.ExportedWellFormed | vcard_selector.py:188 | every record written is well formed |
| Exporter.ExportRoundTrip | vcard_selector.py:195 | the written text, with CR LF read back as LF, parses to exactly the selected records in file order |
| Exporter.ExportReload | vcard_selector.py:96-113 | loading the written file gives the exported contacts again, with the same records and names, numbered from 0 |
| App.ParseEntries | vcard_selector.py:96-102 | the pieces loop computes the records of the file |
| App.ExtractName | vcard_selector.py:108-112 | the name loop with its `break` computes the display name |
| App.NumberEntries | vcard_selector.py:107-113 | the numbering loop builds the contacts, each with its position and display name |
| App.DisplayOrder | vcard_selector.py:115-116 | the list in display order: sorted by name when the box is ticked, otherwise the file order; no contract; specified by App.DisplayOrderFacts |
| App.DisplayOrderFacts | vcard_selector.py:115-116 | each display order is a permutation of the loaded list: by name with ties in file order, or the file order itself |
| App.ViewFacts | vcard_selector.py:125-128 | the view has exactly the ticked loaded contacts (filter on) or all of them (filter off), in name-then-file order or in file order |
| App.PermutationMembers | vcard_selector.py:155-157 | a reordering has the same members |
| App.ContactSelector.constructor | vcard_selector.py:11-35 | no contacts and no selection; sorting on, filter off |
| App.ContactSelector.Load | vcard_selector.py:96-117 | the loaded list is the file's contacts and the selection is empty; the displayed list is that list (sort off) or its name order with ties in file order (sort on) |
| App.ContactSelector.ToggleSortOrder | vcard_selector.py:153-158 | the flag flips and the list is re-sorted into the display order of the new flag; this is a permutation of the old list, and the selection and the loaded list are untouched |
| App.ContactSelector.ToggleShowSelected | vcard_selector.py:160-162 | only the filter flag changes |
| App.ContactSelector.SetSelected | vcard_selector.py:140-141 | only the entry of identity `k` changes, to `v`; a known key keeps the keys known |
| App.ContactSelector.SetEvery | vcard_selector.py:165-166 | the loop sets the entry of every listed contact, in list order |
| App.ContactSelector.SelectAll | vcard_selector.py:164-167 | every contact is ticked, nothing else changes, and the count then equals the total |
| App.ContactSelector.UnselectAll | vcard_selector.py:169-172 | no contact is ticked, nothing else changes, and the count is then 0 |
| App.ContactSelector.View | vcard_selector.py:124-128 | the list the next `redraw_checkboxes` builds from the current state: the ticked loaded contacts (filter on) or a permutation of all (filter off), in name-then-file order or file order |
| App.ContactSelector.Total | vcard_selector.py:175 | the "Total" number; no contract; by Valid() it is the number of loaded contacts |
| App.ContactSelector.SelectedCount | vcard_selector.py:176 | the "Selected" number; no contract; specified by Selection.CountSelected |
| App.ContactSelector.ExportSelected | vcard_selector.py:179-197 | the outcome is that of exporting from file order; the warning exactly when the count is 0; the file reads back as the ticked records in file order; the reported number equals the "Selected" count |

## Left out

- Widgets, layout, redrawing, scrolling and the mouse-wheel handler: these are user
  interface only. `redraw_checkboxes` is modelled only by the list it builds
  (`View`).
- App.ContactSelector.View: the window's list is not rebuilt after a single box is
  ticked or unticked, which only updates the counter. So with "Show Selected Only"
  on, an unticked contact stays on screen until the next redraw. `View` is the list
  that redraw builds, not what is on screen in between.
- File dialogs and their cancel paths. Opening, reading, writing and UTF-8 decoding
  are left out too. `Load` takes the file text as a string. The export returns the
  text to be written instead of writing it.
- Message boxes: each is a value of `ExportResult`.
- The `trace_add` callback: modelled as the method `SetSelected(k, v)`.
- The check-box variables: each toggle is modelled as a flip of its flag, since the
  variable has already flipped when the command runs.
- Text.IsSpace: covers only the ASCII whitespace of `str.isspace`, not the other
  Unicode spaces.
- Text.Lower: lower-cases only ASCII letters, not full Unicode.
- Exporter.ExportRoundTrip: reading the file back is modelled as turning CR LF into
  LF. Python's universal-newline read also turns a lone CR into LF, so the lemma
  does not cover records that contain a lone CR.
- Exporter.ExportReload: rests on the same CR LF to LF model of the read.
- App.ContactSelector.SetSelected: has no precondition on `k`. The window only
  attaches the callback to listed contacts, but the model keeps "every key is a
  known identity" as the separate predicate `SelectionKnown`.
- App.ContactSelector.ToggleSortOrder: its contract ties the new list to the
  display order of the new flag through `Valid()`. The two orders themselves are
  stated once, in `App.DisplayOrderFacts`.
- `check_vars` and the counter label text are left out. The counter's two numbers
  are `Total` and `SelectedCount`.
- The `__main__` block and the event loop are left out.
