/** The state of the contact selector window and the operations its controls run:
    loading a file, the two check boxes that switch the order and the filter, ticking
    one contact, selecting and unselecting all, and exporting. */
module App {
  import opened Text
  import opened VCard
  import opened Ordering
  import opened Selection
  import opened Exporter

  /** The pieces loop of `load_vcf`: every piece after the first marker that has a
      closing marker yields the record rebuilt from it. */
  method ParseEntries(content: string) returns (entries: seq<string>)
    ensures entries == ParseRecords(content)
  {
    var raw := Split(content, BeginMarker);
    entries := [];
    var k := 1;
    while k < |raw|
      invariant 1 <= k <= |raw|
      invariant entries == Records(raw[1..k])
    {
      var entry := Strip(raw[k]);
      RecordsStep(raw, k);
      if Contains(entry, EndMarker) {
        entries := entries + [BeginLine + Split(entry, EndMarker)[0] + EndMarker];
      }
      k := k + 1;
    }
    assert raw[1..k] == raw[1..];
  }

  /** The name loop of `load_vcf`: the rest of the first line that starts with `FN:`,
      stripped, or the sentinel when no line does. */
  method ExtractName(data: string) returns (fn: string)
    ensures fn == DisplayName(data)
  {
    fn := Unnamed;
    var lines := Split(data, "\n");
    var j := 0;
    while j < |lines|
      invariant 0 <= j <= |lines|
      invariant NoTagBefore(lines, j)
      invariant fn == Unnamed
    {
      if StartsWith(lines[j], FnTag) {
        fn := Strip(lines[j][|FnTag|..]);
        FirstNameAt(lines, j);
        break;
      }
      j := j + 1;
    }
    if j == |lines| {
      FirstNameNone(lines);
    }
  }

  /** The numbering loop of `load_vcf`: each record becomes a contact with its
      display name and its position. */
  method NumberEntries(entries: seq<string>) returns (cs: seq<Contact>)
    ensures cs == Enumerate(entries)
  {
    cs := [];
    var index := 0;
    while index < |entries|
      invariant 0 <= index <= |entries|
      invariant cs == Enumerate(entries[..index])
    {
      var fn := ExtractName(entries[index]);
      EnumerateStep(entries, index);
      cs := cs + [Contact(fn, index, entries[index])];
      index := index + 1;
    }
    assert entries[..index] == entries;
  }

  /** The list in the order the window shows it. */
  function DisplayOrder(loaded: seq<Contact>, byName: bool): seq<Contact> {
    if byName then SortBy(loaded, ByName) else loaded
  }

  /** Either order holds the loaded contacts, ordered by name with ties in file order,
      or in file order. */
  lemma DisplayOrderFacts(loaded: seq<Contact>, byName: bool)
    requires Numbered(loaded)
    ensures multiset(DisplayOrder(loaded, byName)) == multiset(loaded)
    ensures byName ==> NameThenIndex(DisplayOrder(loaded, byName))
    ensures !byName ==> DisplayOrder(loaded, byName) == loaded && IndexAscending(loaded)
  {
    if byName {
      SortByNameStable(loaded);
    }
  }

  class ContactSelector {
    /** The contacts in display order. */
    var contacts: seq<Contact>
    /** `selection_states`: identity to ticked. */
    var selection: map<nat, bool>
    /** The "sort alphabetically" check box; on at start. */
    var sortByName: bool
    /** The "show selected only" check box; off at start. */
    var showSelectedOnly: bool
    /** The contacts of the last file loaded, in file order. */
    ghost var loaded: seq<Contact>

    ghost predicate Valid()
      reads this`loaded, this`contacts, this`sortByName
    {
      && Numbered(loaded)
      && Loaded(loaded)
      && contacts == DisplayOrder(loaded, sortByName)
    }

    /** Every key of the selection is the identity of a loaded contact. */
    ghost predicate SelectionKnown()
      reads this`selection, this`loaded
    {
      KeysKnown(selection, |loaded|)
    }

    constructor ()
      ensures Valid() && SelectionKnown()
      ensures contacts == [] && selection == map[]
      ensures sortByName && !showSelectedOnly
    {
      contacts := [];
      selection := map[];
      sortByName := true;
      showSelectedOnly := false;
      loaded := [];
    }

    /** `load_vcf` after the file has been read: the parsed records, numbered and
        named, replace the list; the selection is cleared; the list is sorted by
        name when that box is ticked. */
    method Load(content: string)
      modifies this
      ensures loaded == LoadedContacts(content)
      ensures selection == map[]
      ensures sortByName == old(sortByName) && showSelectedOnly == old(showSelectedOnly)
      ensures Valid() && SelectionKnown()
      ensures multiset(contacts) == multiset(loaded)
      ensures sortByName ==> NameThenIndex(contacts)
      ensures !sortByName ==> contacts == loaded
    {
      var entries := ParseEntries(content);
      var cs := NumberEntries(entries);
      LoadedContactsFacts(content);
      contacts := cs;
      selection := map[];
      loaded := cs;
      if sortByName {
        contacts := SortBy(cs, ByName);
      }
      DisplayOrderFacts(loaded, sortByName);
    }

    /** The "sort alphabetically" box was clicked: the list is re-sorted by name or
        by file position, which restores the file order. */
    method ToggleSortOrder()
      requires Valid()
      modifies this
      ensures sortByName == !old(sortByName)
      ensures loaded == old(loaded) && selection == old(selection)
      ensures showSelectedOnly == old(showSelectedOnly)
      ensures multiset(contacts) == multiset(old(contacts))
      ensures Valid()
    {
      sortByName := !sortByName;
      DisplayOrderFacts(loaded, !sortByName);
      if sortByName {
        contacts := SortBy(contacts, ByName);
      } else {
        RestoreFileOrder(contacts, loaded);
        contacts := SortBy(contacts, ByIndex);
      }
    }

    /** The "show selected only" box was clicked. */
    method ToggleShowSelected()
      requires Valid()
      modifies this
      ensures showSelectedOnly == !old(showSelectedOnly)
      ensures contacts == old(contacts) && loaded == old(loaded)
      ensures selection == old(selection) && sortByName == old(sortByName)
      ensures Valid()
    {
      showSelectedOnly := !showSelectedOnly;
    }

    /** A contact's box was ticked or unticked: its identity now maps to `v`. */
    method SetSelected(k: nat, v: bool)
      requires Valid()
      modifies this
      ensures selection == old(selection)[k := v]
      ensures contacts == old(contacts) && loaded == old(loaded)
      ensures sortByName == old(sortByName) && showSelectedOnly == old(showSelectedOnly)
      ensures Valid()
      ensures old(SelectionKnown()) && k < |loaded| ==> SelectionKnown()
    {
      selection := selection[k := v];
    }

    /** Sets the entry of every listed contact to `v`, in list order. */
    method SetEvery(v: bool)
      requires Valid()
      modifies this
      ensures selection == SetAll(old(selection), contacts, v)
      ensures contacts == old(contacts) && loaded == old(loaded)
      ensures sortByName == old(sortByName) && showSelectedOnly == old(showSelectedOnly)
      ensures Valid()
    {
      var i := 0;
      while i < |contacts|
        invariant 0 <= i <= |contacts|
        invariant selection == SetAll(old(selection), contacts[..i], v)
        invariant contacts == old(contacts) && loaded == old(loaded)
        invariant sortByName == old(sortByName) && showSelectedOnly == old(showSelectedOnly)
      {
        SetAllStep(old(selection), contacts, i, v);
        selection := selection[contacts[i].originalIndex := v];
        i := i + 1;
      }
      assert contacts[..i] == contacts;
    }

    /** `select_all`: every contact is ticked; the count then equals the total. */
    method SelectAll()
      requires Valid()
      modifies this
      ensures selection == SetAll(old(selection), contacts, true)
      ensures forall c :: c in contacts ==> IsSelected(selection, c.originalIndex)
      ensures contacts == old(contacts) && loaded == old(loaded)
      ensures sortByName == old(sortByName) && showSelectedOnly == old(showSelectedOnly)
      ensures Valid()
      ensures old(SelectionKnown()) ==> SelectionKnown() && SelectedCount() == Total()
    {
      SetEvery(true);
      DisplayOrderFacts(loaded, sortByName);
      SetAllOverLoaded(old(selection), contacts, loaded, true);
    }

    /** `unselect_all`: no contact is ticked; the count then is 0. */
    method UnselectAll()
      requires Valid()
      modifies this
      ensures selection == SetAll(old(selection), contacts, false)
      ensures forall c :: c in contacts ==> !IsSelected(selection, c.originalIndex)
      ensures contacts == old(contacts) && loaded == old(loaded)
      ensures sortByName == old(sortByName) && showSelectedOnly == old(showSelectedOnly)
      ensures Valid()
      ensures old(SelectionKnown()) ==> SelectionKnown() && SelectedCount() == 0
    {
      SetEvery(false);
      DisplayOrderFacts(loaded, sortByName);
      SetAllOverLoaded(old(selection), contacts, loaded, false);
    }

    /** The check boxes the next `redraw_checkboxes` lists, built from the current
        state. Ticking a single box does not redraw, so the window may still show
        boxes this list no longer has. */
    function View(): (v: seq<Contact>)
      requires Valid()
      reads this
      ensures showSelectedOnly ==>
        forall c :: c in v <==> c in loaded && IsSelected(selection, c.originalIndex)
      ensures !showSelectedOnly ==> multiset(v) == multiset(loaded)
      ensures sortByName ==> NameThenIndex(v)
      ensures !sortByName ==> IndexAscending(v)
    {
      ViewFacts(loaded, selection, sortByName, showSelectedOnly);
      Projection(contacts, selection, showSelectedOnly)
    }

    /** The "Total" of the counter. */
    function Total(): nat
      reads this
    {
      |contacts|
    }

    /** The "Selected" of the counter. */
    function SelectedCount(): nat
      reads this
    {
      CountSelected(selection)
    }

    /** `export_selected` up to the file dialog: the warning, or the text written and
        the number of contacts reported. The outcome is that of exporting from the
        file order, whichever order the list is shown in; the file reads back as the
        selected records in file order, and the number reported is the count the
        window shows. */
    function ExportSelected(): (r: ExportResult)
      requires Valid()
      reads this
      ensures r == Export(loaded, selection)
      ensures r.NoSelection? <==> SelectedCount() == 0
      ensures r.Written? ==> ParseRecords(CrlfToLf(r.text)) == Datas(SelectedOnly(loaded, selection))
      ensures r.Written? && SelectionKnown() ==> r.count == SelectedCount()
    {
      DisplayOrderFacts(loaded, sortByName);
      ExportIgnoresDisplayOrder(contacts, loaded, selection);
      ExportRoundTrip(loaded, loaded, selection);
      ExportCount(loaded, loaded, selection);
      Export(contacts, selection)
    }
  }

  /** The list shows the selected contacts or all of them, in either order. */
  lemma ViewFacts(loaded: seq<Contact>, sel: map<nat, bool>, byName: bool, selectedOnly: bool)
    requires Numbered(loaded)
    ensures var v := Projection(DisplayOrder(loaded, byName), sel, selectedOnly);
      && (selectedOnly ==> forall c :: c in v <==> c in loaded && IsSelected(sel, c.originalIndex))
      && (!selectedOnly ==> multiset(v) == multiset(loaded))
      && (byName ==> NameThenIndex(v))
      && (!byName ==> IndexAscending(v))
  {
    var shown := DisplayOrder(loaded, byName);
    DisplayOrderFacts(loaded, byName);
    PermutationMembers(shown, loaded);
    if byName {
      SelectedOnlyNameThenIndex(shown, sel);
    } else {
      SelectedOnlyIndexAscending(shown, sel);
    }
  }

  lemma PermutationMembers(p: seq<Contact>, q: seq<Contact>)
    requires multiset(p) == multiset(q)
    ensures forall c :: c in p <==> c in q
  {
    assert forall c :: c in p <==> c in multiset(p);
    assert forall c :: c in q <==> c in multiset(q);
  }
}
