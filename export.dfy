/** `export_selected`: the records of the selected contacts, in file order, written as
    one text with a line feed after each record and every line feed written as a
    carriage return and line feed. The dialogs are left to the caller: the result is
    either the warning that nothing is selected or the text and the number of records. */
module Exporter {
  import opened Text
  import opened VCard
  import opened Ordering
  import opened Selection

  datatype ExportResult = NoSelection | Written(text: string, count: nat)

  /** The contacts that are written: the selected ones, in file order. */
  function ExportedContacts(cs: seq<Contact>, sel: map<nat, bool>): seq<Contact> {
    SelectedOnly(SortBy(cs, ByIndex), sel)
  }

  /** The record texts of a list of contacts. */
  function Datas(cs: seq<Contact>): seq<string> {
    seq(|cs|, i requires 0 <= i < |cs| => cs[i].data)
  }

  /** The text a list of records is written as, before newline translation. */
  function Joined(records: seq<string>): string {
    Join(records, "\n") + "\n"
  }

  /** The outcome of exporting the contacts `cs` under the selection `sel`. */
  function Export(cs: seq<Contact>, sel: map<nat, bool>): (r: ExportResult)
    ensures r.NoSelection? <==> CountSelected(sel) == 0
    ensures r.Written? ==> r.count == |ExportedContacts(cs, sel)|
    ensures r.Written? ==> forall i :: 0 <= i < |r.text| && r.text[i] == '\n' ==> i > 0 && r.text[i - 1] == '\r'
  {
    if TrueKeys(sel) == {} then NoSelection
    else
      var records := Datas(ExportedContacts(cs, sel));
      Written(ToCrlf(Joined(records)), |records|)
  }

  // ---------------------------------------------------------------------------
  // Properties of the export
  // ---------------------------------------------------------------------------

  /** The contacts written are the file order filtered by the selection, whatever
      order the list is displayed in. */
  lemma ExportedFromFileOrder(p: seq<Contact>, loaded: seq<Contact>, sel: map<nat, bool>)
    requires Numbered(loaded)
    requires multiset(p) == multiset(loaded)
    ensures ExportedContacts(p, sel) == SelectedOnly(loaded, sel)
  {
    RestoreFileOrder(p, loaded);
  }

  /** The contacts written are exactly the selected ones, in file order. */
  lemma ExportedInFileOrder(p: seq<Contact>, loaded: seq<Contact>, sel: map<nat, bool>)
    requires Numbered(loaded)
    requires multiset(p) == multiset(loaded)
    ensures IndexAscending(ExportedContacts(p, sel))
    ensures forall c :: c in ExportedContacts(p, sel) <==> c in loaded && IsSelected(sel, c.originalIndex)
  {
    ExportedFromFileOrder(p, loaded, sel);
    SelectedOnlyIndexAscending(loaded, sel);
  }

  /** Toggling the display order never changes what is exported. */
  lemma ExportIgnoresDisplayOrder(p: seq<Contact>, loaded: seq<Contact>, sel: map<nat, bool>)
    requires Numbered(loaded)
    requires multiset(p) == multiset(loaded)
    ensures Export(p, sel) == Export(loaded, sel)
  {
    ExportedFromFileOrder(p, loaded, sel);
    ExportedFromFileOrder(loaded, loaded, sel);
  }

  /** When every key of the selection is a loaded contact's identity, the number of
      records reported equals the selection count the window shows. */
  lemma ExportCount(p: seq<Contact>, loaded: seq<Contact>, sel: map<nat, bool>)
    requires Numbered(loaded)
    requires multiset(p) == multiset(loaded)
    ensures Export(p, sel).Written? && KeysKnown(sel, |loaded|) ==> Export(p, sel).count == CountSelected(sel)
  {
    ExportedFromFileOrder(p, loaded, sel);
    if KeysKnown(sel, |loaded|) {
      SelectedOnlyCount(loaded, sel);
    }
  }

  lemma ExportedWellFormed(p: seq<Contact>, loaded: seq<Contact>, sel: map<nat, bool>)
    requires Numbered(loaded) && Loaded(loaded)
    requires multiset(p) == multiset(loaded)
    ensures forall r :: r in Datas(ExportedContacts(p, sel)) ==> WellFormedRecord(r)
  {
    ExportedInFileOrder(p, loaded, sel);
    var e := ExportedContacts(p, sel);
    forall r | r in Datas(e)
      ensures WellFormedRecord(r)
    {
      var i :| 0 <= i < |e| && Datas(e)[i] == r;
      assert e[i] in e;
      LoadedMember(loaded, e[i]);
    }
  }

  /** Reading the written file back, with its line ends translated, and parsing it
      gives exactly the exported records, in the order they were written. */
  lemma ExportRoundTrip(p: seq<Contact>, loaded: seq<Contact>, sel: map<nat, bool>)
    requires Numbered(loaded) && Loaded(loaded)
    requires multiset(p) == multiset(loaded)
    ensures Export(p, sel).Written? ==>
      ParseRecords(CrlfToLf(Export(p, sel).text)) == Datas(SelectedOnly(loaded, sel))
  {
    var records := Datas(ExportedContacts(p, sel));
    CrlfRoundTrip(Joined(records));
    ExportedWellFormed(p, loaded, sel);
    ParseJoinedRecords(records);
    ExportedFromFileOrder(p, loaded, sel);
  }

  /** Loading the written file gives the exported contacts again, with the same
      records and display names, numbered afresh from 0. */
  lemma ExportReload(p: seq<Contact>, loaded: seq<Contact>, sel: map<nat, bool>)
    requires Numbered(loaded) && Loaded(loaded)
    requires multiset(p) == multiset(loaded)
    requires Export(p, sel).Written?
    ensures var again := LoadedContacts(CrlfToLf(Export(p, sel).text));
            var e := ExportedContacts(p, sel);
            && |again| == |e| == Export(p, sel).count
            && forall i :: 0 <= i < |e| ==>
                 again[i] == Contact(e[i].fn, i, e[i].data)
  {
    ExportRoundTrip(p, loaded, sel);
    ExportedFromFileOrder(p, loaded, sel);
    ExportedInFileOrder(p, loaded, sel);
    var e := ExportedContacts(p, sel);
    forall i | 0 <= i < |e|
      ensures e[i].fn == DisplayName(e[i].data)
    {
      assert e[i] in e;
      LoadedMember(loaded, e[i]);
    }
  }
}
