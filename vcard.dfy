/**
  The card parser of `load_vcf`: the file text is cut at every `BEGIN:VCARD`, each
  piece after the first is stripped, pieces without `END:VCARD` are dropped, and each
  kept piece is rebuilt as a canonical record. Records are then numbered in order and
  given the display name of their first `FN:` line.
 */
module VCard {
  import opened Wrappers
  import opened Text

  const BeginMarker: string := "BEGIN:VCARD"
  const EndMarker: string := "END:VCARD"
  const FnTag: string := "FN:"
  const Unnamed: string := "Unnamed Contact"

  /** The header every record starts with. */
  const BeginLine: string := "BEGIN:VCARD\n"

  /** One loaded contact: its display name, its identity (the position of the record
      in parse order) and its verbatim record text. */
  datatype Contact = Contact(fn: string, originalIndex: nat, data: string)

  // ---------------------------------------------------------------------------
  // Splitting the file into records
  // ---------------------------------------------------------------------------

  /** The record a piece of the file between two `BEGIN:VCARD` markers yields, if any. */
  function SegmentRecord(segment: string): Option<string> {
    var entry := Strip(segment);
    if Contains(entry, EndMarker) then
      Some(BeginLine + Split(entry, EndMarker)[0] + EndMarker)
    else
      None
  }

  /** The record of a piece as a list of at most one element. */
  function Yield(segment: string): seq<string> {
    match SegmentRecord(segment)
    case Some(r) => [r]
    case None => []
  }

  /** The records of a sequence of pieces, in order, malformed pieces dropped. */
  function Records(segments: seq<string>): (rs: seq<string>)
    ensures |rs| <= |segments|
  {
    if |segments| == 0 then [] else Yield(segments[0]) + Records(segments[1..])
  }

  /** The raw records of a file, in the order their markers occur. */
  function ParseRecords(content: string): seq<string> {
    Records(Split(content, BeginMarker)[1..])
  }

  // ---------------------------------------------------------------------------
  // Display name
  // ---------------------------------------------------------------------------

  /** None of the first `i` lines starts with the `FN:` tag. */
  predicate NoTagBefore(lines: seq<string>, i: int) {
    forall j :: 0 <= j < i && j < |lines| ==> !StartsWith(lines[j], FnTag)
  }

  /** The name on the first line that starts with `FN:`; the sentinel if none does. */
  function FirstName(lines: seq<string>): string
    decreases |lines|
  {
    if |lines| == 0 then Unnamed
    else if StartsWith(lines[0], FnTag) then Strip(lines[0][|FnTag|..])
    else FirstName(lines[1..])
  }

  /** Dropping the first line of a prefix without the tag leaves a prefix without it. */
  lemma NoTagTail(lines: seq<string>, i: nat)
    requires 0 < i <= |lines| && NoTagBefore(lines, i)
    ensures !StartsWith(lines[0], FnTag)
    ensures NoTagBefore(lines[1..], i - 1)
  {
    forall j | 0 <= j < i - 1
      ensures !StartsWith(lines[1..][j], FnTag)
    {
      assert lines[1..][j] == lines[j + 1];
    }
  }

  /** The name is the stripped rest of the first line that has the tag. */
  lemma {:induction false} FirstNameAt(lines: seq<string>, i: nat)
    requires i < |lines| && StartsWith(lines[i], FnTag) && NoTagBefore(lines, i)
    ensures FirstName(lines) == Strip(lines[i][|FnTag|..])
    decreases i
  {
    if i > 0 {
      NoTagTail(lines, i);
      FirstNameAt(lines[1..], i - 1);
      assert lines[1..][i - 1] == lines[i];
    }
  }

  /** With no line carrying the tag the name is the sentinel. */
  lemma {:induction false} FirstNameNone(lines: seq<string>)
    requires NoTagBefore(lines, |lines|)
    ensures FirstName(lines) == Unnamed
    decreases |lines|
  {
    if |lines| > 0 {
      NoTagTail(lines, |lines|);
      FirstNameNone(lines[1..]);
    }
  }

  /** The display name of a record. */
  function DisplayName(data: string): string {
    FirstName(Split(data, "\n"))
  }

  // ---------------------------------------------------------------------------
  // Numbering
  // ---------------------------------------------------------------------------

  /** `enumerate(entries)`, each record paired with its display name. */
  function Enumerate(records: seq<string>): seq<Contact> {
    seq(|records|, i requires 0 <= i < |records| => Contact(DisplayName(records[i]), i, records[i]))
  }

  /** Numbering one more record appends its contact. */
  lemma EnumerateStep(records: seq<string>, n: nat)
    requires n < |records|
    ensures Enumerate(records[..n + 1]) ==
      Enumerate(records[..n]) + [Contact(DisplayName(records[n]), n, records[n])]
  {
    var next := Enumerate(records[..n + 1]);
    var prev := Enumerate(records[..n]);
    assert forall i :: 0 <= i < n ==> next[i] == prev[i];
  }

  /** The contacts a file loads, in parse order. */
  function LoadedContacts(content: string): seq<Contact> {
    Enumerate(ParseRecords(content))
  }

  /** Every contact's identity is its position. */
  predicate Numbered(cs: seq<Contact>) {
    forall i :: 0 <= i < |cs| ==> cs[i].originalIndex == i
  }

  /** A contact is a well-formed record carrying its own display name. */
  predicate LoadedContact(c: Contact) {
    WellFormedRecord(c.data) && c.fn == DisplayName(c.data)
  }

  /** Every contact of the list is loaded from its record. */
  predicate Loaded(cs: seq<Contact>) {
    |cs| == 0 || (LoadedContact(cs[0]) && Loaded(cs[1..]))
  }

  lemma {:induction false} LoadedMember(cs: seq<Contact>, c: Contact)
    requires Loaded(cs) && c in cs
    ensures LoadedContact(c)
  {
    if cs[0] != c {
      assert c in cs[1..];
      LoadedMember(cs[1..], c);
    }
  }

  lemma {:induction false} LoadedAll(cs: seq<Contact>)
    requires forall i :: 0 <= i < |cs| ==> LoadedContact(cs[i])
    ensures Loaded(cs)
  {
    if |cs| > 0 {
      LoadedAll(cs[1..]);
    }
  }

  /** The contacts of a file are numbered by position and each is a well-formed
      record with its own display name. */
  lemma LoadedContactsFacts(content: string)
    ensures Numbered(LoadedContacts(content)) && Loaded(LoadedContacts(content))
  {
    var records := ParseRecords(content);
    var cs := LoadedContacts(content);
    ParsedRecordsWellFormed(content);
    forall i | 0 <= i < |cs|
      ensures LoadedContact(cs[i])
    {
      assert records[i] in records;
    }
    LoadedAll(cs);
  }

  // ---------------------------------------------------------------------------
  // Well-formed records
  // ---------------------------------------------------------------------------

  /** A record body that the parser reproduces: no `BEGIN:VCARD` in it, no leading
      whitespace, and the closing marker after it is its first `END:VCARD`. */
  predicate CleanBody(body: string) {
    && Avoids(body, BeginMarker)
    && (body == [] || !IsSpace(body[0]))
    && IndexOf(body + EndMarker, EndMarker) == Some(|body|)
  }

  function Body(r: string): string
    requires |r| >= |BeginLine| + |EndMarker|
  {
    r[|BeginLine|..|r| - |EndMarker|]
  }

  /** The shape of every record the parser emits. */
  predicate WellFormedRecord(r: string) {
    && |r| >= |BeginLine| + |EndMarker|
    && StartsWith(r, BeginLine)
    && EndsWith(r, EndMarker)
    && CleanBody(Body(r))
  }

  lemma WellFormedParts(r: string)
    requires WellFormedRecord(r)
    ensures r == BeginLine + Body(r) + EndMarker
  {
    assert r == r[..|BeginLine|] + Body(r) + r[|r| - |EndMarker|..];
  }

  /** The letters of `BEGIN:VCARD` that the overlap arguments below use. */
  lemma BeginMarkerLetters()
    ensures BeginMarker[0] == 'B' && BeginMarker[1] == 'E' && BeginMarker[2] == 'G'
    ensures forall k :: 1 <= k < |BeginMarker| ==> BeginMarker[k] != 'B'
    ensures forall k :: 2 <= k < |BeginMarker| ==> BeginMarker[k] != 'E'
  {
    forall k | 1 <= k < |BeginMarker|
      ensures BeginMarker[k] != 'B' && (k >= 2 ==> BeginMarker[k] != 'E')
    {
      // One case per position, so that each letter of the marker is evaluated.
      if k == 1 {} else if k == 2 {} else if k == 3 {} else if k == 4 {} else if k == 5 {}
      else if k == 6 {} else if k == 7 {} else if k == 8 {} else if k == 9 {} else {}
    }
  }

  /** No letter of `BEGIN:VCARD` after the first is a `B`, so an occurrence of the
      marker cannot start inside text that ends just before another marker. */
  lemma MarkerAfterFreeText(x: string, y: string)
    requires Avoids(x, BeginMarker)
    ensures IndexOf(x + BeginMarker + y, BeginMarker) == Some(|x|)
  {
    var s := x + BeginMarker + y;
    assert s[|x|..|x| + |BeginMarker|] == BeginMarker;
    assert OccursAt(s, BeginMarker, |x|);
    forall j: nat | j < |x|
      ensures !OccursAt(s, BeginMarker, j)
    {
      MarkerBeforeMarker(x, y, j);
    }
  }

  /** An occurrence of the marker that starts inside `x`, in `x` followed by the
      marker, lies wholly inside `x`. */
  lemma MarkerBeforeMarker(x: string, y: string, j: int)
    ensures 0 <= j < |x| && OccursAt(x + BeginMarker + y, BeginMarker, j) ==>
      j + |BeginMarker| <= |x| && OccursAt(x, BeginMarker, j)
  {
    var s := x + BeginMarker + y;
    assert s[..|x|] == x && s[|x|] == 'B';
    BeginMarkerLetters();
    if 0 <= j < |x| && OccursAt(s, BeginMarker, j) {
      if j + |BeginMarker| <= |x| {
        OccursInsideSlice(s, BeginMarker, 0, |x|, j);
      } else {
        OccursLetters(s, BeginMarker, j, |x| - j);
      }
    }
  }

  /** What follows the marker of a clean record, up to the next marker, has no marker. */
  lemma TailAvoidsMarker(body: string)
    requires Avoids(body, BeginMarker)
    ensures Avoids("\n" + body + EndMarker + "\n", BeginMarker)
  {
    forall j: nat
      ensures !OccursAt("\n" + body + EndMarker + "\n", BeginMarker, j)
    {
      MarkerInTail(body, j);
    }
  }

  /** An occurrence of the marker in a record's tail lies inside its body. */
  lemma MarkerInTail(body: string, j: int)
    ensures 0 <= j && OccursAt("\n" + body + EndMarker + "\n", BeginMarker, j) ==>
      1 <= j && OccursAt(body, BeginMarker, j - 1)
  {
    var t := "\n" + body + EndMarker + "\n";
    var q := 1 + |body|;
    assert t[0] == '\n' && t[1..q] == body;
    assert t[q] == 'E' && t[q + 1] == 'N';
    BeginMarkerLetters();
    if 0 <= j && OccursAt(t, BeginMarker, j) {
      OccursLetters(t, BeginMarker, j, 0);
      if j + |BeginMarker| <= q {
        OccursInsideSlice(t, BeginMarker, 1, q, j - 1);
      } else {
        OccursLetters(t, BeginMarker, j, q - j);
      }
    }
  }

  /** A clean record's tail, as it appears in a joined export, yields the record again. */
  lemma TailYieldsRecord(body: string)
    requires CleanBody(body)
    ensures SegmentRecord("\n" + body + EndMarker + "\n") == Some(BeginLine + body + EndMarker)
  {
    var x := body + EndMarker;
    StripTail(body);
    assert x[..|body|] == body;
    SegmentRecordOf("\n" + body + EndMarker + "\n", x, body);
  }

  lemma StripTail(body: string)
    requires body == [] || !IsSpace(body[0])
    ensures Strip("\n" + body + EndMarker + "\n") == body + EndMarker
  {
    var x := body + EndMarker;
    assert x[|x| - 1] == 'D';
    assert x[0] == if body == [] then 'E' else body[0];
    StripPadded("\n", x, "\n");
    assert "\n" + body + EndMarker + "\n" == "\n" + x + "\n";
  }

  /** A piece that strips to `x`, whose first `END:VCARD` follows `body`, yields the
      record with that body. */
  lemma SegmentRecordOf(segment: string, x: string, body: string)
    requires Strip(segment) == x
    requires |body| <= |x| && x[..|body|] == body
    requires IndexOf(x, EndMarker) == Some(|body|)
    ensures SegmentRecord(segment) == Some(BeginLine + body + EndMarker)
  {
    SplitHead(x, EndMarker, |body|);
  }

  /** Every record a piece without a marker yields is well formed. */
  lemma SegmentRecordWellFormed(segment: string)
    requires Avoids(segment, BeginMarker)
    requires SegmentRecord(segment).Some?
    ensures WellFormedRecord(SegmentRecord(segment).value)
  {
    var t := Strip(segment);
    StripAvoids(segment);
    var i := IndexOf(t, EndMarker).value;
    SplitHead(t, EndMarker, i);
    BodyBeforeEnd(t, i);
    CleanRecord(t[..i]);
  }

  lemma StripAvoids(segment: string)
    requires Avoids(segment, BeginMarker)
    ensures Avoids(Strip(segment), BeginMarker)
  {
    var a := StripIsSlice(segment);
    SliceAvoids(segment, BeginMarker, a, a + |Strip(segment)|);
  }

  /** The text of a stripped piece before its first `END:VCARD` is a clean body. */
  lemma BodyBeforeEnd(t: string, i: nat)
    requires Avoids(t, BeginMarker)
    requires t == [] || !IsSpace(t[0])
    requires IndexOf(t, EndMarker) == Some(i)
    ensures CleanBody(t[..i])
  {
    SliceAvoids(t, BeginMarker, 0, i);
    assert t[0..i] == t[..i];
    FirstOccurrenceInPrefix(t, EndMarker, i);
    assert t[..i + |EndMarker|] == t[..i] + EndMarker;
  }

  lemma CleanRecord(body: string)
    requires CleanBody(body)
    ensures WellFormedRecord(BeginLine + body + EndMarker)
  {
    var r := BeginLine + body + EndMarker;
    assert r[..|BeginLine|] == BeginLine;
    assert r[|r| - |EndMarker|..] == EndMarker;
    assert Body(r) == body;
  }

  // ---------------------------------------------------------------------------
  // Properties of the parser
  // ---------------------------------------------------------------------------

  /** Records of consecutive runs of pieces are consecutive. */
  lemma {:induction false} RecordsAppend(a: seq<string>, b: seq<string>)
    ensures Records(a + b) == Records(a) + Records(b)
  {
    if |a| > 0 {
      var ab := a + b;
      assert ab[0] == a[0] && ab[1..] == a[1..] + b;
      RecordsAppend(a[1..], b);
      calc {
        Records(ab);
        Yield(a[0]) + Records(a[1..] + b);
        Yield(a[0]) + (Records(a[1..]) + Records(b));
        (Yield(a[0]) + Records(a[1..])) + Records(b);
      }
    } else {
      assert a + b == b;
    }
  }

  /** One more piece adds its record, if it yields one, at the end. */
  lemma RecordsSnoc(a: seq<string>, segment: string)
    ensures Records(a + [segment]) == Records(a) + Yield(segment)
  {
    RecordsAppend(a, [segment]);
    RecordsOne(segment);
  }

  lemma RecordsOne(segment: string)
    ensures Records([segment]) == Yield(segment)
  {
    var one := [segment];
    assert one[0] == segment && one[1..] == [];
  }

  /** One step of the pieces loop: the pieces up to `k` give the records of the
      pieces before it followed by the record of piece `k`, if it yields one. */
  lemma RecordsStep(raw: seq<string>, k: nat)
    requires 1 <= k < |raw|
    ensures Records(raw[1..k + 1]) == Records(raw[1..k]) + Yield(raw[k])
  {
    SliceSnoc(raw, 1, k);
    RecordsSnoc(raw[1..k], raw[k]);
  }

  /** A piece without `END:VCARD` yields nothing and shifts nothing. */
  lemma MalformedSegmentDropped(a: seq<string>, segment: string, b: seq<string>)
    requires !Contains(Strip(segment), EndMarker)
    ensures Records(a + [segment] + b) == Records(a) + Records(b)
  {
    RecordsOne(segment);
    RecordsAppend(a + [segment], b);
    RecordsAppend(a, [segment]);
  }

  /** Every record is well formed. */
  lemma {:induction false} RecordsWellFormed(segments: seq<string>)
    requires forall k :: 0 <= k < |segments| ==> Avoids(segments[k], BeginMarker)
    ensures forall r :: r in Records(segments) ==> WellFormedRecord(r)
  {
    if |segments| > 0 {
      RecordsWellFormed(segments[1..]);
      if SegmentRecord(segments[0]).Some? {
        SegmentRecordWellFormed(segments[0]);
      }
    }
  }

  lemma ParsedRecordsWellFormed(content: string)
    ensures forall r :: r in ParseRecords(content) ==> WellFormedRecord(r)
  {
    var pieces := Split(content, BeginMarker);
    SplitPiecesAvoid(content, BeginMarker);
    assert forall k :: 0 <= k < |pieces[1..]| ==> pieces[1..][k] == pieces[k + 1];
    RecordsWellFormed(pieces[1..]);
  }

  /** Text without a `BEGIN:VCARD` marker yields no record. */
  lemma NoMarkerNoRecords(content: string)
    requires !Contains(content, BeginMarker)
    ensures ParseRecords(content) == []
  {
  }

  /** Text before the first marker is dropped. */
  lemma LeadingTextIgnored(pre: string, rest: string)
    requires !Contains(pre, BeginMarker)
    ensures ParseRecords(pre + BeginMarker + rest) == ParseRecords(BeginMarker + rest)
  {
    MarkerAfterFreeText(pre, rest);
    MarkerAfterFreeText("", rest);
    assert "" + BeginMarker + rest == BeginMarker + rest;
    var s := pre + BeginMarker + rest;
    assert s[|pre| + |BeginMarker|..] == rest;
    assert (BeginMarker + rest)[|BeginMarker|..] == rest;
  }

  // ---------------------------------------------------------------------------
  // Parsing joined records
  // ---------------------------------------------------------------------------

  /** Each record followed by a line feed, concatenated. */
  function Terminated(rs: seq<string>): string {
    if |rs| == 0 then "" else rs[0] + "\n" + Terminated(rs[1..])
  }

  /** What follows the marker of a record, up to the next marker, in a terminated list. */
  function Tail(r: string): string
    requires WellFormedRecord(r)
  {
    r[|BeginMarker|..] + "\n"
  }

  /** The pieces between markers of a terminated sequence of records. */
  function Tails(rs: seq<string>): seq<string>
    requires forall r :: r in rs ==> WellFormedRecord(r)
  {
    seq(|rs|, i requires 0 <= i < |rs| => assert rs[i] in rs; Tail(rs[i]))
  }

  lemma RecordTail(r: string)
    requires WellFormedRecord(r)
    ensures r + "\n" == BeginMarker + Tail(r)
    ensures Avoids(Tail(r), BeginMarker)
  {
    var b := Body(r);
    WellFormedParts(r);
    TailShape(r, b);
    TailAvoidsMarker(b);
  }

  lemma TailShape(r: string, b: string)
    requires |r| >= |BeginMarker| && r == BeginLine + b + EndMarker
    ensures r[|BeginMarker|..] + "\n" == "\n" + b + EndMarker + "\n"
    ensures r + "\n" == BeginMarker + (r[|BeginMarker|..] + "\n")
  {
    assert BeginLine == BeginMarker + "\n";
    assert r == BeginMarker + ("\n" + b + EndMarker);
  }

  lemma TailRecord(r: string)
    requires WellFormedRecord(r)
    ensures Yield(Tail(r)) == [r]
  {
    var b := Body(r);
    WellFormedParts(r);
    TailShape(r, b);
    TailYieldsRecord(b);
  }

  lemma Regroup(pre: string, r: string, t: string, u: string)
    requires r + "\n" == BeginMarker + t
    ensures pre + (r + "\n" + u) == pre + BeginMarker + (t + u)
  {
    calc {
      pre + (r + "\n" + u);
      pre + ((r + "\n") + u);
      pre + ((BeginMarker + t) + u);
      pre + BeginMarker + (t + u);
    }
  }

  lemma TailsCons(rs: seq<string>)
    requires |rs| > 0 && forall r :: r in rs ==> WellFormedRecord(r)
    ensures WellFormedRecord(rs[0]) && Tails(rs) == [Tail(rs[0])] + Tails(rs[1..])
  {
    assert rs[0] in rs;
  }

  lemma SplitAtMarker(pre: string, y: string)
    requires Avoids(pre, BeginMarker)
    ensures Split(pre + BeginMarker + y, BeginMarker) == [pre] + Split(y, BeginMarker)
  {
    var s := pre + BeginMarker + y;
    MarkerAfterFreeText(pre, y);
    assert s[..|pre|] == pre;
    assert s[|pre| + |BeginMarker|..] == y;
  }

  lemma {:induction false} JoinTerminated(rs: seq<string>)
    requires |rs| > 0
    ensures Join(rs, "\n") + "\n" == Terminated(rs)
  {
    if |rs| > 1 {
      JoinTerminated(rs[1..]);
    }
  }

  lemma {:induction false} SplitTerminated(pre: string, rs: seq<string>)
    requires Avoids(pre, BeginMarker)
    requires forall r :: r in rs ==> WellFormedRecord(r)
    ensures Split(pre + Terminated(rs), BeginMarker) == [pre] + Tails(rs)
    decreases |rs|
  {
    if |rs| == 0 {
      assert pre + Terminated(rs) == pre;
    } else {
      TailsCons(rs);
      var r, rest := rs[0], rs[1..];
      assert Terminated(rs) == r + "\n" + Terminated(rest);
      RecordTail(r);
      Regroup(pre, r, Tail(r), Terminated(rest));
      SplitAtMarker(pre, Tail(r) + Terminated(rest));
      SplitTerminated(Tail(r), rest);
    }
  }

  lemma {:induction false} RecordsOfTails(rs: seq<string>)
    requires forall r :: r in rs ==> WellFormedRecord(r)
    ensures Records(Tails(rs)) == rs
  {
    if |rs| > 0 {
      TailsCons(rs);
      TailRecord(rs[0]);
      RecordsOfTails(rs[1..]);
      assert ([Tail(rs[0])] + Tails(rs[1..]))[1..] == Tails(rs[1..]);
      assert rs == [rs[0]] + rs[1..];
    }
  }

  /** Parsing well-formed records joined by line feeds, with a final line feed, gives
      back exactly those records, in order. */
  lemma ParseJoinedRecords(rs: seq<string>)
    requires forall r :: r in rs ==> WellFormedRecord(r)
    ensures ParseRecords(Join(rs, "\n") + "\n") == rs
  {
    if |rs| == 0 {
      assert Join(rs, "\n") + "\n" == "\n";
      assert Avoids("\n", BeginMarker);
    } else {
      JoinTerminated(rs);
      SplitTerminated("", rs);
      assert "" + Terminated(rs) == Terminated(rs);
      RecordsOfTails(rs);
    }
  }
}
