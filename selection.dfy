/** The selection state: a map from a contact's identity (its `originalIndex`) to
    whether it is ticked, read with `False` for a missing key, and the views and
    counts computed from it. */
module Selection {
  import opened VCard
  import opened Ordering

  /** `selection_states.get(k, False)`. */
  predicate IsSelected(sel: map<nat, bool>, k: nat) {
    k in sel && sel[k]
  }

  /** The keys whose value is true. */
  function TrueKeys(sel: map<nat, bool>): set<nat> {
    set k | k in sel && sel[k]
  }

  /** `sum(selection_states.values())`: the number of true values. */
  function CountSelected(sel: map<nat, bool>): (n: nat)
    ensures n <= |sel|
    ensures n == 0 <==> forall k :: k in sel ==> !sel[k]
  {
    SubsetSize(TrueKeys(sel), sel.Keys);
    assert forall k :: k in sel && sel[k] ==> k in TrueKeys(sel);
    |TrueKeys(sel)|
  }

  lemma {:induction false} SubsetSize<T>(a: set<T>, b: set<T>)
    requires a <= b
    ensures |a| <= |b|
    decreases |b|
  {
    if a != {} {
      var x :| x in a;
      SubsetSize(a - {x}, b - {x});
    }
  }

  // ---------------------------------------------------------------------------
  // Identities
  // ---------------------------------------------------------------------------

  /** The identities of a list of contacts. */
  function Ids(cs: seq<Contact>): set<nat> {
    set c | c in cs :: c.originalIndex
  }

  /** `{0, ..., n - 1}`. */
  function Range(n: nat): (r: set<nat>)
    ensures forall i: nat :: i in r <==> i < n
    ensures |r| == n
  {
    if n == 0 then {} else Range(n - 1) + {n - 1}
  }

  lemma NumberedIds(cs: seq<Contact>)
    requires Numbered(cs)
    ensures Ids(cs) == Range(|cs|)
  {
    forall i: nat | i < |cs|
      ensures i in Ids(cs)
    {
      assert cs[i] in cs;
    }
  }

  lemma PermutationIds(p: seq<Contact>, q: seq<Contact>)
    requires multiset(p) == multiset(q)
    ensures Ids(p) == Ids(q)
  {
    assert forall c :: c in p <==> c in multiset(p);
    assert forall c :: c in q <==> c in multiset(q);
  }

  /** Every key of the selection is the identity of one of `n` numbered contacts. */
  predicate KeysKnown(sel: map<nat, bool>, n: nat) {
    forall k :: k in sel ==> k < n
  }

  // ---------------------------------------------------------------------------
  // Select all / unselect all
  // ---------------------------------------------------------------------------

  /** The selection after setting the entry of every contact of `cs` to `v`, one
      contact after another. */
  function SetAll(sel: map<nat, bool>, cs: seq<Contact>, v: bool): map<nat, bool> {
    if |cs| == 0 then sel
    else SetAll(sel, cs[..|cs| - 1], v)[cs[|cs| - 1].originalIndex := v]
  }

  /** One step of setting the entries in list order. */
  lemma SetAllStep(sel: map<nat, bool>, cs: seq<Contact>, i: nat, v: bool)
    requires i < |cs|
    ensures SetAll(sel, cs[..i + 1], v) == SetAll(sel, cs[..i], v)[cs[i].originalIndex := v]
  {
    assert cs[..i + 1][..i] == cs[..i];
  }

  /** After setting all entries, the contacts' identities map to `v` and every other
      key keeps its entry. */
  lemma {:induction false} SetAllEntries(sel: map<nat, bool>, cs: seq<Contact>, v: bool)
    ensures SetAll(sel, cs, v).Keys == sel.Keys + Ids(cs)
    ensures forall k :: k in Ids(cs) ==> SetAll(sel, cs, v)[k] == v
    ensures forall k :: k in sel && k !in Ids(cs) ==> SetAll(sel, cs, v)[k] == sel[k]
  {
    if |cs| > 0 {
      var init := cs[..|cs| - 1];
      SetAllEntries(sel, init, v);
      assert cs == init + [cs[|cs| - 1]];
      assert Ids(cs) == Ids(init) + {cs[|cs| - 1].originalIndex};
    }
  }

  /** With every identity of `n` numbered contacts set, the count is `n` when the
      value is true and 0 when it is false, provided no other key is in the map. */
  lemma CountAfterSetAll(sel: map<nat, bool>, cs: seq<Contact>, n: nat, v: bool)
    requires KeysKnown(sel, n)
    requires Ids(cs) == Range(n)
    ensures CountSelected(SetAll(sel, cs, v)) == if v then n else 0
    ensures KeysKnown(SetAll(sel, cs, v), n)
  {
    var after := SetAll(sel, cs, v);
    SetAllEntries(sel, cs, v);
    assert after.Keys == Range(n);
    assert forall k :: k in after ==> after[k] == v;
    if v {
      assert TrueKeys(after) == Range(n);
    } else {
      assert TrueKeys(after) == {};
    }
  }

  /** Setting the entry of every contact of a reordering of the numbered list: each
      of them then maps to `v`, and when no other key was present the count is the
      length of the list or 0. */
  lemma SetAllOverLoaded(before: map<nat, bool>, shown: seq<Contact>, loaded: seq<Contact>, v: bool)
    requires Numbered(loaded)
    requires multiset(shown) == multiset(loaded)
    ensures forall c :: c in shown ==> IsSelected(SetAll(before, shown, v), c.originalIndex) == v
    ensures KeysKnown(before, |loaded|) ==>
      && KeysKnown(SetAll(before, shown, v), |loaded|)
      && CountSelected(SetAll(before, shown, v)) == if v then |shown| else 0
  {
    SetAllEntries(before, shown, v);
    forall c | c in shown
      ensures c.originalIndex in Ids(shown)
    {
    }
    PermutationIds(shown, loaded);
    NumberedIds(loaded);
    assert |shown| == |loaded| by {
      assert |multiset(shown)| == |multiset(loaded)|;
    }
    if KeysKnown(before, |loaded|) {
      CountAfterSetAll(before, shown, |loaded|, v);
    }
  }

  // ---------------------------------------------------------------------------
  // The checkbox list
  // ---------------------------------------------------------------------------

  /** `[c for c in cs if selection_states.get(c['original_index'], False)]`. */
  function SelectedOnly(cs: seq<Contact>, sel: map<nat, bool>): (r: seq<Contact>)
    ensures |r| <= |cs|
    ensures forall c :: c in r <==> c in cs && IsSelected(sel, c.originalIndex)
  {
    if |cs| == 0 then []
    else
      assert cs == [cs[0]] + cs[1..];
      (if IsSelected(sel, cs[0].originalIndex) then [cs[0]] else []) + SelectedOnly(cs[1..], sel)
  }

  /** The contacts the list shows: all of them, or the selected ones. */
  function Projection(cs: seq<Contact>, sel: map<nat, bool>, selectedOnly: bool): seq<Contact> {
    if selectedOnly then SelectedOnly(cs, sel) else cs
  }

  /** Filtering keeps the file order. */
  lemma {:induction false} SelectedOnlyIndexAscending(cs: seq<Contact>, sel: map<nat, bool>)
    requires IndexAscending(cs)
    ensures IndexAscending(SelectedOnly(cs, sel))
  {
    if |cs| > 0 {
      SelectedOnlyIndexAscending(cs[1..], sel);
      var rest := SelectedOnly(cs[1..], sel);
      forall j | 0 <= j < |rest|
        ensures cs[0].originalIndex < rest[j].originalIndex
      {
        assert rest[j] in rest;
        var m :| 0 <= m < |cs[1..]| && cs[1..][m] == rest[j];
        assert cs[m + 1] == rest[j];
      }
    }
  }

  /** Filtering keeps the alphabetical order and its tie-break. */
  lemma {:induction false} SelectedOnlyNameThenIndex(cs: seq<Contact>, sel: map<nat, bool>)
    requires NameThenIndex(cs)
    ensures NameThenIndex(SelectedOnly(cs, sel))
  {
    if |cs| > 0 {
      SelectedOnlyNameThenIndex(cs[1..], sel);
      var rest := SelectedOnly(cs[1..], sel);
      forall j | 0 <= j < |rest|
        ensures Precedes(cs[0], rest[j])
      {
        assert rest[j] in rest;
        var m :| 0 <= m < |cs[1..]| && cs[1..][m] == rest[j];
        assert cs[m + 1] == rest[j];
      }
    }
  }

  lemma IdsCons(cs: seq<Contact>)
    requires |cs| > 0
    ensures Ids(cs) == {cs[0].originalIndex} + Ids(cs[1..])
  {
    assert cs == [cs[0]] + cs[1..];
  }

  /** A list in strictly increasing file order has as many elements as identities. */
  lemma {:induction false} AscendingIdsSize(cs: seq<Contact>)
    requires IndexAscending(cs)
    ensures |Ids(cs)| == |cs|
  {
    if |cs| > 0 {
      AscendingIdsSize(cs[1..]);
      IdsCons(cs);
      forall c | c in cs[1..]
        ensures c.originalIndex != cs[0].originalIndex
      {
        var m :| 0 <= m < |cs[1..]| && cs[1..][m] == c;
        assert cs[m + 1] == c;
      }
    }
  }

  /** Filtering the list in file order keeps exactly the selected identities, so
      when every key is a contact's identity there are as many of them as the
      selection count. */
  lemma SelectedOnlyCount(loaded: seq<Contact>, sel: map<nat, bool>)
    requires Numbered(loaded)
    requires KeysKnown(sel, |loaded|)
    ensures |SelectedOnly(loaded, sel)| == CountSelected(sel)
  {
    var r := SelectedOnly(loaded, sel);
    forall k | k in TrueKeys(sel)
      ensures k in Ids(r)
    {
      assert loaded[k] in loaded;
      assert loaded[k] in r;
    }
    assert Ids(r) == TrueKeys(sel);
    SelectedOnlyIndexAscending(loaded, sel);
    AscendingIdsSize(r);
  }
}
