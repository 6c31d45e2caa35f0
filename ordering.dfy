/** The two orders the contact list is shown in, and the sort that produces them.

    The list is sorted with a key function and a sort that is stable: contacts whose
    keys are equal keep the order they had. That sort is modelled here by insertion
    sort, which is stable by construction. */
module Ordering {
  import opened Text
  import opened VCard

  // ---------------------------------------------------------------------------
  // The order of strings
  // ---------------------------------------------------------------------------

  /** `a < b` on strings: lexicographic by character code, a proper prefix first. */
  predicate LexLess(a: string, b: string) {
    if |a| == 0 then |b| > 0
    else |b| > 0 && (a[0] < b[0] || (a[0] == b[0] && LexLess(a[1..], b[1..])))
  }

  lemma {:induction false} LexLessIrreflexive(a: string)
    ensures !LexLess(a, a)
  {
    if |a| > 0 {
      LexLessIrreflexive(a[1..]);
    }
  }

  lemma {:induction false} LexLessTransitive(a: string, b: string, c: string)
    requires LexLess(a, b) && LexLess(b, c)
    ensures LexLess(a, c)
  {
    if |a| > 0 && a[0] == b[0] && b[0] == c[0] {
      LexLessTransitive(a[1..], b[1..], c[1..]);
    }
  }

  lemma {:induction false} LexLessTotal(a: string, b: string)
    ensures a == b || LexLess(a, b) || LexLess(b, a)
  {
    if |a| > 0 && |b| > 0 && a[0] == b[0] {
      LexLessTotal(a[1..], b[1..]);
      if a[1..] == b[1..] {
        assert a == [a[0]] + a[1..] && b == [b[0]] + b[1..];
      }
    }
  }

  lemma LexLessAsymmetric(a: string, b: string)
    requires LexLess(a, b)
    ensures !LexLess(b, a)
  {
    if LexLess(b, a) {
      LexLessTransitive(a, b, a);
      LexLessIrreflexive(a);
    }
  }

  // ---------------------------------------------------------------------------
  // Sort keys
  // ---------------------------------------------------------------------------

  /** Alphabetical by the lower-cased display name, or by position in the file. */
  datatype SortKey = ByName | ByIndex

  /** The key a contact is sorted by alphabetically. */
  function NameKey(c: Contact): string {
    Lower(c.fn)
  }

  /** `a`'s key is strictly smaller than `b`'s. */
  predicate Before(k: SortKey, a: Contact, b: Contact) {
    match k
    case ByName => LexLess(NameKey(a), NameKey(b))
    case ByIndex => a.originalIndex < b.originalIndex
  }

  lemma BeforeAsymmetric(k: SortKey, a: Contact, b: Contact)
    requires Before(k, a, b)
    ensures !Before(k, b, a)
  {
    if k == ByName {
      LexLessAsymmetric(NameKey(a), NameKey(b));
    }
  }

  /** "not smaller" is transitive: keys form a total preorder. */
  lemma NotBeforeTransitive(k: SortKey, a: Contact, b: Contact, c: Contact)
    requires !Before(k, b, a) && !Before(k, c, b)
    ensures !Before(k, c, a)
  {
    if k == ByName {
      var x, y, z := NameKey(a), NameKey(b), NameKey(c);
      LexLessTotal(x, y);
      LexLessTotal(y, z);
      if LexLess(z, x) && x != y && y != z {
        LexLessTransitive(x, y, z);
        LexLessAsymmetric(x, z);
      }
    }
  }

  /** No later element has a smaller key than an earlier one. */
  predicate Sorted(s: seq<Contact>, k: SortKey) {
    forall i, j :: 0 <= i < j < |s| ==> !Before(k, s[j], s[i])
  }

  // ---------------------------------------------------------------------------
  // The stable sort
  // ---------------------------------------------------------------------------

  /** Puts `x` just before the first element whose key is not smaller than its own. */
  function Insert(x: Contact, s: seq<Contact>, k: SortKey): (r: seq<Contact>)
    ensures multiset(r) == multiset(s) + multiset{x}
  {
    if |s| == 0 then [x]
    else if !Before(k, s[0], x) then [x] + s
    else
      assert s == [s[0]] + s[1..];
      [s[0]] + Insert(x, s[1..], k)
  }

  /** `list.sort(key=...)` on a list of contacts. */
  function SortBy(s: seq<Contact>, k: SortKey): (r: seq<Contact>)
    ensures multiset(r) == multiset(s)
  {
    if |s| == 0 then []
    else
      assert s == [s[0]] + s[1..];
      Insert(s[0], SortBy(s[1..], k), k)
  }

  lemma InsertMembers(x: Contact, s: seq<Contact>, k: SortKey)
    ensures forall z :: z in Insert(x, s, k) <==> z == x || z in s
  {
    assert forall z :: z in Insert(x, s, k) <==> z in multiset(Insert(x, s, k));
  }

  lemma SortMembers(s: seq<Contact>, k: SortKey)
    ensures forall z :: z in SortBy(s, k) <==> z in s
  {
    assert forall z :: z in SortBy(s, k) <==> z in multiset(SortBy(s, k));
  }

  lemma {:induction false} InsertSorted(x: Contact, s: seq<Contact>, k: SortKey)
    requires Sorted(s, k)
    ensures Sorted(Insert(x, s, k), k)
  {
    if |s| == 0 {
    } else if !Before(k, s[0], x) {
      forall j | 0 <= j < |s|
        ensures !Before(k, s[j], x)
      {
        if j > 0 {
          NotBeforeTransitive(k, x, s[0], s[j]);
        }
      }
    } else {
      InsertSorted(x, s[1..], k);
      InsertMembers(x, s[1..], k);
      BeforeAsymmetric(k, s[0], x);
      var t := Insert(x, s[1..], k);
      forall j | 0 <= j < |t|
        ensures !Before(k, t[j], s[0])
      {
        assert t[j] in t;
        if t[j] != x {
          var m :| 0 <= m < |s[1..]| && s[1..][m] == t[j];
          assert s[m + 1] == t[j];
        }
      }
    }
  }

  /** The sort yields an ordered permutation of its input. */
  lemma {:induction false} SortSorted(s: seq<Contact>, k: SortKey)
    ensures Sorted(SortBy(s, k), k)
    ensures multiset(SortBy(s, k)) == multiset(s)
  {
    if |s| > 0 {
      SortSorted(s[1..], k);
      InsertSorted(s[0], SortBy(s[1..], k), k);
    }
  }

  /** Sorting a list that is already in order leaves it as it is; in particular
      sorting twice by the same key is the same as sorting once. */
  lemma {:induction false} SortOfSorted(s: seq<Contact>, k: SortKey)
    requires Sorted(s, k)
    ensures SortBy(s, k) == s
  {
    if |s| > 0 {
      assert Sorted(s[1..], k);
      SortOfSorted(s[1..], k);
      if |s| > 1 {
        assert !Before(k, s[1..][0], s[0]);
      }
      assert s == [s[0]] + s[1..];
    }
  }

  lemma SortIdempotent(s: seq<Contact>, k: SortKey)
    ensures SortBy(SortBy(s, k), k) == SortBy(s, k)
  {
    SortSorted(s, k);
    SortOfSorted(SortBy(s, k), k);
  }

  // ---------------------------------------------------------------------------
  // Stability of the alphabetical order
  // ---------------------------------------------------------------------------

  /** Positions in the file strictly increase along the list. */
  predicate IndexAscending(s: seq<Contact>) {
    forall i, j :: 0 <= i < j < |s| ==> s[i].originalIndex < s[j].originalIndex
  }

  /** `a` comes before `b` alphabetically, ties broken by position in the file. */
  predicate Precedes(a: Contact, b: Contact) {
    LexLess(NameKey(a), NameKey(b))
    || (NameKey(a) == NameKey(b) && a.originalIndex < b.originalIndex)
  }

  predicate NameThenIndex(s: seq<Contact>) {
    forall i, j :: 0 <= i < j < |s| ==> Precedes(s[i], s[j])
  }

  lemma PrecedesTransitive(a: Contact, b: Contact, c: Contact)
    requires Precedes(a, b) && Precedes(b, c)
    ensures Precedes(a, c)
  {
    if LexLess(NameKey(a), NameKey(b)) && LexLess(NameKey(b), NameKey(c)) {
      LexLessTransitive(NameKey(a), NameKey(b), NameKey(c));
    }
  }

  lemma {:induction false} InsertStable(x: Contact, t: seq<Contact>)
    requires NameThenIndex(t)
    requires forall y :: y in t ==> x.originalIndex < y.originalIndex
    ensures NameThenIndex(Insert(x, t, ByName))
  {
    if |t| == 0 {
    } else if !Before(ByName, t[0], x) {
      LexLessTotal(NameKey(x), NameKey(t[0]));
      assert t[0] in t;
      assert Precedes(x, t[0]);
      forall j | 0 <= j < |t|
        ensures Precedes(x, t[j])
      {
        if j > 0 {
          PrecedesTransitive(x, t[0], t[j]);
        }
      }
    } else {
      var u := Insert(x, t[1..], ByName);
      forall y | y in t[1..]
        ensures x.originalIndex < y.originalIndex
      {
        assert y in t;
      }
      InsertStable(x, t[1..]);
      InsertMembers(x, t[1..], ByName);
      forall j | 0 <= j < |u|
        ensures Precedes(t[0], u[j])
      {
        assert u[j] in u;
        if u[j] != x {
          var m :| 0 <= m < |t[1..]| && t[1..][m] == u[j];
          assert t[m + 1] == u[j];
        }
      }
    }
  }

  /** Sorting by name a list that is in file order yields the list ordered by name,
      contacts with the same lower-cased name in file order: the sort is stable. */
  lemma {:induction false} SortByNameStable(s: seq<Contact>)
    requires IndexAscending(s)
    ensures NameThenIndex(SortBy(s, ByName))
  {
    if |s| > 0 {
      SortByNameStable(s[1..]);
      SortMembers(s[1..], ByName);
      forall y | y in SortBy(s[1..], ByName)
        ensures s[0].originalIndex < y.originalIndex
      {
        var m :| 0 <= m < |s[1..]| && s[1..][m] == y;
        assert s[m + 1] == y;
      }
      InsertStable(s[0], SortBy(s[1..], ByName));
    }
  }

  // ---------------------------------------------------------------------------
  // The file order is recovered by sorting on the index
  // ---------------------------------------------------------------------------

  /** A list ordered by index with the same elements as a list whose indices strictly
      increase is that list. */
  lemma {:induction false} SortedByIndexUnique(a: seq<Contact>, b: seq<Contact>)
    requires Sorted(a, ByIndex) && IndexAscending(b)
    requires multiset(a) == multiset(b)
    ensures a == b
    decreases |a|
  {
    assert |a| == |multiset(a)| == |multiset(b)| == |b|;
    if |a| > 0 {
      assert a[0] in multiset(b) && b[0] in multiset(a);
      var j :| 0 <= j < |b| && b[j] == a[0];
      var i :| 0 <= i < |a| && a[i] == b[0];
      assert a[0].originalIndex <= a[i].originalIndex;
      assert j == 0;
      assert b[0] == a[0];
      DropCommonHead(a, b);
      assert Sorted(a[1..], ByIndex) && IndexAscending(b[1..]);
      SortedByIndexUnique(a[1..], b[1..]);
    }
  }

  lemma DropCommonHead(a: seq<Contact>, b: seq<Contact>)
    requires |a| > 0 && |b| > 0 && a[0] == b[0]
    requires multiset(a) == multiset(b)
    ensures multiset(a[1..]) == multiset(b[1..])
  {
    assert a == [a[0]] + a[1..] && b == [a[0]] + b[1..];
    var m := multiset{a[0]};
    assert multiset(a) == m + multiset(a[1..]);
    assert multiset(b) == m + multiset(b[1..]);
    assert multiset(a[1..]) == multiset(a) - m;
  }

  /** Whatever order a permutation of the loaded list is in, sorting it by index
      gives back the list in file order. */
  lemma RestoreFileOrder(p: seq<Contact>, loaded: seq<Contact>)
    requires Numbered(loaded)
    requires multiset(p) == multiset(loaded)
    ensures SortBy(p, ByIndex) == loaded
  {
    SortSorted(p, ByIndex);
    SortedByIndexUnique(SortBy(p, ByIndex), loaded);
  }
}
