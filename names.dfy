/**
  Entry names and their order: strcmp(3), the filter that drops "." and
  "..", and the sort a directory snapshot applies to its listing (qsort
  with fstate_compare_name, fstate.c:70-75).
 */
module Names {
  import opened FileSystem

  /** strcmp(3): negative, zero or positive as `a` sorts before, equal to or
      after `b`, comparing character codes, a proper prefix first. */
  function Strcmp(a: string, b: string): int
  {
    if a == [] && b == [] then 0
    else if a == [] then -1
    else if b == [] then 1
    else if a[0] < b[0] then -1
    else if a[0] > b[0] then 1
    else Strcmp(a[1..], b[1..])
  }

  lemma {:induction false} StrcmpZeroIffEqual(a: string, b: string)
    ensures Strcmp(a, b) == 0 <==> a == b
  {
    if a != [] && b != [] && a[0] == b[0] {
      StrcmpZeroIffEqual(a[1..], b[1..]);
      assert a == [a[0]] + a[1..] && b == [b[0]] + b[1..];
    }
  }

  lemma {:induction false} StrcmpAntisymmetric(a: string, b: string)
    ensures Strcmp(a, b) < 0 <==> Strcmp(b, a) > 0
  {
    if a != [] && b != [] && a[0] == b[0] {
      StrcmpAntisymmetric(a[1..], b[1..]);
    }
  }

  lemma {:induction false} StrcmpTransitive(a: string, b: string, c: string)
    requires Strcmp(a, b) < 0 && Strcmp(b, c) < 0
    ensures Strcmp(a, c) < 0
  {
    if a != [] && b != [] && c != [] && a[0] == b[0] && b[0] == c[0] {
      StrcmpTransitive(a[1..], b[1..], c[1..]);
    }
  }

  /** `a` sorts no later than `b`. */
  predicate NotAfter(a: string, b: string) {
    Strcmp(a, b) <= 0
  }

  lemma NotAfterTransitive(a: string, b: string, c: string)
    requires NotAfter(a, b) && NotAfter(b, c)
    ensures NotAfter(a, c)
  {
    StrcmpZeroIffEqual(a, b);
    StrcmpZeroIffEqual(b, c);
    if Strcmp(a, b) < 0 && Strcmp(b, c) < 0 {
      StrcmpTransitive(a, b, c);
    }
  }

  lemma NotAfterTotal(a: string, b: string)
    ensures NotAfter(a, b) || NotAfter(b, a)
  {
    StrcmpAntisymmetric(a, b);
  }

  predicate SortedByName(s: seq<Entry>) {
    forall i, j :: 0 <= i < j < |s| ==> NotAfter(s[i].name, s[j].name)
  }

  /** Strictly ascending names: sorted, and no name twice. */
  predicate StrictlySorted(s: seq<Entry>) {
    forall i, j :: 0 <= i < j < |s| ==> Strcmp(s[i].name, s[j].name) < 0
  }

  predicate UniqueNames(s: seq<Entry>) {
    forall i, j :: 0 <= i < j < |s| ==> s[i].name != s[j].name
  }

  /** Insertion of one entry in front of the first entry that does not
      sort before it. */
  function InsertByName(e: Entry, s: seq<Entry>): seq<Entry>
  {
    if s == [] then [e]
    else if NotAfter(e.name, s[0].name) then [e] + s
    else [s[0]] + InsertByName(e, s[1..])
  }

  /** The order qsort leaves a snapshot's entries in (an insertion sort
      stands in for the library routine). */
  function SortByName(s: seq<Entry>): seq<Entry>
  {
    if s == [] then [] else InsertByName(s[0], SortByName(s[1..]))
  }

  lemma {:induction false} InsertByNamePermutes(e: Entry, s: seq<Entry>)
    ensures multiset(InsertByName(e, s)) == multiset(s) + multiset{e}
  {
    if s != [] && !NotAfter(e.name, s[0].name) {
      var rest := InsertByName(e, s[1..]);
      InsertByNamePermutes(e, s[1..]);
      assert s == [s[0]] + s[1..];
      assert multiset([s[0]] + rest) == multiset{s[0]} + multiset(rest);
    }
  }

  lemma {:induction false} InsertByNameSorted(e: Entry, s: seq<Entry>)
    requires SortedByName(s)
    ensures SortedByName(InsertByName(e, s))
  {
    if s != [] {
      if NotAfter(e.name, s[0].name) {
        InsertAtHead(e, s);
      } else {
        InsertByNameSorted(e, s[1..]);
        InsertByNamePermutes(e, s[1..]);
        InsertBehindHead(e, s, InsertByName(e, s[1..]));
      }
    }
  }

  lemma InsertAtHead(e: Entry, s: seq<Entry>)
    requires SortedByName(s) && s != [] && NotAfter(e.name, s[0].name)
    ensures SortedByName([e] + s)
  {
    forall j | 0 < j < |s| ensures NotAfter(e.name, s[j].name) {
      NotAfterTransitive(e.name, s[0].name, s[j].name);
    }
  }

  lemma InsertBehindHead(e: Entry, s: seq<Entry>, rest: seq<Entry>)
    requires SortedByName(s) && s != [] && !NotAfter(e.name, s[0].name)
    requires multiset(rest) == multiset(s[1..]) + multiset{e} && SortedByName(rest)
    ensures SortedByName([s[0]] + rest)
  {
    NotAfterTotal(e.name, s[0].name);
    forall j | 0 <= j < |rest| ensures NotAfter(s[0].name, rest[j].name) {
      assert rest[j] in multiset(rest);
      if rest[j] != e {
        assert rest[j] in multiset(s[1..]);
        var k :| 0 <= k < |s[1..]| && s[1..][k] == rest[j];
        assert s[k + 1] == rest[j];
      }
    }
  }

  /** The sort rearranges its input and nothing more. */
  lemma {:induction false} SortByNamePermutes(s: seq<Entry>)
    ensures multiset(SortByName(s)) == multiset(s)
  {
    if s != [] {
      SortByNamePermutes(s[1..]);
      InsertByNamePermutes(s[0], SortByName(s[1..]));
      assert s == [s[0]] + s[1..];
    }
  }

  /** The sort leaves its result in ascending name order. */
  lemma {:induction false} SortByNameSorted(s: seq<Entry>)
    ensures SortedByName(SortByName(s))
  {
    if s != [] {
      SortByNameSorted(s[1..]);
      InsertByNameSorted(s[0], SortByName(s[1..]));
    }
  }

  /** A sorted sequence whose names are distinct is strictly ascending. */
  lemma SortedUniqueIsStrict(s: seq<Entry>)
    requires SortedByName(s) && UniqueNames(s)
    ensures StrictlySorted(s)
  {
    forall i, j | 0 <= i < j < |s| ensures Strcmp(s[i].name, s[j].name) < 0 {
      StrcmpZeroIffEqual(s[i].name, s[j].name);
    }
  }

  /** Inserting a name not yet present keeps the names distinct. */
  lemma {:induction false} InsertKeepsUnique(e: Entry, s: seq<Entry>)
    requires SortedByName(s) && UniqueNames(s)
    requires forall k :: 0 <= k < |s| ==> s[k].name != e.name
    ensures UniqueNames(InsertByName(e, s))
  {
    if s != [] && !NotAfter(e.name, s[0].name) {
      InsertKeepsUnique(e, s[1..]);
      InsertByNamePermutes(e, s[1..]);
      var rest := InsertByName(e, s[1..]);
      forall j | 0 <= j < |rest| ensures rest[j].name != s[0].name {
        assert rest[j] in multiset(rest);
        if rest[j] != e {
          assert rest[j] in multiset(s[1..]);
          var k :| 0 <= k < |s[1..]| && s[1..][k] == rest[j];
          assert s[k + 1] == rest[j];
        }
      }
    }
  }

  /** Sorting keeps the names distinct. */
  lemma {:induction false} SortKeepsUnique(s: seq<Entry>)
    requires UniqueNames(s)
    ensures UniqueNames(SortByName(s))
  {
    if s != [] {
      SortKeepsUnique(s[1..]);
      SortByNamePermutes(s[1..]);
      SortByNameSorted(s[1..]);
      var r := SortByName(s[1..]);
      forall k | 0 <= k < |r| ensures r[k].name != s[0].name {
        assert r[k] in multiset(r);
        assert r[k] in multiset(s[1..]);
        var m :| 0 <= m < |s[1..]| && s[1..][m] == r[k];
        assert s[m + 1] == r[k];
      }
      InsertKeepsUnique(s[0], r);
    }
  }

  /** Not one of the two meta-entries readdir reports. */
  predicate IsVisible(name: string) {
    name != "." && name != ".."
  }

  /** The listing without "." and "..", order kept. */
  function Visible(s: seq<Entry>): seq<Entry>
  {
    if s == [] then []
    else
      if IsVisible(s[0].name) then [s[0]] + Visible(s[1..]) else Visible(s[1..])
  }

  /** The filter keeps exactly the entries whose name is not a dot entry. */
  lemma {:induction false} VisibleMembers(s: seq<Entry>)
    ensures forall e :: e in Visible(s) <==> e in s && IsVisible(e.name)
  {
    if s != [] {
      assert s == [s[0]] + s[1..];
      VisibleMembers(s[1..]);
    }
  }

  lemma {:induction false} VisibleKeepsUnique(s: seq<Entry>)
    requires UniqueNames(s)
    ensures UniqueNames(Visible(s))
  {
    if s != [] {
      VisibleKeepsUnique(s[1..]);
      VisibleMembers(s[1..]);
      var r := Visible(s[1..]);
      if IsVisible(s[0].name) {
        forall j | 0 <= j < |r| ensures s[0].name != r[j].name {
          assert r[j] in s[1..];
        }
      }
    }
  }

  /**
    What a snapshot of directory `n` holds once read: the entries of the
    listing other than "." and "..", in ascending name order. Empty if the
    directory cannot be opened.
   */
  function Listing(n: Node): seq<Entry>
  {
    match OpenDir(n)
    case None => []
    case Some(raw) => SortByName(Visible(raw))
  }

  /** A snapshot holds only visible entries of the directory itself, in
      ascending name order. */
  lemma ListingFacts(n: Node)
    ensures forall e :: e in Listing(n) ==>
      n.body.Directory? && n.body.readable && e in n.body.entries && IsVisible(e.name)
    ensures SortedByName(Listing(n))
  {
    if OpenDir(n).Some? {
      var raw := n.body.entries;
      VisibleMembers(raw);
      SortByNamePermutes(Visible(raw));
      SortByNameSorted(Visible(raw));
      forall e | e in Listing(n) ensures e in Visible(raw) {
        assert e in multiset(Listing(n));
      }
    }
  }

  /** With distinct names in the directory, a snapshot is strictly
      ascending: the order the merge-walk relies on. */
  lemma ListingStrictlySorted(n: Node)
    requires n.body.Directory? && UniqueNames(n.body.entries)
    ensures StrictlySorted(Listing(n))
  {
    ListingFacts(n);
    if n.body.readable {
      VisibleKeepsUnique(n.body.entries);
      SortKeepsUnique(Visible(n.body.entries));
      SortedUniqueIsStrict(Listing(n));
    }
  }
}
