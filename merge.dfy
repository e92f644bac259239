/**
  The sorted merge at the heart of compare_directories (ftreecmp.c:95-130):
  two name-sorted snapshots, one cursor each, and at every step one of
  three decisions. `Merge` lists the decisions in the order the loop makes
  them; what each decision then does is the business of TreeSpec.
 */
module MergeWalk {
  import opened FileSystem
  import opened Names

  /** One step of the walk: an entry only the old snapshot has, one only the
      new snapshot has, or a pair with the same name. */
  datatype Action =
    | Removed(e: Entry)
    | Added(e: Entry)
    | Matched(before: Entry, after: Entry)

  function NameOf(a: Action): string {
    match a
    case Removed(e) => e.name
    case Added(e) => e.name
    case Matched(o, _) => o.name
  }

  /** Some entry of `s` is called `name`. */
  predicate HasName(s: seq<Entry>, name: string) {
    exists k :: 0 <= k < |s| && s[k].name == name
  }

  /**
    The decisions of the loop, in order. An exhausted old side reports the
    rest of the new side as added (ftreecmp.c:101-107), an exhausted new side
    the rest of the old side as removed (109-115); otherwise strcmp decides
    (117-129). Every step consumes at least one entry.
   */
  function Merge(os: seq<Entry>, ns: seq<Entry>): seq<Action>
    decreases |os| + |ns|
  {
    if os == [] then
      if ns == [] then [] else [Added(ns[0])] + Merge(os, ns[1..])
    else if ns == [] then
      [Removed(os[0])] + Merge(os[1..], ns)
    else
      var rv := Strcmp(os[0].name, ns[0].name);
      if rv < 0 then [Removed(os[0])] + Merge(os[1..], ns)
      else if rv > 0 then [Added(ns[0])] + Merge(os, ns[1..])
      else
        StrcmpZeroIffEqual(os[0].name, ns[0].name);
        [Matched(os[0], ns[0])] + Merge(os[1..], ns[1..])
  }

  /** Each step consumes at least one entry; a removed entry comes from the
      old snapshot, an added one from the new, and a compared pair is one
      entry of each with the same name. */
  lemma {:induction false} MergeProvenance(os: seq<Entry>, ns: seq<Entry>)
    ensures |Merge(os, ns)| <= |os| + |ns|
    ensures forall a :: a in Merge(os, ns) && a.Removed? ==> a.e in os
    ensures forall a :: a in Merge(os, ns) && a.Added? ==> a.e in ns
    ensures forall a :: a in Merge(os, ns) && a.Matched? ==>
      a.before in os && a.after in ns && a.before.name == a.after.name
    decreases |os| + |ns|
  {
    if os == [] && ns == [] {
    } else if os == [] || (ns != [] && Strcmp(os[0].name, ns[0].name) > 0) {
      assert Merge(os, ns) == [Added(ns[0])] + Merge(os, ns[1..]);
      MergeProvenance(os, ns[1..]);
    } else if ns == [] || Strcmp(os[0].name, ns[0].name) < 0 {
      assert Merge(os, ns) == [Removed(os[0])] + Merge(os[1..], ns);
      MergeProvenance(os[1..], ns);
    } else {
      StrcmpZeroIffEqual(os[0].name, ns[0].name);
      assert Merge(os, ns) == [Matched(os[0], ns[0])] + Merge(os[1..], ns[1..]);
      MergeProvenance(os[1..], ns[1..]);
    }
  }

  /** The entries of the old snapshot the decisions consume, in order. */
  function OldSide(acts: seq<Action>): seq<Entry> {
    if acts == [] then []
    else
      match acts[0]
      case Removed(e) => [e] + OldSide(acts[1..])
      case Added(_) => OldSide(acts[1..])
      case Matched(o, _) => [o] + OldSide(acts[1..])
  }

  /** The entries of the new snapshot the decisions consume, in order. */
  function NewSide(acts: seq<Action>): seq<Entry> {
    if acts == [] then []
    else
      match acts[0]
      case Removed(_) => NewSide(acts[1..])
      case Added(e) => [e] + NewSide(acts[1..])
      case Matched(_, n) => [n] + NewSide(acts[1..])
  }

  /**
    The walk consumes each snapshot exactly once and in its own order:
    every old entry is removed or matched by exactly one decision, every
    new entry added or matched by exactly one, sorted input or not.
   */
  lemma {:induction false} MergeConsumesAll(os: seq<Entry>, ns: seq<Entry>)
    ensures OldSide(Merge(os, ns)) == os
    ensures NewSide(Merge(os, ns)) == ns
    decreases |os| + |ns|
  {
    var m := Merge(os, ns);
    if os == [] && ns == [] {
    } else if os == [] || (ns != [] && Strcmp(os[0].name, ns[0].name) > 0) {
      MergeConsumesAll(os, ns[1..]);
      assert m[1..] == Merge(os, ns[1..]);
      assert ns == [ns[0]] + ns[1..];
    } else if ns == [] || Strcmp(os[0].name, ns[0].name) < 0 {
      MergeConsumesAll(os[1..], ns);
      assert m[1..] == Merge(os[1..], ns);
      assert os == [os[0]] + os[1..];
    } else {
      MergeConsumesAll(os[1..], ns[1..]);
      assert m[1..] == Merge(os[1..], ns[1..]);
      assert os == [os[0]] + os[1..];
      assert ns == [ns[0]] + ns[1..];
    }
  }

  /** Every decision concerns a name of one of the two inputs. */
  lemma MergeNamesFromInputs(os: seq<Entry>, ns: seq<Entry>, x: string)
    requires forall e :: e in os ==> Strcmp(x, e.name) < 0
    requires forall e :: e in ns ==> Strcmp(x, e.name) < 0
    ensures forall a :: a in Merge(os, ns) ==> Strcmp(x, NameOf(a)) < 0
  {
    MergeProvenance(os, ns);
  }

  lemma StrictTail(s: seq<Entry>)
    requires StrictlySorted(s) && s != []
    ensures StrictlySorted(s[1..])
    ensures forall e :: e in s[1..] ==> Strcmp(s[0].name, e.name) < 0
  {
  }

  lemma StrictAbove(x: string, s: seq<Entry>)
    requires StrictlySorted(s) && s != [] && Strcmp(x, s[0].name) < 0
    ensures forall e :: e in s ==> Strcmp(x, e.name) < 0
  {
    forall e | e in s ensures Strcmp(x, e.name) < 0 {
      var k :| 0 <= k < |s| && s[k] == e;
      if k > 0 {
        StrcmpTransitive(x, s[0].name, e.name);
      }
    }
  }

  /**
    The walk visits names in strictly ascending strcmp order, so no name is
    handled twice (ftreecmp.c:95-130).
   */
  lemma {:induction false} MergeAscending(os: seq<Entry>, ns: seq<Entry>)
    requires StrictlySorted(os) && StrictlySorted(ns)
    ensures Ascending(Merge(os, ns))
    decreases |os| + |ns|
  {
    if os == [] && ns == [] {
    } else if os == [] || (ns != [] && Strcmp(os[0].name, ns[0].name) > 0) {
      StrictTail(ns);
      MergeAscending(os, ns[1..]);
      if os != [] {
        StrcmpAntisymmetric(ns[0].name, os[0].name);
        StrictAbove(ns[0].name, os);
      }
      MergeNamesFromInputs(os, ns[1..], ns[0].name);
      AscendingCons(Added(ns[0]), Merge(os, ns[1..]));
    } else if ns == [] || Strcmp(os[0].name, ns[0].name) < 0 {
      StrictTail(os);
      MergeAscending(os[1..], ns);
      if ns != [] {
        StrictAbove(os[0].name, ns);
      }
      MergeNamesFromInputs(os[1..], ns, os[0].name);
      AscendingCons(Removed(os[0]), Merge(os[1..], ns));
    } else {
      StrictTail(os);
      StrictTail(ns);
      StrcmpZeroIffEqual(os[0].name, ns[0].name);
      MergeAscending(os[1..], ns[1..]);
      MergeNamesFromInputs(os[1..], ns[1..], os[0].name);
      AscendingCons(Matched(os[0], ns[0]), Merge(os[1..], ns[1..]));
    }
  }

  predicate Ascending(r: seq<Action>) {
    forall i, j :: 0 <= i < j < |r| ==> Strcmp(NameOf(r[i]), NameOf(r[j])) < 0
  }

  lemma AscendingCons(a: Action, rest: seq<Action>)
    requires Ascending(rest)
    requires forall b :: b in rest ==> Strcmp(NameOf(a), NameOf(b)) < 0
    ensures Ascending([a] + rest)
  {
    var r := [a] + rest;
    forall i, j | 0 <= i < j < |r| ensures Strcmp(NameOf(r[i]), NameOf(r[j])) < 0 {
      if i == 0 {
        assert r[j] == rest[j - 1];
      } else {
        assert r[i] == rest[i - 1] && r[j] == rest[j - 1];
      }
    }
  }

  /**
    What happens to each entry: an old entry is reported removed exactly
    when the new snapshot has no entry of that name, a new entry added
    exactly when the old snapshot has none, and two entries are compared
    exactly when they share a name (ftreecmp.c:101-129).
   */
  lemma MergeClassifies(os: seq<Entry>, ns: seq<Entry>)
    requires StrictlySorted(os) && StrictlySorted(ns)
    ensures forall e :: Removed(e) in Merge(os, ns) <==> e in os && !HasName(ns, e.name)
    ensures forall e :: Added(e) in Merge(os, ns) <==> e in ns && !HasName(os, e.name)
    ensures forall a, b :: Matched(a, b) in Merge(os, ns) <==> a in os && b in ns && a.name == b.name
  {
    MergeRemoved(os, ns);
    MergeAdded(os, ns);
    MergeMatched(os, ns);
  }

  lemma MergeRemoved(os: seq<Entry>, ns: seq<Entry>)
    requires StrictlySorted(os) && StrictlySorted(ns)
    ensures forall e :: Removed(e) in Merge(os, ns) <==> e in os && !HasName(ns, e.name)
  {
    forall e ensures Removed(e) in Merge(os, ns) <==> e in os && !HasName(ns, e.name) {
      RemovedAt(os, ns, e);
    }
  }

  lemma MergeAdded(os: seq<Entry>, ns: seq<Entry>)
    requires StrictlySorted(os) && StrictlySorted(ns)
    ensures forall e :: Added(e) in Merge(os, ns) <==> e in ns && !HasName(os, e.name)
  {
    forall e ensures Added(e) in Merge(os, ns) <==> e in ns && !HasName(os, e.name) {
      AddedAt(os, ns, e);
    }
  }

  lemma MergeMatched(os: seq<Entry>, ns: seq<Entry>)
    requires StrictlySorted(os) && StrictlySorted(ns)
    ensures forall a, b :: Matched(a, b) in Merge(os, ns) <==> a in os && b in ns && a.name == b.name
  {
    forall a, b ensures Matched(a, b) in Merge(os, ns) <==> a in os && b in ns && a.name == b.name {
      MatchedAt(os, ns, a, b);
    }
  }

  lemma {:induction false} RemovedAt(os: seq<Entry>, ns: seq<Entry>, e: Entry)
    requires StrictlySorted(os) && StrictlySorted(ns)
    ensures Removed(e) in Merge(os, ns) <==> e in os && !HasName(ns, e.name)
    decreases |os| + |ns|
  {
    if os == [] && ns == [] {
    } else if os == [] || (ns != [] && Strcmp(os[0].name, ns[0].name) > 0) {
      assert Merge(os, ns) == [Added(ns[0])] + Merge(os, ns[1..]);
      StrictTail(ns);
      RemovedAt(os, ns[1..], e);
      HasNameCons(ns, e.name);
      if e in os {
        StrcmpAntisymmetric(ns[0].name, os[0].name);
        StrictAbove(ns[0].name, os);
        StrcmpZeroIffEqual(ns[0].name, e.name);
      }
    } else if ns == [] || Strcmp(os[0].name, ns[0].name) < 0 {
      assert Merge(os, ns) == [Removed(os[0])] + Merge(os[1..], ns);
      StrictTail(os);
      RemovedAt(os[1..], ns, e);
      assert os == [os[0]] + os[1..];
      if ns != [] {
        StrictAbove(os[0].name, ns);
      }
      NameAbsent(os[0].name, ns);
    } else {
      StrictTail(os);
      StrictTail(ns);
      StrcmpZeroIffEqual(os[0].name, ns[0].name);
      assert Merge(os, ns) == [Matched(os[0], ns[0])] + Merge(os[1..], ns[1..]);
      RemovedAt(os[1..], ns[1..], e);
      assert os == [os[0]] + os[1..];
      HasNameCons(ns, e.name);
      if e in os[1..] {
        StrcmpZeroIffEqual(os[0].name, e.name);
      }
      assert ns[0].name == os[0].name;
    }
  }

  lemma {:induction false} AddedAt(os: seq<Entry>, ns: seq<Entry>, e: Entry)
    requires StrictlySorted(os) && StrictlySorted(ns)
    ensures Added(e) in Merge(os, ns) <==> e in ns && !HasName(os, e.name)
    decreases |os| + |ns|
  {
    if os == [] && ns == [] {
    } else if os == [] || (ns != [] && Strcmp(os[0].name, ns[0].name) > 0) {
      assert Merge(os, ns) == [Added(ns[0])] + Merge(os, ns[1..]);
      StrictTail(ns);
      AddedAt(os, ns[1..], e);
      assert ns == [ns[0]] + ns[1..];
      if os != [] {
        StrcmpAntisymmetric(ns[0].name, os[0].name);
        StrictAbove(ns[0].name, os);
      }
      NameAbsent(ns[0].name, os);
    } else if ns == [] || Strcmp(os[0].name, ns[0].name) < 0 {
      assert Merge(os, ns) == [Removed(os[0])] + Merge(os[1..], ns);
      StrictTail(os);
      AddedAt(os[1..], ns, e);
      HasNameCons(os, e.name);
      if e in ns {
        StrictAbove(os[0].name, ns);
        StrcmpZeroIffEqual(os[0].name, e.name);
      }
    } else {
      StrictTail(os);
      StrictTail(ns);
      StrcmpZeroIffEqual(os[0].name, ns[0].name);
      assert Merge(os, ns) == [Matched(os[0], ns[0])] + Merge(os[1..], ns[1..]);
      AddedAt(os[1..], ns[1..], e);
      assert ns == [ns[0]] + ns[1..];
      HasNameCons(os, e.name);
      if e in ns[1..] {
        StrcmpZeroIffEqual(ns[0].name, e.name);
      }
      assert os[0].name == ns[0].name;
    }
  }

  lemma {:induction false} MatchedAt(os: seq<Entry>, ns: seq<Entry>, a: Entry, b: Entry)
    requires StrictlySorted(os) && StrictlySorted(ns)
    ensures Matched(a, b) in Merge(os, ns) <==> a in os && b in ns && a.name == b.name
    decreases |os| + |ns|
  {
    if os == [] && ns == [] {
    } else if os == [] || (ns != [] && Strcmp(os[0].name, ns[0].name) > 0) {
      assert Merge(os, ns) == [Added(ns[0])] + Merge(os, ns[1..]);
      StrictTail(ns);
      MatchedAt(os, ns[1..], a, b);
      assert ns == [ns[0]] + ns[1..];
      if a in os {
        StrcmpAntisymmetric(ns[0].name, os[0].name);
        StrictAbove(ns[0].name, os);
        StrcmpZeroIffEqual(ns[0].name, a.name);
      }
    } else if ns == [] || Strcmp(os[0].name, ns[0].name) < 0 {
      assert Merge(os, ns) == [Removed(os[0])] + Merge(os[1..], ns);
      StrictTail(os);
      MatchedAt(os[1..], ns, a, b);
      assert os == [os[0]] + os[1..];
      if b in ns {
        StrictAbove(os[0].name, ns);
        StrcmpZeroIffEqual(os[0].name, b.name);
      }
    } else {
      StrictTail(os);
      StrictTail(ns);
      StrcmpZeroIffEqual(os[0].name, ns[0].name);
      assert Merge(os, ns) == [Matched(os[0], ns[0])] + Merge(os[1..], ns[1..]);
      MatchedAt(os[1..], ns[1..], a, b);
      assert os == [os[0]] + os[1..];
      assert ns == [ns[0]] + ns[1..];
      if b in ns[1..] {
        StrcmpZeroIffEqual(ns[0].name, b.name);
      }
      if a in os[1..] {
        StrcmpZeroIffEqual(os[0].name, a.name);
      }
    }
  }

  lemma HasNameCons(s: seq<Entry>, x: string)
    requires s != []
    ensures HasName(s, x) <==> x == s[0].name || HasName(s[1..], x)
  {
    if HasName(s, x) && x != s[0].name {
      var k :| 0 <= k < |s| && s[k].name == x;
      assert s[1..][k - 1].name == x;
    }
    if HasName(s[1..], x) {
      var k :| 0 <= k < |s[1..]| && s[1..][k].name == x;
      assert s[k + 1].name == x;
    }
  }

  lemma NameAbsent(x: string, s: seq<Entry>)
    requires forall e :: e in s ==> Strcmp(x, e.name) < 0
    ensures !HasName(s, x)
  {
    if HasName(s, x) {
      var k :| 0 <= k < |s| && s[k].name == x;
      assert s[k] in s;
      StrcmpZeroIffEqual(x, x);
    }
  }
}
