/** The category and tag indexes of main.ts (`updateCategoriesAndTags`):
    each index is a list of entries; a referenced name either bumps the
    count of the first entry with that name or, when there is none, is
    appended as a new entry with count 1. The entry ids (`uuidv4`) are left
    out. */
module ContentIndex {
  import opened Wrappers
  import opened Seqs
  import opened Slugs

  /** Which index is updated: categories carry a description, tags do not. */
  datatype IndexKind = Categories | Tags

  datatype Entry = Entry(name: string, slug: string, description: Option<string>, count: nat)

  /** The description a new entry gets. */
  function DescriptionFor(kind: IndexKind, name: string): Option<string> {
    if kind == Categories then Some(name + " 相關的文章") else None
  }

  /** The entry appended for a name seen for the first time. */
  function NewEntry(kind: IndexKind, name: string): Entry {
    Entry(name, NameSlug(name), DescriptionFor(kind, name), 1)
  }

  /** The names of the entries, in index order. */
  function Names(es: seq<Entry>): (r: seq<string>)
    ensures |r| == |es|
    ensures forall i :: 0 <= i < |es| ==> r[i] == es[i].name
  {
    seq(|es|, i requires 0 <= i < |es| => es[i].name)
  }

  predicate HasName(es: seq<Entry>, name: string) {
    exists i :: 0 <= i < |es| && es[i].name == name
  }

  /** No two entries share a name. */
  predicate UniqueNames(es: seq<Entry>) {
    forall i, j :: 0 <= i < j < |es| ==> es[i].name != es[j].name
  }

  /** Same name, slug and description; the count may differ. */
  predicate SameKey(a: Entry, b: Entry) {
    a.name == b.name && a.slug == b.slug && a.description == b.description
  }

  /** The sum of the counts. */
  function Total(es: seq<Entry>): nat
    decreases |es|
  {
    if |es| == 0 then 0 else es[0].count + Total(es[1..])
  }

  lemma {:induction false} TotalAppend(es: seq<Entry>, e: Entry)
    ensures Total(es + [e]) == Total(es) + e.count
    decreases |es|
  {
    if |es| > 0 {
      assert (es + [e])[1..] == es[1..] + [e];
      TotalAppend(es[1..], e);
    }
  }

  lemma {:induction false} TotalUpdate(es: seq<Entry>, k: nat, e: Entry)
    requires k < |es|
    ensures Total(es[k := e]) + es[k].count == Total(es) + e.count
    decreases |es|
  {
    if k > 0 {
      assert es[k := e][1..] == es[1..][k - 1 := e];
      TotalUpdate(es[1..], k - 1, e);
    }
  }

  /** `Array.prototype.find` by name: the index of the first entry with the
      name, or `|es|` when there is none. */
  function FindEntry(es: seq<Entry>, name: string): (k: nat)
    ensures k <= |es|
    ensures k < |es| ==> es[k].name == name
    ensures forall j :: 0 <= j < k ==> es[j].name != name
    decreases |es|
  {
    if |es| == 0 then 0
    else if es[0].name == name then 0
    else 1 + FindEntry(es[1..], name)
  }

  /** One iteration of the update loop for one referenced name. */
  function Bump(es: seq<Entry>, kind: IndexKind, name: string): (r: seq<Entry>)
    ensures |r| == if HasName(es, name) then |es| else |es| + 1
    ensures HasName(r, name)
    ensures forall i :: 0 <= i < |es| ==> SameKey(r[i], es[i])
    ensures forall i :: 0 <= i < |es| && es[i].name != name ==> r[i] == es[i]
    ensures |r| > |es| ==> r[|es|] == NewEntry(kind, name)
    ensures Total(r) == Total(es) + 1
  {
    var k := FindEntry(es, name);
    if k < |es| then
      var e := es[k].(count := es[k].count + 1);
      TotalUpdate(es, k, e);
      var r := es[k := e];
      assert r[k].name == name;
      r
    else
      TotalAppend(es, NewEntry(kind, name));
      var r := es + [NewEntry(kind, name)];
      assert r[|es|].name == name;
      r
  }

  /** On an index without repeated names, the bump keeps the names unique
      and adds one to the count of exactly the entry with that name. */
  lemma BumpUnique(es: seq<Entry>, kind: IndexKind, name: string)
    requires UniqueNames(es)
    ensures UniqueNames(Bump(es, kind, name))
    ensures forall i :: 0 <= i < |es| ==>
      Bump(es, kind, name)[i].count == es[i].count + (if es[i].name == name then 1 else 0)
  {
    var k := FindEntry(es, name);
    var r := Bump(es, kind, name);
    if k < |es| {
      assert r == es[k := es[k].(count := es[k].count + 1)];
    } else {
      assert r == es + [NewEntry(kind, name)];
    }
  }

  /** The names of the index after a bump: the old ones and the bumped one. */
  lemma BumpNameSet(es: seq<Entry>, kind: IndexKind, name: string)
    ensures NameSet(Bump(es, kind, name)) == NameSet(es) + {name}
  {
    var r := Bump(es, kind, name);
    forall m | HasName(r, m) ensures HasName(es, m) || m == name {
      var i :| 0 <= i < |r| && r[i].name == m;
      if i < |es| {
        assert SameKey(r[i], es[i]);
      }
    }
    forall m | HasName(es, m) ensures HasName(r, m) {
      var i :| 0 <= i < |es| && es[i].name == m;
      assert SameKey(r[i], es[i]);
    }
  }

  /** `updateCategoriesAndTags` on one index: the names are taken in order,
      each looked up in the index as it stands after the previous ones. */
  function UpdateIndex(es: seq<Entry>, kind: IndexKind, names: seq<string>): (r: seq<Entry>)
    ensures |es| <= |r| <= |es| + |names|
    decreases |names|
  {
    if |names| == 0 then es else UpdateIndex(Bump(es, kind, names[0]), kind, names[1..])
  }

  /** The update never gives two entries the same name, even when a name is
      referenced twice in one call: the second lookup finds the entry the
      first one appended. */
  lemma {:induction false} UpdateKeepsUnique(es: seq<Entry>, kind: IndexKind, names: seq<string>)
    requires UniqueNames(es)
    ensures UniqueNames(UpdateIndex(es, kind, names))
    decreases |names|
  {
    if |names| > 0 {
      BumpUnique(es, kind, names[0]);
      UpdateKeepsUnique(Bump(es, kind, names[0]), kind, names[1..]);
    }
  }

  /** Each referenced name adds exactly one to the sum of the counts. */
  lemma {:induction false} UpdateTotal(es: seq<Entry>, kind: IndexKind, names: seq<string>)
    ensures Total(UpdateIndex(es, kind, names)) == Total(es) + |names|
    decreases |names|
  {
    if |names| > 0 {
      UpdateTotal(Bump(es, kind, names[0]), kind, names[1..]);
    }
  }

  /** Existing entries stay where they are, with their name, slug and
      description. */
  lemma {:induction false} UpdateKeepsKeys(es: seq<Entry>, kind: IndexKind, names: seq<string>)
    ensures forall i :: 0 <= i < |es| ==> SameKey(UpdateIndex(es, kind, names)[i], es[i])
    decreases |names|
  {
    if |names| > 0 {
      UpdateKeepsKeys(Bump(es, kind, names[0]), kind, names[1..]);
    }
  }

  /** An entry whose name is not referenced does not change at all. */
  lemma {:induction false} UpdateKeepsUnreferenced(es: seq<Entry>, kind: IndexKind, names: seq<string>, i: nat)
    requires i < |es| && es[i].name !in names
    ensures UpdateIndex(es, kind, names)[i] == es[i]
    decreases |names|
  {
    if |names| > 0 {
      assert es[i].name != names[0] && es[i].name !in names[1..];
      UpdateKeepsUnreferenced(Bump(es, kind, names[0]), kind, names[1..], i);
    }
  }

  /** Every referenced name is in the index afterwards. */
  lemma {:induction false} UpdateHasNames(es: seq<Entry>, kind: IndexKind, names: seq<string>, n: string)
    requires n in names || HasName(es, n)
    ensures HasName(UpdateIndex(es, kind, names), n)
    decreases |names|
  {
    if |names| > 0 {
      var next := Bump(es, kind, names[0]);
      BumpNameSet(es, kind, names[0]);
      assert n in names[1..] || HasName(next, n) by {
        if n !in names[1..] && n != names[0] {
          assert HasName(es, n);
          assert n in NameSet(es);
        }
        if n == names[0] {
          assert n in NameSet(next);
        }
      }
      UpdateHasNames(next, kind, names[1..], n);
    }
  }

  /** The set of names in the index. */
  function NameSet(es: seq<Entry>): (r: set<string>)
    ensures forall n :: n in r <==> HasName(es, n)
  {
    set i | 0 <= i < |es| :: es[i].name
  }

  lemma NamesFrom(es: seq<Entry>, k: nat)
    requires k < |es|
    ensures Names(es)[k..] == [es[k].name] + Names(es)[k + 1..]
  {
  }

  /** One step of the update loop. */
  lemma UpdateStep(es: seq<Entry>, kind: IndexKind, names: seq<string>)
    requires |names| > 0
    ensures UpdateIndex(es, kind, names) == UpdateIndex(Bump(es, kind, names[0]), kind, names[1..])
  {
  }

  lemma DistinctFromStep(names: seq<string>, seen: set<string>)
    requires |names| > 0
    ensures DistinctFrom(names, seen) == if names[0] in seen then DistinctFrom(names[1..], seen)
      else [names[0]] + DistinctFrom(names[1..], seen + {names[0]})
  {
  }

  /** The appended entries are the referenced names that were not in the
      index, each once, in the order of their first reference. */
  lemma {:induction false} UpdateAppends(es: seq<Entry>, kind: IndexKind, names: seq<string>)
    ensures Names(UpdateIndex(es, kind, names))[|es|..] == DistinctFrom(names, NameSet(es))
    decreases |names|
  {
    if |names| == 0 {
      assert Names(es)[|es|..] == [];
    } else {
      var n := names[0];
      var next := Bump(es, kind, n);
      var r := UpdateIndex(es, kind, names);
      UpdateStep(es, kind, names);
      UpdateAppends(next, kind, names[1..]);
      BumpNameSet(es, kind, n);
      DistinctFromStep(names, NameSet(es));
      if n in NameSet(es) {
        assert NameSet(next) == NameSet(es);
        assert |next| == |es|;
      } else {
        UpdateKeepsKeys(next, kind, names[1..]);
        assert r[|es|].name == n by {
          assert SameKey(r[|es|], next[|es|]);
        }
        NamesFrom(r, |es|);
      }
    }
  }

  /** Every appended entry carries the slug and description a new entry of
      its name gets. */
  lemma {:induction false} UpdateNewKeys(es: seq<Entry>, kind: IndexKind, names: seq<string>, i: nat)
    requires |es| <= i < |UpdateIndex(es, kind, names)|
    ensures SameKey(UpdateIndex(es, kind, names)[i], NewEntry(kind, UpdateIndex(es, kind, names)[i].name))
    decreases |names|
  {
    var next := Bump(es, kind, names[0]);
    if i < |next| {
      UpdateKeepsKeys(next, kind, names[1..]);
    } else {
      UpdateNewKeys(next, kind, names[1..], i);
    }
  }

  /** On an index without repeated names, each entry's count afterwards is
      its count before (0 for an appended entry) plus the number of times
      its name was referenced. */
  lemma {:induction false} UpdateCount(es: seq<Entry>, kind: IndexKind, names: seq<string>, i: nat)
    requires UniqueNames(es)
    requires i < |UpdateIndex(es, kind, names)|
    ensures UpdateIndex(es, kind, names)[i].count ==
      (if i < |es| then es[i].count else 0) + multiset(names)[UpdateIndex(es, kind, names)[i].name]
    decreases |names|
  {
    if |names| > 0 {
      var n := names[0];
      var next := Bump(es, kind, n);
      var r := UpdateIndex(es, kind, names);
      UpdateStep(es, kind, names);
      BumpUnique(es, kind, n);
      UpdateCount(next, kind, names[1..], i);
      MultisetCons(names, r[i].name);
      BumpedCount(es, kind, names, i);
    }
  }

  lemma MultisetCons(names: seq<string>, x: string)
    requires |names| > 0
    ensures multiset(names)[x] == multiset(names[1..])[x] + (if x == names[0] then 1 else 0)
  {
    assert names == [names[0]] + names[1..];
  }

  /** What the first bump does to the count at position `i`, seen from the
      name that ends up there. */
  lemma BumpedCount(es: seq<Entry>, kind: IndexKind, names: seq<string>, i: nat)
    requires UniqueNames(es) && |names| > 0
    requires i < |UpdateIndex(Bump(es, kind, names[0]), kind, names[1..])|
    ensures var next := Bump(es, kind, names[0]);
      var r := UpdateIndex(next, kind, names[1..]);
      (if i < |next| then next[i].count else 0)
      == (if i < |es| then es[i].count else 0) + (if r[i].name == names[0] then 1 else 0)
  {
    var n := names[0];
    var next := Bump(es, kind, n);
    var r := UpdateIndex(next, kind, names[1..]);
    BumpUnique(es, kind, n);
    UpdateKeepsKeys(next, kind, names[1..]);
    if i < |next| {
      assert SameKey(r[i], next[i]);
    } else {
      var j :| 0 <= j < |next| && next[j].name == n;
      assert SameKey(r[j], next[j]);
      UpdateKeepsUnique(next, kind, names[1..]);
    }
  }

  /** A name referenced twice in one call on an index without it gives one
      entry with count 2, not two entries. */
  lemma RepeatedNameCountsTwice(kind: IndexKind, n: string)
    ensures UpdateIndex([], kind, [n, n]) == [NewEntry(kind, n).(count := 2)]
  {
    var names := [n, n];
    var once := Bump([], kind, n);
    assert |once| == 1 && once[0] == NewEntry(kind, n);
    var twice := Bump(once, kind, n);
    assert FindEntry(once, n) == 0;
    assert twice == once[0 := once[0].(count := 2)];
    assert names[1..] == [n];
    assert UpdateIndex(once, kind, [n]) == UpdateIndex(twice, kind, []);
  }

}
