/**
 * The append-only registry of src/registry.rs.
 *
 * A registry holds a dense list of entries, each an optional name and a value,
 * and an index from every registered name to its handle. A handle is the
 * position of its entry in the list: the handle type's `from_index` and
 * `to_index` are taken to be the identity on `nat`.
 */
module Registries {
  import opened Wrappers
  import opened Names

  /** A handle: the index of an entry. */
  type Handle = nat

  /** One element of `entries`: an optional name and a value. */
  type Entry<V> = (Option<Name>, V)

  /**
   * The representation invariant linking the entry list and the name index:
   * every indexed name leads to an in-range entry that carries it, and every
   * named entry is indexed under its name at its own position.
   */
  ghost predicate IndexConsistent<V>(entries: seq<Entry<V>>, index: map<Name, Handle>) {
    && (forall n :: n in index ==> index[n] < |entries| && entries[index[n]].0 == Some(n))
    && (forall i :: 0 <= i < |entries| && entries[i].0.Some? ==>
          entries[i].0.value in index && index[entries[i].0.value] == i)
  }

  /** Every name an entry carries is one `Name::new` could have built. */
  ghost predicate NamesValid<V>(entries: seq<Entry<V>>) {
    forall i :: 0 <= i < |entries| && entries[i].0.Some? ==> entries[i].0.value.Valid()
  }

  /** No two entries carry the same name. */
  ghost predicate UniqueNames<V>(entries: seq<Entry<V>>) {
    forall i, j :: 0 <= i < j < |entries| && entries[i].0.Some? ==> entries[i].0 != entries[j].0
  }

  /**
   * The index `from_entries` builds: it visits the entries in order and
   * indexes each named one at its position, a later `insert` overwriting an
   * earlier one.
   */
  function NameIndex<V>(entries: seq<Entry<V>>): (index: map<Name, Handle>)
    ensures forall n :: n in index ==> index[n] < |entries|
  {
    if entries == [] then map[]
    else
      var last := |entries| - 1;
      match entries[last].0
      case None => NameIndex(entries[..last])
      case Some(n) => NameIndex(entries[..last])[n := last]
  }

  /** Every name `from_entries` indexes leads to an entry carrying it. */
  lemma {:induction false} NameIndexSound<V>(entries: seq<Entry<V>>)
    ensures forall n :: n in NameIndex(entries) ==>
      NameIndex(entries)[n] < |entries| && entries[NameIndex(entries)[n]].0 == Some(n)
  {
    if entries != [] {
      var last := |entries| - 1;
      var prefix := entries[..last];
      var earlier := NameIndex(prefix);
      NameIndexSound(prefix);
      forall n | n in NameIndex(entries) && entries[last].0 != Some(n)
        ensures NameIndex(entries)[n] < |entries| && entries[NameIndex(entries)[n]].0 == Some(n)
      {
        assert entries[earlier[n]] == prefix[earlier[n]];
      }
    }
  }

  /** The position `from_entries` indexes a name at is the last one carrying it. */
  lemma {:induction false} NameIndexLast<V>(entries: seq<Entry<V>>)
    ensures forall n, j :: n in NameIndex(entries) && NameIndex(entries)[n] < j < |entries| ==>
      entries[j].0 != Some(n)
  {
    if entries != [] {
      var last := |entries| - 1;
      var prefix := entries[..last];
      var earlier := NameIndex(prefix);
      NameIndexLast(prefix);
      forall n, j | n in NameIndex(entries) && NameIndex(entries)[n] < j < |entries|
        ensures entries[j].0 != Some(n)
      {
        if j < last {
          assert entries[j] == prefix[j];
        }
      }
    }
  }

  /**
   * `from_entries` indexes every name present in the entries, at or after
   * each position carrying it.
   */
  lemma {:induction false} NameIndexComplete<V>(entries: seq<Entry<V>>)
    ensures forall i :: 0 <= i < |entries| && entries[i].0.Some? ==>
      entries[i].0.value in NameIndex(entries) && i <= NameIndex(entries)[entries[i].0.value]
  {
    if entries != [] {
      var last := |entries| - 1;
      var prefix := entries[..last];
      var index := NameIndex(entries);
      NameIndexComplete(prefix);
      forall i | 0 <= i < |entries| && entries[i].0.Some?
        ensures entries[i].0.value in index && i <= index[entries[i].0.value]
      {
        if i < last {
          assert entries[i] == prefix[i];
        }
      }
    }
  }

  /**
   * `iter`: the entries in order, each paired with its handle, starting from
   * handle `first`.
   */
  function Enumerate<V>(entries: seq<Entry<V>>, first: Handle): (items: seq<(Handle, Option<Name>, V)>)
    ensures |items| == |entries|
    ensures forall i :: 0 <= i < |items| ==>
      items[i] == (first + i, entries[i].0, entries[i].1)
  {
    if entries == [] then []
    else [(first, entries[0].0, entries[0].1)] + Enumerate(entries[1..], first + 1)
  }

  /** The invariant forbids two entries with the same name. */
  lemma ConsistentNamesUnique<V>(entries: seq<Entry<V>>, index: map<Name, Handle>)
    requires IndexConsistent(entries, index)
    ensures UniqueNames(entries)
  {
    forall i, j | 0 <= i < j < |entries| && entries[i].0.Some?
      ensures entries[i].0 != entries[j].0
    {
      assert index[entries[i].0.value] == i;
    }
  }

  /** `from_entries` produces a consistent registry exactly when the input has no repeated name. */
  lemma NameIndexConsistentIff<V>(entries: seq<Entry<V>>)
    ensures IndexConsistent(entries, NameIndex(entries)) <==> UniqueNames(entries)
  {
    var index := NameIndex(entries);
    NameIndexSound(entries);
    NameIndexLast(entries);
    NameIndexComplete(entries);
    if IndexConsistent(entries, index) {
      ConsistentNamesUnique(entries, index);
    }
  }

  /** Appending an entry under a name not yet indexed, and indexing it, keeps the invariant. */
  lemma AppendNamedConsistent<V>(entries: seq<Entry<V>>, index: map<Name, Handle>, name: Name, value: V)
    requires IndexConsistent(entries, index)
    requires name !in index
    ensures IndexConsistent(entries + [(Some(name), value)], index[name := |entries|])
  {
    var entries' := entries + [(Some(name), value)];
    assert forall i :: 0 <= i < |entries| ==> entries'[i] == entries[i];
  }

  /** Appending an anonymous entry keeps the invariant with the index unchanged. */
  lemma AppendAnonymousConsistent<V>(entries: seq<Entry<V>>, index: map<Name, Handle>, value: V)
    requires IndexConsistent(entries, index)
    ensures IndexConsistent(entries + [(None, value)], index)
  {
    var entries' := entries + [(None, value)];
    assert forall i :: 0 <= i < |entries| ==> entries'[i] == entries[i];
  }

  /** `Registry<K, V>` with `K` the handle type. */
  class Registry<V> {
    var nameToId: map<Name, Handle>
    var entries: seq<Entry<V>>

    ghost predicate Valid()
      reads this
    {
      IndexConsistent(entries, nameToId) && NamesValid(entries)
    }

    /** `new`: an empty registry. */
    constructor ()
      ensures Valid()
      ensures entries == [] && nameToId == map[]
    {
      nameToId := map[];
      entries := [];
    }

    /**
     * `from_entries`: keeps `es` as the entry list and indexes each named
     * entry by its position; repeated names are not checked.
     */
    constructor FromEntries(es: seq<(Option<ValidName>, V)>)
      ensures entries == es
      ensures nameToId == NameIndex(es)
      ensures Valid() <==> UniqueNames(es)
    {
      var index: map<Name, Handle> := map[];
      for i := 0 to |es|
        invariant index == NameIndex(es[..i])
      {
        assert es[..i + 1][..i] == es[..i];
        match es[i].0 {
          case Some(n) => index := index[n := i];
          case None =>
        }
      }
      assert es[..|es|] == es;
      NameIndexConsistentIff(es);
      nameToId := index;
      entries := es;
    }

    /** `contains`: whether a name is indexed, that is, whether some entry carries it. */
    function Contains(name: ValidName): (r: bool)
      reads this
      ensures Valid() ==> (r <==> exists i :: 0 <= i < |entries| && entries[i].0 == Some(name))
    {
      name in nameToId
    }

    /** `find`: the handle of the entry carrying a name, if any. */
    function Find(name: ValidName): (r: Option<Handle>)
      reads this
      ensures r.Some? <==> Contains(name)
      ensures Valid() && r.Some? ==> r.value < |entries| && entries[r.value].0 == Some(name)
      ensures Valid() && r.None? ==> forall i :: 0 <= i < |entries| ==> entries[i].0 != Some(name)
    {
      if name in nameToId then Some(nameToId[name]) else None
    }

    /** `get`: the value at a handle; an out-of-range handle panics, so it is excluded. */
    function Get(id: Handle): (v: V)
      reads this
      requires id < |entries|
      ensures entries[id] == (GetName(id), v)
    {
      entries[id].1
    }

    /** `get_name`: the name at a handle, absent out of range and for an anonymous entry. */
    function GetName(id: Handle): (r: Option<Name>)
      reads this
      ensures r.None? <==> id >= |entries| || entries[id].0.None?
      ensures r.Some? ==> entries[id].0 == r
      ensures Valid() && r.Some? ==> r.value.Valid() && Find(r.value) == Some(id)
    {
      if id < |entries| then entries[id].0 else None
    }

    /** `iter`: every handle in order, with its name and value. */
    function Iter(): (items: seq<(Handle, Option<Name>, V)>)
      reads this
      ensures |items| == |entries|
      ensures forall i :: 0 <= i < |items| ==>
        items[i].0 == i && items[i].1 == GetName(i) && items[i].2 == Get(i)
    {
      Enumerate(entries, 0)
    }

    /** `entries`: the entry list, which agrees with what `iter` yields. */
    function Entries(): (r: seq<Entry<V>>)
      reads this
      ensures |r| == |Iter()|
      ensures forall i :: 0 <= i < |r| ==> r[i] == (Iter()[i].1, Iter()[i].2)
    {
      entries
    }

    /** `add_with`: append an entry whose value `init` builds from the new handle. */
    method AddWith(name: Option<Name>, init: Handle -> V) returns (id: Handle)
      modifies this
      ensures id == old(|entries|)
      ensures entries == old(entries) + [(name, init(id))]
      ensures nameToId == old(nameToId)
    {
      id := |entries|;
      entries := entries + [(name, init(id))];
    }

    /**
     * `add_named_with`: refuse a name already indexed, handing it back and
     * changing nothing; otherwise append and index the entry.
     */
    method AddNamedWith(name: ValidName, init: Handle -> V) returns (r: Result<Handle, ValidName>)
      modifies this
      ensures old(Valid()) ==> Valid()
      ensures old(Contains(name)) ==>
        r == Err(name) && entries == old(entries) && nameToId == old(nameToId)
      ensures !old(Contains(name)) ==>
        && r == Ok(old(|entries|))
        && entries == old(entries) + [(Some(name), init(r.value))]
        && nameToId == old(nameToId)[name := r.value]
      ensures r.Ok? ==>
        && Contains(name)
        && Find(name) == Some(r.value)
        && GetName(r.value) == Some(name)
        && Get(r.value) == init(r.value)
      ensures forall other :: other != name ==> Find(other) == old(Find(other))
    {
      if name in nameToId {
        return Err(name);
      }
      ghost var entries0, index0 := entries, nameToId;
      var id := AddWith(Some(name), init);
      nameToId := nameToId[name := id];
      if IndexConsistent(entries0, index0) {
        AppendNamedConsistent(entries0, index0, name, init(id));
      }
      r := Ok(id);
    }

    /** `add_named`: `add_named_with` with an initialiser that ignores the handle. */
    method AddNamed(name: ValidName, value: V) returns (r: Result<Handle, ValidName>)
      modifies this
      ensures old(Valid()) ==> Valid()
      ensures old(Contains(name)) ==>
        r == Err(name) && entries == old(entries) && nameToId == old(nameToId)
      ensures !old(Contains(name)) ==>
        && r == Ok(old(|entries|))
        && entries == old(entries) + [(Some(name), value)]
        && nameToId == old(nameToId)[name := r.value]
      ensures r.Ok? ==> Find(name) == Some(r.value) && GetName(r.value) == Some(name) && Get(r.value) == value
    {
      r := AddNamedWith(name, _ => value);
    }

    /** `add_anonymous_with`: append an unnamed entry; the name index is untouched. */
    method AddAnonymousWith(init: Handle -> V) returns (id: Handle)
      modifies this
      ensures old(Valid()) ==> Valid()
      ensures id == old(|entries|)
      ensures entries == old(entries) + [(None, init(id))]
      ensures nameToId == old(nameToId)
      ensures GetName(id) == None && Get(id) == init(id)
      ensures forall n :: Contains(n) == old(Contains(n)) && Find(n) == old(Find(n))
    {
      ghost var entries0 := entries;
      id := AddWith(None, init);
      if IndexConsistent(entries0, nameToId) {
        AppendAnonymousConsistent(entries0, nameToId, init(id));
      }
    }

    /** `add_anonymous`: `add_anonymous_with` with an initialiser that ignores the handle. */
    method AddAnonymous(value: V) returns (id: Handle)
      modifies this
      ensures old(Valid()) ==> Valid()
      ensures id == old(|entries|)
      ensures entries == old(entries) + [(None, value)]
      ensures nameToId == old(nameToId)
      ensures GetName(id) == None && Get(id) == value
    {
      id := AddAnonymousWith(_ => value);
    }
  }

  /**
   * The registry test of src/lib.rs: an anonymous `true` gets handle 0 and
   * `get` of it is `true`, a `false` named `test:name` gets handle 1, lookups
   * find it, and adding the name again is refused with two entries left.
   */
  method RegistryScenario() returns (first: Handle, firstValue: bool, second: Result<Handle, ValidName>,
                                     found: Option<Handle>, hasOther: bool, hasName: bool, value: bool,
                                     again: Result<Handle, ValidName>, count: nat)
    ensures first == 0 && firstValue
    ensures second == Ok(1) && found == Some(1)
    ensures !hasOther && hasName && !value
    ensures again.Err? && count == 2
  {
    AcceptsTestName();
    AcceptsTestOther();
    var name := FromLiteral("test:name");
    var other := FromLiteral("test:other");
    var registry := new Registry<bool>();
    first := registry.AddAnonymous(true);
    firstValue := registry.Get(0);
    second := registry.AddNamed(name, false);
    found := registry.Find(name);
    hasOther := registry.Contains(other);
    hasName := registry.Contains(name);
    value := registry.Get(1);
    again := registry.AddNamed(name, true);
    count := |registry.Entries()|;
  }

  lemma AcceptsTestName()
    ensures NewName("test:name").Some?
  {
    var scope, identifier := "test", "name";
    assert forall i :: 1 <= i < |scope| ==> IsSegmentTailChar(scope[i]);
    assert forall i :: 1 <= i < |identifier| ==> IsSegmentTailChar(identifier[i]);
    assert scope + ":" + identifier == "test:name";
    NewNameAccepts(scope, identifier);
  }

  lemma AcceptsTestOther()
    ensures NewName("test:other").Some?
  {
    var scope, identifier := "test", "other";
    assert forall i :: 1 <= i < |scope| ==> IsSegmentTailChar(scope[i]);
    assert forall i :: 1 <= i < |identifier| ==> IsSegmentTailChar(identifier[i]);
    assert scope + ":" + identifier == "test:other";
    NewNameAccepts(scope, identifier);
  }
}
