/** The by-name registry of a `Sockets` (or `Props`) owner, the two providers
    that create slots and register them, and the companion `bind`.

    The registry is Kotlin's `mutableMapOf()`, a LinkedHashMap: a map from
    name to slot plus the order in which the names were first put. */
module Registries {
  import opened Slots
  import opened Forwarding
  import opened Engine

  datatype Table = Table(order: seq<string>, byName: map<string, SlotId>)

  ghost predicate Distinct(names: seq<string>)
  {
    forall i, j :: 0 <= i < j < |names| ==> names[i] != names[j]
  }

  /** Each key appears once in the insertion order, and the order holds
      exactly the keys of the map. */
  ghost predicate WellFormed(t: Table)
  {
    Distinct(t.order) && forall n :: n in t.byName <==> n in t.order
  }

  /** `MutableMap.put`: a new key goes to the end of the order; an existing
      key keeps its place and gets the new value. */
  function PutEntry(t: Table, name: string, id: SlotId): (u: Table)
    requires WellFormed(t)
    ensures WellFormed(u)
    ensures u.byName == t.byName[name := id]
    ensures name in t.byName ==> u.order == t.order
    ensures name !in t.byName ==> u.order == t.order + [name]
  {
    if name in t.byName then Table(t.order, t.byName[name := id])
    else Table(t.order + [name], t.byName[name := id])
  }

  /** `propertiesbyName.values`, in insertion order. */
  function Listing(t: Table): seq<SlotId>
    requires WellFormed(t)
  {
    seq(|t.order|, i requires 0 <= i < |t.order| => t.byName[t.order[i]])
  }

  /** `propertiesbyName.get(name)`: null for an absent name. */
  function Lookup(t: Table, name: string): Option<SlotId>
  {
    if name in t.byName then Some(t.byName[name]) else None
  }

  /** The table after putting each (name, slot) pair of `decls` in turn into
      an empty map, as the providers of one owner do while it is built. */
  function Declare(decls: seq<(string, SlotId)>): (t: Table)
    ensures WellFormed(t)
  {
    if decls == [] then Table([], map[])
    else PutEntry(Declare(decls[..|decls| - 1]), decls[|decls| - 1].0, decls[|decls| - 1].1)
  }

  function Names(decls: seq<(string, SlotId)>): seq<string>
  {
    seq(|decls|, i requires 0 <= i < |decls| => decls[i].0)
  }

  function Ids(decls: seq<(string, SlotId)>): seq<SlotId>
  {
    seq(|decls|, i requires 0 <= i < |decls| => decls[i].1)
  }

  /** Lookup finds a slot exactly for the names listed in the order. */
  lemma LookupAbsent(t: Table, name: string)
    requires WellFormed(t)
    ensures Lookup(t, name) == None <==> name !in t.order
    ensures Lookup(t, name).Some? ==> Lookup(t, name).value in Listing(t)
  {
    if name in t.order {
      var i :| 0 <= i < |t.order| && t.order[i] == name;
      assert Listing(t)[i] == t.byName[name];
    }
  }

  /** Under distinct names, the last declared name is not among the earlier ones. */
  lemma LastNameIsNew(decls: seq<(string, SlotId)>)
    requires decls != [] && Distinct(Names(decls))
    ensures Distinct(Names(decls[..|decls| - 1]))
    ensures Names(decls) == Names(decls[..|decls| - 1]) + [decls[|decls| - 1].0]
    ensures decls[|decls| - 1].0 !in Names(decls[..|decls| - 1])
  {
    var n := |decls| - 1;
    assert Names(decls[..n]) == Names(decls)[..n];
    forall j | 0 <= j < n
      ensures Names(decls[..n])[j] != decls[n].0
    {
      assert Names(decls)[n] == decls[n].0;
    }
  }

  /** Declaring slots under distinct names records the names in declaration
      order, and each name maps to its own slot. */
  lemma {:induction false} DeclaredTable(decls: seq<(string, SlotId)>)
    requires Distinct(Names(decls))
    ensures Declare(decls).order == Names(decls)
    ensures forall i :: 0 <= i < |decls| ==> decls[i].0 in Declare(decls).byName
    ensures forall i :: 0 <= i < |decls| ==> Declare(decls).byName[decls[i].0] == decls[i].1
  {
    if decls != [] {
      var n := |decls| - 1;
      var init := decls[..n];
      LastNameIsNew(decls);
      DeclaredTable(init);
      var t := Declare(init);
      var u := Declare(decls);
      assert u == PutEntry(t, decls[n].0, decls[n].1);
      assert decls[n].0 !in t.byName;
      assert u.order == t.order + [decls[n].0];
      assert u.byName == t.byName[decls[n].0 := decls[n].1];
      forall i | 0 <= i < |decls|
        ensures decls[i].0 in u.byName && u.byName[decls[i].0] == decls[i].1
      {
        if i < n {
          assert decls[i] == init[i];
          assert Names(decls)[i] == decls[i].0;
        }
      }
    }
  }

  /** Putting one more pair extends the declaration: the table after
      `decls` followed by `(name, id)` is the table after `decls` with that
      pair put into it. */
  lemma DeclareSnoc(decls: seq<(string, SlotId)>, name: string, id: SlotId)
    ensures Declare(decls + [(name, id)]) == PutEntry(Declare(decls), name, id)
  {
    var ext := decls + [(name, id)];
    assert ext[..|ext| - 1] == decls;
  }

  /** Declaring slots under distinct names lists them in declaration order,
      and each name looks up its own slot. */
  lemma DeclarationOrder(decls: seq<(string, SlotId)>)
    requires Distinct(Names(decls))
    ensures Declare(decls).order == Names(decls)
    ensures Listing(Declare(decls)) == Ids(decls)
    ensures forall i :: 0 <= i < |decls| ==> Lookup(Declare(decls), decls[i].0) == Some(decls[i].1)
  {
    DeclaredTable(decls);
    var t := Declare(decls);
    forall i | 0 <= i < |decls|
      ensures Listing(t)[i] == Ids(decls)[i]
    {
      assert t.order[i] == decls[i].0;
    }
  }

  /** The map shared by an owner and its providers, together with the owner's
      `sockets()` / `properties()` and `get` queries. */
  class Registry {
    var table: Table
    /** Every (name, slot) pair put so far, oldest first. */
    ghost var declared: seq<(string, SlotId)>

    /** The map is exactly what putting the declared pairs in turn into an
        empty map gives. */
    ghost predicate Valid()
      reads this
    {
      WellFormed(table) && table == Declare(declared)
    }

    /** `mutableMapOf()`: an empty map. */
    constructor ()
      ensures Valid() && table == Table([], map[]) && declared == []
    {
      table := Table([], map[]);
      declared := [];
    }

    /** `propertiesbyName[name] = slot`. */
    method Put(name: string, id: SlotId)
      requires Valid()
      modifies this
      ensures Valid() && table == PutEntry(old(table), name, id)
      ensures declared == old(declared) + [(name, id)]
    {
      DeclareSnoc(declared, name, id);
      table := PutEntry(table, name, id);
      declared := declared + [(name, id)];
    }

    /** `sockets()` / `properties()`: the registered slots, in the order
        their names were first registered. */
    function Values(): (ids: seq<SlotId>)
      reads this
      requires Valid()
      ensures ids == Listing(Declare(declared))
      ensures |ids| == |table.order|
      ensures forall n :: n in table.byName ==> table.byName[n] in ids
      ensures forall id :: id in ids ==> exists n :: n in table.byName && table.byName[n] == id
    {
      var ids := Listing(table);
      assert forall n :: n in table.byName ==> table.byName[n] in ids by {
        forall n | n in table.byName ensures table.byName[n] in ids {
          LookupAbsent(table, n);
        }
      }
      ids
    }

    /** `get(name)`: the slot registered under `name`, or none. */
    function Get(name: string): (r: Option<SlotId>)
      reads this
      requires Valid()
      ensures r.None? <==> name !in table.order
      ensures r.Some? ==> r.value == table.byName[name] && r.value in Values()
    {
      LookupAbsent(table, name);
      Lookup(table, name)
    }
  }

  /** `NonNullableSocketProvider`: creates an eager slot named after the
      declaring property and registers it under that name. */
  class EagerProvider<V, Tag(==)> {
    const tag: Tag
    const registry: Registry
    const value: Nullable<V>

    constructor (tag: Tag, registry: Registry, value: Nullable<V>)
      ensures this.tag == tag && this.registry == registry && this.value == value
    {
      this.tag := tag;
      this.registry := registry;
      this.value := value;
    }

    method ProvideDelegate(store: SlotStore<V, Tag>, propertyName: string) returns (id: SlotId)
      requires store.Valid() && registry.Valid()
      modifies store, registry
      ensures store.Valid() && registry.Valid()
      ensures id !in old(store.slots)
      ensures store.slots == old(store.slots)[id := Slot(propertyName, tag, Eager, value, None)]
      ensures registry.table == PutEntry(old(registry.table), propertyName, id)
      ensures registry.declared == old(registry.declared) + [(propertyName, id)]
      ensures registry.Get(propertyName) == Some(id)
      ensures Resolvable(store.slots, id) && ValueOf(store.slots, id) == Ok(value)
    {
      id := store.NewEager(propertyName, value, tag);
      registry.Put(propertyName, id);
    }
  }

  /** `LateinitSocketProvider`: creates a deferred slot named after the
      declaring property and registers it under that name. */
  class DeferredProvider<V, Tag(==)> {
    const tag: Tag
    const registry: Registry

    constructor (tag: Tag, registry: Registry)
      ensures this.tag == tag && this.registry == registry
    {
      this.tag := tag;
      this.registry := registry;
    }

    method ProvideDelegate(store: SlotStore<V, Tag>, propertyName: string) returns (id: SlotId)
      requires store.Valid() && registry.Valid()
      modifies store, registry
      ensures store.Valid() && registry.Valid()
      ensures id !in old(store.slots)
      ensures store.slots == old(store.slots)[id := Slot(propertyName, tag, Deferred, Null, None)]
      ensures registry.table == PutEntry(old(registry.table), propertyName, id)
      ensures registry.declared == old(registry.declared) + [(propertyName, id)]
      ensures registry.Get(propertyName) == Some(id)
      ensures Resolvable(store.slots, id) && ValueOf(store.slots, id) == Err(UninitializedPropertyAccess)
    {
      id := store.NewDeferred(propertyName, tag);
      registry.Put(propertyName, id);
    }
  }

  /** What `getDelegate()` yields for a property: one of the engine's slots,
      or some other delegate (or none). */
  datatype Delegate = SlotDelegate(id: SlotId) | OtherDelegate

  /** The companion `bind`: binds the first property's slot to the second's
      when both delegates are slots, and otherwise does nothing. */
  method Bind<V, Tag(==)>(store: SlotStore<V, Tag>, d1: Delegate, d2: Delegate) returns (o: Outcome)
    requires store.Valid()
    requires d1.SlotDelegate? ==> d1.id in store.slots
    requires d2.SlotDelegate? ==> d2.id in store.slots
    modifies store
    ensures store.Valid()
    ensures !(d1.SlotDelegate? && d2.SlotDelegate?) ==> o == Pass && store.slots == old(store.slots)
    ensures d1.SlotDelegate? && d2.SlotDelegate? && old(store.slots)[d1.id].tag != old(store.slots)[d2.id].tag ==>
      o == Fail(TypeCast) && store.slots == old(store.slots)
    ensures d1.SlotDelegate? && d2.SlotDelegate? && old(store.slots)[d1.id].tag == old(store.slots)[d2.id].tag ==>
      o == Pass && store.slots == Bound(old(store.slots), d1.id, d2.id)
  {
    o := Pass;
    if d1.SlotDelegate? && d2.SlotDelegate? {
      o := store.BindTo(d1.id, d2.id);
    }
  }
}
