/** Client code that declares two owners the way the sockets test suite does
    and replays its tests on freshly declared owners, deriving from the
    contracts alone the values those tests check. */
module Scenarios {
  import opened Slots
  import opened Forwarding
  import opened Engine
  import opened Registries

  /** The values the owners below store: strings and integers. */
  datatype Val = Str(s: string) | Int(i: int)

  /** The `storedClass` tags `String::class` and `Int::class`. */
  datatype ClassTag = StringClass | IntClass

  /** The declarations of `AClassWithSockets`, in source order, written as
      one put after another. */
  function SubjectDecls(late: SlotId, withDefault: SlotId, nullable: SlotId, plain: SlotId): seq<(string, SlotId)>
  {
    [] + [("lateinitSocket", late)] + [("socketWithDefaultValue", withDefault)]
       + [("nullableSocket", nullable)] + [("socket", plain)]
  }

  /** An owner with a lateinit slot, a slot with a default value, a nullable
      slot and a plain slot, declared in that order. */
  method DeclareSubject(store: SlotStore<Val, ClassTag>) returns (owner: Registry, late: SlotId, withDefault: SlotId, nullable: SlotId, plain: SlotId)
    requires store.Valid()
    modifies store
    ensures store.Valid() && fresh(owner) && owner.Valid()
    ensures owner.declared == SubjectDecls(late, withDefault, nullable, plain)
    ensures late !in old(store.slots) && withDefault !in old(store.slots)
    ensures nullable !in old(store.slots) && plain !in old(store.slots)
    ensures store.slots == old(store.slots)[late := Slot("lateinitSocket", StringClass, Deferred, Null, None)]
                                           [withDefault := Slot("socketWithDefaultValue", StringClass, Eager, NonNull(Str("Default value")), None)]
                                           [nullable := Slot("nullableSocket", StringClass, Eager, Null, None)]
                                           [plain := Slot("socket", StringClass, Eager, NonNull(Str("")), None)]
    ensures late in store.slots && withDefault in store.slots && nullable in store.slots && plain in store.slots
    ensures store.slots[late] == Slot("lateinitSocket", StringClass, Deferred, Null, None)
    ensures store.slots[withDefault] == Slot("socketWithDefaultValue", StringClass, Eager, NonNull(Str("Default value")), None)
    ensures store.slots[nullable] == Slot("nullableSocket", StringClass, Eager, Null, None)
    ensures store.slots[plain] == Slot("socket", StringClass, Eager, NonNull(Str("")), None)
  {
    owner := new Registry();
    var p1 := new DeferredProvider(StringClass, owner);
    late := p1.ProvideDelegate(store, "lateinitSocket");
    var p2 := new EagerProvider(StringClass, owner, NonNull(Str("Default value")));
    withDefault := p2.ProvideDelegate(store, "socketWithDefaultValue");
    var p3 := new EagerProvider(StringClass, owner, Null);
    nullable := p3.ProvideDelegate(store, "nullableSocket");
    var p4 := new EagerProvider(StringClass, owner, NonNull(Str("")));
    plain := p4.ProvideDelegate(store, "socket");
  }

  /** The subject declares its four properties under distinct names. */
  lemma SubjectNamesDistinct(late: SlotId, withDefault: SlotId, nullable: SlotId, plain: SlotId)
    ensures Distinct(Names(SubjectDecls(late, withDefault, nullable, plain)))
    ensures Names(SubjectDecls(late, withDefault, nullable, plain)) ==
      ["lateinitSocket", "socketWithDefaultValue", "nullableSocket", "socket"]
  {
    var names := Names(SubjectDecls(late, withDefault, nullable, plain));
    assert |names| == 4;
    assert names[0] == "lateinitSocket" && names[1] == "socketWithDefaultValue";
    assert names[2] == "nullableSocket" && names[3] == "socket";
    forall i, j | 0 <= i < j < |names|
      ensures names[i] != names[j]
    {
      if i == 0 && j == 2 {
        assert names[i][0] != names[j][0];
      } else {
        assert |names[i]| != |names[j]|;
      }
    }
  }

  /** The subject's four slots are listed in declaration order. */
  lemma SubjectListing(late: SlotId, withDefault: SlotId, nullable: SlotId, plain: SlotId)
    ensures Listing(Declare(SubjectDecls(late, withDefault, nullable, plain))) == [late, withDefault, nullable, plain]
  {
    var decls := SubjectDecls(late, withDefault, nullable, plain);
    assert Listing(Declare(decls)) == Ids(decls) by {
      SubjectNamesDistinct(late, withDefault, nullable, plain);
      DeclarationOrder(decls);
    }
    assert Ids(decls) == [late, withDefault, nullable, plain];
  }

  /** In the subject, "socket" looks up its own slot and the undeclared
      "property" looks up none. */
  lemma SubjectLookups(late: SlotId, withDefault: SlotId, nullable: SlotId, plain: SlotId)
    ensures Lookup(Declare(SubjectDecls(late, withDefault, nullable, plain)), "socket") == Some(plain)
    ensures Lookup(Declare(SubjectDecls(late, withDefault, nullable, plain)), "property") == None
  {
    var decls := SubjectDecls(late, withDefault, nullable, plain);
    SubjectNamesDistinct(late, withDefault, nullable, plain);
    DeclarationOrder(decls);
    assert decls[3].0 == "socket";
    LookupAbsent(Declare(decls), "property");
    assert |"property"| == 8;
  }

  /** `map { it.name }` over a listing of slots. */
  function NamesOf(slots: Store<Val, ClassTag>, ids: seq<SlotId>): (names: seq<string>)
    requires forall k :: 0 <= k < |ids| ==> ids[k] in slots
    ensures |names| == |ids|
    ensures forall k :: 0 <= k < |ids| ==> names[k] == slots[ids[k]].name
  {
    if ids == [] then [] else [slots[ids[0]].name] + NamesOf(slots, ids[1..])
  }

  /** The names of the subject's four slots, read off their records. */
  lemma SubjectNames(slots: Store<Val, ClassTag>, listed: seq<SlotId>, late: SlotId, withDefault: SlotId, nullable: SlotId, plain: SlotId)
    requires listed == [late, withDefault, nullable, plain]
    requires late in slots && withDefault in slots && nullable in slots && plain in slots
    requires slots[late] == Slot("lateinitSocket", StringClass, Deferred, Null, None)
    requires slots[withDefault] == Slot("socketWithDefaultValue", StringClass, Eager, NonNull(Str("Default value")), None)
    requires slots[nullable] == Slot("nullableSocket", StringClass, Eager, Null, None)
    requires slots[plain] == Slot("socket", StringClass, Eager, NonNull(Str("")), None)
    ensures NamesOf(slots, listed) == ["lateinitSocket", "socketWithDefaultValue", "nullableSocket", "socket"]
  {
    var names := NamesOf(slots, listed);
    assert names[0] == slots[late].name && names[1] == slots[withDefault].name;
    assert names[2] == slots[nullable].name && names[3] == slots[plain].name;
  }

  /** "sockets should be listable by name": the subject owner lists its four
      slots in declaration order. */
  method SubjectListed() returns (names: seq<string>)
    ensures names == ["lateinitSocket", "socketWithDefaultValue", "nullableSocket", "socket"]
  {
    var store := new SlotStore<Val, ClassTag>();
    var owner, late, withDefault, nullable, plain := DeclareSubject(store);
    var listed := owner.Values();
    assert listed == [late, withDefault, nullable, plain] by {
      SubjectListing(late, withDefault, nullable, plain);
    }
    var slots := store.slots;
    names := NamesOf(slots, listed);
    assert names == ["lateinitSocket", "socketWithDefaultValue", "nullableSocket", "socket"] by {
      SubjectNames(slots, listed, late, withDefault, nullable, plain);
    }
  }

  /** The subject declares no property named "property", so
      `subject["property"]` is null. */
  method UnknownName() returns (missing: Option<SlotId>)
    ensures missing == None
  {
    var store := new SlotStore<Val, ClassTag>();
    var owner, late, withDefault, nullable, plain := DeclareSubject(store);
    SubjectLookups(late, withDefault, nullable, plain);
    missing := owner.Get("property");
  }

  /** The lateinit slot throws before a set and returns the value set after;
      the default and the nullable slots return their construction values. */
  method UnboundSlots() returns (beforeSet: Result<Nullable<Val>>, afterSet: Result<Nullable<Val>>,
                                 withDefaultRead: Result<Nullable<Val>>, nullableRead: Result<Nullable<Val>>)
    ensures beforeSet == Err(UninitializedPropertyAccess)
    ensures afterSet == Ok(NonNull(Str("Some string")))
    ensures withDefaultRead == Ok(NonNull(Str("Default value")))
    ensures nullableRead == Ok(Null)
  {
    var store := new SlotStore<Val, ClassTag>();
    var owner, late, withDefault, nullable, plain := DeclareSubject(store);
    UnboundReadsLocally(store.slots, late);
    beforeSet := store.GetValue(late);
    var unset := store.slots;
    store.SetValue(late, NonNull(Str("Some string")));
    SetThenGet(unset, late, NonNull(Str("Some string")));
    afterSet := store.GetValue(late);
    UnboundReadsLocally(store.slots, withDefault);
    withDefaultRead := store.GetValue(withDefault);
    UnboundReadsLocally(store.slots, nullable);
    nullableRead := store.GetValue(nullable);
  }

  /** The declarations of `AnotherClassWithSockets`, in source order,
      written as one put after another. */
  function OtherDecls(plain: SlotId, number: SlotId): seq<(string, SlotId)>
  {
    [] + [("socket", plain)] + [("otherSocket", number)]
  }

  /** The other owner: a `String` slot and an `Int` slot. */
  method DeclareOther(store: SlotStore<Val, ClassTag>) returns (owner: Registry, plain: SlotId, number: SlotId)
    requires store.Valid()
    modifies store
    ensures store.Valid() && fresh(owner) && owner.Valid()
    ensures owner.declared == OtherDecls(plain, number)
    ensures plain !in old(store.slots) && number !in old(store.slots) && plain != number
    ensures store.slots == old(store.slots)[plain := Slot("socket", StringClass, Eager, NonNull(Str("")), None)]
                                           [number := Slot("otherSocket", IntClass, Eager, NonNull(Int(1)), None)]
  {
    owner := new Registry();
    var q1 := new EagerProvider(StringClass, owner, NonNull(Str("")));
    plain := q1.ProvideDelegate(store, "socket");
    var q2 := new EagerProvider(IntClass, owner, NonNull(Int(1)));
    number := q2.ProvideDelegate(store, "otherSocket");
  }

  /** The other owner's names look up their own slots. */
  lemma OtherLookups(plain: SlotId, number: SlotId)
    ensures Lookup(Declare(OtherDecls(plain, number)), "socket") == Some(plain)
    ensures Lookup(Declare(OtherDecls(plain, number)), "otherSocket") == Some(number)
  {
    var decls := OtherDecls(plain, number);
    assert Names(decls)[0] == "socket" && Names(decls)[1] == "otherSocket";
    assert |Names(decls)[0]| != |Names(decls)[1]|;
    DeclarationOrder(decls);
    assert decls[0].0 == "socket" && decls[1].0 == "otherSocket";
  }

  /** Binding `subject["socket"]` (a `String` slot) to
      `otherSubject["otherSocket"]` (an `Int` slot) throws; a failed bind
      changes nothing, so the slot still reads what it read before. */
  method BindChecksTypes() returns (o: Outcome, after: Result<Nullable<Val>>)
    ensures o == Fail(TypeCast)
    ensures after == Ok(NonNull(Str("")))
  {
    var store := new SlotStore<Val, ClassTag>();
    var owner, late, withDefault, nullable, plain := DeclareSubject(store);
    var other, otherPlain, otherNumber := DeclareOther(store);
    var mine := owner.Get("socket");
    assert mine == Some(plain) by {
      SubjectLookups(late, withDefault, nullable, plain);
    }
    var theirs := other.Get("otherSocket");
    assert theirs == Some(otherNumber) by {
      OtherLookups(otherPlain, otherNumber);
    }
    assert store.slots[plain].tag == StringClass && store.slots[otherNumber].tag == IntClass;
    o := store.BindTo(mine.value, theirs.value);
    UnboundReadsLocally(store.slots, plain);
    after := store.GetValue(plain);
  }

  /** Binding `socket` to the other owner's `socket` through the companion
      `bind` makes a write through the other owner visible here. */
  method BindSharesState() returns (mine: Result<Nullable<Val>>, theirs: Result<Nullable<Val>>)
    ensures mine == theirs == Ok(NonNull(Str("Changed value")))
  {
    var store := new SlotStore<Val, ClassTag>();
    var owner, late, withDefault, nullable, plain := DeclareSubject(store);
    var other, otherPlain, otherNumber := DeclareOther(store);
    assert store.slots[plain].tag == StringClass && store.slots[otherPlain].tag == StringClass;
    var before := store.slots;
    var o := Bind(store, SlotDelegate(plain), SlotDelegate(otherPlain));
    UnboundReadsLocally(before, otherPlain);
    BindForwards(before, plain, otherPlain);
    var bound := store.slots;
    store.SetValue(otherPlain, NonNull(Str("Changed value")));
    SetVisibleAlongChain(bound, plain, otherPlain, NonNull(Str("Changed value")));
    mine := store.GetValue(plain);
    theirs := store.GetValue(otherPlain);
  }
}
