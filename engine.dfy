/** The socket objects themselves: `NonNullableSocket` and `LateinitSocket`
    (and their twins `NonNullableBindableProperty` and `LateBindableProperty`).
    All slot objects live in one `SlotStore`, the model of the heap: a slot
    reference is a `SlotId`, and the fields `storedValue` and `boundTo` that
    the Kotlin methods assign in place are fields of the slot's record in
    `slots`, which the methods below reassign. */
module Engine {
  import opened Slots
  import opened Forwarding

  class SlotStore<V, Tag(==)> {
    /** Every slot object allocated so far, with its current fields. */
    var slots: Store<V, Tag>
    /** The next identifier to hand out. */
    var next: SlotId

    /** Identifiers are never reused, and every `boundTo` refers to an
        existing slot (a Kotlin reference is never dangling). */
    ghost predicate Valid()
      reads this
    {
      (forall id :: id in slots ==> id < next) &&
      (forall id :: id in slots && slots[id].boundTo.Some? ==> slots[id].boundTo.value in slots)
    }

    constructor ()
      ensures Valid() && slots == map[]
    {
      slots := map[];
      next := 0;
    }

    /** `NonNullableSocket(name, storedValue, storedClass)`: a new unbound
        slot holding the construction value; its get returns that value. */
    method NewEager(name: string, value: Nullable<V>, tag: Tag) returns (id: SlotId)
      requires Valid()
      modifies this
      ensures Valid() && id !in old(slots)
      ensures slots == old(slots)[id := Slot(name, tag, Eager, value, None)]
      ensures Resolvable(slots, id) && ValueOf(slots, id) == Ok(value)
    {
      id := next;
      slots := slots[id := Slot(name, tag, Eager, value, None)];
      next := next + 1;
      UnboundReadsLocally(slots, id);
    }

    /** `LateinitSocket(name, storedClass)`: a new unbound slot whose
        `storedValue` is null, so its get throws until a set. */
    method NewDeferred(name: string, tag: Tag) returns (id: SlotId)
      requires Valid()
      modifies this
      ensures Valid() && id !in old(slots)
      ensures slots == old(slots)[id := Slot(name, tag, Deferred, Null, None)]
      ensures Resolvable(slots, id) && ValueOf(slots, id) == Err(UninitializedPropertyAccess)
    {
      id := next;
      slots := slots[id := Slot(name, tag, Deferred, Null, None)];
      next := next + 1;
      UnboundReadsLocally(slots, id);
    }

    /** `getValue`: forward to `boundTo` while it is set, otherwise read the
        slot's own stored value. The result is the read of the slot at the
        end of the chain. */
    method GetValue(id: SlotId) returns (r: Result<Nullable<V>>)
      requires Resolvable(slots, id)
      ensures r == ValueOf(slots, id)
      decreases Depth(slots, id)
    {
      var s := slots[id];
      match s.boundTo
      case Some(t) =>
        ChainStep(slots, id);
        StepDepth(slots, id);
        r := GetValue(t);
      case None =>
        UnboundReadsLocally(slots, id);
        r := LocalRead(s);
    }

    /** `setValue`: forward to `boundTo` while it is set, otherwise assign
        the slot's own stored value. Only the slot at the end of the chain
        changes. */
    method SetValue(id: SlotId, v: Nullable<V>)
      requires Valid() && Resolvable(slots, id)
      modifies this
      ensures Valid() && next == old(next)
      ensures slots == Written(old(slots), id, v)
      decreases Depth(slots, id)
    {
      var s := slots[id];
      match s.boundTo
      case Some(t) =>
        ChainStep(slots, id);
        StepDepth(slots, id);
        SetValue(t, v);
      case None =>
        UnboundReadsLocally(slots, id);
        slots := slots[id := s.(stored := v)];
    }

    /** `bindTo`: throw `TypeCastException` when the two `storedClass` tags
        differ, leaving every slot as it was; otherwise overwrite `boundTo`. */
    method BindTo(a: SlotId, b: SlotId) returns (o: Outcome)
      requires Valid() && a in slots && b in slots
      modifies this
      ensures Valid() && next == old(next)
      ensures old(slots)[a].tag != old(slots)[b].tag ==>
        o == Fail(TypeCast) && slots == old(slots)
      ensures old(slots)[a].tag == old(slots)[b].tag ==>
        o == Pass && slots == Bound(old(slots), a, b)
    {
      if slots[a].tag != slots[b].tag {
        return Fail(TypeCast);
      }
      slots := Bound(slots, a, b);
      o := Pass;
    }
  }
}
