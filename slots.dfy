/** The data of the slot/binding engine and the binding chains it follows.

    A Kotlin socket (or bindable property) is an object; here every such
    object is an identifier into a store, and the store maps each identifier
    to the object's fields. Following `boundTo` from slot to slot gives the
    slot's binding chain; get and set only terminate when that chain ends in
    an unbound slot, which `Resolvable` states. */
module Slots {

  datatype Option<T> = None | Some(value: T)

  /** A value of the slot's declared type. The type may be nullable
      (`socket<String?>(null)`), so `Null` is an ordinary value. */
  datatype Nullable<V> = Null | NonNull(value: V)

  /** Eager: the non-nullable socket, built with an initial value.
      Deferred: the lateinit socket, whose stored value starts out null. */
  datatype Kind = Eager | Deferred

  /** The two exceptions the engine throws. */
  datatype Error = UninitializedPropertyAccess | TypeCast

  datatype Result<T> = Ok(value: T) | Err(error: Error)

  datatype Outcome = Pass | Fail(error: Error)

  type SlotId = nat

  /** The fields of one socket object. `tag` is its `storedClass`, compared
      only for equality. */
  datatype Slot<V, Tag> = Slot(
    name: string,
    tag: Tag,
    kind: Kind,
    stored: Nullable<V>,
    boundTo: Option<SlotId>)

  type Store<V, Tag> = map<SlotId, Slot<V, Tag>>

  /** Following `boundTo` from `id` takes exactly `n` hops to reach an unbound
      slot, and every slot on the way exists. */
  ghost predicate EndsAfter<V, Tag>(st: Store<V, Tag>, id: SlotId, n: nat)
    decreases n
  {
    id in st &&
    match st[id].boundTo
    case None => n == 0
    case Some(t) => n > 0 && EndsAfter(st, t, n - 1)
  }

  /** The binding chain from `id` is finite (no cycle), so get and set from
      `id` terminate. */
  ghost predicate Resolvable<V, Tag>(st: Store<V, Tag>, id: SlotId)
  {
    exists n :: EndsAfter(st, id, n)
  }

  lemma {:induction false} EndsAfterUnique<V, Tag>(st: Store<V, Tag>, id: SlotId, n: nat, m: nat)
    requires EndsAfter(st, id, n) && EndsAfter(st, id, m)
    ensures n == m
    decreases n
  {
    match st[id].boundTo
    case None =>
    case Some(t) => EndsAfterUnique(st, t, n - 1, m - 1);
  }

  /** The number of hops from `id` to the end of its chain. */
  ghost function Depth<V, Tag>(st: Store<V, Tag>, id: SlotId): (n: nat)
    requires Resolvable(st, id)
    ensures EndsAfter(st, id, n)
  {
    var n :| EndsAfter(st, id, n); n
  }

  /** A bound slot on a finite chain hands over to a target that is itself
      on a finite chain one hop shorter. */
  lemma StepDepth<V, Tag>(st: Store<V, Tag>, id: SlotId)
    requires Resolvable(st, id) && st[id].boundTo.Some?
    ensures Resolvable(st, st[id].boundTo.value)
    ensures Depth(st, st[id].boundTo.value) == Depth(st, id) - 1
  {
    var t := st[id].boundTo.value;
    assert EndsAfter(st, t, Depth(st, id) - 1);
    EndsAfterUnique(st, t, Depth(st, t), Depth(st, id) - 1);
  }

  /** The binding chain of `id`: `id` itself, then each `boundTo` target in
      turn, ending with the first unbound slot. */
  ghost function Chain<V, Tag>(st: Store<V, Tag>, id: SlotId): (c: seq<SlotId>)
    requires Resolvable(st, id)
    ensures |c| == Depth(st, id) + 1 && c[0] == id
    ensures forall i :: 0 <= i < |c| ==> c[i] in st
    ensures forall i :: 0 <= i < |c| - 1 ==> st[c[i]].boundTo == Some(c[i + 1])
    ensures st[c[|c| - 1]].boundTo.None?
    decreases Depth(st, id)
  {
    match st[id].boundTo
    case None => [id]
    case Some(t) => StepDepth(st, id); [id] + Chain(st, t)
  }

  /** The slot whose `storedValue` get and set from `id` end up using. */
  ghost function Resolve<V, Tag>(st: Store<V, Tag>, id: SlotId): (r: SlotId)
    requires Resolvable(st, id)
    ensures r in st && st[r].boundTo.None?
    ensures r == id <==> st[id].boundTo.None?
  {
    var c := Chain(st, id);
    assert |c| > 1 ==> st[c[0]].boundTo == Some(c[1]);
    c[|c| - 1]
  }

  lemma ChainStep<V, Tag>(st: Store<V, Tag>, id: SlotId)
    requires Resolvable(st, id) && st[id].boundTo.Some?
    ensures Resolvable(st, st[id].boundTo.value)
    ensures Chain(st, id) == [id] + Chain(st, st[id].boundTo.value)
    ensures Resolve(st, id) == Resolve(st, st[id].boundTo.value)
  {
    StepDepth(st, id);
  }

  /** Every slot further down the chain of `id` has the rest of that chain as
      its own chain, and so resolves to the same slot. */
  lemma {:induction false} ChainSuffix<V, Tag>(st: Store<V, Tag>, id: SlotId, i: nat)
    requires Resolvable(st, id) && i < |Chain(st, id)|
    ensures Resolvable(st, Chain(st, id)[i])
    ensures Chain(st, Chain(st, id)[i]) == Chain(st, id)[i..]
    ensures Resolve(st, Chain(st, id)[i]) == Resolve(st, id)
    decreases i
  {
    if i > 0 {
      ChainStep(st, id);
      var t := st[id].boundTo.value;
      ChainSuffix(st, t, i - 1);
      assert Chain(st, id)[i..] == Chain(st, t)[i - 1..];
    }
  }

  /** The chain of `id` is the same in any store that agrees with `st` on the
      `boundTo` field of every slot along it. */
  lemma {:induction false} ChainFrame<V, Tag>(st: Store<V, Tag>, st2: Store<V, Tag>, id: SlotId)
    requires Resolvable(st, id)
    requires forall x :: x in Chain(st, id) ==> x in st2 && st2[x].boundTo == st[x].boundTo
    ensures Resolvable(st2, id) && Chain(st2, id) == Chain(st, id)
    ensures Resolve(st2, id) == Resolve(st, id)
    decreases Depth(st, id)
  {
    match st[id].boundTo
    case None =>
      assert EndsAfter(st2, id, 0);
    case Some(t) =>
      ChainStep(st, id);
      ChainFrame(st, st2, t);
      assert EndsAfter(st2, id, Depth(st2, t) + 1);
      ChainStep(st2, id);
  }
}
