/** What get, set and bindTo do to a store of slots, stated as functions of
    the store, and the properties of forwarding that follow from them. */
module Forwarding {
  import opened Slots

  /** The `else` branch of getValue in an unbound slot: a non-nullable slot
      returns its stored value (which may be null when its type is
      nullable); a lateinit slot throws whenever its stored value is null. */
  function LocalRead<V, Tag>(s: Slot<V, Tag>): Result<Nullable<V>>
  {
    if s.kind == Deferred && s.stored.Null? then Err(UninitializedPropertyAccess)
    else Ok(s.stored)
  }

  /** The outcome of get on `id`: the local read of the slot its chain ends in. */
  ghost function ValueOf<V, Tag>(st: Store<V, Tag>, id: SlotId): Result<Nullable<V>>
    requires Resolvable(st, id)
  {
    LocalRead(st[Resolve(st, id)])
  }

  /** The store after set(v) on `id`: only the stored value of the slot the
      chain ends in changes. */
  ghost function Written<V, Tag>(st: Store<V, Tag>, id: SlotId, v: Nullable<V>): Store<V, Tag>
    requires Resolvable(st, id)
  {
    var r := Resolve(st, id);
    st[r := st[r].(stored := v)]
  }

  /** The store after a successful `a.bindTo(b)`: `a`'s `boundTo` is
      overwritten, whatever it was before. */
  function Bound<V, Tag>(st: Store<V, Tag>, a: SlotId, b: SlotId): Store<V, Tag>
    requires a in st
  {
    st[a := st[a].(boundTo := Some(b))]
  }

  /** What get returns right after set(v) on a slot whose chain ends in a
      slot of kind `k`. */
  function ReadAfterSet<V>(k: Kind, v: Nullable<V>): Result<Nullable<V>>
  {
    if k == Deferred && v.Null? then Err(UninitializedPropertyAccess) else Ok(v)
  }

  /** An unbound slot reads its own stored value. */
  lemma UnboundReadsLocally<V, Tag>(st: Store<V, Tag>, id: SlotId)
    requires id in st && st[id].boundTo.None?
    ensures Resolvable(st, id) && Resolve(st, id) == id
    ensures st[id].kind == Eager ==> ValueOf(st, id) == Ok(st[id].stored)
    ensures st[id].kind == Deferred ==>
      (ValueOf(st, id).Err? <==> st[id].stored.Null?) &&
      (ValueOf(st, id).Err? ==> ValueOf(st, id).error == UninitializedPropertyAccess) &&
      (ValueOf(st, id).Ok? ==> ValueOf(st, id).value == st[id].stored)
  {
    assert EndsAfter(st, id, 0);
  }

  /** A bound slot is a pure proxy: its get is its target's get, its set is
      its target's set, and a set through it leaves its own fields as they
      were. */
  lemma BoundForwards<V, Tag>(st: Store<V, Tag>, id: SlotId, v: Nullable<V>)
    requires Resolvable(st, id) && st[id].boundTo.Some?
    ensures Resolvable(st, st[id].boundTo.value)
    ensures ValueOf(st, id) == ValueOf(st, st[id].boundTo.value)
    ensures Written(st, id, v) == Written(st, st[id].boundTo.value, v)
    ensures Written(st, id, v)[id] == st[id]
  {
    ChainStep(st, id);
  }

  /** set never changes any binding, so every chain survives it. */
  lemma WriteKeepsChains<V, Tag>(st: Store<V, Tag>, id: SlotId, v: Nullable<V>, x: SlotId)
    requires Resolvable(st, id) && Resolvable(st, x)
    ensures Resolvable(Written(st, id, v), x)
    ensures Chain(Written(st, id, v), x) == Chain(st, x)
    ensures Resolve(Written(st, id, v), x) == Resolve(st, x)
  {
    ChainFrame(st, Written(st, id, v), x);
  }

  /** Set then get on the same slot returns the value set, except that a
      chain ending in a lateinit slot throws again after set(null). */
  lemma SetThenGet<V, Tag>(st: Store<V, Tag>, id: SlotId, v: Nullable<V>)
    requires Resolvable(st, id)
    ensures Resolvable(Written(st, id, v), id)
    ensures ValueOf(Written(st, id, v), id) == ReadAfterSet(st[Resolve(st, id)].kind, v)
    ensures v.NonNull? ==> ValueOf(Written(st, id, v), id) == Ok(v)
  {
    WriteKeepsChains(st, id, v, id);
  }

  /** Every slot on `a`'s chain ends where `a` ends. */
  lemma SameEnd<V, Tag>(st: Store<V, Tag>, a: SlotId, b: SlotId)
    requires Resolvable(st, a) && b in Chain(st, a)
    ensures Resolvable(st, b) && Resolve(st, b) == Resolve(st, a)
  {
    var c := Chain(st, a);
    var i :| 0 <= i < |c| && c[i] == b;
    ChainSuffix(st, a, i);
  }

  /** A set on any slot along `a`'s chain is seen by get on `a`: after
      `a.bindTo(b)`, or a longer chain of binds from `a` through `b`,
      `b.set(x)` makes `a.get()` return what `b.get()` returns. */
  lemma SetVisibleAlongChain<V, Tag>(st: Store<V, Tag>, a: SlotId, b: SlotId, v: Nullable<V>)
    requires Resolvable(st, a) && b in Chain(st, a)
    ensures Resolvable(st, b)
    ensures Resolvable(Written(st, b, v), a) && Resolvable(Written(st, b, v), b)
    ensures ValueOf(Written(st, b, v), a) == ValueOf(Written(st, b, v), b)
    ensures ValueOf(Written(st, b, v), a) == ReadAfterSet(st[Resolve(st, a)].kind, v)
  {
    SameEnd(st, a, b);
    SetThenGet(st, b, v);
    WriteKeepsChains(st, b, v, a);
  }

  /** The other direction: a set on `a` is the same write as a set on any
      slot along `a`'s chain, so after `a.bindTo(b)`, `a.set(x)` makes
      `b.get()` see `x`. */
  lemma SetThroughChain<V, Tag>(st: Store<V, Tag>, a: SlotId, b: SlotId, v: Nullable<V>)
    requires Resolvable(st, a) && b in Chain(st, a)
    ensures Resolvable(st, b)
    ensures Written(st, a, v) == Written(st, b, v)
  {
    SameEnd(st, a, b);
  }

  /** A set reaches nothing outside its own chain's end: every slot that
      resolves elsewhere reads what it read before. */
  lemma SetLeavesOthers<V, Tag>(st: Store<V, Tag>, id: SlotId, v: Nullable<V>, x: SlotId)
    requires Resolvable(st, id) && Resolvable(st, x)
    requires Resolve(st, x) != Resolve(st, id)
    ensures Resolvable(Written(st, id, v), x)
    ensures ValueOf(Written(st, id, v), x) == ValueOf(st, x)
  {
    WriteKeepsChains(st, id, v, x);
  }

  /** After `a.bindTo(b)`, where `b`'s chain is finite and does not pass
      through `a`, `a`'s chain is `a` followed by `b`'s chain, and `a` reads
      what `b` reads. */
  lemma {:induction false} BindForwards<V, Tag>(st: Store<V, Tag>, a: SlotId, b: SlotId)
    requires a in st && Resolvable(st, b) && a !in Chain(st, b)
    ensures Resolvable(Bound(st, a, b), a) && Resolvable(Bound(st, a, b), b)
    ensures Chain(Bound(st, a, b), a) == [a] + Chain(st, b)
    ensures Resolve(Bound(st, a, b), a) == Resolve(st, b)
    ensures ValueOf(Bound(st, a, b), a) == ValueOf(Bound(st, a, b), b) == ValueOf(st, b)
  {
    var st2 := Bound(st, a, b);
    ChainFrame(st, st2, b);
    assert EndsAfter(st2, a, Depth(st2, b) + 1);
    ChainStep(st2, a);
  }

  /** Walking the chain of `x` in the store where `a` is bound to `b`: if `a`
      lies on `x`'s original chain, the walk reaches `a` within `m` hops. */
  lemma {:induction false} WalkReachesBoundSlot<V, Tag>(st: Store<V, Tag>, a: SlotId, b: SlotId, x: SlotId, m: nat)
    requires a in st && Resolvable(st, x) && a in Chain(st, x)
    requires EndsAfter(Bound(st, a, b), x, m)
    ensures exists k: nat :: k <= m && EndsAfter(Bound(st, a, b), a, k)
    decreases Depth(st, x)
  {
    if x != a {
      ChainStep(st, x);
      var t := st[x].boundTo.value;
      WalkReachesBoundSlot(st, a, b, t, m - 1);
    }
  }

  lemma {:induction false} NoEndAfterBind<V, Tag>(st: Store<V, Tag>, a: SlotId, b: SlotId, n: nat)
    requires a in st && Resolvable(st, b) && a in Chain(st, b)
    ensures !EndsAfter(Bound(st, a, b), a, n)
    decreases n
  {
    if EndsAfter(Bound(st, a, b), a, n) {
      WalkReachesBoundSlot(st, a, b, b, n - 1);
      var k: nat :| k <= n - 1 && EndsAfter(Bound(st, a, b), a, k);
      NoEndAfterBind(st, a, b, k);
    }
  }

  /** Binding `a` to `b` leaves `a` with a finite chain exactly when `b`'s
      chain does not already pass through `a`; otherwise get and set on `a`
      recurse forever, which the source does not guard against. */
  lemma BindResolvableIff<V, Tag>(st: Store<V, Tag>, a: SlotId, b: SlotId)
    requires a in st && Resolvable(st, b)
    ensures Resolvable(Bound(st, a, b), a) <==> a !in Chain(st, b)
  {
    if a in Chain(st, b) {
      forall n: nat ensures !EndsAfter(Bound(st, a, b), a, n) {
        NoEndAfterBind(st, a, b, n);
      }
    } else {
      BindForwards(st, a, b);
    }
  }

  /** Last bind wins: binding `a` to `c` after binding it to `b` gives the
      store a single bind to `c` gives, whatever `b` and `c` are. When `c`'s
      chain is finite and avoids `a`, `a` then reads what `c` reads, and a
      set through `a` leaves the old target `b` untouched unless `b` is
      where `c`'s chain ends. */
  lemma LastBindWins<V, Tag>(st: Store<V, Tag>, a: SlotId, b: SlotId, c: SlotId, v: Nullable<V>)
    requires a in st
    ensures Bound(Bound(st, a, b), a, c) == Bound(st, a, c)
    ensures Resolvable(st, c) && a !in Chain(st, c) ==>
      Resolvable(Bound(st, a, c), a) && ValueOf(Bound(st, a, c), a) == ValueOf(st, c)
    ensures Resolvable(st, c) && a !in Chain(st, c) && b in st && b != Resolve(st, c) ==>
      Resolvable(Bound(st, a, c), a) && Written(Bound(st, a, c), a, v)[b] == Bound(st, a, c)[b]
  {
    if Resolvable(st, c) && a !in Chain(st, c) {
      BindForwards(st, a, c);
    }
  }
}
