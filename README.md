# Sockets and bindable properties: a Dafny model of the slot/binding engine

The repository implements one mechanism twice, as `Socket*` in
`sockets/src/main/kotlin/Sockets.kt` and as `BindableProperty*` in
`bindable-properties/src/main/kotlin/BindableProps.kt`. An owner (`Sockets` or
`Props`) declares named, typed slots through providers. Each slot either keeps
its own `storedValue` or, once bound with `bindTo`, forwards every get and set
to another slot of the same `storedClass`. The slot, provider and owner classes
of the two files differ only in names, so this project models the mechanism
once. (The support code differs: only `Sockets.kt` has the
`KMutableProperty0.bindTo` extension, and only `SocketsHolder` declares
`sockets()` and `get`; see "## Left out".)

- `slots.dfy` (module `Slots`): the fields of a slot (`name`, `storedClass` as an
  abstract tag, eager or lateinit kind, `storedValue`, `boundTo`), the store of
  all slot objects, and binding chains: where following `boundTo` leads, and
  when it ends.
- `forwarding.dfy` (module `Forwarding`): get, set and bind as functions of the
  store (`ValueOf`, `Written`, `Bound`) and the forwarding properties proved
  about them.
- `engine.dfy` (module `Engine`): class `SlotStore`, the heap of slot objects,
  with the two slot constructors and the imperative `GetValue`, `SetValue` and
  `BindTo`, each proved against the functions above.
- `registries.dfy` (module `Registries`): the owner's insertion-ordered map
  (class `Registry`), its listing and lookup, the two providers, and the
  companion `bind`.
- `scenarios.dfy` (module `Scenarios`): the test suite's two owners declared
  through the providers, and methods that replay the suite's tests on freshly
  declared owners. Their results are the values those tests check. The
  suite itself runs its scenarios in order on one shared pair of owners, so
  later scenarios there see state left by earlier ones; the replays do not
  model that carry-over.

A Kotlin slot reference is a `SlotId` into `SlotStore.slots`. Assigning
`storedValue` or `boundTo` reassigns that slot's record in `slots`. Exceptions
become values: `Err(UninitializedPropertyAccess)` for
`UninitializedPropertyAccessException` and `Fail(TypeCast)` for
`TypeCastException`. Values are `Nullable<V>` because a slot's type may be
nullable (`socket<String?>(null)`).

Behaviour worth noting:

- A lateinit slot's get throws whenever its stored value is null. That includes
  after `set(null)`, not only before the first set (`SetThenGet`,
  `ReadAfterSet`).
- `bindTo` leaves the bound slot's own `storedValue` in place. The value is
  inert: no get or set reaches it while the slot is bound (`BoundForwards`).
- `get(name)` returns null for a name that was never registered, and the
  companion `bind` silently does nothing when either delegate is not a slot.

## Model

| member | source | states |
|---|---|---|
| `Engine.SlotStore.NewEager` | sockets/src/main/kotlin/Sockets.kt:12-17 | A new non-nullable slot gets a fresh identity and is unbound. Its get returns the construction value, which may be null (BindableProps.kt:12-16 is the same). |
| `Engine.SlotStore.NewDeferred` | sockets/src/main/kotlin/Sockets.kt:46-51 | A new lateinit slot gets a fresh identity, is unbound, and holds null. Its get throws UninitializedPropertyAccess (BindableProps.kt:44-46 is the same). |
| `Engine.SlotStore.GetValue` | sockets/src/main/kotlin/Sockets.kt:53-60 | Recursing along `boundTo` returns the local read of the unbound slot at the end of the chain. A lateinit end with null throws; an eager end returns its stored value. It covers both classes' getValue (Sockets.kt:19-26; BindableProps.kt:18-25, 48-55). |
| `Engine.SlotStore.SetValue` | sockets/src/main/kotlin/Sockets.kt:62-69 | Recursing along `boundTo` changes only the stored value of the slot at the end of the chain. Every other slot and every binding keeps its value (Sockets.kt:28-35; BindableProps.kt:27-34, 57-64). |
| `Engine.SlotStore.BindTo` | sockets/src/main/kotlin/Sockets.kt:37-43 | Unequal tags give TypeCast with the store entirely unchanged. Equal tags overwrite `boundTo` with the target, whatever it was (Sockets.kt:71-77; BindableProps.kt:36-41, 66-71). |
| `Forwarding.UnboundReadsLocally` | bindable-properties/src/main/kotlin/BindableProps.kt:48-55 | An unbound slot resolves to itself. Eager: get returns the stored value. Lateinit: get fails with UninitializedPropertyAccess exactly when the stored value is null, and otherwise returns it. |
| `Forwarding.BoundForwards` | bindable-properties/src/main/kotlin/BindableProps.kt:18-34 | A bound slot's get equals its target's get, and its set is its target's set. The bound slot's own record, including its `storedValue`, is left unchanged by a set through it. |
| `Forwarding.SetThenGet` | bindable-properties/src/main/kotlin/BindableProps.kt:48-64 | A get after set(v) returns v when v is non-null. A chain ending in a lateinit slot throws again after set(null). |
| `Forwarding.WriteKeepsChains` | sockets/src/main/kotlin/Sockets.kt:62-69 | A set changes no binding: every finite chain stays finite, is identical, and ends at the same slot. |
| `Forwarding.SetVisibleAlongChain` | bindable-properties/src/main/kotlin/BindableProps.kt:36-41 | For any slot b on a's binding chain (after `a.bindTo(b)` or a longer chain of binds), `b.set(x)` makes `a.get()` equal `b.get()`, which returns x unless it is a null written into a lateinit end. |
| `Forwarding.SetThroughChain` | sockets/src/main/kotlin/Sockets.kt:28-35 | For b on a's chain, `a.set(x)` produces exactly the same store as `b.set(x)`. |
| `Forwarding.SetLeavesOthers` | sockets/src/main/kotlin/Sockets.kt:62-69 | A set does not affect any slot whose chain ends somewhere else: its get result is unchanged. |
| `Forwarding.BindForwards` | sockets/src/main/kotlin/Sockets.kt:37-43 | After a.bindTo(b), where b's chain is finite and does not contain a, a's chain is a followed by b's chain. Get on a returns what get on b returned before and returns now. |
| `Forwarding.BindResolvableIff` | sockets/src/main/kotlin/Sockets.kt:20-22 | After a.bindTo(b), a's get and set terminate if and only if b's chain does not already pass through a. The source has no guard against this cycle. |
| `Forwarding.LastBindWins` | bindable-properties/src/main/kotlin/BindableProps.kt:70 | Binding a to b and then to c gives the same store as binding a to c alone, for any b and c. When c's chain is finite and avoids a, a then reads what c reads, and a set through a leaves the old target b untouched unless b is the end of c's chain (Sockets.kt:42, 76). |
| `Forwarding.NoEndAfterBind` | bindable-properties/src/main/kotlin/BindableProps.kt:49-51 | If a lies on b's chain, then after a.bindTo(b), following `boundTo` from a never reaches an unbound slot, for any number of hops. |
| `Slots.Chain` | sockets/src/main/kotlin/Sockets.kt:54-56 | The slots visited by forwarding: it starts at the slot, each element is bound to the next, and it ends at the first unbound slot. |
| `Registries.PutEntry` | sockets/src/main/kotlin/Sockets.kt:87 | `MutableMap.put` keeps the map well formed. A new name is appended to the insertion order. A name already present keeps its position and takes the new slot. |
| `Registries.Registry.Values` | sockets/src/main/kotlin/Sockets.kt:114-116 | `sockets()` is the listing of the fold of every put made so far, in insertion order (`Listing(Declare(declared))`), so `DeclarationOrder` applies to the object itself. It has one slot per registered name; every registered slot appears, and nothing else does (BindableProps.kt:108-110 `properties()` is the same). |
| `Registries.Registry.Put` | sockets/src/main/kotlin/Sockets.kt:87 | A put on the shared map is `PutEntry` on its table and appends the pair to the history, so the map is always the fold `Declare` of the pairs put since `mutableMapOf()`. |
| `Registries.Registry.Get` | sockets/src/main/kotlin/Sockets.kt:118-120 | `get(name)` returns none exactly when the name was never registered, and otherwise returns the slot last put under that name, which is one of the listed slots (BindableProps.kt:112-114 is the same). |
| `Registries.LookupAbsent` | bindable-properties/src/main/kotlin/BindableProps.kt:112-114 | Lookup returns none exactly for names missing from the insertion order. Any slot it finds is in the listing. |
| `Registries.DeclarationOrder` | bindable-properties/src/main/kotlin/BindableProps.kt:108-110 | Registering slots under distinct names lists them in declaration order, and each name looks up its own slot. |
| `Registries.EagerProvider.ProvideDelegate` | sockets/src/main/kotlin/Sockets.kt:85-89 | Creates a non-nullable slot named after the property, with the provider's tag and value, and puts it into the shared map under that name. Get(name) then returns it, and its get returns the value (BindableProps.kt:79-83 is the same). |
| `Registries.DeferredProvider.ProvideDelegate` | sockets/src/main/kotlin/Sockets.kt:96-100 | Creates a lateinit slot named after the property, with the provider's tag, and puts it under that name. Get(name) then returns it, and its get throws UninitializedPropertyAccess (BindableProps.kt:90-94 is the same). |
| `Registries.Bind` | bindable-properties/src/main/kotlin/BindableProps.kt:117-123 | The companion `bind`. If either delegate is not a slot, nothing changes. Otherwise it is exactly `bindTo`: TypeCast with no change on a tag mismatch, else the first slot is bound to the second (Sockets.kt:123-129 is the same). |
| `Scenarios.DeclareSubject` | sockets/src/test/kotlin/SocketsSpec.kt:11-16 | Declaring the test owner through the providers yields a lateinit slot, a slot with a default value, a nullable slot holding null, and a plain slot, with their names and tags, and the owner's map holds exactly those four puts in declaration order. |
| `Scenarios.DeclareOther` | sockets/src/test/kotlin/SocketsSpec.kt:18-21 | Declaring the second test owner yields a `String` slot "socket" holding "" and an `Int` slot "otherSocket" holding 1, and its map holds those two puts. |
| `Scenarios.SubjectListing` | sockets/src/test/kotlin/SocketsSpec.kt:11-16 | The fold of the test owner's four declarations lists their slots in declaration order. |
| `Scenarios.SubjectLookups` | sockets/src/test/kotlin/SocketsSpec.kt:75 | In the test owner, "socket" looks up its own slot, and the undeclared "property" looks up none. |
| `Scenarios.SubjectListed` | sockets/src/test/kotlin/SocketsSpec.kt:53-60 | `sockets().map { it.name }` on the test owner is exactly the four property names in declaration order. |
| `Scenarios.UnknownName` | sockets/src/test/kotlin/SocketsSpec.kt:62-63 | `subject["property"]` on a freshly declared test owner returns null (none). |
| `Scenarios.UnboundSlots` | sockets/src/test/kotlin/SocketsSpec.kt:26-41 | Replays the four scenarios at these lines on a fresh owner: the lateinit slot throws UninitializedPropertyAccess before a set and returns "Some string" after one; the default slot returns "Default value"; the nullable slot returns null. |
| `Scenarios.BindChecksTypes` | sockets/src/test/kotlin/SocketsSpec.kt:68-72 | Binding `subject["socket"]` to `otherSubject["otherSocket"]` fails with TypeCast, which is what the test checks. As an extra check that a failed bind changes nothing, the slot still reads "" afterwards on fresh owners. |
| `Scenarios.BindSharesState` | sockets/src/test/kotlin/SocketsSpec.kt:47-51 | After binding `subject.socket` to `otherSubject.socket`, setting the other to "Changed value" makes both read "Changed value". |

## Left out

- Kotlin reflection: `isAccessible`, `getDelegate` and the property handles.
  `Registries.Bind` takes the two delegates already resolved: a slot
  identifier, or `OtherDelegate` for anything that is not a slot.
- The `any` and `property` parameters of getValue and setValue. They are
  ignored pass-throughs in the source.
- Reified `T::class` capture and the unchecked cast. A tag is an abstract type
  compared only for equality, so the model does not capture that `String` and
  `String?` share `String::class`.
- Kotlin's static nullability. The model lets any slot be set to null, while
  the Kotlin compiler rejects `set(null)` on a slot of non-nullable type.
- `SocketsHolder`, `PropsHolder`, `by sockets`, the `socket`/`prop` and
  `lateinitSocket`/`lateinitProp` factory functions, and the extension
  functions. They only construct providers and forward to the owner.
- Engine.SlotStore.GetValue: requires the slot's binding chain to be finite
  (`Resolvable`). On a binding cycle the source recurses until the stack
  overflows; `BindResolvableIff` says exactly which bind creates such a cycle.
- Engine.SlotStore.SetValue: requires a finite binding chain, for the same
  reason as GetValue.
- Object identity is a `SlotId` in one store, and identities are never reused.
  Garbage collection is not modelled.
- The access-delegated-property-delegate experiment and the build
  configuration. They hold no engine logic.
