# Pooling layer of Indigo's `tlscont.h`, modelled in Dafny

This project models the object-pooling layer of Indigo's
`common/base_cpp/tlscont.h`:

- `_ReusableVariablesPool<T>`: a growable array of objects plus a stack of vacant indices. `getVacant` pops a vacant index or appends a new object. `release` pushes an index back. `isValid` is a liveness flag that the destructor clears.
- `_ReusableVariablesAutoRelease<T>`: a lease `(idx, pool)`. Its destructor releases `idx` only when it was initialised and the pool is still alive. Here that destructor is the explicit method `Finish`.
- `_LocalVariablesPool`: an ordered pool of type-erased slots with a cursor `index`. Each slot records `hash<T>()`, which is `sizeof(T)`. `getVacant<T>` fills the slot under the cursor or reuses it. It throws "VariablesPool: invalid initialization order" when the recorded fingerprint differs. `reset` rewinds the cursor.
- `_LocalVariablesPoolAutoRelease`: a lease on a `_LocalVariablesPool` drawn from a shared pool. It resets that pool and then releases its index. The `CP_DEF` wiring (`GetLocalPool`) acquires such a lease.
- The `QS_DEF` wiring (`QuasiStatic`) takes one object from a pool and binds a `_ReusableVariablesAutoRelease<T>` lease to it.
- `_SessionLocalContainer<T>::getLocalCopy`: a find-or-insert over a map from session id (`qword`) to an owned, possibly null `T`.

Each class is proved against pure functions on a value of its state:

- `ReusablePool.PoolState` with `Acquired`/`Released`.
- `LocalPool.SlotPool` with `GetVacantSpec`/`Reset`.
- A `map` with `SessionLocal.FindOrInsert`.

The properties are proved as lemmas about those functions:

- the vacant and the leased indices partition the object array;
- last-in first-out reuse;
- the array size equals the peak number of leases held at once;
- replay after `reset` hands back the same storage;
- the order error on a drifting call path;
- the blind spot of a size fingerprint;
- `getLocalCopy` never loses an entry.

Modules: `Wrappers` (Option, Result), `ReusablePool`, `LocalPool` and `SessionLocal`, one per component of the header.

## Model

| member | source | states |
|---|---|---|
| `ReusablePool.Acquired` | common/base_cpp/tlscont.h:118-130 | getVacant hands out an index that was not leased and is below the new array size; afterwards exactly that index is added to the leased ones; the stack stays duplicate-free and in range |
| `ReusablePool.Released` | common/base_cpp/tlscont.h:132-136 | release of a held index keeps the array size and removes exactly that index from the leased ones |
| `ReusablePool.Partition` | common/base_cpp/tlscont.h:118-148 | vacant and leased indices are disjoint, together are exactly `[0, size)`, and their counts add up to the array size |
| `ReusablePool.ReleaseThenAcquire` | common/base_cpp/tlscont.h:121-136 | LIFO: after `release(idx)` the next getVacant returns `idx` and restores the pool's previous state |
| `ReusablePool.AcquireThenRelease` | common/base_cpp/tlscont.h:118-136 | getVacant followed by release of its index restores the pool when a vacant index existed; on an empty stack the one new object stays, now vacant |
| `ReusablePool.SizeIsPeak` | common/base_cpp/tlscont.h:118-136 | over any disciplined sequence of getVacant/release, the final array size is the maximum of the starting size and the peak number of simultaneously leased indices (the array grows only when the stack is empty) |
| `ReusablePool.FromEmpty` | common/base_cpp/tlscont.h:114-136 | from a new pool, the number of objects ever created equals the peak number of simultaneous leases, and the vacant/leased partition holds |
| `ReusablePool.ReusableVariablesPool.constructor` | common/base_cpp/tlscont.h:114 | a new pool is valid, alive and empty |
| `ReusablePool.ReusableVariablesPool.Destroy` | common/base_cpp/tlscont.h:115 | the destructor clears the liveness flag |
| `ReusablePool.ReusableVariablesPool.GetVacant` | common/base_cpp/tlscont.h:118-130 | the new state is `Acquired` of the old one; objects are unchanged on a pop and gain exactly the new object otherwise; the returned object is the one at the returned index |
| `ReusablePool.ReusableVariablesPool.Release` | common/base_cpp/tlscont.h:132-136 | the new state is `Released` of the old one; objects and liveness are unchanged |
| `ReusablePool.ReusableVariablesPool.GetByIndex` | common/base_cpp/tlscont.h:138-141 | returns the object stored at the index, changing nothing |
| `ReusablePool.ReusableVariablesAutoRelease.constructor` | common/base_cpp/tlscont.h:155 | a new lease has index -1 and no pool |
| `ReusablePool.ReusableVariablesAutoRelease.Init` | common/base_cpp/tlscont.h:157-161 | binds the lease to the given index and pool |
| `ReusablePool.ReusableVariablesAutoRelease.Finish` | common/base_cpp/tlscont.h:163-171 | no effect when the lease has no pool or the pool is no longer valid; otherwise exactly one `release(idx)` |
| `ReusablePool.QuasiStatic` | common/base_cpp/tlscont.h:287-292 | QS_DEF takes one object from the pool and binds a fresh lease that holds its index; the object is the one stored at the popped index, or the newly appended one when the stack was empty |
| `LocalPool.HashIsSize` | common/base_cpp/tlscont.h:222-227 | two types get the same fingerprint exactly when their sizes are equal |
| `LocalPool.DistinctTypesShareHash` | common/base_cpp/tlscont.h:222-227 | the fingerprint does not identify a type: two distinct types can share it |
| `LocalPool.Reset` | common/base_cpp/tlscont.h:255-258 | rewinding sets the cursor to 0, keeps slots and fingerprints, and keeps them consistent |
| `LocalPool.Expanded` | common/base_cpp/tlscont.h:232-234 | growing an array to `index + 1` keeps every old cell and fills only the new ones |
| `LocalPool.GetVacantSpec` | common/base_cpp/tlscont.h:229-253 | fails with "invalid initialization order" exactly when the slot under the cursor is filled with another fingerprint, and then changes nothing; otherwise the cursor advances by one, an empty slot is filled with the new storage and its fingerprint, a filled slot hands back its own storage; no filled slot changes and the arrays never shrink |
| `LocalPool.Acquire` | common/base_cpp/tlscont.h:303-309 | the `getVacant<T>` calls of a constructor's `TL_CP_GET` initialisers, in order, stopping at the first order error: the sequence keeps fingerprints consistent and, when it succeeds, returns one storage per acquisition |
| `LocalPool.AcquireKeepsFilled` | common/base_cpp/tlscont.h:232-244 | a sequence of acquisitions never shrinks the arrays and never changes a filled slot |
| `LocalPool.AcquireAdvances` | common/base_cpp/tlscont.h:250-251 | a successful sequence advances the cursor by its length |
| `LocalPool.ReplayFrom` | common/base_cpp/tlscont.h:236-251 | re-running, from the same cursor over the slots a successful run left, types with the same fingerprints returns the same storage in the same order and leaves the same state |
| `LocalPool.ReplayAfterReset` | common/base_cpp/tlscont.h:229-258 | acquire a sequence from a rewound pool, reset, acquire it again: identical storage, nothing allocated, same final state |
| `LocalPool.SameSizeGoesUndetected` | common/base_cpp/tlscont.h:222-227 | after reset, a different sequence of types with the same sizes passes the check and receives the first run's storage |
| `LocalPool.DivergeFrom` | common/base_cpp/tlscont.h:246-248 | a replay that agrees for `j` acquisitions and then asks for a type of another size than the run's `j`-th fails with the order error |
| `LocalPool.DivergeAfterReset` | common/base_cpp/tlscont.h:229-258 | after reset, a call path that drifts to another size at position `j` fails with "invalid initialization order" |
| `LocalPool.LocalVariablesPool.constructor` | common/base_cpp/tlscont.h:208-211 | a new pool has no slots and its cursor at 0 |
| `LocalPool.LocalVariablesPool.GetVacant` | common/base_cpp/tlscont.h:229-253 | errs exactly on a fingerprint mismatch and then leaves the state unchanged; on success the new state and result are `GetVacantSpec` of the old state, with freshly allocated storage when the slot was empty |
| `LocalPool.LocalVariablesPool.Reset` | common/base_cpp/tlscont.h:255-258 | the cursor goes to 0; slots and fingerprints are untouched |
| `LocalPool.LocalVariablesPoolAutoRelease.constructor` | common/base_cpp/tlscont.h:155 | a new lease has index -1 and no pool |
| `LocalPool.LocalVariablesPoolAutoRelease.Finish` | common/base_cpp/tlscont.h:268-281 | when the shared pool is alive, the leased local pool is rewound with its slots kept, and its index is released once; when the lease has no pool or the pool is dead, neither the shared pool nor the leased local pool changes |
| `LocalPool.GetLocalPool` | common/base_cpp/tlscont.h:318-327 | CP_DEF takes a local pool from the shared pool by getVacant and binds the auto-release to its index; it is the very local pool stored at the popped index, or a new empty one appended when the stack was empty; every local pool the shared pool owns stays valid |
| `SessionLocal.FindOrInsert` | common/base_cpp/tlscont.h:82-89 | afterwards `id` owns the returned object; an existing object is returned, a missing or null one is replaced by the new object; all other entries are unchanged and no key disappears |
| `SessionLocal.SecondCallSameObject` | common/base_cpp/tlscont.h:82-89 | a second call with the same id returns the same object and leaves the map unchanged |
| `SessionLocal.CallsAreStable` | common/base_cpp/tlscont.h:82-96 | over any sequence of calls no key is removed, an owned object stays owned, and each call returns the object its id owns at the end |
| `SessionLocal.SessionLocalContainer.constructor` | common/base_cpp/tlscont.h:94 | a new container has no entries |
| `SessionLocal.SessionLocalContainer.GetLocalCopy` | common/base_cpp/tlscont.h:82-89 | the new map and the result are `FindOrInsert` of the old map |
| `SessionLocal.SessionLocalContainer.GetCurrentLocalCopy` | common/base_cpp/tlscont.h:77-80 | `getLocalCopy()` is `getLocalCopy(id)` for the current session id |

## Left out

- Locking: `OsLock`, `OsLocker` and `ThreadSafeStaticObj`. Every operation is one atomic sequential step, and thread safety is not modelled.
- `_SIDManager` (tlscont.h:37-65): only its declaration is in the header. Its implementation and the thread-local storage are not part of this model. `GetCurrentLocalCopy` therefore takes the calling thread's session id as a parameter.
- Construction of `T`: Dafny cannot construct a value of a type parameter. The generic `ReusableVariablesPool.GetVacant`, `QuasiStatic` and `SessionLocalContainer.GetLocalCopy` therefore receive the object that `new T` would build. It is stored only on the path where the source constructs one; on the other path it is ignored, whereas the source never builds it. `GetLocalPool` constructs its new `LocalVariablesPool` itself, before calling `GetVacant`, so one is also built when an index is popped; that one is discarded.
- Raw memory: `malloc`/`free`, placement `new`, `Destructor`/`DestructorT`/`createDestructor` and the `_LocalVariablesPool` destructor. A slot is a tag (standing for its destructor's type) plus a `Storage` reference. Teardown is dropping the state.
- `Array::expandFill`, `PtrArray::expand` and `RedBlackObjMap::findOrInsert` are not part of this model. `expandFill(n, v)` is taken to grow an array to `n` cells filled with `v`. `findOrInsert` followed by `reset(new T)` is taken as one insertion.
- `LocalPool.LocalVariablesPool.GetVacant` does not model a constructor of `T` that throws (tlscont.h:239-240). In the source, the slot then keeps the `malloc` block with fingerprint 0 and no destructor, and the cursor stays. Every later `getVacant` at that position skips allocation and throws the order error, and the destructor calls through the unset destructor. `Consistent` cannot represent that poisoned slot; construction is taken to always succeed.
- `_vacant_indices.reserve` (tlscont.h:128) only sets capacity, so it is left out.
- The session macros `TL_GET_SESSION_ID` to `TL_DEF_EXT` (tlscont.h:68-71, 100-107), `CP_DECL` and `CP_INIT` are left out. Of the macros, `QS_DEF` (`QuasiStatic`) and `CP_DEF` (`GetLocalPool`) are modelled, with their static shared pool as a parameter. The `getVacant<T>` sequence that a constructor's `TL_CP_GET` initialisers expand to is modelled by `LocalPool.Acquire`. `TL_CP_DECL` is only a member declaration.
- Integer widths: pool indices are `nat`, not `int`. The lease index stays `int`, so that its initial value can be -1. An index array larger than 2^31 is not modelled.
- `ReusablePool.ReusableVariablesPool.Release` requires an index held from this pool, and `ReusableVariablesAutoRelease.Finish` requires `Holds()`. The source does not check either one, and leaves both to its callers: double release and cross-pool release corrupt the stack.
- `LocalPool.LocalVariablesPool.GetVacant` advances the cursor only on success. The exception at tlscont.h:247-248 is thrown before `index++`, so on a mismatch the cursor stays where it was. The mismatch is an ordinary C++ exception, modelled as an `Err` result, not an unconditional abort.
