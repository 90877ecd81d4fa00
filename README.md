# Burner list task store, modelled in Dafny

This project models the task store of the burner-list kitchen simulation: the store in
`src/store/useStore.ts`. A player puts cooking tasks on stations. There are four front burners,
plus a back burner, an oven, a note board and a sink. Each task carries a slot on its station and
a deadline. A front-burner task passes through raw, cooking, critical and burnt as its deadline
approaches. Completing a task counts it, and counts it as burnt if it was burnt at that moment.

Files and modules:

- `tasks.dfy`, module `Tasks`: the `Task` record, the `TaskType`, `TaskState` and `CameraView`
  enumerations. It also holds the list operations the store is built from: `Filter`
  (`Array.prototype.filter`), the per-type selectors `FilterKind`, `RemoveId`, `FindTask`
  (`find`) and `UpdateWhere` (the `map` with an object spread).
- `lifecycle.dfy`, module `Lifecycle`: `calculateBurnProgress` as `BurnProgress` and
  `deriveTaskState` as `DeriveState`, with the lemmas about the four bands.
- `slots.dfy`, module `Slots`: the slot allocator. `AvailableSlot` is its specification as a
  function. `GetAvailableSlot` is the source's loop, proved equal to it. `HasAvailableSlot` is
  also here.
- `store.dfy`, module `Store`: the registry invariant `TasksValid`, lemmas that every update of
  the task list preserves it, and the class `TaskStore`. The class holds the store's state and
  has one method per action.

Modelling decisions:

- `Date.now()` becomes a `now: int` parameter. `uuidv4()` becomes a `freshId` parameter that the
  caller guarantees is not already an id in the registry.
- The source's field `type` is called `kind`, because `type` is a Dafny keyword. An optional
  string is an `Option<string>`. An `updateTask` argument is a `TaskPatch`, where `None` means the
  key is absent.
- Burn progress is JavaScript's `elapsed / duration`. When the duration is non-zero, the model
  uses the exact rational quotient. When the duration is zero, JavaScript gives +Infinity,
  -Infinity or NaN depending on the sign of `elapsed`. The model keeps these as separate
  `Progress` values, and `Below` compares them the way JavaScript's `<` does. So `DeriveState`
  is total, and `addTask` needs no precondition on the duration. The store does not validate the
  duration either.
- The band lemmas assume `deadline > createdAt`, which is what a positive duration gives. Under
  that assumption each threshold becomes integer cross-multiplication: `p < 0.2` is
  `5 * elapsed < duration`, `p < 0.8` is `5 * elapsed < 4 * duration`, and `p < 1.0` is
  `elapsed < duration`.
- Registry invariant (`TasksValid`):
  - ids are pairwise distinct;
  - two tasks of the same type never share a slot;
  - slot ids are non-negative;
  - front slots lie in 0..3.

  Every action preserves it, and so does `burntCount <= completedCount`.

For the unbounded types the allocator looks only at the tasks present now. The next offer is one
more than the largest slot of the type still present, so slot ids of a type do not keep rising
across removals, and a freed slot can be offered again. `RemoveNeverRaisesOffer` and
`RemovingTopSlotLowersOffer` state this.

## Model

| member | source | states |
|---|---|---|
| Tasks.FilterKind | src/store/useStore.ts:151-155 | the per-type selectors keep exactly the tasks of that type and never grow the list |
| Tasks.FindTask | src/store/useStore.ts:127-128 | none exactly when no task has the id; otherwise a task with that id, with no earlier task carrying it (the first match) |
| Tasks.ApplyPatch | src/store/useStore.ts:116 | merging an update keeps id, type, timestamps and slot; each key present in the update replaces that field, and an absent key keeps it |
| Tasks.UpdateWhere | src/store/useStore.ts:114-124 | the updated list has the same length and order; tasks with another id are unchanged; every task keeps its id, type, createdAt, deadline and slotId |
| Tasks.UpdateAbsentIsNoOp | src/store/useStore.ts:114-118 | an update naming an unknown id leaves the list as it was |
| Tasks.RemoveId | src/store/useStore.ts:139-143 | the filtered list holds exactly the tasks whose id differs from the given one |
| Tasks.RemoveAbsentIsNoOp | src/store/useStore.ts:139-143 | removing an unknown id leaves the list as it was |
| Lifecycle.BurnProgress | src/store/useStore.ts:43-48 | for a non-zero duration the progress times the duration is the elapsed time; for a zero duration it is not a finite ratio |
| Lifecycle.DeriveState | src/store/useStore.ts:50-58 | the classifier itself, with no contract of its own; its meaning is stated by FrontStateBands (front tasks) and NonFrontIgnoresTime (all other types) |
| Lifecycle.FrontStateBands | src/store/useStore.ts:50-58 | for a front task with deadline > createdAt: raw iff p < 0.2, cooking iff 0.2 <= p < 0.8, critical iff 0.8 <= p < 1, burnt iff p >= 1, each as integer cross-multiplication |
| Lifecycle.NonFrontIgnoresTime | src/store/useStore.ts:51 | back, oven, note and sink tasks are cooking at every time |
| Lifecycle.StateMonotone | src/store/useStore.ts:50-58 | for deadline > createdAt, a later time never gives an earlier state in raw, cooking, critical, burnt |
| Lifecycle.EveryFrontStateOccurs | src/store/useStore.ts:53-57 | a front task of at least 5 ms is raw at creation, cooking and critical at the start of those bands, and burnt at its deadline |
| Lifecycle.ZeroDurationBurnsAtOnce | src/store/useStore.ts:43-57 | with a zero duration (NaN or infinite progress) a front task is raw before its creation time and burnt from then on |
| Lifecycle.NegativeDurationNeverBurns | src/store/useStore.ts:43-57 | with a negative duration a front task is raw at every time from its creation on |
| Slots.UsedSlots | src/store/useStore.ts:68-69 | the used set holds exactly the slot ids of the tasks of the type: every such task's slot is in it, and each member is held by some task of the type |
| Slots.MaxSlot | src/store/useStore.ts:65 | the maximum is one of the slot ids and no slot id exceeds it |
| Slots.FirstFree | src/store/useStore.ts:72-75 | the result is the least unused slot from the start up to 3, or none exactly when all of them are used |
| Slots.AvailableSlot | src/store/useStore.ts:60-76 | front: the least of 0..3 no front task uses, none exactly when all four are used; other types: never none, 0 with no task of the type, otherwise above every slot of the type and equal to its maximum plus one |
| Slots.GetAvailableSlot | src/store/useStore.ts:60-76 | the loop over the four burners with its early return computes the allocator's result |
| Slots.HasAvailableSlot | src/store/useStore.ts:173-175 | true exactly when a slot would be allocated: always for the unbounded types, and for front iff some burner in 0..3 is unused |
| Slots.FrontAvailableIffFewerThanFour | src/store/useStore.ts:173-175 | when front slots lie in 0..3, a front slot is available iff fewer than four distinct front slots are in use |
| Store.NewTask | src/store/useStore.ts:94-106 | the new task carries the given id, title, type, notes and content, the allocated slot, createdAt = now and deadline - createdAt = durationMinutes · 60000 |
| Store.AppendAllocatedKeepsValid | src/store/useStore.ts:94-111 | appending a task with a fresh id on the allocated slot keeps ids unique, slots unique per type and front slots in 0..3 |
| Store.RemoveKeepsValid | src/store/useStore.ts:139-143 | filtering out an id keeps the registry invariant |
| Store.UpdateKeepsValid | src/store/useStore.ts:114-124 | updating title, notes or content keeps the registry invariant |
| Store.RemovePresentDropsOne | src/store/useStore.ts:133 | with unique ids, filtering out a present id shortens the list by exactly one |
| Store.AddThenRemoveRestores | src/store/useStore.ts:139-143 | appending a task with a fresh id and then removing it restores the list, and with it the slot the allocator offers |
| Store.FrontTasksMatchFrontSlots | src/store/useStore.ts:68-75 | under the invariant, the number of distinct front slots in use equals the number of front tasks |
| Store.FrontCountBound | src/store/useStore.ts:171 | under the invariant, the active burner count is at most four |
| Store.FrontSlotIffFewerThanFourTasks | src/store/useStore.ts:88-92 | under the invariant, a front slot is offered iff fewer than four front tasks are active, so a fifth front task is refused |
| Store.RemoveNeverRaisesOffer | src/store/useStore.ts:61-66 | for the unbounded types, under the invariant, removing any task never raises the slot offered next |
| Store.RemovingTopSlotLowersOffer | src/store/useStore.ts:61-66 | removing the task on the largest slot m of an unbounded type brings the next offer down to at most m, and to exactly m when m - 1 is still held or m is 0 |
| Store.TaskStore.constructor | src/store/useStore.ts:78-85 | the store starts with no tasks, both counters 0, every flag false and the front camera view |
| Store.TaskStore.AddTask | src/store/useStore.ts:87-112 | with no slot, nothing changes; otherwise exactly the new task is appended, with createdAt = now, deadline = now + minutes·60000, the allocated slot and the given fields; the modal closes and the counters stay; the invariant holds |
| Store.TaskStore.UpdateTask | src/store/useStore.ts:114-118 | the list becomes the id-directed merge; an unknown id is a no-op; the counters stay and the invariant holds |
| Store.TaskStore.UpdateTaskNotes | src/store/useStore.ts:120-124 | as UpdateTask with notes as the only key |
| Store.TaskStore.CompleteTask | src/store/useStore.ts:126-137 | an unknown id is a no-op; otherwise that task is removed and the list shrinks by one; completedCount rises by 1; burntCount rises by 1 iff the task is burnt at now; both counters never decrease |
| Store.TaskStore.RemoveTask | src/store/useStore.ts:139-143 | only the task with the id is filtered out, and the list shrinks by one iff the id was present; the counters stay |
| Store.TaskStore.SetModalOpen | src/store/useStore.ts:145 | sets modalOpen and nothing else |
| Store.TaskStore.SetCounterNoteOpen | src/store/useStore.ts:146 | sets counterNoteOpen and nothing else |
| Store.TaskStore.SetCameraView | src/store/useStore.ts:147 | sets cameraView and nothing else |
| Store.TaskStore.UnlockAudio | src/store/useStore.ts:148 | sets audioUnlocked to true and nothing else |

`Store.SteakScenario` is a client of the store. A ten-minute front task created at time 0 takes
burner 0 and its deadline is 600000. It is raw at 119999, cooking at 120000 and burnt at 600000.
Completing it then counts one completed task and one burnt task.

## Left out

- Floating-point rounding: progress is the exact rational quotient. Near a threshold, a rounded
  double could fall on the other side. Timestamps beyond 2^53 ms are not modelled either.
- Fractional `durationMinutes` is not modelled: the duration is an integer. The callers pass
  `parseInt` results clamped to at least 1.
- An update object with a key that is present but set to `undefined` is not modelled. In the
  source that key would overwrite the field with `undefined`.
- `Date.now()` and `uuidv4()` are parameters. The model does not capture the clock or the
  randomness, and it does not prove that a generated id is unique; the caller guarantees it.
- zustand's `create`/`set`, subscriptions and change notification are left out. Each action's
  `set` is one assignment to the class fields.
- `console.warn` on a refused `addTask` is left out. The refusal is observable only as an
  unchanged state, as in the source.
- `Math.max(...)` over a spread argument can throw for very large arrays. The model has no such
  limit.
- The selectors that return a store field or an action unchanged (`selectTasks`,
  `selectCompleteTask`, `selectModalOpen`, …) are plain field reads of `TaskStore`. They get no
  members of their own.
- Everything outside the store is left out: the 3D scene, camera, particles, audio, modals, the
  2D fallback, the WebGL probe and the display formatting.
