/**
 * The task store: the registry of active tasks, the two session counters
 * and the UI flags, with the actions that replace them. The clock sample
 * and the fresh id the source draws from `Date.now()` and `uuidv4()` are
 * parameters of the actions.
 */
module Store {
  import opened Tasks
  import opened Lifecycle
  import opened Slots

  /** `durationMinutes * 60 * 1000`. */
  const MillisPerMinute: int := 60 * 1000

  /** Two distinct registry entries never share an id, nor a slot within one type. */
  predicate Compatible(a: Task, b: Task) {
    a.id != b.id && (a.kind == b.kind ==> a.slotId != b.slotId)
  }

  /** Slot ids start at 0, and front slots name one of the four burners. */
  predicate SlotInRange(t: Task) {
    0 <= t.slotId && (t.kind == Front ==> t.slotId < FrontSlotCount)
  }

  /** The registry invariant every action preserves. */
  predicate TasksValid(tasks: seq<Task>) {
    && (forall i, j :: 0 <= i < j < |tasks| ==> Compatible(tasks[i], tasks[j]))
    && (forall t :: t in tasks ==> SlotInRange(t))
  }

  /** The task `addTask` builds once a slot has been found. */
  function NewTask(id: string, title: string, kind: TaskType, durationMinutes: int,
                   notes: Option<string>, content: Option<string>, now: int, slot: int): (t: Task)
    ensures t.id == id && t.kind == kind && t.slotId == slot
    ensures t.title == title && t.notes == notes && t.content == content
    ensures t.createdAt == now && t.deadline - t.createdAt == durationMinutes * MillisPerMinute
  {
    Task(id, title, notes, content, kind, now, now + durationMinutes * MillisPerMinute, slot)
  }

  /**
   * Appending a task with an unused id on the slot the allocator offers keeps
   * the invariant: in particular front slots stay distinct and within 0..3.
   */
  lemma AppendAllocatedKeepsValid(tasks: seq<Task>, t: Task)
    requires TasksValid(tasks)
    requires t.id !in Ids(tasks)
    requires AvailableSlot(tasks, t.kind) == Some(t.slotId)
    ensures TasksValid(tasks + [t])
  {
  }

  /** Removing tasks keeps the invariant, since the survivors keep their order. */
  lemma RemoveKeepsValid(tasks: seq<Task>, id: string)
    requires TasksValid(tasks)
    ensures TasksValid(RemoveId(tasks, id))
  {
    FilterKeepsPairwise(tasks, WithoutId(id), (a, b) => Compatible(a, b));
  }

  /** Updating title, notes or content keeps the invariant. */
  lemma UpdateKeepsValid(tasks: seq<Task>, id: string, p: TaskPatch)
    requires TasksValid(tasks)
    ensures TasksValid(UpdateWhere(tasks, id, p))
  {
    var r := UpdateWhere(tasks, id, p);
    forall i, j | 0 <= i < j < |r| ensures Compatible(r[i], r[j]) {
      assert Compatible(tasks[i], tasks[j]);
    }
    forall u | u in r ensures SlotInRange(u) {
      var i :| 0 <= i < |r| && r[i] == u;
      assert tasks[i] in tasks;
    }
  }

  /** Since ids are unique, removing a present id takes out exactly one task. */
  lemma {:induction false} RemovePresentDropsOne(tasks: seq<Task>, id: string)
    requires TasksValid(tasks)
    requires id in Ids(tasks)
    ensures |RemoveId(tasks, id)| == |tasks| - 1
  {
    var rest := tasks[1..];
    assert TasksValid(rest) by {
      forall i, j | 0 <= i < j < |rest| ensures Compatible(rest[i], rest[j]) {
        assert rest[i] == tasks[i + 1] && rest[j] == tasks[j + 1];
      }
    }
    assert Ids(tasks) == {tasks[0].id} + Ids(rest);
    if tasks[0].id == id {
      assert id !in Ids(rest) by {
        forall u | u in rest ensures u.id != id {
          var k :| 0 <= k < |rest| && rest[k] == u;
          assert Compatible(tasks[0], tasks[k + 1]);
        }
      }
      RemoveAbsentIsNoOp(rest, id);
    } else {
      RemovePresentDropsOne(rest, id);
    }
  }

  /**
   * Round trip: appending a task with a fresh id and then removing that id
   * gives back the registry before the append, so a freed slot is offered again.
   */
  lemma AddThenRemoveRestores(tasks: seq<Task>, t: Task)
    requires t.id !in Ids(tasks)
    ensures RemoveId(tasks + [t], t.id) == tasks
    ensures AvailableSlot(RemoveId(tasks + [t], t.id), t.kind) == AvailableSlot(tasks, t.kind)
  {
    FilterAppend(tasks, t, WithoutId(t.id));
    RemoveAbsentIsNoOp(tasks, t.id);
  }

  /** Tasks with pairwise distinct slots carry as many slot ids as there are tasks. */
  lemma {:induction false} DistinctSlotsSize(s: seq<Task>)
    requires forall i, j :: 0 <= i < j < |s| ==> s[i].slotId != s[j].slotId
    ensures |SlotIds(s)| == |s|
  {
    if s != [] {
      var rest := s[1..];
      forall i, j | 0 <= i < j < |rest| ensures rest[i].slotId != rest[j].slotId {
        assert rest[i] == s[i + 1] && rest[j] == s[j + 1];
      }
      DistinctSlotsSize(rest);
      assert SlotIds(s) == {s[0].slotId} + SlotIds(rest) by {
        assert forall u :: u in s <==> u == s[0] || u in rest;
      }
      assert s[0].slotId !in SlotIds(rest) by {
        forall u | u in rest ensures u.slotId != s[0].slotId {
          var k :| 0 <= k < |rest| && rest[k] == u;
          assert u == s[k + 1];
        }
      }
    }
  }

  /** Under the invariant, each active front task holds its own burner. */
  lemma FrontTasksMatchFrontSlots(tasks: seq<Task>)
    requires TasksValid(tasks)
    ensures |UsedSlots(tasks, Front)| == |FilterKind(tasks, Front)|
  {
    var fronts := FilterKind(tasks, Front);
    FilterKeepsPairwise(tasks, OfKind(Front), (a, b) => Compatible(a, b));
    forall i, j | 0 <= i < j < |fronts| ensures fronts[i].slotId != fronts[j].slotId {
      assert Compatible(fronts[i], fronts[j]);
      assert fronts[i] in fronts && fronts[j] in fronts;
    }
    DistinctSlotsSize(fronts);
  }

  /**
   * `selectActiveBurnerCount` never exceeds four: at most four front tasks
   * are ever active at once.
   */
  lemma FrontCountBound(tasks: seq<Task>)
    requires TasksValid(tasks)
    ensures |FilterKind(tasks, Front)| <= FrontSlotCount
  {
    FrontTasksMatchFrontSlots(tasks);
    assert UsedSlots(tasks, Front) <= AllFrontSlots();
    SubsetSize(UsedSlots(tasks, Front), AllFrontSlots());
  }

  /**
   * With four front tasks active no front slot is offered, so a further
   * front `addTask` changes nothing; with fewer, one always is.
   */
  lemma FrontSlotIffFewerThanFourTasks(tasks: seq<Task>)
    requires TasksValid(tasks)
    ensures AvailableSlot(tasks, Front).Some? <==> |FilterKind(tasks, Front)| < FrontSlotCount
  {
    FrontTasksMatchFrontSlots(tasks);
    FrontAvailableIffFewerThanFour(tasks);
  }

  /**
   * For the unbounded types the allocator looks only at the tasks present:
   * removing a task never raises the slot offered next.
   */
  lemma RemoveNeverRaisesOffer(tasks: seq<Task>, id: string, kind: TaskType)
    requires TasksValid(tasks)
    requires kind != Front
    ensures AvailableSlot(RemoveId(tasks, id), kind).value <= AvailableSlot(tasks, kind).value
  {
    OfferNonNegative(tasks, kind);
    OfferBoundedBy(RemoveId(tasks, id), kind, AvailableSlot(tasks, kind).value);
  }

  /** With unique slots per type, the other tasks of `t`'s type sit below `t` when none sits above it. */
  lemma OthersBelow(tasks: seq<Task>, t: Task)
    requires TasksValid(tasks) && t in tasks
    requires forall u :: u in tasks && u.kind == t.kind ==> u.slotId <= t.slotId
    ensures forall u :: u in RemoveId(tasks, t.id) && u.kind == t.kind ==> u.slotId < t.slotId
  {
    forall u | u in RemoveId(tasks, t.id) && u.kind == t.kind ensures u.slotId < t.slotId {
      var i :| 0 <= i < |tasks| && tasks[i] == u;
      var j :| 0 <= j < |tasks| && tasks[j] == t;
      if i < j { assert Compatible(tasks[i], tasks[j]); }
      if j < i { assert Compatible(tasks[j], tasks[i]); }
    }
  }

  /**
   * Removing the task that holds the largest slot `m` of an unbounded type
   * brings the next offer down to at most `m`, and to exactly `m` when
   * `m - 1` is still held (or `m` is 0): slot ids of a type do not keep
   * rising across removals, since the offer is one more than the largest
   * slot still present.
   */
  lemma RemovingTopSlotLowersOffer(tasks: seq<Task>, t: Task)
    requires TasksValid(tasks)
    requires t in tasks && t.kind != Front
    requires AvailableSlot(tasks, t.kind) == Some(t.slotId + 1)
    ensures AvailableSlot(RemoveId(tasks, t.id), t.kind).value <= t.slotId
    ensures t.slotId == 0 || t.slotId - 1 in UsedSlots(RemoveId(tasks, t.id), t.kind) ==>
              AvailableSlot(RemoveId(tasks, t.id), t.kind).value == t.slotId
  {
    var rest := RemoveId(tasks, t.id);
    assert forall u :: u in tasks && u.kind == t.kind ==> u.slotId <= t.slotId;
    OthersBelow(tasks, t);
    assert SlotInRange(t);
    OfferBoundedBy(rest, t.kind, t.slotId);
    RemoveKeepsValid(tasks, t.id);
    assert forall u :: u in rest ==> SlotInRange(u);
    OfferNonNegative(rest, t.kind);
    var r := AvailableSlot(rest, t.kind);
    assert r.Some? && 0 <= r.value <= t.slotId;
    if t.slotId - 1 in UsedSlots(rest, t.kind) {
      assert SlotHeld(rest, t.kind, t.slotId - 1);
      var u :| u in rest && u.kind == t.kind && u.slotId == t.slotId - 1;
      assert u.slotId < r.value;
    }
  }

  class TaskStore {
    var tasks: seq<Task>
    var audioUnlocked: bool
    var modalOpen: bool
    var counterNoteOpen: bool
    var cameraView: CameraView
    var completedCount: nat
    var burntCount: nat

    ghost predicate Valid()
      reads this
    {
      TasksValid(tasks) && burntCount <= completedCount
    }

    /** The initial store. */
    constructor ()
      ensures Valid()
      ensures tasks == [] && completedCount == 0 && burntCount == 0
      ensures !audioUnlocked && !modalOpen && !counterNoteOpen && cameraView == FrontView
    {
      tasks := [];
      audioUnlocked := false;
      modalOpen := false;
      counterNoteOpen := false;
      cameraView := FrontView;
      completedCount := 0;
      burntCount := 0;
    }

    /**
     * `addTask`. With no slot available nothing changes; otherwise exactly
     * one task is appended and the creation form is closed.
     */
    method AddTask(title: string, kind: TaskType, durationMinutes: int,
                   notes: Option<string>, content: Option<string>, now: int, freshId: string)
      requires Valid()
      requires freshId !in Ids(tasks)
      modifies this
      ensures Valid()
      ensures AvailableSlot(old(tasks), kind).None? ==>
                tasks == old(tasks) && modalOpen == old(modalOpen)
      ensures AvailableSlot(old(tasks), kind).Some? ==>
                && tasks == old(tasks) + [NewTask(freshId, title, kind, durationMinutes, notes, content,
                                                  now, AvailableSlot(old(tasks), kind).value)]
                && !modalOpen
      ensures completedCount == old(completedCount) && burntCount == old(burntCount)
      ensures audioUnlocked == old(audioUnlocked) && counterNoteOpen == old(counterNoteOpen)
      ensures cameraView == old(cameraView)
    {
      var slot := GetAvailableSlot(tasks, kind);
      if slot.None? {
        return;
      }
      var task := NewTask(freshId, title, kind, durationMinutes, notes, content, now, slot.value);
      AppendAllocatedKeepsValid(tasks, task);
      tasks := tasks + [task];
      modalOpen := false;
    }

    /** `updateTask`: merges the patch into the task with `id`, if any. */
    method UpdateTask(id: string, patch: TaskPatch)
      requires Valid()
      modifies this`tasks
      ensures Valid()
      ensures tasks == UpdateWhere(old(tasks), id, patch)
      ensures id !in Ids(old(tasks)) ==> tasks == old(tasks)
    {
      UpdateKeepsValid(tasks, id, patch);
      if id !in Ids(tasks) {
        UpdateAbsentIsNoOp(tasks, id, patch);
      }
      tasks := UpdateWhere(tasks, id, patch);
    }

    /** `updateTaskNotes`: replaces the notes of the task with `id`, if any. */
    method UpdateTaskNotes(id: string, notes: string)
      requires Valid()
      modifies this`tasks
      ensures Valid()
      ensures tasks == UpdateWhere(old(tasks), id, TaskPatch(None, Some(notes), None))
      ensures id !in Ids(old(tasks)) ==> tasks == old(tasks)
    {
      UpdateTask(id, TaskPatch(None, Some(notes), None));
    }

    /**
     * `completeTask`: a no-op for an unknown id. Otherwise the task leaves
     * the registry, `completedCount` goes up by one, and `burntCount` goes
     * up by one exactly when the task is burnt at `now`.
     */
    method CompleteTask(id: string, now: int)
      requires Valid()
      modifies this`tasks, this`completedCount, this`burntCount
      ensures Valid()
      ensures id !in Ids(old(tasks)) ==>
                tasks == old(tasks) && completedCount == old(completedCount) && burntCount == old(burntCount)
      ensures id in Ids(old(tasks)) ==>
                && tasks == RemoveId(old(tasks), id)
                && |tasks| == |old(tasks)| - 1
                && completedCount == old(completedCount) + 1
                && burntCount == old(burntCount)
                                 + (if DeriveState(FindTask(old(tasks), id).value, now) == Burnt then 1 else 0)
      ensures old(completedCount) <= completedCount && old(burntCount) <= burntCount
    {
      var found := FindTask(tasks, id);
      if found.None? {
        return;
      }
      var wasBurnt := DeriveState(found.value, now) == Burnt;
      RemoveKeepsValid(tasks, id);
      RemovePresentDropsOne(tasks, id);
      tasks := RemoveId(tasks, id);
      completedCount := completedCount + 1;
      if wasBurnt {
        burntCount := burntCount + 1;
      }
    }

    /** `removeTask`: takes the task with `id` out; the counters never change. */
    method RemoveTask(id: string)
      requires Valid()
      modifies this`tasks
      ensures Valid()
      ensures tasks == RemoveId(old(tasks), id)
      ensures id !in Ids(old(tasks)) ==> tasks == old(tasks)
      ensures id in Ids(old(tasks)) ==> |tasks| == |old(tasks)| - 1
    {
      RemoveKeepsValid(tasks, id);
      if id !in Ids(tasks) {
        RemoveAbsentIsNoOp(tasks, id);
      } else {
        RemovePresentDropsOne(tasks, id);
      }
      tasks := RemoveId(tasks, id);
    }

    method SetModalOpen(open: bool)
      modifies this`modalOpen
      ensures modalOpen == open
    {
      modalOpen := open;
    }

    method SetCounterNoteOpen(open: bool)
      modifies this`counterNoteOpen
      ensures counterNoteOpen == open
    {
      counterNoteOpen := open;
    }

    method SetCameraView(view: CameraView)
      modifies this`cameraView
      ensures cameraView == view
    {
      cameraView := view;
    }

    method UnlockAudio()
      modifies this`audioUnlocked
      ensures audioUnlocked
    {
      audioUnlocked := true;
    }
  }

  /**
   * A ten-minute steak on an empty stove: it takes burner 0 with its deadline
   * 600000 ms later, is raw 1 ms before the first fifth, cooking at it, and
   * burnt at the deadline, where completing it counts it as burnt.
   */
  method SteakScenario() {
    var store := new TaskStore();
    assert FilterKind([], Front) == [];
    store.AddTask("Steak", Front, 10, None, None, 0, "steak");
    var steak := Task("steak", "Steak", None, None, Front, 0, 600000, 0);
    assert store.tasks == [steak];
    FrontStateBands(steak, 119999);
    FrontStateBands(steak, 120000);
    FrontStateBands(steak, 600000);
    assert DeriveState(steak, 119999) == Raw;
    assert DeriveState(steak, 120000) == Cooking;
    assert DeriveState(steak, 600000) == Burnt;
    assert "steak" in Ids(store.tasks);
    store.CompleteTask("steak", 600000);
    assert store.tasks == [] && store.completedCount == 1 && store.burntCount == 1;
  }
}
