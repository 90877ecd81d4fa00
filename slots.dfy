/**
 * The slot allocator. Front-burner tasks share four bounded slots; every
 * other type has unbounded capacity and uses its slot id only as a tag.
 */
module Slots {
  import opened Tasks

  /** `maxSlots`: the number of front burners. */
  const FrontSlotCount: int := 4

  /** The slot ids carried by `s`. */
  function SlotIds(s: seq<Task>): set<int> {
    set t | t in s :: t.slotId
  }

  /** Some task of type `kind` sits on slot `x`. */
  predicate SlotHeld(tasks: seq<Task>, kind: TaskType, x: int) {
    exists t :: t in tasks && t.kind == kind && t.slotId == x
  }

  /** `usedSlots`: exactly the slot ids of the tasks of one type. */
  function UsedSlots(tasks: seq<Task>, kind: TaskType): (used: set<int>)
    ensures forall t :: t in tasks && t.kind == kind ==> t.slotId in used
    ensures forall x :: x in used <==> SlotHeld(tasks, kind, x)
  {
    SlotIds(FilterKind(tasks, kind))
  }

  /** `Math.max(...s.map(t => t.slotId))` for a non-empty `s`. */
  function MaxSlot(s: seq<Task>): (m: int)
    requires |s| > 0
    ensures m in SlotIds(s)
    ensures forall t :: t in s ==> t.slotId <= m
  {
    if |s| == 1 then s[0].slotId
    else
      var rest := MaxSlot(s[1..]);
      assert forall t :: t in s ==> t == s[0] || t in s[1..];
      if s[0].slotId >= rest then s[0].slotId else rest
  }

  /** The least slot in `from`..3 that is not in `used`, if there is one. */
  function FirstFree(used: set<int>, from: int): (r: Option<int>)
    requires 0 <= from <= FrontSlotCount
    decreases FrontSlotCount - from
    ensures r.Some? ==> from <= r.value < FrontSlotCount && r.value !in used
                        && forall j :: from <= j < r.value ==> j in used
    ensures r.None? ==> forall j :: from <= j < FrontSlotCount ==> j in used
  {
    if from == FrontSlotCount then None
    else if from !in used then Some(from)
    else FirstFree(used, from + 1)
  }

  /**
   * `getAvailableSlot`. For `front`: the least of 0..3 that no front task
   * uses, or none when all four are taken. For every other type: 0 when no
   * task of the type exists, otherwise one more than the largest slot id of
   * the type, so never none.
   */
  function AvailableSlot(tasks: seq<Task>, kind: TaskType): (r: Option<int>)
    ensures kind == Front ==>
              (r.None? <==> forall j :: 0 <= j < FrontSlotCount ==> j in UsedSlots(tasks, Front))
    ensures kind == Front && r.Some? ==>
              && 0 <= r.value < FrontSlotCount
              && r.value !in UsedSlots(tasks, Front)
              && forall j :: 0 <= j < r.value ==> j in UsedSlots(tasks, Front)
    ensures kind != Front ==> r.Some?
    ensures kind != Front && FilterKind(tasks, kind) == [] ==> r == Some(0)
    ensures kind != Front && FilterKind(tasks, kind) != [] ==> r.value - 1 in UsedSlots(tasks, kind)
    ensures kind != Front ==> forall t :: t in tasks && t.kind == kind ==> t.slotId < r.value
  {
    if kind != Front then
      var typed := FilterKind(tasks, kind);
      if |typed| == 0 then Some(0) else Some(MaxSlot(typed) + 1)
    else
      FirstFree(UsedSlots(tasks, Front), 0)
  }

  /** `getAvailableSlot` as the source computes it, with its loop over the four burners. */
  method GetAvailableSlot(tasks: seq<Task>, kind: TaskType) returns (slot: Option<int>)
    ensures slot == AvailableSlot(tasks, kind)
  {
    if kind != Front {
      var typed := FilterKind(tasks, kind);
      if |typed| == 0 {
        return Some(0);
      }
      return Some(MaxSlot(typed) + 1);
    }
    var used := UsedSlots(tasks, kind);
    for i := 0 to FrontSlotCount
      invariant forall j :: 0 <= j < i ==> j in used
    {
      if i !in used {
        return Some(i);
      }
    }
    return None;
  }

  /**
   * `hasAvailableSlot`: always true for the unbounded types, and for `front`
   * true exactly when one of the four burners is unused.
   */
  function HasAvailableSlot(tasks: seq<Task>, kind: TaskType): (b: bool)
    ensures b <==> AvailableSlot(tasks, kind).Some?
    ensures kind != Front ==> b
    ensures kind == Front ==> (b <==> exists j :: 0 <= j < FrontSlotCount && j !in UsedSlots(tasks, Front))
  {
    AvailableSlot(tasks, kind).Some?
  }

  /** For an unbounded type the offer is never negative when no slot id is. */
  lemma OfferNonNegative(tasks: seq<Task>, kind: TaskType)
    requires kind != Front
    requires forall t :: t in tasks ==> t.slotId >= 0
    ensures AvailableSlot(tasks, kind).value >= 0
  {
    var r := AvailableSlot(tasks, kind);
    if FilterKind(tasks, kind) != [] {
      assert SlotHeld(tasks, kind, r.value - 1);
    }
  }

  /** For an unbounded type, a bound on every slot of the type bounds the offer. */
  lemma OfferBoundedBy(tasks: seq<Task>, kind: TaskType, b: int)
    requires kind != Front && b >= 0
    requires forall t :: t in tasks && t.kind == kind ==> t.slotId < b
    ensures AvailableSlot(tasks, kind).value <= b
  {
    var r := AvailableSlot(tasks, kind);
    if FilterKind(tasks, kind) != [] {
      assert SlotHeld(tasks, kind, r.value - 1);
    }
  }

  /** The four front slots as a set. */
  function AllFrontSlots(): set<int> {
    {0, 1, 2, 3}
  }

  /**
   * When every front task sits on one of the four burners, a front slot is
   * available exactly when fewer than four distinct front slots are in use.
   */
  lemma FrontAvailableIffFewerThanFour(tasks: seq<Task>)
    requires forall t :: t in tasks && t.kind == Front ==> 0 <= t.slotId < FrontSlotCount
    ensures HasAvailableSlot(tasks, Front) <==> |UsedSlots(tasks, Front)| < FrontSlotCount
  {
    var used := UsedSlots(tasks, Front);
    assert used <= AllFrontSlots() by {
      forall x | x in used ensures x in AllFrontSlots() {
        assert SlotHeld(tasks, Front, x);
      }
    }
    FreeBurnerIffFewerThanFour(used);
  }

  /** A set of burners drawn from 0..3 misses one of them iff it has fewer than four members. */
  lemma FreeBurnerIffFewerThanFour(used: set<int>)
    requires used <= AllFrontSlots()
    ensures (exists j :: 0 <= j < FrontSlotCount && j !in used) <==> |used| < FrontSlotCount
  {
    var all := AllFrontSlots();
    if exists j :: 0 <= j < FrontSlotCount && j !in used {
      var j :| 0 <= j < FrontSlotCount && j !in used;
      assert used <= all - {j};
      assert |all - {j}| == 3;
      SubsetSize(used, all - {j});
    } else {
      assert used == all;
    }
  }

  lemma SubsetSize(a: set<int>, b: set<int>)
    requires a <= b
    ensures |a| <= |b|
  {
    assert b == a + (b - a);
  }
}
