/**
 * Burn progress and the lifecycle state derived from it.
 *
 * Progress is the JavaScript number `elapsed / duration`. For a non-zero
 * duration it is modelled as the exact rational quotient; for a zero
 * duration JavaScript yields +Infinity, -Infinity or NaN according to the
 * sign of `elapsed`, and the model keeps those three cases apart because the
 * threshold comparisons treat them differently.
 */
module Lifecycle {
  import opened Tasks

  datatype Progress = Ratio(value: real) | PosInfinity | NegInfinity | NotANumber

  /** `calculateBurnProgress`, with the clock sample `now` passed in. */
  function BurnProgress(t: Task, now: int): (p: Progress)
    ensures t.deadline != t.createdAt ==>
              p.Ratio? && p.value * (t.deadline - t.createdAt) as real == (now - t.createdAt) as real
    ensures t.deadline == t.createdAt ==> !p.Ratio?
  {
    var duration := t.deadline - t.createdAt;
    var elapsed := now - t.createdAt;
    if duration != 0 then Ratio(elapsed as real / duration as real)
    else if elapsed > 0 then PosInfinity
    else if elapsed < 0 then NegInfinity
    else NotANumber
  }

  /** JavaScript's `p < c` for a finite constant `c`; NaN compares false. */
  predicate Below(p: Progress, c: real) {
    match p
    case Ratio(v) => v < c
    case PosInfinity => false
    case NegInfinity => true
    case NotANumber => false
  }

  /** `deriveTaskState`, with the clock sample `now` passed in. */
  function DeriveState(t: Task, now: int): TaskState {
    if t.kind != Front then Cooking
    else
      var p := BurnProgress(t, now);
      if Below(p, 0.2) then Raw
      else if Below(p, 0.8) then Cooking
      else if Below(p, 1.0) then Critical
      else Burnt
  }

  /** Position of a state along raw, cooking, critical, burnt. */
  function Rank(s: TaskState): nat {
    match s
    case Raw => 0
    case Cooking => 1
    case Critical => 2
    case Burnt => 3
  }

  /** For a positive divisor, comparing a quotient is comparing by cross-multiplication. */
  lemma QuotientBelow(e: real, d: real, c: real)
    requires d > 0.0
    ensures e / d < c <==> e < c * d
  {
  }

  /**
   * A positive duration splits time into the four bands at the fractions
   * 1/5, 4/5 and 1 of the duration; each boundary belongs to the later band.
   * Stated with integers: `p < 0.2` is `5 * elapsed < duration`, and so on.
   */
  lemma FrontStateBands(t: Task, now: int)
    requires t.kind == Front && t.deadline > t.createdAt
    ensures var d, e := t.deadline - t.createdAt, now - t.createdAt;
            && (DeriveState(t, now) == Raw <==> 5 * e < d)
            && (DeriveState(t, now) == Cooking <==> d <= 5 * e < 4 * d)
            && (DeriveState(t, now) == Critical <==> 4 * d <= 5 * e < 5 * d)
            && (DeriveState(t, now) == Burnt <==> d <= e)
  {
    var d, e := t.deadline - t.createdAt, now - t.createdAt;
    QuotientBelow(e as real, d as real, 0.2);
    QuotientBelow(e as real, d as real, 0.8);
    QuotientBelow(e as real, d as real, 1.0);
  }

  /** Only front-burner tasks age: every other type reads `cooking` at any time. */
  lemma NonFrontIgnoresTime(t: Task, now1: int, now2: int)
    requires t.kind != Front
    ensures DeriveState(t, now1) == DeriveState(t, now2) == Cooking
  {
  }

  /** As time advances the state never goes back. */
  lemma StateMonotone(t: Task, now1: int, now2: int)
    requires t.deadline > t.createdAt
    requires now1 <= now2
    ensures Rank(DeriveState(t, now1)) <= Rank(DeriveState(t, now2))
  {
    if t.kind == Front {
      FrontStateBands(t, now1);
      FrontStateBands(t, now2);
    }
  }

  /**
   * A front task of at least five milliseconds is raw when created, burnt at
   * its deadline, and is cooking and critical at the first millisecond of
   * those bands.
   */
  lemma EveryFrontStateOccurs(t: Task)
    requires t.kind == Front && t.deadline - t.createdAt >= 5
    ensures var d := t.deadline - t.createdAt;
            && DeriveState(t, t.createdAt) == Raw
            && DeriveState(t, t.createdAt + (d + 4) / 5) == Cooking
            && DeriveState(t, t.createdAt + (4 * d + 4) / 5) == Critical
            && DeriveState(t, t.deadline) == Burnt
  {
    var d := t.deadline - t.createdAt;
    FrontStateBands(t, t.createdAt);
    FrontStateBands(t, t.createdAt + (d + 4) / 5);
    FrontStateBands(t, t.createdAt + (4 * d + 4) / 5);
    FrontStateBands(t, t.deadline);
  }

  /** With a zero duration a front task is raw before its creation time and burnt from then on. */
  lemma ZeroDurationBurnsAtOnce(t: Task, now: int)
    requires t.kind == Front && t.deadline == t.createdAt
    ensures DeriveState(t, now) == (if now < t.createdAt then Raw else Burnt)
  {
  }

  /** With a negative duration the quotient is never positive after creation, so the task stays raw. */
  lemma NegativeDurationNeverBurns(t: Task, now: int)
    requires t.kind == Front && t.deadline < t.createdAt && now >= t.createdAt
    ensures DeriveState(t, now) == Raw
  {
  }
}
