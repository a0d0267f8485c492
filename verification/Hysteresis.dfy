/**
 The hysteresis machine both thermal programs are built on. One report says three things about
 each level of a table, collected in a `Signals` value; index k - 1 speaks about level k. The
 eight search loops of the service and the eight of the protector all compute `Step`.
 */
module Hysteresis {

  datatype Signals = Signals(
    trigger: seq<bool>,  // the trigger threshold of the level is reached
    enter: seq<bool>,    // ... and the extra conditions for climbing into it hold
    keep: seq<bool>      // its clear threshold is not crossed, and the conditions for staying hold
  )

  ghost predicate WellFormed(s: Signals) {
    && |s.enter| == |s.trigger| == |s.keep|
    && forall k | 0 <= k < |s.enter| :: s.enter[k] ==> s.trigger[k]
  }

  function Max(a: int, b: int): int { if a < b then b else a }

  function Min(a: int, b: int): int { if a < b then a else b }

  function Abs(a: int): nat { if a < 0 then -a else a }

  /** The highest level reachable from `level` through entered levels only. */
  function Climb(s: Signals, level: nat): (r: nat)
    requires level <= |s.enter|
    ensures level <= r <= |s.enter|
    ensures forall k | level <= k < r :: s.enter[k]
    ensures r < |s.enter| ==> !s.enter[r]
    decreases |s.enter| - level
  {
    if level < |s.enter| && s.enter[level] then Climb(s, level + 1) else level
  }

  /** The highest level not above `level` that is still kept, or zero. */
  function Fall(s: Signals, level: nat): (r: nat)
    requires level <= |s.keep|
    ensures r <= level
    ensures forall k | r <= k < level :: !s.keep[k]
    ensures r > 0 ==> s.keep[r - 1]
  {
    if level > 0 && !s.keep[level - 1] then Fall(s, level - 1) else level
  }

  /** One report: climb when the next trigger is reached, else fall as far as needed. */
  function Step(s: Signals, level: nat): (r: nat)
    requires WellFormed(s) && level <= |s.trigger|
    ensures r <= |s.trigger|
  {
    if level < |s.trigger| && s.trigger[level] then Climb(s, level) else Fall(s, level)
  }

  /** The same step, described without recursion. */
  ghost predicate IsStep(s: Signals, level: nat, r: nat)
    requires WellFormed(s) && level <= |s.trigger|
  {
    if level < |s.trigger| && s.trigger[level] then
      && level <= r <= |s.enter|
      && (forall k | level <= k < r :: s.enter[k])
      && (r < |s.enter| ==> !s.enter[r])
    else
      && r <= level
      && (forall k | r <= k < level :: !s.keep[k])
      && (r > 0 ==> s.keep[r - 1])
  }

  /** The declarative description has exactly one solution, and it is the computed step. */
  lemma StepIsTheOnlySolution(s: Signals, level: nat, r: nat)
    requires WellFormed(s) && level <= |s.trigger|
    ensures IsStep(s, level, r) <==> r == Step(s, level)
  {}

  /** Reapplying the same signals moves nothing, as long as whatever lets a level be entered
      also lets it be kept. No ordering of the thresholds is needed. */
  lemma StepIdempotent(s: Signals, level: nat)
    requires WellFormed(s) && level <= |s.trigger|
    requires forall k | 0 <= k < |s.enter| :: s.enter[k] ==> s.keep[k]
    ensures Step(s, Step(s, level)) == Step(s, level)
  {}

  // ----- sorted tables without gates -----

  ghost predicate Antitone(bs: seq<bool>) {
    forall i, j | 0 <= i < j < |bs| :: bs[j] ==> bs[i]
  }

  function Count(bs: seq<bool>): (n: nat)
    ensures n <= |bs|
  {
    if bs == [] then 0 else Count(bs[..|bs| - 1]) + if bs[|bs| - 1] then 1 else 0
  }

  lemma {:induction false} CountAll(bs: seq<bool>)
    requires forall k | 0 <= k < |bs| :: bs[k]
    ensures Count(bs) == |bs|
  {
    if bs != [] { CountAll(bs[..|bs| - 1]); }
  }

  /** In an antitone sequence the true entries are exactly the first `Count` ones. */
  lemma {:induction false} CountIsPrefix(bs: seq<bool>, k: nat)
    requires Antitone(bs) && k < |bs|
    ensures bs[k] <==> k < Count(bs)
  {
    var front := bs[..|bs| - 1];
    if bs[|bs| - 1] {
      CountAll(bs);
    } else if k < |bs| - 1 {
      CountIsPrefix(front, k);
      assert front[k] == bs[k];
    }
  }

  lemma BoundaryIsCount(bs: seq<bool>, m: nat)
    requires Antitone(bs) && m <= |bs|
    requires m > 0 ==> bs[m - 1]
    requires m < |bs| ==> !bs[m]
    ensures m == Count(bs)
  {
    if m > 0 { CountIsPrefix(bs, m - 1); }
    if m < |bs| { CountIsPrefix(bs, m); }
  }

  /** What the signals of a sorted table look like when no extra condition is configured. */
  ghost predicate Plain(s: Signals) {
    && WellFormed(s)
    && s.enter == s.trigger
    && Antitone(s.trigger) && Antitone(s.keep)
    && forall k | 0 <= k < |s.trigger| :: s.trigger[k] ==> s.keep[k]
  }

  function Clamp(up: nat, down: nat, level: nat): nat { Max(up, Min(level, down)) }

  /** On a sorted table without gates the machine is a clamp between two counts. */
  lemma PlainStepIsClamp(s: Signals, level: nat)
    requires Plain(s) && level <= |s.trigger|
    ensures Count(s.trigger) <= Count(s.keep)
    ensures Step(s, level) == Clamp(Count(s.trigger), Count(s.keep), level)
  {
    var m := Step(s, level);
    if Count(s.trigger) > 0 {
      CountIsPrefix(s.trigger, Count(s.trigger) - 1);
      CountIsPrefix(s.keep, Count(s.trigger) - 1);
    }
    if level < |s.trigger| { CountIsPrefix(s.trigger, level); }
    if level < |s.trigger| && s.trigger[level] {
      BoundaryIsCount(s.trigger, m);
    } else if m < level {
      BoundaryIsCount(s.keep, m);
    } else if m > 0 {
      CountIsPrefix(s.keep, m - 1);
    }
  }

  /** A gated machine never overtakes the ungated one that sees the same temperature. */
  lemma GatedStepIsDominated(gated: Signals, plain: Signals, lower: nat, upper: nat)
    requires WellFormed(gated) && Plain(plain)
    requires gated.trigger == plain.trigger
    requires forall k | 0 <= k < |gated.keep| :: gated.keep[k] ==> plain.keep[k]
    requires lower <= upper <= |plain.trigger|
    ensures Step(gated, lower) <= Step(plain, upper)
  {
    var m := Step(gated, lower);
    PlainStepIsClamp(plain, upper);
    if m > lower {
      assert gated.enter[m - 1];
      CountIsPrefix(plain.trigger, m - 1);
    } else if lower < |gated.trigger| && gated.trigger[lower] {
      CountIsPrefix(plain.trigger, lower);
    } else if m > 0 {
      CountIsPrefix(plain.keep, m - 1);
    }
  }
}
