/** One walker: a one-dimensional random walk from position 0 that stops at
    the first step leaving [-domainSize, domainSize], or after maxSteps steps,
    and then reports its step count exactly once.

    The pseudo-random source is lifted into a parameter: `evenDraws[i]` tells
    whether the (i+1)-th draw of rand() was even, which moves the walker by -1;
    an odd draw moves it by +1. */
module Walker {
  import opened Transport

  /** The move chosen by one draw of rand(): -1 for an even draw, +1 for an odd one. */
  function Move(even: bool): int
  {
    if even then -1 else 1
  }

  /** The walker's position after its first k steps: the sum of the first k moves.
      A unit-step walk after k steps is at most k away from 0 and has k's parity. */
  function Position(evenDraws: seq<bool>, k: nat): (p: int)
    requires k <= |evenDraws|
    ensures -(k as int) <= p <= k
    ensures p % 2 == k % 2
  {
    if k == 0 then 0 else Position(evenDraws, k - 1) + Move(evenDraws[k - 1])
  }

  /** The number of even draws (moves to the left) in s. */
  function EvenCount(s: seq<bool>): (n: nat)
    ensures n <= |s|
  {
    if s == [] then 0 else EvenCount(s[..|s| - 1]) + (if s[|s| - 1] then 1 else 0)
  }

  /** The walker's termination test: the position has left [-domainSize, domainSize]. */
  predicate OutOfBounds(position: int, domainSize: int)
  {
    position < -domainSize || position > domainSize
  }

  /** The walk stayed inside the domain after each of the steps 1..n. */
  ghost predicate InsideUpTo(evenDraws: seq<bool>, domainSize: int, n: int)
    requires n <= |evenDraws|
  {
    forall j: nat :: 1 <= j <= n ==> !OutOfBounds(Position(evenDraws, j), domainSize)
  }

  /** Step k is the first step at which the walk leaves the domain. */
  ghost predicate FirstEscapeAt(evenDraws: seq<bool>, domainSize: int, k: int)
    requires k <= |evenDraws|
  {
    1 <= k && OutOfBounds(Position(evenDraws, k), domainSize) && InsideUpTo(evenDraws, domainSize, k - 1)
  }

  /** Declarative description of what a walker may report: the first escape
      step within the budget, or the budget itself when the walk never escapes. */
  ghost predicate IsWalkerReport(evenDraws: seq<bool>, domainSize: int, maxSteps: int, r: int)
    requires maxSteps <= |evenDraws|
  {
    (r <= maxSteps && FirstEscapeAt(evenDraws, domainSize, r))
    || (r == maxSteps && InsideUpTo(evenDraws, domainSize, maxSteps))
  }

  /** The step count reported when the search for an escape resumes at step k. */
  function EscapeFrom(evenDraws: seq<bool>, domainSize: int, maxSteps: int, k: nat): (r: int)
    requires 1 <= k
    requires maxSteps <= |evenDraws|
    ensures r <= maxSteps
    ensures r == maxSteps || k <= r
    decreases maxSteps - k
  {
    if k > maxSteps then maxSteps
    else if OutOfBounds(Position(evenDraws, k), domainSize) then k
    else EscapeFrom(evenDraws, domainSize, maxSteps, k + 1)
  }

  /** The step count a walker reports: never above the budget, and either the
      budget or a step number from 1 on. */
  function ReportedSteps(evenDraws: seq<bool>, domainSize: int, maxSteps: int): (r: int)
    requires maxSteps <= |evenDraws|
    ensures r <= maxSteps
    ensures r == maxSteps || 1 <= r
  {
    EscapeFrom(evenDraws, domainSize, maxSteps, 1)
  }

  /** The walker process: the step loop, the bounds check after every move and
      the single report on either exit path. `reported` is the number printed
      in the completion line; `outbox` holds what was sent. */
  method WalkerProcess(rank: int, domainSize: int, maxSteps: int, evenDraws: seq<bool>)
    returns (reported: int, outbox: seq<Message>)
    requires maxSteps <= |evenDraws|
    ensures reported == ReportedSteps(evenDraws, domainSize, maxSteps)
    ensures outbox == [Report(rank, reported)]
  {
    var position := 0;
    var steps := 1;
    while steps <= maxSteps
      invariant 1 <= steps && (steps <= maxSteps + 1 || steps == 1)
      invariant position == Position(evenDraws, steps - 1)
      invariant ReportedSteps(evenDraws, domainSize, maxSteps) == EscapeFrom(evenDraws, domainSize, maxSteps, steps)
      decreases maxSteps - steps
    {
      position := position + Move(evenDraws[steps - 1]);
      if OutOfBounds(position, domainSize) {
        reported := steps;
        outbox := [Report(rank, steps)];
        return;
      }
      steps := steps + 1;
    }
    reported := maxSteps;
    outbox := [Report(rank, maxSteps)];
  }

  /** Position counts moves: k steps with e even draws end at k - 2e. */
  lemma {:induction false} PositionCountsMoves(evenDraws: seq<bool>, k: nat)
    requires k <= |evenDraws|
    ensures Position(evenDraws, k) == k - 2 * EvenCount(evenDraws[..k])
  {
    if k > 0 {
      PositionCountsMoves(evenDraws, k - 1);
      assert evenDraws[..k][..k - 1] == evenDraws[..k - 1];
    }
  }

  /** Resuming the search at k, after the walk stayed inside for steps 1..k-1,
      finds the first escape or runs out the budget. */
  lemma {:induction false} EscapeFromMeaning(evenDraws: seq<bool>, domainSize: int, maxSteps: int, k: nat)
    requires 1 <= k && maxSteps <= |evenDraws|
    requires k - 1 <= |evenDraws| && InsideUpTo(evenDraws, domainSize, k - 1)
    ensures IsWalkerReport(evenDraws, domainSize, maxSteps, EscapeFrom(evenDraws, domainSize, maxSteps, k))
    decreases maxSteps - k
  {
    if k <= maxSteps && !OutOfBounds(Position(evenDraws, k), domainSize) {
      EscapeFromMeaning(evenDraws, domainSize, maxSteps, k + 1);
    }
  }

  /** The reported value is exactly the one the declarative description allows:
      the first escape step, or the budget when the walk never escapes. */
  lemma ReportedStepsCharacterized(evenDraws: seq<bool>, domainSize: int, maxSteps: int, r: int)
    requires maxSteps <= |evenDraws|
    ensures r == ReportedSteps(evenDraws, domainSize, maxSteps) <==> IsWalkerReport(evenDraws, domainSize, maxSteps, r)
  {
    EscapeFromMeaning(evenDraws, domainSize, maxSteps, 1);
  }

  /** A walk that stays inside for the whole budget (or has no budget at all)
      reports exactly maxSteps. */
  lemma InsideWalkReportsBudget(evenDraws: seq<bool>, domainSize: int, maxSteps: int)
    requires maxSteps <= |evenDraws|
    requires InsideUpTo(evenDraws, domainSize, maxSteps)
    ensures ReportedSteps(evenDraws, domainSize, maxSteps) == maxSteps
  {
    ReportedStepsCharacterized(evenDraws, domainSize, maxSteps, maxSteps);
  }

  /** An early report is a genuine escape: the walk is outside the domain after
      the reported step and was inside after every earlier one. */
  lemma EarlyReportIsEscape(evenDraws: seq<bool>, domainSize: int, maxSteps: int)
    requires maxSteps <= |evenDraws|
    requires ReportedSteps(evenDraws, domainSize, maxSteps) < maxSteps
    ensures var k := ReportedSteps(evenDraws, domainSize, maxSteps);
      1 <= k && OutOfBounds(Position(evenDraws, k), domainSize)
      && forall j: nat :: 1 <= j < k ==> !OutOfBounds(Position(evenDraws, j), domainSize)
  {
    ReportedStepsCharacterized(evenDraws, domainSize, maxSteps, ReportedSteps(evenDraws, domainSize, maxSteps));
  }

  /** With a non-negative domain, a walker that reports an escape is exactly
      one place beyond the boundary, needed at least domainSize + 1 steps, and
      stopped at a step with the parity of domainSize + 1. */
  lemma EscapeMagnitude(evenDraws: seq<bool>, domainSize: int, maxSteps: int)
    requires 0 <= domainSize && maxSteps <= |evenDraws|
    requires var k := ReportedSteps(evenDraws, domainSize, maxSteps);
      1 <= k && OutOfBounds(Position(evenDraws, k), domainSize)
    ensures var k := ReportedSteps(evenDraws, domainSize, maxSteps);
      (Position(evenDraws, k) == domainSize + 1 || Position(evenDraws, k) == -(domainSize + 1))
      && domainSize + 1 <= k && k % 2 == (domainSize + 1) % 2
  {
    var k := ReportedSteps(evenDraws, domainSize, maxSteps);
    ReportedStepsCharacterized(evenDraws, domainSize, maxSteps, k);
    if k >= 2 {
      assert !OutOfBounds(Position(evenDraws, k - 1), domainSize);
    }
  }

  /** A budget no larger than the domain can never be enough to escape: the
      walker always reports maxSteps. */
  lemma BudgetWithinDomainReportsBudget(evenDraws: seq<bool>, domainSize: int, maxSteps: int)
    requires maxSteps <= |evenDraws|
    requires maxSteps <= domainSize
    ensures ReportedSteps(evenDraws, domainSize, maxSteps) == maxSteps
  {
    forall j: nat | 1 <= j <= maxSteps
      ensures !OutOfBounds(Position(evenDraws, j), domainSize)
    {
    }
    InsideWalkReportsBudget(evenDraws, domainSize, maxSteps);
  }

  /** A negative domainSize leaves no position inside, so a walker with any
      budget escapes at its first step. */
  lemma NegativeDomainEscapesAtFirstStep(evenDraws: seq<bool>, domainSize: int, maxSteps: int)
    requires 1 <= maxSteps <= |evenDraws|
    requires domainSize < 0
    ensures ReportedSteps(evenDraws, domainSize, maxSteps) == 1
  {
  }

  /** The draws alternate odd, even, odd, ...: moves +1, -1, +1, ... */
  ghost predicate Alternating(evenDraws: seq<bool>)
  {
    forall i :: 0 <= i < |evenDraws| ==> evenDraws[i] == (i % 2 == 1)
  }

  lemma {:induction false} AlternatingPosition(evenDraws: seq<bool>, k: nat)
    requires k <= |evenDraws| && Alternating(evenDraws)
    ensures Position(evenDraws, k) == k % 2
  {
    if k > 0 {
      AlternatingPosition(evenDraws, k - 1);
    }
  }

  /** A walk that alternates +1, -1, ... never leaves a domain of size 1 or
      more, so even with domainSize 1 a walker can use up its whole budget. */
  lemma AlternatingWalkNeverEscapes(evenDraws: seq<bool>, domainSize: int, maxSteps: int)
    requires maxSteps <= |evenDraws| && Alternating(evenDraws)
    requires 1 <= domainSize
    ensures ReportedSteps(evenDraws, domainSize, maxSteps) == maxSteps
  {
    forall j: nat | 1 <= j <= maxSteps
      ensures !OutOfBounds(Position(evenDraws, j), domainSize)
    {
      AlternatingPosition(evenDraws, j);
    }
    InsideWalkReportsBudget(evenDraws, domainSize, maxSteps);
  }
}
