/** The whole run: rank 0 is the controller and ranks 1 .. worldSize - 1 are
    walkers. The transport delivers every walker's report exactly once, in an
    arbitrary arrival order given as a parameter. */
module Simulation {
  import opened Transport
  import Walker
  import Controller

  /** Every draw sequence covers the whole budget. */
  predicate EnoughDraws(draws: seq<seq<bool>>, maxSteps: int)
  {
    forall i :: 0 <= i < |draws| ==> maxSteps <= |draws[i]|
  }

  /** The report walker rank i + 1 sends, for every walker, in rank order. */
  function WalkerReports(draws: seq<seq<bool>>, domainSize: int, maxSteps: int): seq<Message>
    requires EnoughDraws(draws, maxSteps)
  {
    seq(|draws|, i requires 0 <= i < |draws| => Report(i + 1, Walker.ReportedSteps(draws[i], domainSize, maxSteps)))
  }

  /** Runs every walker (rank r uses draws[r - 1]) and then the controller on
      the reports as they arrive. */
  method Simulate(worldSize: int, domainSize: int, maxSteps: int, draws: seq<seq<bool>>, arrivals: seq<Message>)
    returns (reports: seq<Message>, announced: int, received: int, remaining: seq<Message>)
    requires 1 <= worldSize && |draws| == worldSize - 1
    requires EnoughDraws(draws, maxSteps)
    // reliable, exactly-once delivery, in any order
    requires multiset(arrivals) == multiset(WalkerReports(draws, domainSize, maxSteps))
    ensures reports == WalkerReports(draws, domainSize, maxSteps)
    ensures |reports| == worldSize - 1
    ensures forall i :: 0 <= i < |reports| ==> reports[i].source == i + 1 && reports[i].dest == ControllerRank
    ensures announced == worldSize - 1 && received == worldSize - 1
    ensures received <= |arrivals|
    ensures multiset(arrivals[..received]) == multiset(reports) && remaining == []
  {
    reports := [];
    for rank := 1 to worldSize
      invariant |reports| == rank - 1
      invariant forall i :: 0 <= i < rank - 1 ==> reports[i] == WalkerReports(draws, domainSize, maxSteps)[i]
    {
      var steps, outbox := Walker.WalkerProcess(rank, domainSize, maxSteps, draws[rank - 1]);
      reports := reports + outbox;
    }
    assert |arrivals| == |multiset(arrivals)| == |reports|;
    announced, received, remaining := Controller.ControllerProcess(worldSize, arrivals);
    assert arrivals[..received] == arrivals;
  }
}
