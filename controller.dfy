/** The controller: counts one completion report per walker, in whatever order
    they arrive, and then announces that all walkers have finished. */
module Controller {
  import opened Transport

  /** The controller process. `inbox` is the sequence of reports in arrival
      order; payload, source and tag are never inspected. `announced` is the
      walker count printed in the completion line, `received` the final tally
      and `remaining` what is left undelivered to the controller. */
  method ControllerProcess(worldSize: int, inbox: seq<Message>)
    returns (announced: int, received: int, remaining: seq<Message>)
    // every walker's report is eventually delivered; otherwise MPI_Recv blocks forever
    requires worldSize - 1 <= |inbox|
    ensures announced == worldSize - 1
    ensures received == if worldSize - 1 >= 0 then worldSize - 1 else 0
    ensures received <= |inbox| && remaining == inbox[received..]
  {
    var walkers := worldSize - 1;
    received := 0;
    remaining := inbox;
    while received < walkers
      invariant 0 <= received
      invariant received <= walkers || received == 0
      invariant received <= |inbox| && remaining == inbox[received..]
    {
      // MPI_Recv: take the next arrived message, whichever walker sent it
      remaining := remaining[1..];
      received := received + 1;
    }
    announced := walkers;
  }
}
