/** Messages exchanged between ranks. Every walker sends exactly one
    one-integer message (its step count) to the controller, rank 0, with tag 0.
    Delivery itself (MPI_Send / MPI_Recv) is modelled as appending to and
    consuming from a sequence of messages. */
module Transport {

  /** The controller's rank: rank 0 runs the controller, all others walk. */
  const ControllerRank: int := 0

  /** The tag every walker sends with. */
  const ReportTag: int := 0

  /** One point-to-point message carrying a single int payload. */
  datatype Message = Message(source: int, dest: int, tag: int, payload: int)

  /** The completion report a walker of rank `rank` sends after `steps` steps. */
  function Report(rank: int, steps: int): Message
  {
    Message(rank, ControllerRank, ReportTag, steps)
  }
}
