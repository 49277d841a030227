# Random walk with a counting controller — Dafny model

The program runs one MPI process per rank. Rank 0 is the controller; every
other rank is a walker. A walker starts at position 0 and moves -1 or +1 per
step (an even `rand()` draw moves left, an odd one right). It stops at the
first step where the position leaves `[-domain_size, domain_size]`, or after
`max_steps` steps. Then it prints one completion line and sends its step
count to rank 0, exactly once. The controller receives `world_size - 1`
messages from any source, in any order, without looking at them. Then it
announces that all walkers have finished.

The model has four modules:

- `Transport` (transport.dfy): the one-integer message a walker sends to rank 0 with tag 0.
- `Walker` (walker.dfy): the step loop as a method, `WalkerProcess`, proved
  against a specification function, `ReportedSteps`. The properties of the
  walk are lemmas about that function and about `Position`. The draws of
  `rand()` are a parameter `evenDraws: seq<bool>`.
- `Controller` (controller.dfy): the receive-and-count loop as a method over
  an inbox sequence in arrival order.
- `Simulation` (simulation.dfy): the role dispatch of `main`. It runs every
  walker rank and then the controller on the arrived reports, in an arbitrary
  arrival order given as a parameter.

`steps` and `position` are local to the walker. `received` is local to the
controller. The process-wide settings `domain_size`, `max_steps` and
`world_size` are immutable parameters.

With alternating draws (+1, -1, +1, ...) the walk never leaves a domain of
size 1 or more, so such a walker uses its whole budget and reports
`max_steps` (`Walker.AlternatingWalkNeverEscapes`). With `domain_size` 1, an
escape happens at an even step of at least 2 (`Walker.EscapeMagnitude`).

## Model

| member | source | states |
|---|---|---|
| `Walker.Position` | random_walk.cpp:61-62 | the position after k unit moves lies in [-k, k] and has the parity of k |
| `Walker.PositionCountsMoves` | random_walk.cpp:61-62 | the position after k steps is k minus twice the number of even draws (left moves) among the first k |
| `Walker.EscapeFrom` | random_walk.cpp:59-64 | resuming the step loop at step k yields a value no larger than max_steps, and either max_steps or at least k |
| `Walker.ReportedSteps` | random_walk.cpp:59-79 | the reported count never exceeds max_steps, and is either max_steps or a step number of at least 1 |
| `Walker.WalkerProcess` | random_walk.cpp:52-80 | the loop reports exactly the specified count; exactly one message is sent, to rank 0 with tag 0, and its payload equals the printed count on both exit paths |
| `Walker.EscapeFromMeaning` | random_walk.cpp:59-64 | after steps 1..k-1 stayed inside, resuming at k yields the first escape step within the budget, or max_steps when the walk stays inside throughout |
| `Walker.ReportedStepsCharacterized` | random_walk.cpp:59-79 | a value is the reported count if and only if it is the first escape step (at most max_steps) or it is max_steps and the walk never leaves the domain |
| `Walker.InsideWalkReportsBudget` | random_walk.cpp:76-79 | a walk inside the domain for all max_steps steps, including max_steps <= 0 where the loop never runs, reports exactly max_steps |
| `Walker.EarlyReportIsEscape` | random_walk.cpp:64-72 | a report below max_steps is a step k >= 1 after which the position is out of bounds, while it was in bounds after every step j < k |
| `Walker.EscapeMagnitude` | random_walk.cpp:61-64 | with domain_size >= 0, when the walker reports an escape, its position is exactly domain_size + 1 away from 0, it took at least domain_size + 1 steps, and the reported step has the parity of domain_size + 1 |
| `Walker.BudgetWithinDomainReportsBudget` | random_walk.cpp:59-64 | when max_steps <= domain_size the walker can never escape and reports max_steps |
| `Walker.NegativeDomainEscapesAtFirstStep` | random_walk.cpp:64 | with a negative domain_size and max_steps >= 1, the walker leaves the (empty) domain at step 1 |
| `Walker.AlternatingPosition` | random_walk.cpp:61-62 | with draws alternating odd, even, ... the position after k steps is k mod 2 |
| `Walker.AlternatingWalkNeverEscapes` | random_walk.cpp:59-64 | with alternating draws and domain_size >= 1 the walker reports max_steps, however large it is |
| `Controller.ControllerProcess` | random_walk.cpp:82-96 | the loop stops with received == world_size - 1 when that is >= 0, and 0 when it is negative; it consumes exactly that many messages from the front of the inbox, one per increment, and leaves the rest; the announced count is world_size - 1; `announced` and `received` depend on neither message contents nor arrival order, and with world_size 1 nothing is consumed |
| `Simulation.Simulate` | random_walk.cpp:36-45 | every rank 1..world_size-1 sends exactly one report to rank 0 carrying its own reported count; for every arrival order of those reports the controller consumes all of them, each once, leaves nothing, and announces world_size - 1 |

## Left out

- MPI start-up and shut-down (`MPI_Init`, `MPI_Comm_size`, `MPI_Comm_rank`, `MPI_Finalize`): rank and world size are parameters.
- Argument parsing with `atoi` and the usage exit when `argc != 3`: `domain_size` and `max_steps` are integer parameters.
- `srand(time(NULL) * world_rank)` and `rand()`: randomness and the clock become the parameter `evenDraws`; seed uniqueness is not modelled.
- The exact text of the completion lines: the model returns the printed integers (`reported`, `announced`).
- `MPI_Send` / `MPI_Recv` delivery: modelled as a one-message outbox per walker and an inbox sequence in arrival order. Interleaving of processes is not modelled.
- Controller.ControllerProcess: requires at least world_size - 1 arrived messages; if a walker never reports, `MPI_Recv` blocks forever, which is not modelled.
- Walker.WalkerProcess: uses unbounded integers, so two cases of C signed `int` overflow (undefined behaviour) are not modelled: the final `++steps` when `max_steps` is INT_MAX, and `-domain_size` in the bounds test when `domain_size` is INT_MIN (which `atoi` can return); the model then reports an escape at step 1 whenever `max_steps >= 1`. For `max_steps >= 0`, `position` stays within `[-max_steps, max_steps]` and `steps` within `[1, max_steps + 1]`.
