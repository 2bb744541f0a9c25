# Q-learning agent: table sizing and action encoding

This project models the index arithmetic of the `Agent` class of a tabular
Q-learning program (`src/agent.cpp`). An agent owns actors (actuators, each
with a list of discrete action values) and sensors. Two pieces of
`src/agent.cpp` are modelled.

- **Table sizing** (`Agent::Agent`). The constructor computes `numOfStates`
  as the product of all sensors' quantization step counts and `numOfActions`
  as the product of all actors' step counts. Both products start at 1.
- **Action encoding** (`Agent::convertActionToIndex`). A list of
  `(actorID, actionValue)` packets becomes one Q-table column index in two
  passes. First, for each packet and each actor with the packet's ID, the
  position of the value in the actor's list is recorded, counted by a running
  counter `incr`. Second, the recorded positions are combined in mixed radix:
  position `i` is weighted by the product of the first `i` actors' numbers of
  actions.

`radix.dfy` (module `Radix`) holds the mixed-radix arithmetic: the running
product, the weighted sum `Encode`, its inverse `Decode`, and the bound, round
trip and injectivity lemmas. `agent.dfy` (module `AgentModel`) holds the
`Actor`, `Sensor` and `ActionPacket` datatypes, the class `Agent` with its
constructor and the method `ConvertActionToIndex`, and the lemmas about them.

`ConvertActionToIndex` keeps the source's three nested loops, its `break`, and
the counter `incr`. It is proved equal to `ActionIndex`, a function built from
`Visit`, `VisitActors` and `VisitPackets`, which describe one visit of the
inner loops, one packet and all packets. The code's behaviour is kept as
written, including three quirks:

- `incr` is reset only when a value is found. A value missing from its
  actor's list therefore adds that list's length to the next recorded
  position (`AbsentValueShiftsNextPosition`, `ExampleAbsentValue`).
- A packet whose ID matches no actor records nothing
  (`PacketWithoutActorRecordsNothing`).
- A value listed twice resolves to its first occurrence
  (`FoundValueRecordsFirstOccurrence`).

The weights follow the place of a position in the recorded list, and the
radices come in actor order. Packets out of actor order are therefore weighted
by the wrong actor's radix (`ExamplePacketOrder`).

The code raises no error for an unknown actor ID or action value. Such a
packet is handled as described above, and a message that records nothing
gives index 0 (`UnmatchedPacketsGiveZero`). The bound `index < numOfActions`
is proved for well-formed messages (`WellFormed`) whose actors' step counts
equal their numbers of actions (`StepCountsAgree`), and it can fail otherwise
(`ExampleBoundFails`). A message is well-formed when it has one packet per
actor, in actor order, each value is present, the actor IDs are unique, and
each actor's number of actions equals its list length. For such a message the
index decodes back to the positions (`ActionIndexDecodes`) and determines the
message (`ActionIndexInjective`).

Integers are unbounded throughout.

## Model

| member | source | states |
|---|---|---|
| `AgentModel.Agent.constructor` | src/agent.cpp:18-28 | `numOfStates` is the product of the sensors' step counts and `numOfActions` the product of the actors' step counts, each 1 for an empty list; actors and sensors are kept |
| `Radix.ProductPositive` | src/agent.cpp:18-28 | when every step count is at least 1, the table dimensions are at least 1 |
| `Radix.ProductStep` | src/agent.cpp:22 | one iteration of the product loop multiplies the running product of a prefix by the next factor |
| `Radix.ProductZero` | src/agent.cpp:18-28 | a single sensor or actor with zero steps makes the corresponding table dimension 0 |
| `AgentModel.ExampleTableSize` | src/agent.cpp:11-15 | actors with 3, 2 and 2 actions give 12 actions; three sensors with 10 steps each give 1000 states |
| `AgentModel.FirstIndex` | src/agent.cpp:48-55 | the scan of an actor's values stops at the first position holding the value, every earlier position differs from it, and it runs past the end exactly when the value is absent |
| `AgentModel.Agent.ConvertActionToIndex` | src/agent.cpp:34-83 | the returned index is the mixed-radix sum of the positions the nested loops record, with the actors' numbers of actions as radices; on an agent whose `numOfActions` is the constructor's product, a well-formed message with agreeing step counts gives an index in `[0, numOfActions)` |
| `AgentModel.Visit` | src/agent.cpp:47-56 | one packet meeting one actor records at most one position, keeps the earlier ones, resets the counter to 0 when it records, and changes nothing when the IDs differ |
| `AgentModel.VisitActors` | src/agent.cpp:46-58 | one packet against all actors keeps the earlier positions and records at most one per actor |
| `AgentModel.VisitPackets` | src/agent.cpp:45-59 | the first pass only appends to the recorded positions, and an empty packet list changes nothing |
| `AgentModel.VisitActorsNoMatch` | src/agent.cpp:46-47 | a packet whose ID no actor has changes neither the recorded positions nor the counter |
| `AgentModel.VisitActorsOneMatch` | src/agent.cpp:45-58 | when exactly one actor has the packet's ID, the pass over all actors acts as the visit to that actor alone |
| `AgentModel.PacketWithoutActorRecordsNothing` | src/agent.cpp:45-58 | appending a packet that matches no actor leaves the first pass's result unchanged |
| `AgentModel.UnmatchedPacketsGiveZero` | src/agent.cpp:43-83 | when no packet matches an actor, including the empty packet list, nothing is recorded and the index is 0 |
| `AgentModel.FoundValueRecordsFirstOccurrence` | src/agent.cpp:47-55 | a found value records the counter plus the position of its first occurrence and resets the counter to 0 |
| `AgentModel.AbsentValueKeepsCounting` | src/agent.cpp:44-56 | an absent value records nothing and advances the counter by the length of the actor's list |
| `AgentModel.AbsentValueShiftsNextPosition` | src/agent.cpp:44-56 | after an absent value, the next recorded position is its own first-occurrence position plus the length of the list the absent value was missing from |
| `AgentModel.VisitTwoPackets` | src/agent.cpp:45-59 | two packets are processed one after the other, each against all actors |
| `AgentModel.WellFormedPrefix` | src/agent.cpp:43-59 | with a well-formed message, after each prefix of packets the counter is 0 and the recorded positions are the first-occurrence positions of that prefix |
| `AgentModel.WellFormedPositions` | src/agent.cpp:43-59 | with a well-formed message, one position is recorded per actor, in actor order, and it is the first occurrence of that actor's value |
| `AgentModel.WellFormedDigits` | src/agent.cpp:60-63 | with a well-formed message, each recorded position is below its actor's number of actions, the radix at its place |
| `Radix.EncodeStep` | src/agent.cpp:72-74 | one iteration of the combination loop adds the next position weighted by the product of the radices before it |
| `Radix.EncodeZeros` | src/agent.cpp:70-82 | all-zero positions (every actor's first value) combine into index 0 |
| `Radix.EncodeBounds` | src/agent.cpp:70-82 | positions each below their radix combine into a value in `[0, product of those radices)` |
| `Radix.DecodeEncode` | src/agent.cpp:70-82 | decoding the combined value in the same radices gives back the positions |
| `Radix.EncodeInjective` | src/agent.cpp:70-82 | distinct in-range position vectors of the same length combine into distinct values |
| `AgentModel.ActionIndexBounds` | src/agent.cpp:70-83 | a well-formed message, with every actor's step count equal to its number of actions, is encoded into `[0, product of the step counts)`, the constructor's `numOfActions` |
| `AgentModel.ActionIndexDecodes` | src/agent.cpp:70-83 | the index of a well-formed message decodes back to its recorded positions |
| `AgentModel.ActionIndexInjective` | src/agent.cpp:34-83 | two well-formed messages with the same index are the same message |
| `AgentModel.ExampleActionIndex` | src/agent.cpp:34-83 | with actors of 3, 2 and 2 actions, the 2nd value of actor 0 and the 1st of actors 1 and 2 give index 1 |
| `AgentModel.ExamplePacketOrder` | src/agent.cpp:60-82 | packets for actors 2 and 0, in that order, give positions `[1, 1]` weighted 1 and 3: index 4 |
| `AgentModel.ExampleBoundFails` | src/agent.cpp:44-82 | with one three-valued actor, a missing value followed by that actor's third value records position 5, so the index 5 is not below `numOfActions` = 3 |
| `AgentModel.ExampleAbsentValue` | src/agent.cpp:44-56 | a value absent from actor 0's three values followed by actor 1's 2nd value records the single position 4 |

## Left out

- Action values are modelled as `int`, whose type is declared in a header that is not part of this model; the model assumes equality on action values is reflexive, which a floating-point type breaks for NaN (and it treats -0.0 as equal to 0.0).
- Machine-integer overflow: `numOfStates`, `numOfActions`, `index` and `factor` are C++ `int`s that can overflow; the model uses unbounded integers.
- `AgentModel.Agent.ConvertActionToIndex`: requires at most as many recorded positions as actors, because the source reads `numsOfActions[i]` for every recorded position and reads past its end otherwise (packets naming an actor twice, or actors sharing an ID).
- The Q-table built at the end of the constructor (src/agent.cpp:30-31): its class is not part of this model, and the local copy is discarded.
- The commented-out methods `updateQtable`, `getState`, `doAction` and `calcReward` (src/agent.cpp:86-104): they have no bodies.
- The mapping from sensor readings to a state index: `src/agent.cpp` has none; only the state count is modelled.
- The actors' and sensors' angle ranges: nothing in the modelled code reads them.
- `src/agent_manager.cpp` and `src/agent_manager.hpp`: worker threads, atomic flags, polling loops, joins and mutexes. Their behaviour is about concurrency, which this sequential model does not capture; the console loop is I/O; the `Simulation` class is a stub returning constants.
- `test/test_config_reader.cpp`: it tests a configuration reader whose source is not part of this model, through file I/O.
