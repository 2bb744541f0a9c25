/** An agent's Q-table dimensions and its action encoding: how a list of
    (actor ID, action value) packets becomes one Q-table column index. */
module AgentModel {
  import opened Radix

  /** The value an actor can be told to take. Only equality is used on it,
      and it is taken to be reflexive. */
  type ActionValue = int

  /** An actuator: its ID, the discrete values it can take, its quantization
      step count and its number of actions (two counts the source keeps
      apart; how they relate to the action list is not fixed here). */
  datatype Actor = Actor(id: int, actions: seq<ActionValue>, quantizationSteps: int, numberOfActions: int)

  /** A state-detecting sensor: its ID and its quantization step count. */
  datatype Sensor = Sensor(id: int, quantizationSteps: int)

  /** One actor's part of an action message: which actor, which value. */
  datatype ActionPacket = ActionPacket(actorId: int, value: ActionValue)

  ghost function SensorSteps(sensors: seq<Sensor>): seq<int>
  {
    seq(|sensors|, i requires 0 <= i < |sensors| => sensors[i].quantizationSteps)
  }

  ghost function ActorSteps(actors: seq<Actor>): seq<int>
  {
    seq(|actors|, i requires 0 <= i < |actors| => actors[i].quantizationSteps)
  }

  /** The radices of the action encoding, in actor order. */
  ghost function NumbersOfActions(actors: seq<Actor>): seq<int>
  {
    seq(|actors|, i requires 0 <= i < |actors| => actors[i].numberOfActions)
  }

  /** Position of the first occurrence of v in actions, |actions| when absent. */
  ghost function FirstIndex(actions: seq<ActionValue>, v: ActionValue): (k: nat)
    ensures k <= |actions|
    ensures k < |actions| <==> v in actions
    ensures k < |actions| ==> actions[k] == v
    ensures forall j :: 0 <= j < k ==> actions[j] != v
  {
    if actions == [] then 0
    else if actions[0] == v then 0
    else 1 + FirstIndex(actions[1..], v)
  }

  /** The state of the first pass: the positions recorded so far (`indeces`)
      and the running counter `incr`. */
  datatype Scan = Scan(recorded: seq<int>, incr: int)

  /** One visit of the inner loops: packet p meets actor. A matching ID scans
      the actor's values; a found value records incr plus its position and
      resets incr, an absent one leaves incr advanced by the list length. */
  ghost function Visit(s: Scan, actor: Actor, p: ActionPacket): (r: Scan)
    ensures s.recorded <= r.recorded && |r.recorded| <= |s.recorded| + 1
    ensures |r.recorded| == |s.recorded| + 1 ==> r.incr == 0
    ensures p.actorId != actor.id ==> r == s
  {
    if p.actorId != actor.id then s
    else
      var k := FirstIndex(actor.actions, p.value);
      if k < |actor.actions| then Scan(s.recorded + [s.incr + k], 0)
      else Scan(s.recorded, s.incr + |actor.actions|)
  }

  /** Packet p visits every actor, in actor order. */
  ghost function VisitActors(s: Scan, actors: seq<Actor>, p: ActionPacket): (r: Scan)
    ensures s.recorded <= r.recorded && |r.recorded| <= |s.recorded| + |actors|
  {
    if actors == [] then s
    else Visit(VisitActors(s, actors[..|actors| - 1], p), actors[|actors| - 1], p)
  }

  /** Every packet, in packet order, visits every actor. */
  ghost function VisitPackets(s: Scan, actors: seq<Actor>, packets: seq<ActionPacket>): (r: Scan)
    ensures s.recorded <= r.recorded
    ensures packets == [] ==> r == s
  {
    if packets == [] then s
    else VisitActors(VisitPackets(s, actors, packets[..|packets| - 1]), actors, packets[|packets| - 1])
  }

  /** The positions the first pass of the action encoding records. */
  ghost function Positions(actors: seq<Actor>, packets: seq<ActionPacket>): seq<int>
  {
    VisitPackets(Scan([], 0), actors, packets).recorded
  }

  /** The action index: the recorded positions in mixed radix, the i-th
      position weighted by the first i actors' numbers of actions. */
  ghost function ActionIndex(actors: seq<Actor>, packets: seq<ActionPacket>): int
    requires |Positions(actors, packets)| <= |actors|
  {
    Encode(Positions(actors, packets), NumbersOfActions(actors))
  }

  class Agent {
    const actors: seq<Actor>
    const sensors: seq<Sensor>
    var numOfStates: int
    var numOfActions: int

    /** The table dimensions are the products the constructor computes. */
    ghost predicate Valid()
      reads this
    {
      numOfStates == Product(SensorSteps(sensors)) &&
      numOfActions == Product(ActorSteps(actors))
    }

    /** Keeps the actors and sensors and sizes the Q-table. */
    constructor (actors: seq<Actor>, sensors: seq<Sensor>)
      ensures this.actors == actors && this.sensors == sensors
      ensures numOfStates == Product(SensorSteps(sensors))
      ensures numOfActions == Product(ActorSteps(actors))
      ensures Valid()
    {
      this.actors := actors;
      this.sensors := sensors;
      numOfStates := 1;
      numOfActions := 1;
      new;
      ghost var steps := SensorSteps(sensors);
      for i := 0 to |sensors|
        invariant numOfStates == Product(steps[..i])
        invariant numOfActions == 1
      {
        ProductStep(steps, i);
        numOfStates := numOfStates * sensors[i].quantizationSteps;
      }
      assert steps[..|sensors|] == steps;
      ghost var actorSteps := ActorSteps(actors);
      for i := 0 to |actors|
        invariant numOfActions == Product(actorSteps[..i])
        invariant numOfStates == Product(steps)
      {
        ProductStep(actorSteps, i);
        numOfActions := numOfActions * actors[i].quantizationSteps;
      }
      assert actorSteps[..|actors|] == actorSteps;
    }

    /** Converts one packet per actor into a single Q-table column index.
        Reads numsOfActions[i] for every recorded position i, so there must
        be no more recorded positions than actors. */
    method ConvertActionToIndex(actionPacs: seq<ActionPacket>) returns (index: int)
      requires Valid()
      requires |Positions(actors, actionPacs)| <= |actors|
      ensures index == ActionIndex(actors, actionPacs)
      ensures WellFormed(actors, actionPacs) && StepCountsAgree(actors) ==> 0 <= index < numOfActions
    {
      // First pass: the position of each packet's value in its actor's list.
      var indeces: seq<int> := [];
      var incr := 0;
      for p := 0 to |actionPacs|
        invariant Scan(indeces, incr) == VisitPackets(Scan([], 0), actors, actionPacs[..p])
      {
        var packet := actionPacs[p];
        ghost var before := Scan(indeces, incr);
        assert actionPacs[..p + 1][..p] == actionPacs[..p];
        for a := 0 to |actors|
          invariant Scan(indeces, incr) == VisitActors(before, actors[..a], packet)
        {
          var actor := actors[a];
          assert actors[..a + 1][..a] == actors[..a];
          if packet.actorId == actor.id {
            var actions := actor.actions;
            ghost var incr0 := incr;
            var j := 0;
            while j < |actions|
              invariant 0 <= j <= |actions|
              invariant indeces == VisitActors(before, actors[..a], packet).recorded
              invariant incr == incr0 + j
              invariant forall t :: 0 <= t < j ==> actions[t] != packet.value
            {
              if actions[j] != packet.value {
                incr := incr + 1;
              } else {
                indeces := indeces + [incr];
                incr := 0;
                break;
              }
              j := j + 1;
            }
          }
        }
        assert actors[..|actors|] == actors;
      }
      assert actionPacs[..|actionPacs|] == actionPacs;

      var numsOfActions: seq<int> := [];
      for a := 0 to |actors|
        invariant numsOfActions == NumbersOfActions(actors)[..a]
      {
        numsOfActions := numsOfActions + [actors[a].numberOfActions];
      }
      assert numsOfActions == NumbersOfActions(actors);

      // Second pass: the mixed-radix combination.
      index := 0;
      var factor := 1;
      for i := 0 to |indeces|
        invariant index == Encode(indeces[..i], numsOfActions)
        invariant factor == Product(numsOfActions[..i])
      {
        EncodeStep(indeces, numsOfActions, i);
        ProductStep(numsOfActions, i);
        index := index + factor * indeces[i];
        factor := factor * numsOfActions[i];
      }
      assert indeces[..|indeces|] == indeces;
      if WellFormed(actors, actionPacs) && StepCountsAgree(actors) {
        ActionIndexBounds(actors, actionPacs);
      }
    }
  }

  /** Exactly actor i carries the ID id. */
  ghost predicate OnlyOwner(actors: seq<Actor>, id: int, i: int)
  {
    0 <= i < |actors| && actors[i].id == id &&
    forall j :: 0 <= j < |actors| && j != i ==> actors[j].id != id
  }

  ghost predicate UniqueIds(actors: seq<Actor>)
  {
    forall i, j :: 0 <= i < j < |actors| ==> actors[i].id != actors[j].id
  }

  /** The packets name each actor exactly once, in actor order, each with a
      value the actor has, and each actor's number of actions equals the
      length of its action list. */
  ghost predicate WellFormed(actors: seq<Actor>, packets: seq<ActionPacket>)
  {
    UniqueIds(actors) && |packets| == |actors| &&
    forall i :: 0 <= i < |actors| ==>
      packets[i].actorId == actors[i].id && packets[i].value in actors[i].actions &&
      actors[i].numberOfActions == |actors[i].actions|
  }

  /** Each actor's quantization step count equals its number of actions, so
      that the table width and the encoding's radices agree. */
  ghost predicate StepCountsAgree(actors: seq<Actor>)
  {
    forall i :: 0 <= i < |actors| ==> actors[i].quantizationSteps == actors[i].numberOfActions
  }

  /** A packet that matches no actor passes every actor without effect. */
  lemma {:induction false} VisitActorsNoMatch(s: Scan, actors: seq<Actor>, p: ActionPacket)
    requires forall j :: 0 <= j < |actors| ==> actors[j].id != p.actorId
    ensures VisitActors(s, actors, p) == s
  {
    if actors != [] {
      VisitActorsNoMatch(s, actors[..|actors| - 1], p);
    }
  }

  /** A packet whose ID only actor i carries has the effect of its visit to
      actor i alone. */
  lemma {:induction false} VisitActorsOneMatch(s: Scan, actors: seq<Actor>, p: ActionPacket, i: int)
    requires OnlyOwner(actors, p.actorId, i)
    ensures VisitActors(s, actors, p) == Visit(s, actors[i], p)
  {
    var n := |actors|;
    if i == n - 1 {
      VisitActorsNoMatch(s, actors[..n - 1], p);
    } else {
      VisitActorsOneMatch(s, actors[..n - 1], p, i);
    }
  }

  /** A packet whose ID matches no actor records nothing and leaves the
      counter as it was. */
  lemma PacketWithoutActorRecordsNothing(s: Scan, actors: seq<Actor>, packets: seq<ActionPacket>, p: ActionPacket)
    requires forall j :: 0 <= j < |actors| ==> actors[j].id != p.actorId
    ensures VisitPackets(s, actors, packets + [p]) == VisitPackets(s, actors, packets)
  {
    assert (packets + [p])[..|packets|] == packets;
    VisitActorsNoMatch(VisitPackets(s, actors, packets), actors, p);
  }

  /** When no packet names an actor (in particular when there are no
      packets) nothing is recorded and the index is 0. */
  lemma {:induction false} UnmatchedPacketsGiveZero(actors: seq<Actor>, packets: seq<ActionPacket>)
    requires forall i, j :: 0 <= i < |packets| && 0 <= j < |actors| ==> actors[j].id != packets[i].actorId
    ensures Positions(actors, packets) == []
    ensures ActionIndex(actors, packets) == 0
  {
    if packets != [] {
      var n := |packets|;
      UnmatchedPacketsGiveZero(actors, packets[..n - 1]);
      assert packets[..n - 1] + [packets[n - 1]] == packets;
      PacketWithoutActorRecordsNothing(Scan([], 0), actors, packets[..n - 1], packets[n - 1]);
    }
  }

  /** A packet whose value sits at position k of its actor's list, and
      nowhere before k, records the counter plus k and resets the counter;
      with duplicates this is the first occurrence. */
  lemma FoundValueRecordsFirstOccurrence(s: Scan, actors: seq<Actor>, p: ActionPacket, i: int, k: int)
    requires OnlyOwner(actors, p.actorId, i)
    requires 0 <= k < |actors[i].actions| && actors[i].actions[k] == p.value
    requires forall j :: 0 <= j < k ==> actors[i].actions[j] != p.value
    ensures VisitActors(s, actors, p) == Scan(s.recorded + [s.incr + k], 0)
  {
    VisitActorsOneMatch(s, actors, p, i);
  }

  /** A packet whose value its actor does not have records nothing, and the
      counter keeps going, advanced by the length of the actor's list. */
  lemma AbsentValueKeepsCounting(s: Scan, actors: seq<Actor>, p: ActionPacket, i: int)
    requires OnlyOwner(actors, p.actorId, i)
    requires p.value !in actors[i].actions
    ensures VisitActors(s, actors, p) == Scan(s.recorded, s.incr + |actors[i].actions|)
  {
    VisitActorsOneMatch(s, actors, p, i);
  }

  /** An absent value shifts the next recorded position by the length of
      the list it was missing from. */
  lemma AbsentValueShiftsNextPosition(actors: seq<Actor>, p: ActionPacket, q: ActionPacket, i: int, j: int, k: int)
    requires OnlyOwner(actors, p.actorId, i) && p.value !in actors[i].actions
    requires OnlyOwner(actors, q.actorId, j)
    requires 0 <= k < |actors[j].actions| && actors[j].actions[k] == q.value
    requires forall t :: 0 <= t < k ==> actors[j].actions[t] != q.value
    ensures Positions(actors, [p, q]) == [|actors[i].actions| + k]
  {
    var s0 := Scan([], 0);
    VisitTwoPackets(s0, actors, p, q);
    AbsentValueKeepsCounting(s0, actors, p, i);
    FoundValueRecordsFirstOccurrence(Scan([], |actors[i].actions|), actors, q, j, k);
  }

  lemma VisitTwoPackets(s: Scan, actors: seq<Actor>, p: ActionPacket, q: ActionPacket)
    ensures VisitPackets(s, actors, [p, q]) == VisitActors(VisitActors(s, actors, p), actors, q)
  {
    assert [p, q][..1] == [p];
    assert [p][..0] == [];
    assert VisitPackets(s, actors, [p]) == VisitActors(s, actors, p);
    assert VisitPackets(s, actors, [p, q]) == VisitActors(VisitPackets(s, actors, [p]), actors, q);
  }

  /** The position of each well-formed packet's value in its actor's list. */
  ghost function ExpectedPositions(actors: seq<Actor>, packets: seq<ActionPacket>): seq<int>
    requires |packets| == |actors|
  {
    seq(|actors|, i requires 0 <= i < |actors| => FirstIndex(actors[i].actions, packets[i].value))
  }

  lemma {:induction false} WellFormedPrefix(actors: seq<Actor>, packets: seq<ActionPacket>, m: nat)
    requires WellFormed(actors, packets) && m <= |packets|
    ensures VisitPackets(Scan([], 0), actors, packets[..m]) == Scan(ExpectedPositions(actors, packets)[..m], 0)
  {
    if m > 0 {
      WellFormedPrefix(actors, packets, m - 1);
      assert packets[..m][..m - 1] == packets[..m - 1];
      var p := packets[m - 1];
      var e := ExpectedPositions(actors, packets);
      assert OnlyOwner(actors, p.actorId, m - 1);
      FoundValueRecordsFirstOccurrence(Scan(e[..m - 1], 0), actors, p, m - 1, e[m - 1]);
      assert e[..m] == e[..m - 1] + [e[m - 1]];
    }
  }

  /** With well-formed packets the first pass records, for each actor in
      order, the first position of its packet's value. */
  lemma WellFormedPositions(actors: seq<Actor>, packets: seq<ActionPacket>)
    requires WellFormed(actors, packets)
    ensures |Positions(actors, packets)| == |actors|
    ensures forall i :: 0 <= i < |actors| ==>
      Positions(actors, packets)[i] == FirstIndex(actors[i].actions, packets[i].value)
  {
    WellFormedPrefix(actors, packets, |packets|);
    assert packets[..|packets|] == packets;
  }

  /** With well-formed packets the positions are digits of the radices
      NumbersOfActions. */
  lemma WellFormedDigits(actors: seq<Actor>, packets: seq<ActionPacket>)
    requires WellFormed(actors, packets)
    ensures |Positions(actors, packets)| == |actors|
    ensures InRange(Positions(actors, packets), NumbersOfActions(actors))
  {
    WellFormedPositions(actors, packets);
  }

  /** A well-formed action lies in [0, numOfActions) when the step counts
      agree with the numbers of actions. */
  lemma ActionIndexBounds(actors: seq<Actor>, packets: seq<ActionPacket>)
    requires WellFormed(actors, packets) && StepCountsAgree(actors)
    ensures |Positions(actors, packets)| <= |actors|
    ensures 0 <= ActionIndex(actors, packets) < Product(ActorSteps(actors))
  {
    WellFormedDigits(actors, packets);
    var radices := NumbersOfActions(actors);
    EncodeBounds(Positions(actors, packets), radices);
    assert radices[..|actors|] == radices == ActorSteps(actors);
  }

  /** Decoding a well-formed action index in the actors' radices gives back
      the recorded positions. */
  lemma ActionIndexDecodes(actors: seq<Actor>, packets: seq<ActionPacket>)
    requires WellFormed(actors, packets)
    ensures |Positions(actors, packets)| <= |actors|
    ensures Decode(ActionIndex(actors, packets), NumbersOfActions(actors), |actors|) == Positions(actors, packets)
  {
    WellFormedDigits(actors, packets);
    DecodeEncode(Positions(actors, packets), NumbersOfActions(actors));
  }

  /** Two well-formed action messages with the same index are the same
      message. */
  lemma ActionIndexInjective(actors: seq<Actor>, a: seq<ActionPacket>, b: seq<ActionPacket>)
    requires WellFormed(actors, a) && WellFormed(actors, b)
    requires |Positions(actors, a)| <= |actors| && |Positions(actors, b)| <= |actors|
    requires ActionIndex(actors, a) == ActionIndex(actors, b)
    ensures a == b
  {
    WellFormedDigits(actors, a);
    WellFormedDigits(actors, b);
    WellFormedPositions(actors, a);
    WellFormedPositions(actors, b);
    EncodeInjective(Positions(actors, a), Positions(actors, b), NumbersOfActions(actors));
    forall i | 0 <= i < |actors|
      ensures a[i] == b[i]
    {
      var k := Positions(actors, a)[i];
      assert a[i].value == actors[i].actions[k] == b[i].value;
    }
  }

  /** The worked example: actors with 3, 2 and 2 actions give 12 actions,
      three sensors with 10 steps each give 1000 states. */
  lemma ExampleTableSize()
    ensures Product(ActorSteps(ExampleActors())) == 12
    ensures Product(SensorSteps([Sensor(0, 10), Sensor(1, 10), Sensor(2, 10)])) == 1000
  {
    assert ActorSteps(ExampleActors()) == [3, 2, 2];
    assert SensorSteps([Sensor(0, 10), Sensor(1, 10), Sensor(2, 10)]) == [10, 10, 10];
    assert [3, 2, 2][..2] == [3, 2] && [3, 2][..1] == [3] && [3][..0] == [];
    assert [10, 10, 10][..2] == [10, 10] && [10, 10][..1] == [10] && [10][..0] == [];
  }

  /** Actors with 3, 2 and 2 actions and IDs 0, 1 and 2. */
  ghost function ExampleActors(): seq<Actor>
  {
    [Actor(0, [10, 20, 30], 3, 3), Actor(1, [5, 6], 2, 2), Actor(2, [7, 8], 2, 2)]
  }

  /** The second value of actor 0 and the first of actors 1 and 2 give
      1 + 3 * 0 + 6 * 0 = 1. */
  lemma ExampleActionIndex()
    ensures Positions(ExampleActors(), [ActionPacket(0, 20), ActionPacket(1, 5), ActionPacket(2, 7)]) == [1, 0, 0]
    ensures ActionIndex(ExampleActors(), [ActionPacket(0, 20), ActionPacket(1, 5), ActionPacket(2, 7)]) == 1
  {
    var actors := ExampleActors();
    var packets := [ActionPacket(0, 20), ActionPacket(1, 5), ActionPacket(2, 7)];
    assert WellFormed(actors, packets);
    WellFormedPositions(actors, packets);
    assert FirstIndex(actors[0].actions, 20) == 1;
    assert FirstIndex(actors[1].actions, 5) == 0;
    assert FirstIndex(actors[2].actions, 7) == 0;
    var positions := Positions(actors, packets);
    assert positions == [1, 0, 0];
    var radices := NumbersOfActions(actors);
    assert radices == [3, 2, 2];
    assert positions[..2] == [1, 0] && [1, 0][..1] == [1] && [1][..0] == [];
    assert Encode([1], radices) == 1;
  }

  /** Packets for actors 2 and 0, in that order, with no packet for actor 1:
      the positions are recorded in packet order and weighted by the
      radices in actor order, so actor 2's position 1 gets weight 1 and
      actor 0's position 1 gets weight 3. */
  lemma ExamplePacketOrder()
    ensures Positions(ExampleActors(), [ActionPacket(2, 8), ActionPacket(0, 20)]) == [1, 1]
    ensures ActionIndex(ExampleActors(), [ActionPacket(2, 8), ActionPacket(0, 20)]) == 4
  {
    var actors := ExampleActors();
    var p, q := ActionPacket(2, 8), ActionPacket(0, 20);
    assert OnlyOwner(actors, 2, 2) && OnlyOwner(actors, 0, 0);
    VisitTwoPackets(Scan([], 0), actors, p, q);
    FoundValueRecordsFirstOccurrence(Scan([], 0), actors, p, 2, 1);
    assert VisitActors(Scan([], 0), actors, p) == Scan([1], 0);
    FoundValueRecordsFirstOccurrence(Scan([1], 0), actors, q, 0, 1);
    assert VisitActors(Scan([1], 0), actors, q) == Scan([1, 1], 0);
    var radices := NumbersOfActions(actors);
    assert radices == [3, 2, 2];
    assert [1, 1][..1] == [1] && [1][..0] == [];
    assert radices[..1] == [3] && [3][..0] == [];
  }

  /** Value 99 is not among actor 0's values, so the counter carries 3 into
      actor 1's packet, whose value 6 sits at position 1: one position, 4. */
  lemma ExampleAbsentValue()
    ensures Positions(ExampleActors(), [ActionPacket(0, 99), ActionPacket(1, 6)]) == [4]
    ensures ActionIndex(ExampleActors(), [ActionPacket(0, 99), ActionPacket(1, 6)]) == 4
  {
    var actors := ExampleActors();
    assert OnlyOwner(actors, 0, 0) && OnlyOwner(actors, 1, 1);
    AbsentValueShiftsNextPosition(actors, ActionPacket(0, 99), ActionPacket(1, 6), 0, 1, 1);
    assert [4][..0] == [];
  }

  /** Without a well-formed message the bound can fail: a missing value
      followed by the third value of the same three-valued actor records
      position 3 + 2 = 5, past the table's three columns. */
  lemma ExampleBoundFails()
    ensures Positions([Actor(0, [10, 20, 30], 3, 3)], [ActionPacket(0, 99), ActionPacket(0, 30)]) == [5]
    ensures ActionIndex([Actor(0, [10, 20, 30], 3, 3)], [ActionPacket(0, 99), ActionPacket(0, 30)]) == 5
    ensures Product(ActorSteps([Actor(0, [10, 20, 30], 3, 3)])) == 3
  {
    var actors := [Actor(0, [10, 20, 30], 3, 3)];
    assert OnlyOwner(actors, 0, 0);
    AbsentValueShiftsNextPosition(actors, ActionPacket(0, 99), ActionPacket(0, 30), 0, 0, 2);
    assert [5][..0] == [];
    assert ActorSteps(actors) == [3] && [3][..0] == [];
  }
}
