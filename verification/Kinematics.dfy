/** The position integration shared by the position system of
    Serveur/include/Systems.hpp and the system src/game/Game.cpp installs in
    its registry: every entity that has both a Position and a Velocity moves
    by its velocity, once. */
module Kinematics {
  import opened Wrappers
  import opened Components
  import Slots

  /** One slot after integration: p + v when both are present, unchanged otherwise. */
  function Moved(p: Option<Component>, v: Option<Component>): Option<Component> {
    match (p, v)
    case (Some(Position(x, y)), Some(Velocity(vx, vy))) => Some(Position(x + vx, y + vy))
    case _ => p
  }

  /** The position storage after one pass over the indices below
      min(|P|, |V|); indices past the velocity storage read as empty there. */
  function Integrated(P: seq<Option<Component>>, V: seq<Option<Component>>): seq<Option<Component>> {
    seq(|P|, i requires 0 <= i < |P| => Moved(P[i], Slots.Get(V, i)))
  }

  /** Integration moves each entity that has both components by exactly its
      velocity, leaves every other slot as it was, and never adds or removes a
      component. */
  lemma IntegratedMeaning(P: seq<Option<Component>>, V: seq<Option<Component>>, i: nat)
    requires i < |P|
    ensures |Integrated(P, V)| == |P|
    ensures Slots.Has(Integrated(P, V), i) <==> Slots.Has(P, i)
    ensures (P[i].Some? && P[i].value.Position? && i < |V| && V[i].Some? && V[i].value.Velocity?)
            ==> Integrated(P, V)[i] == Some(Position(P[i].value.x + V[i].value.vx, P[i].value.y + V[i].value.vy))
    ensures (i >= |V| || V[i].None?) ==> Integrated(P, V)[i] == P[i]
  {
  }

  /** An entity whose velocity is (0, 0) does not move. */
  lemma ZeroVelocityStays(P: seq<Option<Component>>, V: seq<Option<Component>>, i: nat)
    requires i < |P| && i < |V| && V[i] == Some(Velocity(0.0, 0.0))
    ensures Integrated(P, V)[i] == P[i]
  {
  }

  /** Integration keeps the number of stored positions. */
  lemma {:induction false} IntegratedOccupied(P: seq<Option<Component>>, V: seq<Option<Component>>)
    ensures Slots.Occupied(Integrated(P, V)) == Slots.Occupied(P)
  {
    if P != [] {
      var n := |P| - 1;
      IntegratedOccupied(P[..n], V);
      assert Integrated(P, V)[..n] == Integrated(P[..n], V);
      SnocSplit(Integrated(P, V));
      SnocSplit(P);
      Slots.OccupiedSnoc(Integrated(P[..n], V), Integrated(P, V)[n]);
      Slots.OccupiedSnoc(P[..n], P[n]);
    }
  }

  /** Running the pass twice with the same velocities moves each entity by
      twice its velocity. */
  lemma IntegratedTwice(P: seq<Option<Component>>, V: seq<Option<Component>>, i: nat)
    requires i < |P| && i < |V|
    requires P[i].Some? && P[i].value.Position? && V[i].Some? && V[i].value.Velocity?
    ensures Integrated(Integrated(P, V), V)[i]
            == Some(Position(P[i].value.x + 2.0 * V[i].value.vx, P[i].value.y + 2.0 * V[i].value.vy))
  {
  }
}
