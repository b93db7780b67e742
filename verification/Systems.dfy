/** Serveur/include/Systems.hpp: position_system, run over a registry. */
module Systems {
  import opened Wrappers
  import opened Components
  import Slots
  import Kinematics
  import opened Registries

  /** position_system: when both storages exist, add each velocity to the
      position at the same index, for every index below the smaller storage
      size where both are present; nothing else changes. */
  method PositionSystem(r: Registry)
    requires r.Valid()
    modifies r
    ensures r.Valid()
    ensures PositionKind in old(r.stores) && VelocityKind in old(r.stores) ==>
              r.stores == old(r.stores)[PositionKind := Kinematics.Integrated(old(r.stores)[PositionKind], old(r.stores)[VelocityKind])]
    ensures PositionKind !in old(r.stores) || VelocityKind !in old(r.stores) ==> r.stores == old(r.stores)
    ensures r.eraseKinds == old(r.eraseKinds) && r.systems == old(r.systems)
    ensures r.nextId == old(r.nextId) && r.freeIds == old(r.freeIds)
    ensures r.aliveCount == old(r.aliveCount) && r.live == old(r.live)
  {
    var positions := r.GetComponentsIf(PositionKind);
    var velocities := r.GetComponentsIf(VelocityKind);
    if positions.None? || velocities.None? {
      return;
    }
    var P, V := positions.value, velocities.value;
    var limit := if |P| < |V| then |P| else |V|;
    var moved := P;
    var i := 0;
    while i < limit
      invariant 0 <= i <= limit
      invariant |moved| == |P|
      invariant forall j :: 0 <= j < i ==> moved[j] == Kinematics.Moved(P[j], Slots.Get(V, j))
      invariant forall j :: i <= j < |P| ==> moved[j] == P[j]
    {
      var posOpt, velOpt := moved[i], V[i];
      if posOpt.Some? && velOpt.Some? && posOpt.value.Position? && velOpt.value.Velocity? {
        var p, v := posOpt.value, velOpt.value;
        moved := moved[i := Some(Position(p.x + v.vx, p.y + v.vy))];
      }
      i := i + 1;
    }
    assert moved == Kinematics.Integrated(P, V);
    OfKindIntegrated(P, V);
    r.stores := r.stores[PositionKind := moved];
  }
}
