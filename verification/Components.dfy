/** The components of include/Components.hpp, plus Health, Damage,
    EntityTypeTag and Lifetime, whose shapes are those their uses in
    src/GameServer.cpp give them. A registry storage holds one kind of
    component; the model keeps every kind in one sum type and names the kind
    of a value with KindOf. Float fields are `real`. */
module Components {
  import opened Wrappers
  import opened BoundedInts
  import opened Protocol

  datatype Color = Color(r: u8, g: u8, b: u8, a: u8)

  /** Color{} and Color(r, g, b): alpha defaults to 255. */
  const WHITE: Color := Color(255, 255, 255, 255)

  function Rgb(r: u8, g: u8, b: u8): Color {
    Color(r, g, b, 255)
  }

  datatype Component =
    | Position(x: real, y: real)
    | Velocity(vx: real, vy: real)
    | Drawable(width: real, height: real, color: Color)
    | Controllable(speed: real)
    | NetworkId(id: u32)
    | PlayerOwner(playerId: u8)
    | Health(current: u8, maximum: u8)
    | Damage(amount: u8)
    | EntityTypeTag(tag: EntityType)
    | Lifetime(remaining: real)

  /** The component types a registry can hold a storage for. */
  datatype Kind =
    | PositionKind | VelocityKind | DrawableKind | ControllableKind | NetworkIdKind
    | PlayerOwnerKind | HealthKind | DamageKind | EntityTypeTagKind | LifetimeKind

  function KindOf(c: Component): Kind {
    match c
    case Position(_, _) => PositionKind
    case Velocity(_, _) => VelocityKind
    case Drawable(_, _, _) => DrawableKind
    case Controllable(_) => ControllableKind
    case NetworkId(_) => NetworkIdKind
    case PlayerOwner(_) => PlayerOwnerKind
    case Health(_, _) => HealthKind
    case Damage(_) => DamageKind
    case EntityTypeTag(_) => EntityTypeTagKind
    case Lifetime(_) => LifetimeKind
  }

  /** Default-constructed components. */
  const DEFAULT_DRAWABLE: Component := Drawable(16.0, 16.0, WHITE)
  const DEFAULT_CONTROLLABLE: Component := Controllable(240.0)

  /** A storage of one kind: every occupied slot holds a component of that kind. */
  ghost predicate OfKind(s: seq<Option<Component>>, k: Kind) {
    forall i :: 0 <= i < |s| && s[i].Some? ==> KindOf(s[i].value) == k
  }

  // ---------------------------------------------------------------- palette

  const PLAYER_COLORS: seq<Color> := [Rgb(200, 30, 30), Rgb(30, 200, 30), Rgb(30, 30, 200), Rgb(200, 200, 30)]

  /** C++ `%` on int: the remainder takes the sign of the dividend. */
  function TruncRem(a: int, b: int): (r: int)
    requires b > 0
    ensures a >= 0 ==> 0 <= r < b
    ensures a < 0 ==> -b < r <= 0
  {
    if a >= 0 then a % b else -((-a) % b)
  }

  /** The palette index `(playerId - 1) % 4` as written: the uint8_t is
      promoted to int, so player 0 gives -1. */
  function PaletteIndexAsWritten(pid: u8): int {
    TruncRem(pid - 1, 4)
  }

  /** Player 0 reads before the start of the palette. */
  lemma PlayerZeroIndexesBeforePalette()
    ensures PaletteIndexAsWritten(0) == -1
  {
  }

  /** The palette index with the wrap the palette needs: the same as written
      for every player id from 1 on, and always inside the palette. */
  function PaletteIndex(pid: u8): (r: nat)
    ensures r < |PLAYER_COLORS|
    ensures pid >= 1 ==> r == PaletteIndexAsWritten(pid)
  {
    (pid + 3) % 4
  }
}
