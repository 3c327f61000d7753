/**
 * The contents of one cell of the level grid, which cells a placement may no
 * longer overwrite, and what each cell becomes when the level is instantiated.
 */
module Tiles {

  /** One cell of the grid. Every kind has a plain and a "Reserved" variant,
      except Spawn and Exit; TestValue is a probe that is never written. */
  datatype TileType =
    | Empty | ReservedEmpty
    | Spawn | Exit
    | Wall | ReservedWall
    | UnbreakableWall | ReservedUnbreakable
    | PickUp | ReservedPickUp
    | KeyItem | ReservedKeyItem
    | Hazard | ReservedHazard
    | Probabilistic | ReservedProbabilistic
    | Plant | ReservedPlant
    | TestValue

  /** The cell values a placement refuses to overwrite. ReservedHazard and
      ReservedKeyItem are not among them, so those cells stay writable. */
  predicate IsProtected(t: TileType)
  {
    t == ReservedUnbreakable || t == ReservedWall
    || t == ReservedProbabilistic || t == ReservedPickUp
    || t == ReservedEmpty || t == ReservedPlant
    || t == Spawn || t == Exit
  }

  /** The two facets the enumeration mixes: a semantic kind ... */
  datatype Kind =
    | EmptyKind | SpawnKind | ExitKind | WallKind | UnbreakableKind | PickUpKind
    | KeyItemKind | HazardKind | ProbabilisticKind | PlantKind | ProbeKind

  function KindOf(t: TileType): Kind
  {
    match t
    case Empty | ReservedEmpty => EmptyKind
    case Spawn => SpawnKind
    case Exit => ExitKind
    case Wall | ReservedWall => WallKind
    case UnbreakableWall | ReservedUnbreakable => UnbreakableKind
    case PickUp | ReservedPickUp => PickUpKind
    case KeyItem | ReservedKeyItem => KeyItemKind
    case Hazard | ReservedHazard => HazardKind
    case Probabilistic | ReservedProbabilistic => ProbabilisticKind
    case Plant | ReservedPlant => PlantKind
    case TestValue => ProbeKind
  }

  /** ... and the reservation flag. */
  predicate IsReservedVariant(t: TileType)
  {
    t.ReservedEmpty? || t.ReservedWall? || t.ReservedUnbreakable? || t.ReservedPickUp?
    || t.ReservedKeyItem? || t.ReservedHazard? || t.ReservedProbabilistic? || t.ReservedPlant?
  }

  /** The protected set in terms of the two facets: Spawn, Exit, and every
      reserved variant except those of the hazard and key-item kinds. */
  lemma ProtectedByFacets(t: TileType)
    ensures IsProtected(t) <==>
      t == Spawn || t == Exit
      || (IsReservedVariant(t) && KindOf(t) != HazardKind && KindOf(t) != KeyItemKind)
    ensures IsReservedVariant(t) && !IsProtected(t) <==> t == ReservedHazard || t == ReservedKeyItem
  {
  }

  /** What the instancing pass creates for one cell. */
  datatype Instance =
    | Nothing | BorderBlock | WallBlock | PlayerStart | ExitObject
    | HazardObject | PickUpObject | PlantObject | KeyItemObject

  /** How a Probabilistic tile resolves, given the uniform draw in [0, 1]
      taken for it: the three tests of the source, in its order. */
  function ResolveProbabilistic(draw: real): Instance
  {
    if draw < 0.20 then HazardObject
    else if draw >= 0.20 && draw < 0.40 then PickUpObject
    else if draw >= 0.40 && draw < 0.80 then WallBlock
    else Nothing
  }

  /** The instancing switch: the object a cell holding t becomes, where draw
      is the value drawn for it (consulted only by Probabilistic tiles). */
  function InstanceOf(t: TileType, draw: real): Instance
  {
    match t
    case UnbreakableWall | ReservedUnbreakable => BorderBlock
    case Wall | ReservedWall => WallBlock
    case Spawn => PlayerStart
    case Exit => ExitObject
    case Hazard | ReservedHazard => HazardObject
    case PickUp | ReservedPickUp => PickUpObject
    case Plant | ReservedPlant => PlantObject
    case KeyItem | ReservedKeyItem => KeyItemObject
    case Probabilistic | ReservedProbabilistic => ResolveProbabilistic(draw)
    case Empty | ReservedEmpty | TestValue => Nothing
  }

  /** The object a kind becomes: an independent table, one row per kind. */
  function InstanceOfKind(k: Kind, draw: real): Instance
  {
    match k
    case EmptyKind => Nothing
    case SpawnKind => PlayerStart
    case ExitKind => ExitObject
    case WallKind => WallBlock
    case UnbreakableKind => BorderBlock
    case PickUpKind => PickUpObject
    case KeyItemKind => KeyItemObject
    case HazardKind => HazardObject
    case ProbabilisticKind => ResolveProbabilistic(draw)
    case PlantKind => PlantObject
    case ProbeKind => Nothing
  }

  /** Instancing ignores the reservation flag: a tile becomes what its kind
      becomes, and only Probabilistic tiles depend on the draw. */
  lemma InstanceDependsOnKindOnly(t: TileType, draw: real, other: real)
    ensures InstanceOf(t, draw) == InstanceOfKind(KindOf(t), draw)
    ensures KindOf(t) != ProbabilisticKind ==> InstanceOf(t, draw) == InstanceOf(t, other)
  {
  }

  /** The resolution thresholds, each outcome with both directions. */
  lemma ResolveThresholds(draw: real)
    ensures ResolveProbabilistic(draw) == HazardObject <==> draw < 0.20
    ensures ResolveProbabilistic(draw) == PickUpObject <==> 0.20 <= draw < 0.40
    ensures ResolveProbabilistic(draw) == WallBlock <==> 0.40 <= draw < 0.80
    ensures ResolveProbabilistic(draw) == Nothing <==> 0.80 <= draw
  {
  }

  /** How many of the draws 0/100, 1/100, ..., (n-1)/100 resolve to o. */
  function Hits(o: Instance, n: nat): (count: nat)
    ensures count <= n
  {
    if n == 0 then 0
    else Hits(o, n - 1) + (if ResolveProbabilistic((n - 1) as real / 100.0) == o then 1 else 0)
  }

  lemma {:induction false} HitsUpTo(n: nat)
    requires n <= 100
    ensures Hits(HazardObject, n) == if n <= 20 then n else 20
    ensures Hits(PickUpObject, n) == if n <= 20 then 0 else if n <= 40 then n - 20 else 20
    ensures Hits(WallBlock, n) == if n <= 40 then 0 else if n <= 80 then n - 40 else 40
    ensures Hits(Nothing, n) == if n <= 80 then 0 else n - 80
  {
    if n > 0 {
      HitsUpTo(n - 1);
      ResolveThresholds((n - 1) as real / 100.0);
    }
  }

  /** On a uniform grid of one hundred draws in [0, 1), a Probabilistic tile
      becomes a hazard 20 times, a pick-up 20, a wall 40 and nothing 20. */
  lemma ProbabilisticWeights()
    ensures Hits(HazardObject, 100) == 20
    ensures Hits(PickUpObject, 100) == 20
    ensures Hits(WallBlock, 100) == 40
    ensures Hits(Nothing, 100) == 20
    ensures forall o :: o !in {HazardObject, PickUpObject, WallBlock, Nothing} ==> Hits(o, 100) == 0
  {
    HitsUpTo(100);
    forall o | o !in {HazardObject, PickUpObject, WallBlock, Nothing}
      ensures Hits(o, 100) == 0
    {
      NeverHit(o, 100);
    }
  }

  lemma {:induction false} NeverHit(o: Instance, n: nat)
    requires o !in {HazardObject, PickUpObject, WallBlock, Nothing}
    ensures Hits(o, n) == 0
  {
    if n > 0 {
      NeverHit(o, n - 1);
    }
  }
}
