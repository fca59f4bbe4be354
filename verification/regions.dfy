/** The fixed set of five regions the price feed is published for, in the
    order the regions table declares them (src/lib/dataUtils.js). */
module Regions {

  datatype Region = National | Northeast | Midwest | South | West

  /** The regions in declaration order; `Object.keys(regions)` enumerates them
      in this order. */
  const All: seq<Region> := [National, Northeast, Midwest, South, West]

  /** Display attributes of a region (used only by the presentation layer). */
  datatype RegionInfo = RegionInfo(name: string, color: string)

  /** The property name a region has in the regions table, in the snapshot map
      and in a history row. */
  function Key(r: Region): string {
    match r
    case National => "national"
    case Northeast => "northeast"
    case Midwest => "midwest"
    case South => "south"
    case West => "west"
  }

  function Info(r: Region): RegionInfo {
    match r
    case National => RegionInfo("National Average", "#1e40af")
    case Northeast => RegionInfo("Northeast", "#0891b2")
    case Midwest => RegionInfo("Midwest", "#15803d")
    case South => RegionInfo("South", "#b45309")
    case West => RegionInfo("West", "#7c3aed")
  }

  /** The regions table lists every region exactly once, and distinct regions
      have distinct property names. */
  lemma TableIsEnumeration()
    ensures forall r: Region :: r in All
    ensures forall i, j :: 0 <= i < j < |All| ==> All[i] != All[j]
    ensures forall r1: Region, r2: Region :: Key(r1) == Key(r2) ==> r1 == r2
  {
    forall r: Region ensures r in All {
      match r
      case National => assert All[0] == r;
      case Northeast => assert All[1] == r;
      case Midwest => assert All[2] == r;
      case South => assert All[3] == r;
      case West => assert All[4] == r;
    }
  }

  /** The position of a region in `All`. */
  lemma IndexOf(r: Region) returns (k: nat)
    ensures k < |All| && All[k] == r
  {
    match r
    case National => k := 0;
    case Northeast => k := 1;
    case Midwest => k := 2;
    case South => k := 3;
    case West => k := 4;
  }

  /** One value per region: the results of the five per-region fetches. */
  datatype PerRegion<T> = PerRegion(national: T, northeast: T, midwest: T, south: T, west: T) {
    function Get(r: Region): T {
      match r
      case National => national
      case Northeast => northeast
      case Midwest => midwest
      case South => south
      case West => west
    }

    /** The same transformation applied to each region's value. */
    function Map<U>(f: T -> U): (m: PerRegion<U>)
      ensures forall r: Region :: m.Get(r) == f(Get(r))
    {
      PerRegion(f(national), f(northeast), f(midwest), f(south), f(west))
    }
  }
}
