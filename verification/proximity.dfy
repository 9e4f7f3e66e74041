/**
 * The proximity scan `checkInteraction`: clear every tombstone's highlight,
 * walk the tombstones in table order and stop at the first one strictly
 * closer than `INTERACTION_RADIUS`. Distance is taken from the butterfly's
 * top-left corner to the tombstone's top-left corner.
 */
module Proximity {
  import opened Options
  import opened World

  /** The squared distance between the butterfly and a tombstone. */
  function SquaredDistance(p: Vec, a: Artist): nat
  {
    (p.x - a.x) * (p.x - a.x) + (p.y - a.y) * (p.y - a.y)
  }

  /** The scan's test `sqrt(dx² + dy²) < INTERACTION_RADIUS`, squared. */
  predicate Near(p: Vec, a: Artist)
  {
    SquaredDistance(p, a) < INTERACTION_RADIUS * INTERACTION_RADIUS
  }

  /**
   * Comparing the square root with the radius is the same as comparing the
   * squared distance with the squared radius, so the whole-number test
   * decides exactly what the square-root test decides.
   */
  lemma RootTest(sq: nat, d: real)
    requires 0.0 <= d && d * d == sq as real
    ensures d < INTERACTION_RADIUS as real <==> sq < INTERACTION_RADIUS * INTERACTION_RADIUS
  {
    var r := INTERACTION_RADIUS as real;
    if d < r {
      assert d * d <= d * r;
      assert d * r < r * r;
    } else {
      assert d * d >= d * r;
      assert d * r >= r * r;
    }
  }

  /** Tombstone `i` is near and every tombstone before it is not. */
  predicate IsFirstNear(artists: seq<Artist>, p: Vec, i: int)
  {
    && 0 <= i < |artists|
    && Near(p, artists[i])
    && forall j :: 0 <= j < i ==> !Near(p, artists[j])
  }

  /**
   * The index of the tombstone the scan stops at, or `None` when the loop
   * runs to the end without a hit.
   */
  function FirstNear(artists: seq<Artist>, p: Vec): (r: Option<nat>)
    ensures r.Some? ==> IsFirstNear(artists, p, r.value)
    ensures r.None? <==> forall j :: 0 <= j < |artists| ==> !Near(p, artists[j])
  {
    if |artists| == 0 then None
    else if Near(p, artists[0]) then Some(0)
    else
      match FirstNear(artists[1..], p)
      case None =>
        assert forall j :: 1 <= j < |artists| ==> artists[j] == artists[1..][j - 1];
        None
      case Some(k) => Some(k + 1)
  }

  /** The value `nearbyArtistId` takes after the scan. */
  function NearbyId(artists: seq<Artist>, p: Vec): (r: Option<int>)
    ensures r.None? <==> forall j :: 0 <= j < |artists| ==> !Near(p, artists[j])
    ensures r.Some? ==> exists i :: IsFirstNear(artists, p, i) && artists[i].id == r.value
  {
    match FirstNear(artists, p)
    case None => None
    case Some(i) => Some(artists[i].id)
  }

  /**
   * The scan is first-match, not nearest-match: a tombstone earlier in the
   * table wins over a later one even when the later one is closer.
   */
  lemma EarlierWins(artists: seq<Artist>, p: Vec, i: nat, j: nat)
    requires i < j < |artists|
    requires Near(p, artists[i]) && Near(p, artists[j])
    requires SquaredDistance(p, artists[j]) < SquaredDistance(p, artists[i])
    ensures FirstNear(artists, p).Some? && FirstNear(artists, p).value <= i
    ensures FirstNear(artists, p) != Some(j)
  {
  }

  /**
   * `checkInteraction` as written: `before` holds each tombstone's
   * `interactive` flag on entry and `stale` the previous `nearbyArtistId`.
   * Returns the new id and the flags on exit.
   */
  method CheckInteraction(artists: seq<Artist>, p: Vec, before: seq<bool>, stale: Option<int>)
    returns (nearby: Option<int>, marks: seq<bool>)
    requires |before| == |artists|
    ensures |marks| == |artists|
    ensures nearby == NearbyId(artists, p)
    ensures forall i :: 0 <= i < |marks| ==> (marks[i] <==> FirstNear(artists, p) == Some(i))
    ensures forall i, j :: 0 <= i < |marks| && 0 <= j < |marks| && marks[i] && marks[j] ==> i == j
    ensures forall i :: 0 <= i < |marks| && marks[i] ==> nearby == Some(artists[i].id)
    ensures nearby.Some? <==> exists i :: 0 <= i < |marks| && marks[i]
  {
    nearby := stale;
    marks := seq(|before|, _ => false);
    var found := false;
    var i := 0;
    while i < |artists|
      invariant 0 <= i <= |artists|
      invariant |marks| == |artists|
      invariant forall j :: 0 <= j < i ==> !Near(p, artists[j])
      invariant forall j :: 0 <= j < |marks| ==> !marks[j]
      invariant !found
    {
      if Near(p, artists[i]) {
        nearby := Some(artists[i].id);
        marks := marks[i := true];
        found := true;
        break;
      }
      i := i + 1;
    }
    if !found {
      nearby := None;
    }
    assert found ==> i < |artists| && IsFirstNear(artists, p, i) && marks[i];
  }

}
