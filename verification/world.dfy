/**
 * The static data of the exploration page: the artist table, the butterfly's
 * start position, the two tuning constants and the measured element sizes.
 * Every coordinate is a whole number of CSS pixels.
 */
module World {
  import opened Options

  /** A position in the game container, measured from its top-left corner. */
  datatype Vec = Vec(x: int, y: int)

  /**
   * One entry of the artist table. The name and biography are display text
   * only; the model identifies an artist by `id` and places its tombstone at
   * `(x, y)`.
   */
  datatype Artist = Artist(id: int, x: int, y: int)

  /** The `offsetWidth`/`offsetHeight` of the container and of the butterfly. */
  datatype Layout = Layout(containerWidth: nat, containerHeight: nat,
                           butterflyWidth: nat, butterflyHeight: nat)

  /** Pixels moved by one arrow-key press. */
  const PLAYER_SPEED: int := 15

  /** A tombstone is reachable when it lies strictly closer than this. */
  const INTERACTION_RADIUS: int := 40

  /** Where the butterfly sits before the first key press. */
  const START: Vec := Vec(50, 50)

  /** The artist table the page ships with, in list (and tombstone) order. */
  function Gallery(): seq<Artist>
  {
    [Artist(1, 100, 150), Artist(2, 400, 450), Artist(3, 650, 200), Artist(4, 250, 300)]
  }

  /** Some artist in the table carries `id`. */
  predicate HasId(artists: seq<Artist>, id: int)
  {
    exists i :: 0 <= i < |artists| && artists[i].id == id
  }

  /**
   * The index of the first artist whose id is `id`, as `Array.prototype.find`
   * returns the first match; `None` when no artist has that id.
   */
  function Find(artists: seq<Artist>, id: int): (r: Option<nat>)
    ensures r.Some? ==> r.value < |artists| && artists[r.value].id == id
    ensures r.Some? ==> forall j :: 0 <= j < r.value ==> artists[j].id != id
    ensures r.None? <==> !HasId(artists, id)
  {
    if |artists| == 0 then None
    else if artists[0].id == id then Some(0)
    else
      match Find(artists[1..], id)
      case None =>
        assert forall j :: 1 <= j < |artists| ==> artists[j] == artists[1..][j - 1];
        None
      case Some(k) => Some(k + 1)
  }

}
