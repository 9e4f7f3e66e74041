/**
 * What one `keydown` does to the butterfly's position: the `switch (e.key)`
 * that picks a direction, the fixed step, and the clamp that keeps the
 * butterfly inside the game container.
 */
module Movement {
  import opened World

  /** The cases of the key switch; `Other` is every key the switch does not name. */
  datatype Key = ArrowUp | ArrowDown | ArrowLeft | ArrowRight | Interact | Other

  /** Classifies `KeyboardEvent.key`; the comparison is exact and case-sensitive. */
  function KeyOf(name: string): (k: Key)
    ensures k == ArrowUp <==> name == "ArrowUp"
    ensures k == ArrowDown <==> name == "ArrowDown"
    ensures k == ArrowLeft <==> name == "ArrowLeft"
    ensures k == ArrowRight <==> name == "ArrowRight"
    ensures k == Interact <==> name == "e" || name == "E"
    ensures k == Other <==> name !in {"ArrowUp", "ArrowDown", "ArrowLeft", "ArrowRight", "e", "E"}
  {
    if name == "ArrowUp" then ArrowUp
    else if name == "ArrowDown" then ArrowDown
    else if name == "ArrowLeft" then ArrowLeft
    else if name == "ArrowRight" then ArrowRight
    else if name == "e" || name == "E" then Interact
    else Other
  }

  predicate IsArrow(k: Key)
  {
    k.ArrowUp? || k.ArrowDown? || k.ArrowLeft? || k.ArrowRight?
  }

  /**
   * The position after the switch and before the clamp: an arrow moves one
   * axis by `PLAYER_SPEED` (y grows downwards), any other key falls through.
   */
  function Move(p: Vec, k: Key): (r: Vec)
    ensures (k.ArrowUp? || k.ArrowDown?) ==> r.x == p.x
    ensures (k.ArrowLeft? || k.ArrowRight?) ==> r.y == p.y
    ensures k.ArrowUp? ==> p.y - r.y == PLAYER_SPEED
    ensures k.ArrowDown? ==> r.y - p.y == PLAYER_SPEED
    ensures k.ArrowLeft? ==> p.x - r.x == PLAYER_SPEED
    ensures k.ArrowRight? ==> r.x - p.x == PLAYER_SPEED
    ensures !IsArrow(k) <==> r == p
  {
    match k
    case ArrowUp => p.(y := p.y - PLAYER_SPEED)
    case ArrowDown => p.(y := p.y + PLAYER_SPEED)
    case ArrowLeft => p.(x := p.x - PLAYER_SPEED)
    case ArrowRight => p.(x := p.x + PLAYER_SPEED)
    case _ => p
  }

  function Max(a: int, b: int): int
  {
    if a >= b then a else b
  }

  function Min(a: int, b: int): int
  {
    if a <= b then a else b
  }

  /** The distance between two whole numbers on one axis. */
  function Gap(a: int, b: int): nat
  {
    if a >= b then a - b else b - a
  }

  /** The largest coordinate the clamp allows on an axis; never negative. */
  function Limit(container: nat, sprite: nat): nat
  {
    Max(0, container - sprite)
  }

  /**
   * `Math.max(0, Math.min(v, hi))`: the point of `[0, max(0, hi)]` nearest to
   * `v`. When the sprite is wider than the container `hi` is negative and
   * the result is 0.
   */
  function Clamp(v: int, hi: int): (r: int)
    ensures 0 <= r <= Max(0, hi)
    ensures forall w :: 0 <= w <= Max(0, hi) ==> Gap(r, v) <= Gap(w, v)
    ensures r == v <==> 0 <= v <= Max(0, hi)
  {
    Max(0, Min(v, hi))
  }

  /** Both coordinates lie in the range the clamp allows for this layout. */
  predicate InBounds(layout: Layout, p: Vec)
  {
    && 0 <= p.x <= Limit(layout.containerWidth, layout.butterflyWidth)
    && 0 <= p.y <= Limit(layout.containerHeight, layout.butterflyHeight)
  }

  /** Applies the clamp to both axes. */
  function ClampToContainer(layout: Layout, p: Vec): (r: Vec)
    ensures InBounds(layout, r)
    ensures r == p <==> InBounds(layout, p)
  {
    Vec(Clamp(p.x, layout.containerWidth - layout.butterflyWidth),
        Clamp(p.y, layout.containerHeight - layout.butterflyHeight))
  }

}
