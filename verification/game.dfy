/**
 * The page's state machine. Each `keydown` is one `Step`; a click on the
 * close button or on the backdrop closes the modal. The artist table and the
 * measured element sizes are parameters.
 */
module Game {
  import opened Options
  import opened World
  import opened Movement
  import opened Proximity
  import opened Modal

  /**
   * `pos` is `playerPos`, `marked` the index of the tombstone carrying the
   * `interactive` highlight, `nearby` is `nearbyArtistId`.
   */
  datatype State = State(pos: Vec, marked: Option<nat>, nearby: Option<int>, modal: ModalState)

  /** The state once the page has loaded, before any key press. */
  function Init(): State
  {
    State(START, None, None, CLOSED)
  }

  /** The inputs the page reacts to: a key press, or a click that closes the modal. */
  datatype Event = KeyDown(key: string) | CloseClick

  /** The id of the artist at a tombstone index. */
  function IdAt(artists: seq<Artist>, marked: Option<nat>): Option<int>
    requires marked.Some? ==> marked.value < |artists|
  {
    match marked
    case None => None
    case Some(i) => Some(artists[i].id)
  }

  /**
   * One `keydown`. `e`/`E` opens the modal for the nearby artist, if any, and
   * stops there. Every other key moves (arrows only), clamps and rescans.
   */
  function Step(artists: seq<Artist>, layout: Layout, s: State, key: string): (r: State)
    ensures KeyOf(key) == Interact ==> r.pos == s.pos && r.nearby == s.nearby && r.marked == s.marked
    ensures KeyOf(key) == Interact && s.nearby.None? ==> r == s
    ensures KeyOf(key) == Interact && s.nearby.Some? ==> r.modal == OpenModal(artists, s.nearby.value, s.modal)
    ensures KeyOf(key) != Interact ==> InBounds(layout, r.pos) && r.modal == s.modal
    ensures KeyOf(key) != Interact ==> r.pos == ClampToContainer(layout, Move(s.pos, KeyOf(key)))
    ensures KeyOf(key) != Interact ==> r.nearby == NearbyId(artists, r.pos)
    ensures KeyOf(key) != Interact ==>
              (r.marked.Some? <==> r.nearby.Some?) &&
              (r.marked.Some? ==> IsFirstNear(artists, r.pos, r.marked.value))
  {
    var k := KeyOf(key);
    if k == Interact then
      if s.nearby.Some? then s.(modal := OpenModal(artists, s.nearby.value, s.modal)) else s
    else
      var p := ClampToContainer(layout, Move(s.pos, k));
      var hit := FirstNear(artists, p);
      s.(pos := p, marked := hit, nearby := IdAt(artists, hit))
  }

  /** One event: a key press, or a close click that leaves everything but the modal alone. */
  function Apply(artists: seq<Artist>, layout: Layout, s: State, ev: Event): State
  {
    match ev
    case KeyDown(key) => Step(artists, layout, s, key)
    case CloseClick => s.(modal := CloseModal(s.modal))
  }

  /** The state after a sequence of events, for one fixed layout. */
  function Run(artists: seq<Artist>, layout: Layout, s: State, evs: seq<Event>): State
    decreases |evs|
  {
    if |evs| == 0 then s else Run(artists, layout, Apply(artists, layout, s, evs[0]), evs[1..])
  }

  /**
   * What every reachable state satisfies: the highlight and `nearbyArtistId`
   * agree, the nearby id belongs to a highlighted tombstone, that tombstone
   * is the first one within reach of the butterfly, and the modal only ever
   * shows an artist from the table.
   */
  ghost predicate Consistent(artists: seq<Artist>, s: State)
  {
    && (s.marked.Some? ==> s.marked.value < |artists|)
    && s.nearby == IdAt(artists, s.marked)
    && (s.marked.Some? ==> IsFirstNear(artists, s.pos, s.marked.value))
    && (s.modal.shown.Some? ==> HasId(artists, s.modal.shown.value))
  }

  lemma InitConsistent(artists: seq<Artist>)
    ensures Consistent(artists, Init())
    ensures Init().pos == START && Init().nearby.None? && !Init().modal.active
  {
  }

  /** Every event keeps the state consistent. */
  lemma ApplyPreservesConsistent(artists: seq<Artist>, layout: Layout, s: State, ev: Event)
    requires Consistent(artists, s)
    ensures Consistent(artists, Apply(artists, layout, s, ev))
  {
  }

  lemma {:induction false} RunPreservesConsistent(artists: seq<Artist>, layout: Layout, s: State, evs: seq<Event>)
    requires Consistent(artists, s)
    ensures Consistent(artists, Run(artists, layout, s, evs))
    decreases |evs|
  {
    if |evs| > 0 {
      ApplyPreservesConsistent(artists, layout, s, evs[0]);
      RunPreservesConsistent(artists, layout, Apply(artists, layout, s, evs[0]), evs[1..]);
    }
  }

  /**
   * In a reachable state the lookup inside `openModal` never misses: `e`
   * with a nearby artist always opens the modal on that artist, and that
   * artist's tombstone is the first one within reach of the butterfly.
   */
  lemma InteractOpensNearby(artists: seq<Artist>, layout: Layout, s: State, key: string)
    requires Consistent(artists, s)
    requires KeyOf(key) == Interact && s.nearby.Some?
    ensures Step(artists, layout, s, key).modal == ModalState(true, s.nearby)
    ensures Step(artists, layout, s, key).pos == s.pos
    ensures exists i :: IsFirstNear(artists, s.pos, i) && artists[i].id == s.nearby.value
    ensures && s.marked.Some? && s.marked.value < |artists|
            && Near(s.pos, artists[s.marked.value])
            && artists[s.marked.value].id == s.nearby.value
  {
  }

  /**
   * Where an arrow key takes an in-bounds butterfly: one axis moves by
   * `PLAYER_SPEED`, stopping at 0 on the way up or left and at the
   * container's far edge on the way down or right; the other axis stays.
   */
  lemma ArrowStep(artists: seq<Artist>, layout: Layout, s: State, key: string)
    requires InBounds(layout, s.pos)
    ensures var r := Step(artists, layout, s, key);
            var xMax, yMax := Limit(layout.containerWidth, layout.butterflyWidth),
                              Limit(layout.containerHeight, layout.butterflyHeight);
            && (KeyOf(key) == ArrowUp ==> r.pos == Vec(s.pos.x, Max(0, s.pos.y - PLAYER_SPEED)))
            && (KeyOf(key) == ArrowDown ==> r.pos == Vec(s.pos.x, Min(s.pos.y + PLAYER_SPEED, yMax)))
            && (KeyOf(key) == ArrowLeft ==> r.pos == Vec(Max(0, s.pos.x - PLAYER_SPEED), s.pos.y))
            && (KeyOf(key) == ArrowRight ==> r.pos == Vec(Min(s.pos.x + PLAYER_SPEED, xMax), s.pos.y))
  {
  }

  /**
   * A key that is neither an arrow nor `e`/`E` leaves an in-bounds butterfly
   * where it is but still rescans, so `nearbyArtistId` is brought up to date.
   */
  lemma OtherKeyRescans(artists: seq<Artist>, layout: Layout, s: State, key: string)
    requires KeyOf(key) == Other && InBounds(layout, s.pos)
    ensures Step(artists, layout, s, key).pos == s.pos
    ensures Step(artists, layout, s, key).nearby == NearbyId(artists, s.pos)
    ensures Step(artists, layout, s, key).modal == s.modal
  {
  }

  /** Keys never touch the modal except `e`/`E`, and close clicks only hide it. */
  lemma OnlyInteractOpens(artists: seq<Artist>, layout: Layout, s: State, ev: Event)
    requires !s.modal.active
    requires ev.CloseClick? || KeyOf(ev.key) != Interact
    ensures !Apply(artists, layout, s, ev).modal.active
  {
  }

  /** Once the butterfly is inside the container it stays inside. */
  lemma {:induction false} RunStaysInBounds(artists: seq<Artist>, layout: Layout, s: State, evs: seq<Event>)
    requires InBounds(layout, s.pos)
    ensures InBounds(layout, Run(artists, layout, s, evs).pos)
    decreases |evs|
  {
    if |evs| > 0 {
      RunStaysInBounds(artists, layout, Apply(artists, layout, s, evs[0]), evs[1..]);
    }
  }

  /**
   * After any key other than `e`/`E` has been pressed, the butterfly is
   * inside the container for good, wherever it started.
   */
  lemma {:induction false} RunAfterMoveInBounds(artists: seq<Artist>, layout: Layout, s: State, evs: seq<Event>, n: nat)
    requires n < |evs| && evs[n].KeyDown? && KeyOf(evs[n].key) != Interact
    ensures InBounds(layout, Run(artists, layout, s, evs).pos)
    decreases |evs|
  {
    var next := Apply(artists, layout, s, evs[0]);
    if n == 0 {
      RunStaysInBounds(artists, layout, next, evs[1..]);
    } else {
      RunAfterMoveInBounds(artists, layout, next, evs[1..], n - 1);
    }
  }

  /** Running two event sequences back to back is running their concatenation. */
  lemma {:induction false} RunAppend(artists: seq<Artist>, layout: Layout, s: State, a: seq<Event>, b: seq<Event>)
    ensures Run(artists, layout, s, a + b) == Run(artists, layout, Run(artists, layout, s, a), b)
    decreases |a|
  {
    if |a| > 0 {
      assert (a + b)[0] == a[0];
      assert (a + b)[1..] == a[1..] + b;
      RunAppend(artists, layout, Apply(artists, layout, s, a[0]), a[1..], b);
    } else {
      assert a + b == b;
    }
  }

  /** Three presses of one key, as one event sequence. */
  function Thrice(key: string): seq<Event>
  {
    [KeyDown(key), KeyDown(key), KeyDown(key)]
  }

  /** Three presses down in the left column, assuming an 800×600 container and a 30×30 butterfly. */
  lemma DownThrice(s: State)
    requires s.pos.x == 50 && 50 <= s.pos.y <= 95
    ensures var r := Run(Gallery(), Layout(800, 600, 30, 30), s, Thrice("ArrowDown"));
            r.pos == Vec(50, s.pos.y + 45) && r.nearby == NearbyId(Gallery(), r.pos)
  {
    var g, layout := Gallery(), Layout(800, 600, 30, 30);
    var down := Thrice("ArrowDown");
    var s1 := Apply(g, layout, s, down[0]);
    var s2 := Apply(g, layout, s1, down[0]);
    var s3 := Apply(g, layout, s2, down[0]);
    assert s3.pos == Vec(50, s.pos.y + 45);
    assert down[1..][1..] == [down[0]];
    assert Run(g, layout, s, down) == s3;
  }

  /**
   * Six presses down from the start, assuming an 800×600 container and a
   * 30×30 butterfly: the butterfly is not yet near any tombstone.
   */
  lemma WalkDown()
    ensures var s := Run(Gallery(), Layout(800, 600, 30, 30), Init(), Thrice("ArrowDown") + Thrice("ArrowDown"));
            s.pos == Vec(50, 140) && s.nearby.None?
  {
    var g, layout := Gallery(), Layout(800, 600, 30, 30);
    var down := Thrice("ArrowDown");
    RunAppend(g, layout, Init(), down, down);
    DownThrice(Init());
    DownThrice(Run(g, layout, Init(), down));
    var p := Vec(50, 140);
    assert forall j :: 0 <= j < |g| ==> !Near(p, g[j]);
  }

  /**
   * Three presses right from `(50, 140)`, assuming an 800×600 container and a
   * 30×30 butterfly, bring artist 1's tombstone within reach.
   */
  lemma WalkRight(s: State)
    requires s.pos == Vec(50, 140)
    ensures var r := Run(Gallery(), Layout(800, 600, 30, 30), s, Thrice("ArrowRight"));
            r.pos == Vec(95, 140) && r.nearby == Some(1) && r.modal == s.modal
  {
    var g, layout := Gallery(), Layout(800, 600, 30, 30);
    var right := Thrice("ArrowRight");
    var s1 := Apply(g, layout, s, right[0]);
    var s2 := Apply(g, layout, s1, right[0]);
    var s3 := Apply(g, layout, s2, right[0]);
    assert s3.pos == Vec(95, 140);
    assert Near(s3.pos, g[0]);
    assert right[1..][1..] == [right[0]];
    assert Run(g, layout, s, right) == s3;
  }

  /**
   * A walk on the page's artist table, assuming an 800×600 container and a
   * 30×30 butterfly (the page measures both at run time): from the start,
   * six presses down and three right reach artist 1's tombstone, and `e`
   * then opens the modal on it.
   */
  lemma WalkToFirstTombstone()
    ensures var walk := Thrice("ArrowDown") + Thrice("ArrowDown") + Thrice("ArrowRight");
            var s := Run(Gallery(), Layout(800, 600, 30, 30), Init(), walk);
            s.nearby == Some(1) &&
            Step(Gallery(), Layout(800, 600, 30, 30), s, "e").modal == ModalState(true, Some(1))
  {
    var g, layout := Gallery(), Layout(800, 600, 30, 30);
    var down := Thrice("ArrowDown") + Thrice("ArrowDown");
    RunAppend(g, layout, Init(), down, Thrice("ArrowRight"));
    WalkDown();
    WalkRight(Run(g, layout, Init(), down));
    assert HasId(g, 1) by { assert g[0].id == 1; }
  }

}
