/**
 * The world of the circle program and its per-frame `update`: an optional
 * spawn, a move of every body, and the pairwise pass of collisions and
 * containment, run over the list of bodies in list order.
 */
module World {
  import opened Vectors
  import opened Circles
  import opened Schedule

  /** Frames to wait between two spawns. */
  const ADD_CIRCLE_DELAY: nat := 20
  const MIN_RADIUS: real := 0.05
  const MAX_RADIUS: real := 0.3
  const MAX_VELOCITY_COMPONENT: real := 0.02
  /** The frame counter is an `unsigned int`: it counts modulo 2^32. */
  const COUNTER_RANGE: nat := 0x1_0000_0000

  /** The half-extents of the screen, which the frame reads but never changes. */
  datatype Arena = Arena(xMax: real, yMax: real)

  /** How two bodies interact when the pass meets them. */
  type PairRule = (Circle, Circle) --> (Circle, Circle)

  /** A rule that applies to any two massive bodies and changes only positions and velocities. */
  ghost predicate Lawful(rule: PairRule)
  {
    forall a: Circle, b: Circle :: a.mass > 0.0 && b.mass > 0.0 ==>
      rule.requires(a, b) && SameDisc(rule(a, b).0, a) && SameDisc(rule(a, b).1, b)
  }

  /** The program's rule: `collide` with the given square root. */
  function CollisionRule(sqrt: real -> real): (rule: PairRule)
    ensures Lawful(rule)
  {
    (a: Circle, b: Circle) requires a.mass > 0.0 && b.mass > 0.0 => Collide(a, b, sqrt)
  }

  /** The program's state between frames: the list of bodies and the spawn counter. */
  datatype State = State(bodies: seq<Circle>, counter: nat)

  /** Every body has positive mass, as every spawned body does; the impulse divides by masses. */
  predicate Massive(w: seq<Circle>)
  {
    forall k :: 0 <= k < |w| ==> w[k].mass > 0.0
  }

  /**
   * Every body is small enough to fit the arena with `EPS` to spare.  This is
   * stronger than the `radius <= xMax` that `handleBounds` assumes in its
   * comment, which does not suffice (`Circles.ContainmentNeedsMargin`).
   */
  predicate Fitting(w: seq<Circle>, arena: Arena)
  {
    forall k :: 0 <= k < |w| ==> w[k].radius + EPS <= arena.xMax && w[k].radius + EPS <= arena.yMax
  }

  /** Every body from position `i` on lies inside the arena. */
  predicate InsideFrom(w: seq<Circle>, i: nat, arena: Arena)
  {
    forall k :: i <= k < |w| ==> Inside(w[k], arena.xMax, arena.yMax)
  }

  predicate AllInside(w: seq<Circle>, arena: Arena)
  {
    InsideFrom(w, 0, arena)
  }

  /** Body by body, `v` carries the same discs as `w`: only positions and velocities differ. */
  predicate SameDiscs(v: seq<Circle>, w: seq<Circle>)
  {
    |v| == |w| && forall k :: 0 <= k < |w| ==> SameDisc(v[k], w[k])
  }

  /** One step of the frame applied to the list. */
  function ApplyStep(w: seq<Circle>, s: Step, arena: Arena, rule: PairRule): (r: seq<Circle>)
    requires Fits(s, |w|) && Massive(w) && Lawful(rule)
    ensures SameDiscs(r, w)
    ensures forall k :: 0 <= k < |w| && !Touches(s, k) ==> r[k] == w[k]
  {
    match s
    case MoveBody(i) => w[i := Move(w[i])]
    case CollidePair(i, j) =>
      var p := rule(w[i], w[j]);
      w[i := p.0][j := p.1]
    case Contain(i) => w[i := HandleBounds(w[i], arena.xMax, arena.yMax)]
  }

  /** The steps applied one after another, in order. */
  function Run(w: seq<Circle>, steps: seq<Step>, arena: Arena, rule: PairRule): (r: seq<Circle>)
    requires AllFit(steps, |w|) && Massive(w) && Lawful(rule)
    ensures SameDiscs(r, w)
    ensures Massive(r)
    decreases |steps|
  {
    if steps == [] then w
    else Run(ApplyStep(w, steps[0], arena, rule), steps[1..], arena, rule)
  }

  /** `moveCircles`: every body advanced by its velocity. */
  function MoveCircles(w: seq<Circle>): (r: seq<Circle>)
    ensures SameDiscs(r, w)
    ensures forall k :: 0 <= k < |w| ==> Sub(r[k].position, w[k].position) == w[k].velocity
    ensures forall k :: 0 <= k < |w| ==> r[k].velocity == w[k].velocity
  {
    seq(|w|, k requires 0 <= k < |w| => Move(w[k]))
  }

  /** `handleCollisions`: the pairwise pass; the program's rule is `CollisionRule(sqrt)`. */
  function HandleCollisions(w: seq<Circle>, arena: Arena, rule: PairRule): (r: seq<Circle>)
    requires Massive(w) && Lawful(rule)
    ensures SameDiscs(r, w)
  {
    Run(w, Pass(0, |w|), arena, rule)
  }

  /** `random(min, max)` given the generator's draw `u`. */
  function Random(min: real, max: real, u: real): (r: real)
    ensures 0.0 <= u < 1.0 && min < max ==> min <= r < max
    ensures 0.0 <= u < 1.0 && min == max ==> r == min
  {
    var d := max - min;
    assert 0.0 <= u < 1.0 && d > 0.0 ==> u * d < d by {
      if 0.0 <= u < 1.0 && d > 0.0 {
        assert (1.0 - u) * d > 0.0;
      }
    }
    min + u * d
  }

  /** The eight draws `addRandomCircle` takes from the generator, in the order the model fixes. */
  datatype Draws = Draws(red: real, green: real, blue: real, radius: real, x: real, y: real, vx: real, vy: real)

  /** The generator's promise: every draw lies in `[0, 1)`. */
  predicate UnitDraws(d: Draws)
  {
    && 0.0 <= d.red < 1.0 && 0.0 <= d.green < 1.0 && 0.0 <= d.blue < 1.0
    && 0.0 <= d.radius < 1.0 && 0.0 <= d.x < 1.0 && 0.0 <= d.y < 1.0
    && 0.0 <= d.vx < 1.0 && 0.0 <= d.vy < 1.0
  }

  /** The body `addRandomCircle` builds from its draws. */
  function Spawn(d: Draws, arena: Arena): (c: Circle)
    ensures c.mass == c.radius * c.radius
    ensures UnitDraws(d) ==> MIN_RADIUS <= c.radius < MAX_RADIUS && c.mass > 0.0
    ensures c.color == Color(d.red, d.green, d.blue, 1.0)
    ensures c.depth == 0.5
  {
    var r := Random(MIN_RADIUS, MAX_RADIUS, d.radius);
    assert UnitDraws(d) ==> r * r > 0.0 by {
      if UnitDraws(d) {
        assert r > 0.0;
      }
    }
    var mx, my := arena.xMax - r, arena.yMax - r;
    var v := MAX_VELOCITY_COMPONENT;
    Circle(Vec2(Random(-mx, mx, d.x), Random(-my, my, d.y)),
           Vec2(Random(-v, v, d.vx), Random(-v, v, d.vy)),
           r, r * r, Color(d.red, d.green, d.blue, 1.0), 0.5)
  }

  /** `addRandomCircle`: the new body goes to the end of the list. */
  function AddRandomCircle(w: seq<Circle>, d: Draws, arena: Arena): (r: seq<Circle>)
    ensures |r| == |w| + 1 && r[..|w|] == w
    ensures r[|w|] == Spawn(d, arena)
  {
    w + [Spawn(d, arena)]
  }

  /**
   * The head of `update`: the counter is incremented modulo 2^32, and a body
   * is spawned at the end of the list, with the counter reset to 0, exactly
   * when the new count exceeds `ADD_CIRCLE_DELAY` and space is held.
   */
  function Tick(st: State, space: bool, d: Draws, arena: Arena): (r: State)
    ensures r.counter < COUNTER_RANGE
    ensures var next := (st.counter + 1) % COUNTER_RANGE;
            && (next > ADD_CIRCLE_DELAY && space ==> r.counter == 0 && r.bodies == st.bodies + [Spawn(d, arena)])
            && (!(next > ADD_CIRCLE_DELAY && space) ==> r.counter == next && r.bodies == st.bodies)
    ensures Massive(st.bodies) && UnitDraws(d) ==> Massive(r.bodies)
    ensures Fitting(st.bodies, arena) && UnitDraws(d) && MAX_RADIUS + EPS <= arena.xMax && MAX_RADIUS + EPS <= arena.yMax
            ==> Fitting(r.bodies, arena)
  {
    var counter := (st.counter + 1) % COUNTER_RANGE;
    if counter > ADD_CIRCLE_DELAY && space then State(AddRandomCircle(st.bodies, d, arena), 0)
    else State(st.bodies, counter)
  }

  /**
   * `update`: count the frame and perhaps spawn, move every body, then run
   * the pass of collisions and containment.  The program's pair rule is
   * `CollisionRule(sqrt)`.
   */
  function Update(st: State, space: bool, d: Draws, arena: Arena, rule: PairRule): (r: State)
    requires Massive(st.bodies) && UnitDraws(d) && Lawful(rule)
    ensures Massive(r.bodies)
    ensures var t := Tick(st, space, d, arena);
            r.counter == t.counter && SameDiscs(r.bodies, t.bodies)
  {
    var t := Tick(st, space, d, arena);
    State(HandleCollisions(MoveCircles(t.bodies), arena, rule), t.counter)
  }

  /**
   * A spawned body: radius in `[MIN_RADIUS, MAX_RADIUS)`, mass its square,
   * centre inside the arena whenever the arena is at least that wide, and
   * velocity components in `[-0.02, 0.02)`.
   */
  lemma SpawnFacts(d: Draws, arena: Arena)
    requires UnitDraws(d)
    ensures var c := Spawn(d, arena);
            && -MAX_VELOCITY_COMPONENT <= c.velocity.x < MAX_VELOCITY_COMPONENT
            && -MAX_VELOCITY_COMPONENT <= c.velocity.y < MAX_VELOCITY_COMPONENT
            && (c.radius <= arena.xMax ==> Abs(c.position.x) + c.radius <= arena.xMax)
            && (c.radius <= arena.yMax ==> Abs(c.position.y) + c.radius <= arena.yMax)
  {
  }

  /** Running two schedules back to back is running their concatenation. */
  lemma {:induction false} RunAppend(w: seq<Circle>, s1: seq<Step>, s2: seq<Step>, arena: Arena, rule: PairRule)
    requires AllFit(s1, |w|) && AllFit(s2, |w|) && Massive(w) && Lawful(rule)
    ensures AllFit(s1 + s2, |w|)
    ensures Run(w, s1 + s2, arena, rule) == Run(Run(w, s1, arena, rule), s2, arena, rule)
    decreases |s1|
  {
    assert AllFit(s1 + s2, |w|) by {
      forall p | 0 <= p < |s1 + s2|
        ensures Fits((s1 + s2)[p], |w|)
      {
        if p < |s1| { assert (s1 + s2)[p] == s1[p]; } else { assert (s1 + s2)[p] == s2[p - |s1|]; }
      }
    }
    if s1 == [] {
      assert s1 + s2 == s2;
    } else {
      var v := ApplyStep(w, s1[0], arena, rule);
      assert (s1 + s2)[0] == s1[0];
      assert (s1 + s2)[1..] == s1[1..] + s2;
      assert AllFit(s1[1..], |v|) by {
        forall p | 0 <= p < |s1| - 1
          ensures Fits(s1[1..][p], |v|)
        {
          assert s1[1..][p] == s1[p + 1];
        }
      }
      RunAppend(v, s1[1..], s2, arena, rule);
    }
  }

  /** A body no step touches comes out of the run unchanged. */
  lemma {:induction false} RunUntouched(w: seq<Circle>, steps: seq<Step>, arena: Arena, rule: PairRule, k: nat)
    requires AllFit(steps, |w|) && Massive(w) && Lawful(rule) && k < |w|
    requires forall p :: 0 <= p < |steps| ==> !Touches(steps[p], k)
    ensures Run(w, steps, arena, rule)[k] == w[k]
    decreases |steps|
  {
    if steps != [] {
      var v := ApplyStep(w, steps[0], arena, rule);
      assert forall p :: 0 <= p < |steps| - 1 ==> steps[1..][p] == steps[p + 1];
      RunUntouched(v, steps[1..], arena, rule, k);
    }
  }

  /** The scheduled moves from position `i` on move exactly the bodies at `i` and later, each once. */
  lemma {:induction false} MovesFrom(w: seq<Circle>, i: nat, arena: Arena, rule: PairRule)
    requires Massive(w) && Lawful(rule) && i <= |w|
    ensures AllFit(Moves(i, |w|), |w|)
    ensures var r := Run(w, Moves(i, |w|), arena, rule);
            forall k :: 0 <= k < |w| ==> r[k] == if k < i then w[k] else Move(w[k])
    decreases |w| - i
  {
    var m := Moves(i, |w|);
    if i < |w| {
      var v := ApplyStep(w, MoveBody(i), arena, rule);
      assert m[1..] == Moves(i + 1, |w|);
      MovesFrom(v, i + 1, arena, rule);
    }
  }

  /** Running the frame's moves is `moveCircles`. */
  lemma MovesAreMoveCircles(w: seq<Circle>, arena: Arena, rule: PairRule)
    requires Massive(w) && Lawful(rule)
    ensures AllFit(Moves(0, |w|), |w|)
    ensures Run(w, Moves(0, |w|), arena, rule) == MoveCircles(w)
  {
    MovesFrom(w, 0, arena, rule);
  }

  /**
   * The pass from row `i` on leaves every body from `i` on inside the arena:
   * containment of body `k` is the last step to touch it.
   */
  lemma {:induction false} PassContains(w: seq<Circle>, i: nat, arena: Arena, rule: PairRule)
    requires Massive(w) && Fitting(w, arena) && Lawful(rule) && i <= |w|
    ensures InsideFrom(Run(w, Pass(i, |w|), arena, rule), i, arena)
    decreases |w| - i
  {
    var n := |w|;
    if i < n {
      var v := RowContains(w, i, arena, rule);
      var rest := Pass(i + 1, n);
      var r := Run(w, Pass(i, n), arena, rule);
      RunUntouched(v, rest, arena, rule, i);
      PassContains(v, i + 1, arena, rule);
      assert Inside(r[i], arena.xMax, arena.yMax);
      assert InsideFrom(r, i + 1, arena);
    }
  }

  /**
   * Row `i` of the pass, its collisions and then its containment, leaves
   * body `i` inside the arena; the rest of the pass continues from there.
   */
  lemma RowContains(w: seq<Circle>, i: nat, arena: Arena, rule: PairRule) returns (v: seq<Circle>)
    requires Massive(w) && Fitting(w, arena) && Lawful(rule) && i < |w|
    ensures |v| == |w| && Massive(v) && Fitting(v, arena)
    ensures Inside(v[i], arena.xMax, arena.yMax)
    ensures Run(w, Pass(i, |w|), arena, rule) == Run(v, Pass(i + 1, |w|), arena, rule)
  {
    var n := |w|;
    var c := Collisions(i, i + 1, n);
    var rest := Pass(i + 1, n);
    assert Pass(i, n) == c + [Contain(i)] + rest;
    assert AllFit(c, n);
    assert AllFit([Contain(i)], n);
    RunAppend(w, c, [Contain(i)], arena, rule);
    RunAppend(w, c + [Contain(i)], rest, arena, rule);
    var u := Run(w, c, arena, rule);
    v := Run(w, c + [Contain(i)], arena, rule);
    assert v == ApplyStep(u, Contain(i), arena, rule) by {
      assert v == Run(u, [Contain(i)], arena, rule);
    }
    ContainedBody(u, i, arena, rule);
  }

  /** The body just contained lies inside the arena. */
  lemma ContainedBody(w: seq<Circle>, i: nat, arena: Arena, rule: PairRule)
    requires Massive(w) && Fitting(w, arena) && Lawful(rule) && i < |w|
    ensures Inside(ApplyStep(w, Contain(i), arena, rule)[i], arena.xMax, arena.yMax)
  {
  }

  /** After `handleCollisions` every body is inside the arena. */
  lemma HandleCollisionsContains(w: seq<Circle>, arena: Arena, rule: PairRule)
    requires Massive(w) && Fitting(w, arena) && Lawful(rule)
    ensures AllInside(HandleCollisions(w, arena, rule), arena)
  {
    PassContains(w, 0, arena, rule);
  }

  /**
   * `update` is the frame's schedule, moves first and then the pass, run
   * over the list after the optional spawn.
   */
  lemma UpdateRunsFrame(st: State, space: bool, d: Draws, arena: Arena, rule: PairRule)
    requires Massive(st.bodies) && UnitDraws(d) && Lawful(rule)
    ensures var w := Tick(st, space, d, arena).bodies;
            Massive(w) && AllFit(Frame(|w|), |w|)
            && Update(st, space, d, arena, rule).bodies == Run(w, Frame(|w|), arena, rule)
  {
    FrameRunsPass(Tick(st, space, d, arena).bodies, arena, rule);
  }

  /** The frame's schedule over a list is `handleCollisions` after `moveCircles`. */
  lemma FrameRunsPass(w: seq<Circle>, arena: Arena, rule: PairRule)
    requires Massive(w) && Lawful(rule)
    ensures AllFit(Frame(|w|), |w|)
    ensures Run(w, Frame(|w|), arena, rule) == HandleCollisions(MoveCircles(w), arena, rule)
  {
    var n := |w|;
    MovesAreMoveCircles(w, arena, rule);
    RunAppend(w, Moves(0, n), Pass(0, n), arena, rule);
  }

  /**
   * A frame keeps every body fitting and leaves all of them inside the
   * arena, provided the arena is wide enough for the largest spawn.
   */
  lemma UpdateContains(st: State, space: bool, d: Draws, arena: Arena, rule: PairRule)
    requires Massive(st.bodies) && Fitting(st.bodies, arena) && UnitDraws(d) && Lawful(rule)
    requires MAX_RADIUS + EPS <= arena.xMax && MAX_RADIUS + EPS <= arena.yMax
    ensures var r := Update(st, space, d, arena, rule);
            Fitting(r.bodies, arena) && AllInside(r.bodies, arena)
  {
    var m := MoveCircles(Tick(st, space, d, arena).bodies);
    assert Fitting(m, arena);
    HandleCollisionsContains(m, arena, rule);
  }
}
