/**
 * The order in which one frame of the circle program touches its bodies.
 *
 * `moveCircles` walks the list once; `handleCollisions` walks it with two
 * nested iterators, colliding body `i` with every later body `j` and then
 * containing body `i`.  Both loops are written out here as a schedule: a
 * sequence of steps over list positions, so that the order itself can be
 * reasoned about apart from the physics each step performs.
 */
module Schedule {

  /** One call the frame makes, naming the list positions it works on. */
  datatype Step =
    | MoveBody(i: nat)
    | CollidePair(i: nat, j: nat)
    | Contain(i: nat)

  /** Does step `s` change body `k`? */
  predicate Touches(s: Step, k: nat)
  {
    match s
    case MoveBody(i) => i == k
    case CollidePair(i, j) => i == k || j == k
    case Contain(i) => i == k
  }

  /** Step `s` names only positions of a list of `n` bodies, and a pair names two distinct ones in list order. */
  predicate Fits(s: Step, n: nat)
  {
    match s
    case MoveBody(i) => i < n
    case CollidePair(i, j) => i < j < n
    case Contain(i) => i < n
  }

  predicate AllFit(steps: seq<Step>, n: nat)
  {
    forall p :: 0 <= p < |steps| ==> Fits(steps[p], n)
  }

  /** `moveCircles` from position `i` on: one move per body, in list order. */
  function Moves(i: nat, n: nat): (r: seq<Step>)
    decreases n - i
    ensures |r| == if i < n then n - i else 0
    ensures forall p :: 0 <= p < |r| ==> r[p] == MoveBody(i + p)
  {
    if i >= n then [] else [MoveBody(i)] + Moves(i + 1, n)
  }

  /** The inner loop of `handleCollisions`: body `i` against bodies `j .. n-1`. */
  function Collisions(i: nat, j: nat, n: nat): (r: seq<Step>)
    decreases n - j
    ensures |r| == if j < n then n - j else 0
    ensures forall p :: 0 <= p < |r| ==> r[p] == CollidePair(i, j + p)
  {
    if j >= n then [] else [CollidePair(i, j)] + Collisions(i, j + 1, n)
  }

  /**
   * The outer loop of `handleCollisions` from body `i` on: each body meets
   * every later body, and is then contained.
   */
  function Pass(i: nat, n: nat): (r: seq<Step>)
    decreases n - i
    ensures AllFit(r, n)
    ensures forall p :: 0 <= p < |r| ==> i <= r[p].i && !r[p].MoveBody?
  {
    if i >= n then [] else Collisions(i, i + 1, n) + [Contain(i)] + Pass(i + 1, n)
  }

  /** One frame after the optional spawn: every move, then the pairwise pass. */
  function Frame(n: nat): seq<Step>
  {
    Moves(0, n) + Pass(0, n)
  }

  /** The column of a pass step within its row; containment closes the row. */
  function Column(s: Step, n: nat): nat
  {
    match s
    case MoveBody(_) => 0
    case CollidePair(_, j) => j
    case Contain(_) => n
  }

  /** List order of the nested loops: by row, then by column. */
  predicate Before(s: Step, t: Step, n: nat)
  {
    s.i < t.i || (s.i == t.i && Column(s, n) < Column(t, n))
  }

  predicate Ordered(steps: seq<Step>, n: nat)
  {
    forall p, q :: 0 <= p < q < |steps| ==> Before(steps[p], steps[q], n)
  }

  /** A pair is collided in the pass exactly when it is two bodies in list order. */
  lemma {:induction false} CollisionScheduled(i: nat, n: nat, a: nat, b: nat)
    ensures CollidePair(a, b) in Pass(i, n) <==> i <= a < b < n
    decreases n - i
  {
    if i < n {
      var c := Collisions(i, i + 1, n);
      assert Pass(i, n) == c + [Contain(i)] + Pass(i + 1, n);
      CollisionScheduled(i + 1, n, a, b);
      if a == i && i < b < n {
        assert c[b - (i + 1)] == CollidePair(a, b);
      }
    }
  }

  /** Every body, and only a body of the list, is contained in the pass. */
  lemma {:induction false} ContainmentScheduled(i: nat, n: nat, a: nat)
    ensures Contain(a) in Pass(i, n) <==> i <= a < n
    decreases n - i
  {
    if i < n {
      var c := Collisions(i, i + 1, n);
      assert Pass(i, n) == c + [Contain(i)] + Pass(i + 1, n);
      ContainmentScheduled(i + 1, n, a);
    }
  }

  /** The steps of the pass come in the loops' order, by row and then by column. */
  lemma {:induction false} PassOrdered(i: nat, n: nat)
    ensures Ordered(Pass(i, n), n)
    decreases n - i
  {
    if i < n {
      var c := Collisions(i, i + 1, n);
      var rest := Pass(i + 1, n);
      var r := Pass(i, n);
      assert r == c + [Contain(i)] + rest;
      PassOrdered(i + 1, n);
      forall p, q | 0 <= p < q < |r|
        ensures Before(r[p], r[q], n)
      {
        if q < |c| {
          assert r[p] == CollidePair(i, i + 1 + p) && r[q] == CollidePair(i, i + 1 + q);
        } else if q == |c| {
          assert r[p] == CollidePair(i, i + 1 + p) && r[q] == Contain(i);
        } else if p <= |c| {
          assert r[p].i == i;
          assert r[q] == rest[q - |c| - 1];
        } else {
          assert r[p] == rest[p - |c| - 1] && r[q] == rest[q - |c| - 1];
        }
      }
    }
  }

  /** Hence no step of the pass is made twice: every pair is collided exactly once. */
  lemma PassOnce(n: nat)
    ensures forall p, q :: 0 <= p < |Pass(0, n)| && 0 <= q < |Pass(0, n)| && Pass(0, n)[p] == Pass(0, n)[q] ==> p == q
  {
    PassOrdered(0, n);
  }

  /**
   * Containment is the last thing the pass does to a body: its collisions all
   * come before it, and nothing after it touches the body again.
   */
  lemma ContainmentLast(n: nat, k: nat, p: nat)
    requires p < |Pass(0, n)| && Pass(0, n)[p] == Contain(k)
    ensures forall q :: 0 <= q < |Pass(0, n)| && Touches(Pass(0, n)[q], k) ==> q <= p
  {
    var r := Pass(0, n);
    PassOrdered(0, n);
    forall q | p < q < |r|
      ensures !Touches(r[q], k)
    {
      assert Before(r[p], r[q], n);
      assert Fits(r[q], n);
    }
  }

  /**
   * A frame opens with the moves: position `q` moves body `q` for every body
   * of the list, and no later step moves anything.
   */
  lemma MovesFirst(n: nat)
    ensures |Frame(n)| >= n
    ensures forall q :: 0 <= q < n ==> Frame(n)[q] == MoveBody(q)
    ensures forall q :: n <= q < |Frame(n)| ==> !Frame(n)[q].MoveBody?
  {
    var m, r := Moves(0, n), Frame(n);
    forall q | 0 <= q < |r|
      ensures q < n ==> r[q] == MoveBody(q)
      ensures n <= q ==> !r[q].MoveBody?
    {
      if q < n {
        assert r[q] == m[q];
      } else {
        assert r[q] == Pass(0, n)[q - n];
      }
    }
  }
}
