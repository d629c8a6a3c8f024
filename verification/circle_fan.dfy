/**
 * The circle drawer's buffer work: a unit circle is one centre vertex and
 * `CIRCLE_POINTS` rim vertices, drawn as a triangle fan whose last index
 * returns to the first rim vertex.  The rim coordinates are left out; only
 * how many vertices are added, which indices are appended and what the
 * index set records are modelled.
 */
module CircleFan {
  import opened Wrappers
  import opened Attributes
  import Indices
  import opened IndexSets

  const CIRCLE_POINTS: nat := 50

  /** The centre and the rim. */
  const FAN_VERTICES: nat := CIRCLE_POINTS + 1

  /** Every vertex once, and the first rim vertex again to close the fan. */
  const FAN_INDICES: nat := CIRCLE_POINTS + 2

  /** Attribute 0 is the position: two `GLfloat`s. */
  const POSITION_SIZE: nat := 4
  const POSITION_COUNT: nat := 2

  /** Attribute 1 is the colour: four `GLubyte`s. */
  const COLOR_SIZE: nat := 1
  const COLOR_COUNT: nat := 4

  /** The `getNumberOfVertices` the drawer relies on: the values of attribute 0 added so far. */
  function NumberOfVertices(c: Container): (r: nat)
    requires |c.types| > 0
    ensures EqualCounters(c.types) ==> forall k :: 0 <= k < |c.types| ==> c.types[k].counter == r
  {
    c.types[0].counter
  }

  /** Attributes 0 and 1 with `k` more values each; nothing else changed. */
  function Advanced(c: Container, k: nat): (r: Container)
    requires |c.types| >= 2
    ensures |r.types| == |c.types|
  {
    c.(types := c.types[0 := c.types[0].(counter := c.types[0].counter + k)]
                       [1 := c.types[1].(counter := c.types[1].counter + k)])
  }

  /** The declarations the fan's values fit, and room for all of its vertices. */
  predicate FanFits(c: Container)
    requires |c.types| >= 2
  {
    && c.types[0].length == POSITION_COUNT && c.types[0].typeSize == POSITION_SIZE
    && c.types[1].length == COLOR_COUNT && c.types[1].typeSize == COLOR_SIZE
    && c.types[0].counter + FAN_VERTICES <= c.maxVertices
    && c.types[1].counter + FAN_VERTICES <= c.maxVertices
  }

  /**
   * Why a fan does not fit: whatever the centre vertex's position or colour
   * is refused for, and otherwise the capacity running out at a later vertex.
   */
  function FanError(c: Container): AttributeError
    requires |c.types| >= 2
  {
    var position := AdditionCheck(c, c.types[0], POSITION_SIZE, POSITION_COUNT);
    var color := AdditionCheck(c, c.types[1], COLOR_SIZE, COLOR_COUNT);
    if position.Fail? then position.error
    else if color.Fail? then color.error
    else TooManyAttributes
  }

  /**
   * `addCircleAttributes`, as far as the container sees it: for the centre
   * and then each rim point, one position and then one colour.
   */
  method AddCircleAttributes(c: Container) returns (r: Result<Container, AttributeError>)
    requires |c.types| >= 2
    ensures r.Success? <==> FanFits(c)
    ensures r.Success? ==> r.value == Advanced(c, FAN_VERTICES)
    ensures r.Failure? ==> r.error == FanError(c)
  {
    var cur := c;
    var k := 0;
    while k < FAN_VERTICES
      invariant 0 <= k <= FAN_VERTICES
      invariant cur == Advanced(c, k)
      invariant k > 0 ==> AdditionCheck(c, c.types[0], POSITION_SIZE, POSITION_COUNT).Pass?
      invariant k > 0 ==> AdditionCheck(c, c.types[1], COLOR_SIZE, COLOR_COUNT).Pass?
      invariant k > 0 ==> c.types[0].counter + k <= c.maxVertices && c.types[1].counter + k <= c.maxVertices
    {
      var position := AddAttribute(cur, 0, POSITION_SIZE, POSITION_COUNT);
      if position.Failure? {
        return Failure(position.error);
      }
      var color := AddAttribute(position.value.0, 1, COLOR_SIZE, COLOR_COUNT);
      if color.Failure? {
        return Failure(color.error);
      }
      assert color.value.0 == Advanced(c, k + 1);
      cur := color.value.0;
      k := k + 1;
    }
    return Success(cur);
  }

  /**
   * The fan's indices over vertices from `nVertices` on, as 16-bit values:
   * the centre and the rim in order, then the first rim vertex again.
   */
  function FanIndices(nVertices: nat): (r: seq<Indices.Index>)
  {
    seq(FAN_VERTICES, k => (nVertices + k) % Indices.INDEX_RANGE) + [(nVertices + 1) % Indices.INDEX_RANGE]
  }

  /** Incrementing a 16-bit value wraps around. */
  lemma NextIndex(nVertices: nat, k: nat)
    ensures ((nVertices + k) % Indices.INDEX_RANGE + 1) % Indices.INDEX_RANGE == (nVertices + k + 1) % Indices.INDEX_RANGE
  {
  }

  /**
   * `addCircleIndices`: a 16-bit counter cast from `nVertices`, added and
   * incremented once per fan vertex, then `nVertices + 1` cast once more.
   */
  method AddCircleIndices(ic: Indices.IndexContainer, nVertices: nat) returns (r: Indices.IndexContainer)
    ensures r.indices == ic.indices + FanIndices(nVertices)
    ensures r.reserved == ic.reserved
  {
    var index: Indices.Index := nVertices % Indices.INDEX_RANGE;
    var added: seq<Indices.Index> := [];
    r := ic;
    var k := 0;
    while k < FAN_VERTICES
      invariant 0 <= k <= FAN_VERTICES
      invariant index == (nVertices + k) % Indices.INDEX_RANGE
      invariant |added| == k
      invariant forall m :: 0 <= m < k ==> added[m] == (nVertices + m) % Indices.INDEX_RANGE
      invariant r.indices == ic.indices + added && r.reserved == ic.reserved
    {
      r := Indices.Add(r, [index]);
      added := added + [index];
      NextIndex(nVertices, k);
      index := (index + 1) % Indices.INDEX_RANGE;
      k := k + 1;
    }
    index := (nVertices + 1) % Indices.INDEX_RANGE;
    r := Indices.Add(r, [index]);
    assert added + [index] == FanIndices(nVertices);
  }

  /** As many indices as the set draws; the last closes the fan onto the first rim vertex. */
  lemma FanShape(nVertices: nat)
    ensures |FanIndices(nVertices)| == FAN_INDICES
    ensures FanIndices(nVertices)[FAN_INDICES - 1] == FanIndices(nVertices)[1]
    ensures FanIndices(nVertices)[0] == nVertices % Indices.INDEX_RANGE
  {
  }

  /**
   * While the vertices stay below 2^16, the fan refers to the vertices just
   * added and to no other: `nVertices` up to `nVertices + CIRCLE_POINTS`,
   * each of them.
   */
  lemma FanWithinAddedVertices(nVertices: nat)
    requires nVertices + CIRCLE_POINTS < Indices.INDEX_RANGE
    ensures forall k :: 0 <= k < FAN_VERTICES ==> FanIndices(nVertices)[k] == nVertices + k
    ensures forall k :: 0 <= k < FAN_INDICES ==> nVertices <= FanIndices(nVertices)[k] < nVertices + FAN_VERTICES
    ensures forall v :: nVertices <= v < nVertices + FAN_VERTICES ==> v in FanIndices(nVertices)
  {
    forall v | nVertices <= v < nVertices + FAN_VERTICES
      ensures v in FanIndices(nVertices)
    {
      assert FanIndices(nVertices)[v - nVertices] == v;
    }
  }

  /**
   * Past 2^16 vertices the cast wraps: a fan over vertices 65500 to 65550
   * refers to vertex 0, which it did not add.
   */
  lemma FanWrapsPast16Bits()
    ensures FanIndices(65500)[36] == 0
  {
  }

  /** What the circle drawer's index set, attribute container and index container become. */
  datatype Drawn = Drawn(circleSet: IndexSet, attributes: Container, indices: Indices.IndexContainer)

  /**
   * `createCircleSet`: the set starts where the index buffer ended, the fan's
   * vertices and indices are added, and the set draws those indices as a fan.
   * A refused attribute leaves the error.
   */
  method CreateCircleSet(circleSet: IndexSet, ac: Container, ic: Indices.IndexContainer) returns (r: Result<Drawn, AttributeError>)
    requires |ac.types| >= 2
    ensures r.Success? <==> FanFits(ac)
    ensures r.Failure? ==> r.error == FanError(ac)
    ensures r.Success? ==>
              && r.value.circleSet == IndexSet(Fan, FAN_INDICES, Indices.NumberOfIndices(ic) * Indices.INDEX_BYTES)
              && r.value.attributes == Advanced(ac, FAN_VERTICES)
              && r.value.indices.indices == ic.indices + FanIndices(NumberOfVertices(ac))
  {
    var nVertices := NumberOfVertices(ac);
    var s := SetOffset(circleSet, Indices.NumberOfIndices(ic));
    var attributes := AddCircleAttributes(ac);
    if attributes.Failure? {
      return Failure(attributes.error);
    }
    var indices := AddCircleIndices(ic, nVertices);
    s := SetMode(s, Fan);
    s := SetNumberOfIndices(s, FAN_INDICES);
    return Success(Drawn(s, attributes.value, indices));
  }

  /**
   * The set a successful `createCircleSet` records draws exactly the indices
   * it appended, and these name only the vertices it added (below 2^16).
   */
  lemma CircleSetDrawsFan(circleSet: IndexSet, ac: Container, ic: Indices.IndexContainer, d: Drawn)
    requires |ac.types| >= 2
    requires d.circleSet == IndexSet(Fan, FAN_INDICES, Indices.NumberOfIndices(ic) * Indices.INDEX_BYTES)
    requires d.attributes == Advanced(ac, FAN_VERTICES)
    requires d.indices.indices == ic.indices + FanIndices(NumberOfVertices(ac))
    ensures 0 <= FirstIndex(d.circleSet) <= FirstIndex(d.circleSet) + d.circleSet.count == |d.indices.indices|
    ensures d.indices.indices[FirstIndex(d.circleSet)..FirstIndex(d.circleSet) + d.circleSet.count] == FanIndices(NumberOfVertices(ac))
    ensures NumberOfVertices(d.attributes) == NumberOfVertices(ac) + FAN_VERTICES
    ensures NumberOfVertices(ac) + CIRCLE_POINTS < Indices.INDEX_RANGE ==>
              forall k :: FirstIndex(d.circleSet) <= k < |d.indices.indices| ==>
                NumberOfVertices(ac) <= d.indices.indices[k] < NumberOfVertices(d.attributes)
  {
    var nv := NumberOfVertices(ac);
    var first := FirstIndex(d.circleSet);
    SetOffsetFirstIndex(Default(), Indices.NumberOfIndices(ic));
    assert first == |ic.indices|;
    FanShape(nv);
    assert d.indices.indices[first..] == FanIndices(nv);
    if nv + CIRCLE_POINTS < Indices.INDEX_RANGE {
      FanWithinAddedVertices(nv);
      forall k | first <= k < |d.indices.indices|
        ensures nv <= d.indices.indices[k] < NumberOfVertices(d.attributes)
      {
        assert d.indices.indices[k] == FanIndices(nv)[k - first];
      }
    }
  }

  /**
   * When the container holds just the position and the colour, equal
   * counters stay equal: the fan adds a whole number of vertices.
   */
  lemma FanKeepsCountersEqual(c: Container)
    requires |c.types| == 2 && EqualCounters(c.types)
    ensures EqualCounters(Advanced(c, FAN_VERTICES).types)
  {
  }
}
