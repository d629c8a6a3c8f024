/**
 * The attribute container: interleaved vertex attributes in one byte buffer.
 *
 * Attribute types are declared first; each gets the next byte offset within
 * a vertex, and the vertex size (an `unsigned short`, so it counts modulo
 * 2^16) grows by the attribute's size.  `reserve` then sizes the buffer for
 * a number of vertices, and every `addAttribute` writes one value of one
 * attribute at the next free vertex of that attribute.  The bytes written
 * are not modelled, only where they go.
 */
module Attributes {
  import opened Wrappers

  /** The vertex size is an `unsigned short`. */
  const VERTEX_SIZE_RANGE: nat := 0x1_0000

  /** The OpenGL component types an attribute may have. */
  datatype GLType = Byte | UnsignedByte | Short | UnsignedShort | Fixed | Float

  /** The number of components of one attribute, `ONE` to `FOUR`. */
  type AttributeLength = l: nat | 1 <= l <= 4 witness 1

  /** What the container records about one attribute type. */
  datatype Attribute = Attribute(
    glType: GLType,
    typeSize: nat,
    normalized: bool,
    length: AttributeLength,
    offset: nat,
    counter: nat)

  datatype Container = Container(
    vertexSize: nat,
    maxVertices: nat,
    bufferBytes: nat,
    types: seq<Attribute>)

  /** Every way the container refuses a call. */
  datatype AttributeError =
    | NotMultipleOf4
    | NoAttributeTypes
    | LengthMismatch
    | TooManyAttributes
    | TypeSizeMismatch
    | EmptyBuffer
    | UnequalLengths


  /** The size in bytes of one component, as the OpenGL ES specification lists it. */
  function TypeSize(t: GLType): (r: nat)
    ensures r == 1 || r == 2 || r == 4
    ensures r == 1 <==> t == Byte || t == UnsignedByte
    ensures r == 4 <==> t == Fixed || t == Float
  {
    match t
    case Byte => 1
    case UnsignedByte => 1
    case Short => 2
    case UnsignedShort => 2
    case Fixed => 4
    case Float => 4
  }

  /** The bytes one attribute takes in a vertex. */
  function AttributeSize(a: Attribute): nat
  {
    a.typeSize * a.length
  }

  /** `checkDivisibleBy4`: attributes must come in whole 4-byte chunks. */
  function CheckDivisibleBy4(size: nat): (r: Outcome<AttributeError>)
    ensures r.Pass? <==> exists q: nat :: q <= size && size == 4 * q
  {
    if size % 4 != 0 then Fail(NotMultipleOf4)
    else
      assert size == 4 * (size / 4);
      Pass
  }

  /**
   * `addAttributeType`: a new attribute type placed at the current end of
   * the vertex, refused before anything changes unless its size is a
   * multiple of 4.
   */
  function AddAttributeType(c: Container, t: GLType, normalized: bool, length: AttributeLength): (r: Result<Container, AttributeError>)
    ensures r.Failure? <==> (TypeSize(t) * length) % 4 != 0
    ensures r.Failure? ==> r.error == NotMultipleOf4
    ensures r.Success? ==>
              && r.value.types == c.types + [Attribute(t, TypeSize(t), normalized, length, c.vertexSize, 0)]
              && r.value.vertexSize == (c.vertexSize + TypeSize(t) * length) % VERTEX_SIZE_RANGE
              && r.value.maxVertices == c.maxVertices && r.value.bufferBytes == c.bufferBytes
  {
    var size := TypeSize(t) * length;
    var check := CheckDivisibleBy4(size);
    if check.Fail? then Failure(check.error)
    else
      var a := Attribute(t, TypeSize(t), normalized, length, c.vertexSize, 0);
      Success(c.(vertexSize := (c.vertexSize + size) % VERTEX_SIZE_RANGE, types := c.types + [a]))
  }

  /** `reserve`: room for `n` vertices, refused while no attribute type exists. */
  function Reserve(c: Container, n: nat): (r: Result<Container, AttributeError>)
    ensures r.Failure? <==> c.vertexSize == 0
    ensures r.Failure? ==> r.error == NoAttributeTypes
    ensures r.Success? ==> r.value == c.(maxVertices := n, bufferBytes := n * c.vertexSize)
  {
    if c.vertexSize == 0 then Failure(NoAttributeTypes)
    else Success(c.(maxVertices := n, bufferBytes := n * c.vertexSize))
  }

  /** `additionCheck`: the value count, then the capacity, then the component size. */
  function AdditionCheck(c: Container, a: Attribute, valueSize: nat, valueCount: nat): (r: Outcome<AttributeError>)
    ensures r.Pass? <==> valueCount == a.length && a.counter < c.maxVertices && valueSize == a.typeSize
    ensures valueCount != a.length ==> r == Fail(LengthMismatch)
    ensures valueCount == a.length && a.counter >= c.maxVertices ==> r == Fail(TooManyAttributes)
    ensures valueCount == a.length && a.counter < c.maxVertices && valueSize != a.typeSize ==> r == Fail(TypeSizeMismatch)
  {
    if valueCount != a.length then Fail(LengthMismatch)
    else if a.counter >= c.maxVertices then Fail(TooManyAttributes)
    else if valueSize != a.typeSize then Fail(TypeSizeMismatch)
    else Pass
  }

  /** Where the next value of an attribute goes: its vertex, then its offset within the vertex. */
  function WriteAt(c: Container, a: Attribute): nat
  {
    a.counter * c.vertexSize + a.offset
  }

  /**
   * `addAttribute`: `valueCount` components of `valueSize` bytes each for
   * attribute `index`.  On success the result is the container with that
   * attribute's counter advanced, and the byte position the values are
   * written at.
   */
  function AddAttribute(c: Container, index: nat, valueSize: nat, valueCount: nat): (r: Result<(Container, nat), AttributeError>)
    requires index < |c.types|
    ensures r.Success? <==> AdditionCheck(c, c.types[index], valueSize, valueCount).Pass?
    ensures r.Failure? ==> r.error == AdditionCheck(c, c.types[index], valueSize, valueCount).error
    ensures r.Success? ==>
              && r.value.1 == WriteAt(c, c.types[index])
              && |r.value.0.types| == |c.types|
              && r.value.0.types[index] == c.types[index].(counter := c.types[index].counter + 1)
              && (forall k :: 0 <= k < |c.types| && k != index ==> r.value.0.types[k] == c.types[k])
              && r.value.0.vertexSize == c.vertexSize
              && r.value.0.maxVertices == c.maxVertices
              && r.value.0.bufferBytes == c.bufferBytes
  {
    var a := c.types[index];
    var check := AdditionCheck(c, a, valueSize, valueCount);
    if check.Fail? then Failure(check.error)
    else Success((c.(types := c.types[index := a.(counter := a.counter + 1)]), WriteAt(c, a)))
  }

  /** All attribute arrays have as many values as the first. */
  predicate EqualCounters(types: seq<Attribute>)
  {
    forall k :: 0 <= k < |types| ==> types[k].counter == types[0].counter
  }

  /**
   * A container some sequence of calls can reach: a vertex size or a buffer
   * exists only once a type has been declared.  `initialize` reads attribute
   * 0 when the buffer is non-empty, which such a container always has.
   */
  predicate Declared(c: Container)
  {
    (c.vertexSize > 0 || c.bufferBytes > 0) ==> |c.types| > 0
  }

  /** Every operation keeps a container reachable, starting from the empty one. */
  lemma DeclaredPreserved(c: Container, n: nat, index: nat, valueSize: nat, valueCount: nat, t: GLType, normalized: bool, length: AttributeLength)
    requires Declared(c)
    ensures Declared(Empty())
    ensures var r := AddAttributeType(c, t, normalized, length);
            r.Success? ==> Declared(r.value) && |r.value.types| > 0
    ensures var r := Reserve(c, n);
            r.Success? ==> Declared(r.value)
    ensures index < |c.types| ==>
              var r := AddAttribute(c, index, valueSize, valueCount);
              r.Success? ==> Declared(r.value.0)
  {
  }

  /**
   * The checks `initialize` makes before uploading: the buffer must be
   * non-empty and every attribute must have as many values as the first.
   */
  method Initialize(c: Container) returns (r: Outcome<AttributeError>)
    requires Declared(c)
    ensures r.Pass? <==> c.bufferBytes > 0 && EqualCounters(c.types)
    ensures c.bufferBytes == 0 ==> r == Fail(EmptyBuffer)
    ensures c.bufferBytes > 0 && !EqualCounters(c.types) ==> r == Fail(UnequalLengths)
  {
    if c.bufferBytes == 0 {
      return Fail(EmptyBuffer);
    }
    var n := c.types[0].counter;
    var k := 0;
    while k < |c.types|
      invariant 0 <= k <= |c.types|
      invariant forall m :: 0 <= m < k ==> c.types[m].counter == n
    {
      if c.types[k].counter != n {
        return Fail(UnequalLengths);
      }
      k := k + 1;
    }
    return Pass;
  }

  /** The bytes the first `k` attribute types take in a vertex. */
  function SizeOfFirst(types: seq<Attribute>, k: nat): nat
    requires k <= |types|
  {
    if k == 0 then 0 else SizeOfFirst(types, k - 1) + AttributeSize(types[k - 1])
  }

  /**
   * The layout the declarations produce while the vertex size has not
   * wrapped: each offset is the sum of the sizes before it, and the vertex
   * size is the sum of them all.
   */
  predicate Laid(c: Container)
  {
    && c.vertexSize == SizeOfFirst(c.types, |c.types|)
    && (forall k :: 0 <= k < |c.types| ==> c.types[k].offset == SizeOfFirst(c.types, k))
  }

  /** Sizes of a prefix are unaffected by what is appended after it. */
  lemma {:induction false} SizeOfFirstAppend(types: seq<Attribute>, a: Attribute, k: nat)
    requires k <= |types|
    ensures SizeOfFirst(types + [a], k) == SizeOfFirst(types, k)
  {
    if k > 0 {
      assert (types + [a])[k - 1] == types[k - 1];
      SizeOfFirstAppend(types, a, k - 1);
    }
  }

  /** Appending an attribute at the end of the vertex keeps the layout. */
  lemma AppendKeepsLayout(c: Container, a: Attribute, r: Container)
    requires Laid(c) && a.offset == c.vertexSize
    requires r.types == c.types + [a] && r.vertexSize == c.vertexSize + AttributeSize(a)
    ensures Laid(r)
  {
    SizeOfFirstAppend(c.types, a, |c.types|);
    assert SizeOfFirst(r.types, |r.types|) == SizeOfFirst(r.types, |c.types|) + AttributeSize(a);
    forall k | 0 <= k < |r.types|
      ensures r.types[k].offset == SizeOfFirst(r.types, k)
    {
      AppendedOffset(c, a, k);
    }
  }

  lemma AppendedOffset(c: Container, a: Attribute, k: nat)
    requires Laid(c) && a.offset == c.vertexSize && k <= |c.types|
    ensures (c.types + [a])[k].offset == SizeOfFirst(c.types + [a], k)
  {
    SizeOfFirstAppend(c.types, a, k);
    if k < |c.types| {
      assert (c.types + [a])[k] == c.types[k];
    } else {
      assert (c.types + [a])[k] == a;
      assert SizeOfFirst(c.types, k) == c.vertexSize;
    }
  }

  /** Declaring a type keeps the layout as long as the vertex size does not wrap. */
  lemma AddAttributeTypeKeepsLayout(c: Container, t: GLType, normalized: bool, length: AttributeLength)
    requires Laid(c)
    requires c.vertexSize + TypeSize(t) * length < VERTEX_SIZE_RANGE
    ensures var r := AddAttributeType(c, t, normalized, length);
            r.Success? ==> Laid(r.value)
  {
    var r := AddAttributeType(c, t, normalized, length);
    if r.Success? {
      var a := Attribute(t, TypeSize(t), normalized, length, c.vertexSize, 0);
      var size := TypeSize(t) * length;
      assert AttributeSize(a) == size;
      NoWrap(c.vertexSize + size);
      assert r.value.vertexSize == c.vertexSize + size;
      AppendKeepsLayout(c, a, r.value);
    }
  }

  /** A vertex size below the range of `unsigned short` is stored unchanged. */
  lemma NoWrap(x: nat)
    requires x < VERTEX_SIZE_RANGE
    ensures x % VERTEX_SIZE_RANGE == x
  {
  }

  /** Every declared attribute has components of positive size, as `getTypeSize` gives. */
  predicate PositiveSizes(c: Container)
  {
    forall m :: 0 <= m < |c.types| ==> c.types[m].typeSize > 0
  }

  /** Prefix sums of positive sizes strictly increase. */
  lemma {:induction false} SizeOfFirstIncreases(types: seq<Attribute>, j: nat, k: nat)
    requires j < k <= |types|
    requires forall m :: 0 <= m < |types| ==> types[m].typeSize > 0
    ensures SizeOfFirst(types, j) + AttributeSize(types[j]) <= SizeOfFirst(types, k)
    decreases k - j
  {
    if j + 1 < k {
      SizeOfFirstIncreases(types, j, k - 1);
    }
  }

  /** In a laid-out container the offsets strictly increase along the declarations. */
  lemma OffsetsIncrease(c: Container, j: nat, k: nat)
    requires Laid(c) && PositiveSizes(c) && j < k < |c.types|
    ensures c.types[j].offset < c.types[k].offset
  {
    SizeOfFirstIncreases(c.types, j, k);
    PositiveProduct(c.types[j].typeSize, c.types[j].length);
  }

  /** In a laid-out container every attribute lies within the vertex. */
  lemma WithinVertex(c: Container, k: nat)
    requires Laid(c) && PositiveSizes(c) && k < |c.types|
    ensures c.types[k].offset + AttributeSize(c.types[k]) <= c.vertexSize
  {
    SizeOfFirstIncreases(c.types, k, |c.types|);
  }

  /** Reserve fixed the buffer for the current vertex size: no type was declared after it. */
  predicate Sized(c: Container)
  {
    c.bufferBytes == c.maxVertices * c.vertexSize
  }

  /**
   * Provided no type is declared after `reserve`, a successful write of a
   * whole attribute lies inside the buffer.  `WritesKeepLayout` shows the
   * premises survive every accepted write, so this holds for each write of
   * a sequence, not just the first.
   */
  lemma WriteInBounds(c: Container, index: nat, valueSize: nat, valueCount: nat)
    requires index < |c.types| && Laid(c) && Sized(c) && PositiveSizes(c)
    ensures var r := AddAttribute(c, index, valueSize, valueCount);
            r.Success? ==> r.value.1 + valueSize * valueCount <= c.bufferBytes
  {
    var r := AddAttribute(c, index, valueSize, valueCount);
    if r.Success? {
      var a := c.types[index];
      WithinVertex(c, index);
      assert valueSize * valueCount == AttributeSize(a);
      SlotFits(a.counter, c.maxVertices, c.vertexSize, a.offset, AttributeSize(a));
    }
  }

  /** Changing an attribute for one of the same size leaves every prefix sum as it was. */
  lemma {:induction false} SizeOfFirstUpdate(types: seq<Attribute>, index: nat, a: Attribute, k: nat)
    requires index < |types| && k <= |types|
    requires AttributeSize(a) == AttributeSize(types[index])
    ensures SizeOfFirst(types[index := a], k) == SizeOfFirst(types, k)
  {
    if k > 0 {
      SizeOfFirstUpdate(types, index, a, k - 1);
    }
  }

  /**
   * An accepted `addAttribute` keeps the layout, the buffer sized for it and
   * the positive component sizes: everything `WriteInBounds` needs for the
   * next write.
   */
  lemma WritesKeepLayout(c: Container, index: nat, valueSize: nat, valueCount: nat)
    requires index < |c.types|
    ensures var r := AddAttribute(c, index, valueSize, valueCount);
            r.Success? ==>
              && (Laid(c) ==> Laid(r.value.0))
              && (Sized(c) ==> Sized(r.value.0))
              && (PositiveSizes(c) ==> PositiveSizes(r.value.0))
  {
    var r := AddAttribute(c, index, valueSize, valueCount);
    if r.Success? && Laid(c) {
      var a := c.types[index].(counter := c.types[index].counter + 1);
      var types := r.value.0.types;
      assert types == c.types[index := a];
      SizeOfFirstUpdate(c.types, index, a, |c.types|);
      forall k | 0 <= k < |types|
        ensures types[k].offset == SizeOfFirst(types, k)
      {
        SizeOfFirstUpdate(c.types, index, a, k);
      }
    }
  }

  /**
   * `reserve` sizes the buffer for the current vertex, and keeps the layout;
   * declaring a type keeps the component sizes positive.
   */
  lemma ReserveSizesBuffer(c: Container, n: nat, t: GLType, normalized: bool, length: AttributeLength)
    ensures var r := Reserve(c, n);
            r.Success? ==> Sized(r.value) && (Laid(c) ==> Laid(r.value)) && (PositiveSizes(c) ==> PositiveSizes(r.value))
    ensures var r := AddAttributeType(c, t, normalized, length);
            r.Success? && PositiveSizes(c) ==> PositiveSizes(r.value)
  {
    var r := AddAttributeType(c, t, normalized, length);
    if r.Success? && PositiveSizes(c) {
      assert r.value.types == c.types + [Attribute(t, TypeSize(t), normalized, length, c.vertexSize, 0)];
    }
  }

  /** A slot within a vertex, at a vertex below the capacity, lies within the buffer. */
  lemma SlotFits(vertex: nat, maxVertices: nat, vertexSize: nat, offset: nat, size: nat)
    requires vertex < maxVertices && offset + size <= vertexSize
    ensures vertex * vertexSize + offset + size <= maxVertices * vertexSize
  {
    MultiplyMonotone(vertex + 1, maxVertices, vertexSize);
    assert (vertex + 1) * vertexSize == vertex * vertexSize + vertexSize;
  }

  lemma PositiveProduct(a: nat, b: nat)
    requires a > 0 && b > 0
    ensures a * b > 0
  {
    MultiplyMonotone(1, b, a);
  }

  lemma MultiplyMonotone(a: nat, b: nat, m: nat)
    requires a <= b
    ensures a * m <= b * m
  {
    assert b * m - a * m == (b - a) * m;
  }

  /** Every counter is within the reserved capacity. */
  predicate CountersBounded(c: Container)
  {
    forall k :: 0 <= k < |c.types| ==> c.types[k].counter <= c.maxVertices
  }

  /** Declaring types and adding values keep the counters within capacity. */
  lemma CountersStayBounded(c: Container, index: nat, valueSize: nat, valueCount: nat, t: GLType, normalized: bool, length: AttributeLength)
    requires CountersBounded(c) && index < |c.types|
    ensures var r := AddAttribute(c, index, valueSize, valueCount);
            r.Success? ==> CountersBounded(r.value.0)
    ensures var r := AddAttributeType(c, t, normalized, length);
            r.Success? ==> CountersBounded(r.value)
  {
  }

  /** Reserving keeps the counters within capacity exactly when no counter exceeds the new capacity. */
  lemma ReserveBounds(c: Container, n: nat)
    requires c.vertexSize > 0
    ensures var r := Reserve(c, n);
            r.Success? && (CountersBounded(r.value) <==> forall k :: 0 <= k < |c.types| ==> c.types[k].counter <= n)
  {
  }

  /**
   * A freshly constructed container: no types, no vertex size, no buffer.
   * It already satisfies every invariant above, and it refuses `reserve`.
   */
  function Empty(): (r: Container)
    ensures |r.types| == 0 && r.bufferBytes == 0
    ensures Declared(r) && Laid(r) && Sized(r) && PositiveSizes(r) && CountersBounded(r)
    ensures forall n: nat :: Reserve(r, n) == Failure(NoAttributeTypes)
  {
    Container(0, 0, 0, [])
  }

  /**
   * Declaring a type after `reserve` leaves the buffer too small: one
   * `FLOAT x TWO` type, room for one vertex, a second `FLOAT x TWO` type, and
   * the first value of the second type is written past the end of the buffer.
   */
  lemma TypeAfterReserveOverruns()
    ensures AddAttributeType(Empty(), Float, false, 2).Success?
    ensures var c1 := AddAttributeType(Empty(), Float, false, 2).value;
            Reserve(c1, 1).Success?
    ensures var c1 := AddAttributeType(Empty(), Float, false, 2).value;
            var c2 := Reserve(c1, 1).value;
            var c3 := AddAttributeType(c2, Float, false, 2);
            && c3.Success?
            && var r := AddAttribute(c3.value, 1, 4, 2);
            && r.Success?
            && r.value.1 + 4 * 2 > c3.value.bufferBytes
  {
    var c1 := AddAttributeType(Empty(), Float, false, 2).value;
    assert c1.vertexSize == 8;
    var c2 := Reserve(c1, 1).value;
    assert c2.bufferBytes == 8;
    var c3 := AddAttributeType(c2, Float, false, 2).value;
    assert c3.types[1].offset == 8;
  }
}
