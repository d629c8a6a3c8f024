/**
 * An index set: which stretch of the index buffer one draw call uses, and
 * how the indices are assembled into triangles.
 */
module IndexSets {
  import Indices

  datatype DrawMode = Strip | Fan | Triangles

  /**
   * The draw mode, the number of indices drawn, and where in the index
   * buffer they start.  `GLsizei` and `GLsizeiptr` are signed.
   */
  datatype IndexSet = IndexSet(mode: DrawMode, count: int, offset: int)

  /** A default-constructed set draws no triangles from the start of the buffer. */
  function Default(): (r: IndexSet)
    ensures r.mode == Triangles && r.count == 0
    ensures FirstIndex(r) == 0 && r.offset % Indices.INDEX_BYTES == 0
  {
    IndexSet(Triangles, 0, 0)
  }

  /** The three-argument constructor, which stores `offs` as it is given. */
  function Make(mode: DrawMode, numberOfIndices: int, offs: int): (r: IndexSet)
    ensures r.mode == mode && r.count == numberOfIndices && r.offset == offs
  {
    IndexSet(mode, numberOfIndices, offs)
  }

  function SetMode(s: IndexSet, mode: DrawMode): (r: IndexSet)
    ensures r.mode == mode
    ensures r.count == s.count && r.offset == s.offset
  {
    s.(mode := mode)
  }

  function SetNumberOfIndices(s: IndexSet, n: int): (r: IndexSet)
    ensures r.count == n
    ensures r.mode == s.mode && r.offset == s.offset
  {
    s.(count := n)
  }

  /** `setOffset` takes a number of indices and stores it as a byte offset. */
  function SetOffset(s: IndexSet, offs: int): (r: IndexSet)
    ensures r.offset == offs * Indices.INDEX_BYTES
    ensures r.mode == s.mode && r.count == s.count
  {
    s.(offset := offs * Indices.INDEX_BYTES)
  }

  /** The index at which a set's stretch of the buffer begins. */
  function FirstIndex(s: IndexSet): int
  {
    s.offset / Indices.INDEX_BYTES
  }

  /** `setOffset` can be undone: the stretch begins at the index it was given. */
  lemma SetOffsetFirstIndex(s: IndexSet, offs: int)
    ensures FirstIndex(SetOffset(s, offs)) == offs
    ensures SetOffset(s, offs).offset % Indices.INDEX_BYTES == 0
  {
  }

  /** Setting a field twice keeps only the second value, and the setters of different fields commute. */
  lemma SettersIndependent(s: IndexSet, m1: DrawMode, m2: DrawMode, n1: int, n2: int, o1: int, o2: int)
    ensures SetMode(SetMode(s, m1), m2) == SetMode(s, m2)
    ensures SetNumberOfIndices(SetNumberOfIndices(s, n1), n2) == SetNumberOfIndices(s, n2)
    ensures SetOffset(SetOffset(s, o1), o2) == SetOffset(s, o2)
    ensures SetMode(SetNumberOfIndices(s, n1), m1) == SetNumberOfIndices(SetMode(s, m1), n1)
    ensures SetMode(SetOffset(s, o1), m1) == SetOffset(SetMode(s, m1), o1)
    ensures SetNumberOfIndices(SetOffset(s, o1), n1) == SetOffset(SetNumberOfIndices(s, n1), o1)
  {
  }

  /**
   * The constructor and the setters disagree about the offset: building a
   * set through the setters gives the constructor's set exactly when the
   * offset is zero.
   */
  lemma ConstructorUnscaled(mode: DrawMode, n: int, offs: int)
    ensures SetOffset(SetNumberOfIndices(SetMode(Default(), mode), n), offs) == Make(mode, n, offs) <==> offs == 0
  {
  }
}
