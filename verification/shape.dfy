/**
  Shape queries of `moa/shape.py` on a context: the dimension of a node, the
  scalar and vector tests, and the two live shape rules, for array leaves and
  for `transpose`.
*/
module Shape {
  import opened Wrappers
  import opened Errors
  import opened MoaAst

  /**
    `get_array_node_symbol`: the table entry named by the first attribute of
    the node. A node without attributes raises `IndexError`; a name missing from
    the table raises `KeyError`.
  */
  function ArrayEntry(c: Context): (r: Result<SymbolEntry, Exception>)
    ensures r.Ok? <==> |c.ast.attrib| > 0 && c.ast.attrib[0].Name? && c.ast.attrib[0].name in c.symbolTable
    ensures r.Ok? ==> r.value == c.symbolTable[c.ast.attrib[0].name]
  {
    if |c.ast.attrib| == 0 then Err(IndexError)
    else if !c.ast.attrib[0].Name? || c.ast.attrib[0].name !in c.symbolTable then Err(KeyError)
    else Ok(c.symbolTable[c.ast.attrib[0].name])
  }

  /** `len(shape)`, which raises `TypeError` on a shape that is `None`. */
  function ShapeLength(shape: Option<seq<Elem>>): Result<nat, Exception> {
    if shape.None? then Err(TypeError) else Ok(|shape.value|)
  }

  /**
    `dimension` as written: for an array, the length of the shape recorded in the
    symbol table; for any other node the body reads a name `node` that is not
    defined, so the call raises `NameError`.
  */
  function DimensionAsWritten(c: Context): Result<nat, Exception> {
    if IsArray(c.ast) then
      match ArrayEntry(c)
      case Err(e) => Err(e)
      case Ok(entry) => ShapeLength(entry.shape)
    else Err(NameError)
  }

  /**
    `dimension` with `node` read as the context's node: an array takes its
    dimension from the symbol table, any other node from its own shape, and a
    node whose shape is missing or empty raises `MOAShapeError`.
  */
  function Dimension(c: Context): (r: Result<nat, Exception>)
    ensures IsArray(c.ast) ==> r == (match ArrayEntry(c) case Err(e) => Err(e) case Ok(entry) => ShapeLength(entry.shape))
    ensures !IsArray(c.ast) ==> (r.Ok? <==> c.ast.shape.Some? && c.ast.shape.value != [])
    ensures !IsArray(c.ast) && r.Ok? ==> r.value == |c.ast.shape.value| && r.value > 0
    ensures !IsArray(c.ast) && r.Err? ==> r.error == MOAShapeError
  {
    if IsArray(c.ast) then DimensionAsWritten(c)
    else if c.ast.shape.Some? && c.ast.shape.value != [] then Ok(|c.ast.shape.value|)
    else Err(MOAShapeError)
  }

  /** The two readings agree on arrays; on a shaped operation only the corrected one answers. */
  lemma DimensionReadings(c: Context)
    ensures IsArray(c.ast) ==> DimensionAsWritten(c) == Dimension(c)
    ensures !IsArray(c.ast) ==> DimensionAsWritten(c) == Err(NameError)
    ensures !IsArray(c.ast) && c.ast.shape.Some? && c.ast.shape.value != [] ==>
      Dimension(c) == Ok(|c.ast.shape.value|)
  {
  }

  /** The dimension of `transpose(A)` with shape (3, 4): a name error as written, 2 once corrected. */
  lemma DimensionOfOperationExample()
    ensures var c := Context(Node([TRANSPOSE], Some(Lits([3, 4])), [], [NamedArray(Some(Lits([4, 3])), "A")]), map[]);
      DimensionAsWritten(c) == Err(NameError) && Dimension(c) == Ok(2)
  {
    var c := Context(Node([TRANSPOSE], Some(Lits([3, 4])), [], [NamedArray(Some(Lits([4, 3])), "A")]), map[]);
    assert !IsArray(c.ast);
  }

  /** `is_scalar`: an array whose dimension is 0; a non-array is never looked up. */
  function IsScalar(c: Context): Result<bool, Exception> {
    if !IsArray(c.ast) then Ok(false)
    else match Dimension(c)
      case Err(e) => Err(e)
      case Ok(d) => Ok(d == 0)
  }

  /** `is_vector`: an array whose dimension is 1. */
  function IsVector(c: Context): Result<bool, Exception> {
    if !IsArray(c.ast) then Ok(false)
    else match Dimension(c)
      case Err(e) => Err(e)
      case Ok(d) => Ok(d == 1)
  }

  /**
    The scalar and vector tests in terms of the symbol table: each holds exactly
    when the node is an array whose table shape has 0 (respectively 1) elements,
    they fail together, and never both hold.
  */
  lemma ScalarVectorByTable(c: Context)
    ensures IsScalar(c) == Ok(true) <==>
      (IsArray(c.ast) && ArrayEntry(c).Ok? && ArrayEntry(c).value.shape == Some([]))
    ensures IsVector(c) == Ok(true) <==>
      (IsArray(c.ast) && ArrayEntry(c).Ok? && ArrayEntry(c).value.shape.Some? && |ArrayEntry(c).value.shape.value| == 1)
    ensures IsScalar(c).Err? <==> IsVector(c).Err?
    ensures !(IsScalar(c) == Ok(true) && IsVector(c) == Ok(true))
  {
  }

  /** Two cases of the scalar and vector tests: `_a1` of shape () and `A` of shape (5, 1). */
  lemma ScalarVectorExamples()
    ensures var t := map["_a1" := SymbolEntry(ARRAY, Some([]), Some(Lits([3])))];
      IsScalar(Context(NamedArray(None, "_a1"), t)) == Ok(true) &&
      IsVector(Context(NamedArray(None, "_a1"), t)) == Ok(false)
    ensures var t := map["A" := SymbolEntry(ARRAY, Some(Lits([5, 1])), Some(Lits([1, 2, 3, 4, 5])))];
      IsScalar(Context(NamedArray(None, "A"), t)) == Ok(false) &&
      IsVector(Context(NamedArray(None, "A"), t)) == Ok(false)
  {
  }

  /** `replace_node_shape`: the node with a new shape, the table untouched. */
  function ReplaceNodeShape(c: Context, shape: Option<seq<Elem>>): Context {
    c.(ast := c.ast.(shape := shape))
  }

  /** `_shape_array`: the array node takes the shape its symbol has in the table. */
  function ShapeArray(c: Context): (r: Result<Context, Exception>)
    ensures r.Err? <==> ArrayEntry(c).Err?
    ensures r.Err? ==> r.error == ArrayEntry(c).error
    ensures r.Ok? ==> r.value.symbolTable == c.symbolTable
    ensures r.Ok? ==> r.value.ast.shape == ArrayEntry(c).value.shape
    ensures r.Ok? ==> r.value.ast.symbol == c.ast.symbol && r.value.ast.attrib == c.ast.attrib && r.value.ast.child == c.ast.child
  {
    match ArrayEntry(c)
    case Err(e) => Err(e)
    case Ok(entry) => Ok(ReplaceNodeShape(c, entry.shape))
  }

  /** Shaping an array twice changes nothing the second time, and its dimension stays the table's. */
  lemma ShapeArrayIdempotent(c: Context)
    requires IsArray(c.ast) && ShapeArray(c).Ok?
    ensures ShapeArray(ShapeArray(c).value) == ShapeArray(c)
    ensures Dimension(ShapeArray(c).value) == Dimension(c)
  {
    assert ArrayEntry(ShapeArray(c).value) == ArrayEntry(c);
  }

  function Reverse<T>(s: seq<T>): (r: seq<T>)
    ensures |r| == |s| && forall k :: 0 <= k < |s| ==> r[k] == s[|s| - 1 - k]
  {
    if s == [] then [] else Reverse(s[1..]) + [s[0]]
  }

  lemma ReverseMembers<T>(s: seq<T>)
    ensures forall x :: x in Reverse(s) <==> x in s
  {
    forall x | x in s
      ensures x in Reverse(s)
    {
      var k :| 0 <= k < |s| && s[k] == x;
      assert Reverse(s)[|s| - 1 - k] == x;
    }
  }

  lemma ReverseReverse<T>(s: seq<T>)
    ensures Reverse(Reverse(s)) == s
  {
  }

  /**
    `_shape_transpose`: the node's shape reversed. It reads the shape of the
    transpose node itself, so a node that is not shaped yet raises `TypeError`.
  */
  function ShapeTranspose(c: Context): (r: Result<Context, Exception>)
    ensures r.Err? <==> c.ast.shape.None?
    ensures r.Err? ==> r.error == TypeError
    ensures r.Ok? ==> r.value.symbolTable == c.symbolTable && r.value.ast.child == c.ast.child
    ensures r.Ok? ==> r.value.ast.shape.Some? && |r.value.ast.shape.value| == |c.ast.shape.value|
    ensures r.Ok? ==> forall k :: 0 <= k < |c.ast.shape.value| ==>
      r.value.ast.shape.value[k] == c.ast.shape.value[|c.ast.shape.value| - 1 - k]
  {
    if c.ast.shape.None? then Err(TypeError)
    else Ok(ReplaceNodeShape(c, Some(Reverse(c.ast.shape.value))))
  }

  /** Transposing the shape twice restores it. */
  lemma ShapeTransposeInvolution(c: Context)
    requires c.ast.shape.Some?
    ensures ShapeTranspose(c).Ok? && ShapeTranspose(ShapeTranspose(c).value) == Ok(c)
  {
    ReverseReverse(c.ast.shape.value);
  }
}
