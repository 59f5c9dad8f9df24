/**
  The loop-form back end of `moa/backend/backend.py`: the function arguments
  (the scan of module `Arguments` without the index rule), the index symbols,
  and `add_function_node`, which wraps the reduced expression in one loop per
  index symbol inside a function node.
*/
module Backend {
  import opened Wrappers
  import opened Errors
  import opened Names
  import opened MoaAst
  import opened Arguments
  import Onf
  import Shape

  /**
    The test `symbol_node == MOANodeTypes.INDEX` of line 55: a symbol entry is a
    tuple and never equals an enumeration member, whatever its type.
  */
  predicate EntryEqualsSymbol(e: SymbolEntry, s: NodeSymbol) {
    false
  }

  /** The names the test of line 55 selects. */
  function SelectedAsWritten(t: SymbolTable): set<string> {
    set x | x in t && EntryEqualsSymbol(t[x], INDEX)
  }

  /** The index symbols of the table. */
  function IndexSymbols(t: SymbolTable): set<string> {
    set x | x in t && t[x].nodeType == INDEX
  }

  /** Every index symbol of a table is missed by the test of line 55. */
  lemma IndexSymbolMissed(t: SymbolTable, x: string)
    requires x in t && t[x].nodeType == INDEX
    ensures x in IndexSymbols(t) && x !in SelectedAsWritten(t)
  {
  }

  /**
    `determine_indicies` as written: the names the test of line 55 selects, in
    ascending order; the test never holds, so the tuple is always empty.
  */
  method DetermineIndicesAsWritten(t: SymbolTable) returns (r: seq<string>)
    ensures StrictlySorted(r) && forall x :: x in r <==> x in SelectedAsWritten(t)
    ensures r == []
  {
    var indices := {};
    var rest := t.Keys;
    while rest != {}
      invariant rest <= t.Keys
      invariant forall x :: x in indices <==> x in t && x !in rest && EntryEqualsSymbol(t[x], INDEX)
      decreases |rest|
    {
      var name :| name in rest;
      if EntryEqualsSymbol(t[name], INDEX) {
        indices := indices + {name};
      }
      rest := rest - {name};
    }
    r := SortedNames(indices);
  }

  /**
    `tuple(symbols)` of line 89: the members of a set, each once, in the set's
    iteration order, which the model leaves open.
  */
  method ListSet(s: set<string>) returns (r: seq<string>)
    ensures forall x :: x in r <==> x in s
    ensures forall i, j :: 0 <= i < j < |r| ==> r[i] != r[j]
  {
    r := [];
    var rest := s;
    while rest != {}
      invariant rest <= s
      invariant forall x :: x in r <==> x in s && x !in rest
      invariant forall i, j :: 0 <= i < j < |r| ==> r[i] != r[j]
      decreases |rest|
    {
      var x :| x in rest;
      r := r + [x];
      rest := rest - {x};
    }
  }

  /** `ConditionNode(CONDITION, (), condition, ArrayNode(ARRAY, (3, 4), 'A'))` of line 67. */
  function LeadingCondition(condition: Node): Node {
    Node([CONDITION], Some([]), [], [condition, ArrayNode(ARRAY, Some([Lit(3), Lit(4)]), Some("A"), None)])
  }

  /**
    The function node `add_function_node` returns over the given arguments and
    loop indices: no shape, the arguments each once, and a body of an optional
    leading condition followed by the loops; the table extends the input table
    with the result array and the index vector.
  */
  ghost predicate BackendFunction(t: SymbolTable, node: Node, args: set<string>, indices: seq<string>, r: Context) {
    var f, t2 := r.ast, r.symbolTable;
    var core := Onf.Core(node);
    && f.symbol == [FUNCTION] && f.shape.None?
    && |f.attrib| == 2 && f.attrib[0].Names? && f.attrib[1].Name?
    && (forall x :: x in f.attrib[0].names <==> x in args)
    && (forall i, j :: 0 <= i < j < |f.attrib[0].names| ==> f.attrib[0].names[i] != f.attrib[0].names[j])
    && |f.child| == (if node.symbol == [CONDITION] then 2 else 1)
    && (node.symbol == [CONDITION] && |node.child| >= 2 ==> f.child[0] == LeadingCondition(node.child[0]))
    && Onf.LoopIndices(f.child[|f.child| - 1]) == Shape.Reverse(indices)
    && (exists index :: Onf.Innermost(f.child[|f.child| - 1]) == Onf.ResultAssignment(core, index, f.attrib[1].name) &&
                        index in t2 && t2[index] == SymbolEntry(ARRAY, Some([Lit(|indices|)]), Some(Onf.Refs(indices))))
    && (FreshNamesUnused(t) ==>
          Extends(t, t2) && f.attrib[1].name in t2 && t2[f.attrib[1].name] == SymbolEntry(ARRAY, core.shape, None))
  }

  /**
    Lines 63-89 over the arguments and index names already found. A root
    `CONDITION` without two operands raises `IndexError`. The loops take the
    shape of the expression, as in `moa/onf.py`; the call at line 85 passes
    three of the four fields of a loop node.
  */
  method BuildFunction(t: SymbolTable, node: Node, args: set<string>, indices: seq<string>)
    returns (r: Result<Context, Exception>)
    ensures r.Err? <==> node.symbol == [CONDITION] && |node.child| < 2
    ensures r.Err? ==> r.error == IndexError
    ensures r.Ok? ==> BackendFunction(t, node, args, indices, r.value)
  {
    var body: seq<Node> := [];
    var core := node;
    if node.symbol == [CONDITION] {
      if |node.child| < 2 {
        return Err(IndexError);
      }
      body := [LeadingCondition(node.child[0])];
      core := node.child[1];
    }
    var result := UniqueArrayName(t);
    var t2 := t[result := SymbolEntry(ARRAY, core.shape, None)];
    var index := UniqueArrayName(t2);
    var t3 := t2[index := SymbolEntry(ARRAY, Some([Lit(|indices|)]), Some(Onf.Refs(indices)))];
    var assign := Onf.ResultAssignment(core, index, result);
    var loops := Onf.WrapLoops(core.shape, indices, assign);
    body := body + [loops];
    var names := ListSet(args);
    r := Ok(Context(Onf.FunctionNode(None, names, result, body), t3));
    assert body[|body| - 1] == loops;
    Onf.LoopNestStructure(core.shape, indices, assign);
    assert core == Onf.Core(node);
    assert Onf.Innermost(body[|body| - 1]) == Onf.ResultAssignment(Onf.Core(node), index, result);
    assert index in t3 && t3[index] == SymbolEntry(ARRAY, Some([Lit(|indices|)]), Some(Onf.Refs(indices)));
    if FreshNamesUnused(t) {
      GeneratedNamesDistinct(|t|, |t2|);
      AddGeneratedSymbol(t, result, SymbolEntry(ARRAY, core.shape, None));
      AddGeneratedExtends(t, result, SymbolEntry(ARRAY, core.shape, None));
      AddGeneratedExtends(t2, index, SymbolEntry(ARRAY, Some([Lit(|indices|)]), Some(Onf.Refs(indices))));
      ExtendsTransitive(t, t2, t3);
    }
  }

  /**
    `add_function_node` as written: the indices come from
    `DetermineIndicesAsWritten`, so the body never holds a loop; the result
    assignment stands bare and the index vector is empty.
  */
  method AddFunctionNodeAsWritten(t: SymbolTable, order: seq<string>, node: Node) returns (r: Result<Context, Exception>)
    requires forall x :: x in order <==> x in t
    ensures ScanFails(BackendScan, t, order) ==> r.Err?
    ensures !ScanFails(BackendScan, t, order) ==> (r.Err? <==> node.symbol == [CONDITION] && |node.child| < 2)
    ensures r.Ok? ==> exists args ::
      && BackendFunction(t, node, args, [], r.value)
      && (forall x :: x in args <==> FunctionArgument(BackendScan, t, x))
    ensures r.Ok? ==> var body := r.value.ast.child; Onf.LoopIndices(body[|body| - 1]) == []
  {
    var symbols := DetermineArguments(BackendScan, t, order);
    if symbols.Err? {
      return Err(symbols.error);
    }
    var indices := DetermineIndicesAsWritten(t);
    r := BuildFunction(t, node, symbols.value, indices);
  }

  /**
    `add_function_node` with the index symbols of the table: the body holds
    one loop per index symbol, the last name outermost, and the arguments are
    those of the back-end scan.
  */
  method AddFunctionNode(t: SymbolTable, order: seq<string>, node: Node) returns (r: Result<Context, Exception>)
    requires forall x :: x in order <==> x in t
    ensures ScanFails(BackendScan, t, order) ==> r.Err?
    ensures !ScanFails(BackendScan, t, order) ==> (r.Err? <==> node.symbol == [CONDITION] && |node.child| < 2)
    ensures r.Ok? ==> exists args, indices ::
      && BackendFunction(t, node, args, indices, r.value)
      && (forall x :: x in args <==> FunctionArgument(BackendScan, t, x))
      && StrictlySorted(indices) && (forall x :: x in indices <==> x in IndexSymbols(t))
  {
    var symbols := DetermineArguments(BackendScan, t, order);
    if symbols.Err? {
      return Err(symbols.error);
    }
    var indices := Onf.DetermineIndices(t);
    r := BuildFunction(t, node, symbols.value, indices);
  }
}
