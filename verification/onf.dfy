/**
  Lowering of a ψ-reduced expression to the operational normal form of
  `moa/onf.py`: a function node whose body checks the dimension and the shape
  of every argument, initializes a result array and assigns it inside one loop
  per index symbol.
*/
module Onf {
  import opened Wrappers
  import opened Errors
  import opened Names
  import opened MoaAst
  import opened Arguments
  import Shape

  /* ---------------------------------------------------------------------- */
  /* Nodes of the loop form                                                  */

  /** `IfNode(IF, (), condition, body)` */
  function IfNode(condition: Node, body: seq<Node>): Node {
    Node([IF], Some([]), [], [condition] + body)
  }

  /** `ErrorNode(ERROR, (), message)` */
  function ErrorNode(message: string): Node {
    Node([ERROR], Some([]), [Text(message)], [])
  }

  /** `InitializeNode(INITIALIZE, shape, name)` */
  function InitializeNode(shape: Option<seq<Elem>>, name: string): Node {
    Node([INITIALIZE], shape, [Name(name)], [])
  }

  /** `LoopNode(LOOP, shape, index, body)` */
  function LoopNode(shape: Option<seq<Elem>>, index: string, body: seq<Node>): Node {
    Node([LOOP], shape, [Name(index)], body)
  }

  /** `FunctionNode(FUNCTION, shape, arguments, result, body)` */
  function FunctionNode(shape: Option<seq<Elem>>, arguments: seq<string>, result: string, body: seq<Node>): Node {
    Node([FUNCTION], shape, [Names(arguments), Name(result)], body)
  }

  /** `ArrayNode(ARRAY, (), name)`: a scalar reference to a symbol. */
  function Scalar(name: string): Node {
    ArrayNode(ARRAY, Some([]), Some(name), None)
  }

  function Not(condition: Node): Node {
    UnaryNode(NOT, Some([]), condition)
  }

  function Refs(names: seq<string>): (r: seq<Elem>)
    ensures |r| == |names| && forall k :: 0 <= k < |names| ==> r[k] == Ref(names[k])
  {
    if names == [] then [] else [Ref(names[0])] + Refs(names[1..])
  }

  /* ---------------------------------------------------------------------- */
  /* Index symbols                                                           */

  /**
    `determine_indicies`: every index symbol of the table exactly once, in
    ascending order of name. The source wraps each name in `ArrayNode(ARRAY, (),
    name)`; the model keeps the names.
  */
  method DetermineIndices(t: SymbolTable) returns (r: seq<string>)
    ensures StrictlySorted(r)
    ensures forall x :: x in r <==> x in t && t[x].nodeType == INDEX
    ensures forall i, j :: 0 <= i < j < |r| ==> r[i] != r[j]
  {
    var indices := {};
    var rest := t.Keys;
    while rest != {}
      invariant rest <= t.Keys
      invariant forall x :: x in indices <==> x in t && x !in rest && t[x].nodeType == INDEX
      decreases |rest|
    {
      var name :| name in rest;
      if t[name].nodeType == INDEX {
        indices := indices + {name};
      }
      rest := rest - {name};
    }
    r := SortedNames(indices);
  }

  /* ---------------------------------------------------------------------- */
  /* Conjunction of conditions                                               */

  /** `c0`, then `c1 AND c0`, then `c2 AND (c1 AND c0)`: the conditions folded from the first. */
  function FoldAnd(conditions: seq<Node>): Node
    requires |conditions| > 0
    decreases |conditions|
  {
    if |conditions| == 1 then conditions[0]
    else BinaryNode(AND, Some([]), conditions[|conditions| - 1], FoldAnd(conditions[..|conditions| - 1]))
  }

  /** The operands of a tree of `AND` nodes, left to right. */
  function Conjuncts(n: Node): seq<Node>
    decreases n
  {
    if n.symbol == [AND] && |n.child| == 2 then Conjuncts(n.child[0]) + Conjuncts(n.child[1]) else [n]
  }

  /** Folding conditions that are not themselves conjunctions keeps every one of them, last first. */
  lemma {:induction false} FoldAndConjuncts(conditions: seq<Node>)
    requires |conditions| > 0
    requires forall k :: 0 <= k < |conditions| ==> conditions[k].symbol != [AND]
    ensures Conjuncts(FoldAnd(conditions)) == Shape.Reverse(conditions)
    decreases |conditions|
  {
    if |conditions| > 1 {
      var init := conditions[..|conditions| - 1];
      FoldAndConjuncts(init);
      assert Conjuncts(FoldAnd(conditions)) == [conditions[|conditions| - 1]] + Shape.Reverse(init);
    }
  }

  /** The loop at lines 67-69 and 79-81 that folds the conditions with `AND`. */
  method JoinConditions(conditions: seq<Node>) returns (r: Node)
    requires |conditions| > 0
    ensures r == FoldAnd(conditions)
  {
    r := conditions[0];
    var k := 1;
    while k < |conditions|
      invariant 1 <= k <= |conditions|
      invariant r == FoldAnd(conditions[..k])
    {
      assert conditions[..k + 1][..k] == conditions[..k];
      r := BinaryNode(AND, Some([]), conditions[k], r);
      k := k + 1;
    }
    assert conditions[..k] == conditions;
  }

  /* ---------------------------------------------------------------------- */
  /* Loop nest                                                               */

  /** `body` wrapped in one loop per index, the first index innermost. */
  function LoopNest(shape: Option<seq<Elem>>, indices: seq<string>, body: Node): Node
    decreases |indices|
  {
    if indices == [] then body
    else LoopNode(shape, indices[|indices| - 1], [LoopNest(shape, indices[..|indices| - 1], body)])
  }

  /** The indices of a loop nest, outermost first. */
  function LoopIndices(n: Node): seq<string>
    decreases n
  {
    if n.symbol == [LOOP] && |n.attrib| == 1 && n.attrib[0].Name? && |n.child| == 1
    then [n.attrib[0].name] + LoopIndices(n.child[0])
    else []
  }

  /** The statement inside a loop nest. */
  function Innermost(n: Node): Node
    decreases n
  {
    if n.symbol == [LOOP] && |n.attrib| == 1 && n.attrib[0].Name? && |n.child| == 1 then Innermost(n.child[0]) else n
  }

  /** The nest has one loop per index, the last index outermost, around the unchanged statement. */
  lemma {:induction false} LoopNestStructure(shape: Option<seq<Elem>>, indices: seq<string>, body: Node)
    requires body.symbol != [LOOP]
    ensures LoopIndices(LoopNest(shape, indices, body)) == Shape.Reverse(indices)
    ensures Innermost(LoopNest(shape, indices, body)) == body
    decreases |indices|
  {
    if indices != [] {
      LoopNestStructure(shape, indices[..|indices| - 1], body);
    }
  }

  /** The loop at lines 111-112 that wraps the assignment in one loop per index. */
  method WrapLoops(shape: Option<seq<Elem>>, indices: seq<string>, body: Node) returns (r: Node)
    ensures r == LoopNest(shape, indices, body)
  {
    r := body;
    var k := 0;
    while k < |indices|
      invariant 0 <= k <= |indices|
      invariant r == LoopNest(shape, indices[..k], body)
    {
      assert indices[..k + 1][..k] == indices[..k];
      r := LoopNode(shape, indices[k], [r]);
      k := k + 1;
    }
    assert indices[..k] == indices;
  }

  /* ---------------------------------------------------------------------- */
  /* Argument conditions                                                     */

  /** The positions below `n` whose element is symbolic (or, with `symbolic` false, a number). */
  function Positions(shape: seq<Elem>, n: nat, symbolic: bool): (r: seq<nat>)
    requires n <= |shape|
    ensures forall j :: 0 <= j < |r| ==> r[j] < n && shape[r[j]].Ref? == symbolic
  {
    if n == 0 then []
    else Positions(shape, n - 1, symbolic) + (if shape[n - 1].Ref? == symbolic then [n - 1] else [])
  }

  /** Every position is either symbolic or numeric. */
  lemma {:induction false} PositionsPartition(shape: seq<Elem>, n: nat)
    requires n <= |shape|
    ensures |Positions(shape, n, true)| + |Positions(shape, n, false)| == n
  {
    if n > 0 {
      PositionsPartition(shape, n - 1);
    }
  }

  /** `<i> psi shape A`, with `vector` the one-element vector holding `i`. */
  function Extent(vector: string, arg: string, shape: seq<Elem>): Node {
    BinaryNode(PSI, Some([]), ArrayNode(ARRAY, Some([Lit(1)]), Some(vector), None),
      UnaryNode(SHAPE, Some([Lit(|shape|)]), ArrayNode(ARRAY, Some(shape), Some(arg), None)))
  }

  /** The vector an extent-reading node indexes with. */
  function ExtentVector(n: Node): string {
    if |n.child| == 2 && |n.child[1].child| == 2 && SymbolName(n.child[1].child[0]).Some?
    then SymbolName(n.child[1].child[0]).value else ""
  }

  /** The symbol on the left of a condition or an assignment. */
  function LeftName(n: Node): string {
    if |n.child| == 2 && SymbolName(n.child[0]).Some? then SymbolName(n.child[0]).value else ""
  }

  function VectorEntry(i: int): SymbolEntry {
    SymbolEntry(ARRAY, Some([Lit(1)]), Some([Lit(i)]))
  }

  /** `n` assigns the `i`-th extent of `arg` to the symbol that the `i`-th shape element names. */
  ghost predicate ExtentAssignment(t: SymbolTable, arg: string, shape: seq<Elem>, i: nat, n: Node)
    requires i < |shape|
  {
    var v := ExtentVector(n);
    shape[i].Ref? && n == BinaryNode(ASSIGN, Some([]), Scalar(shape[i].name), Extent(v, arg, shape)) &&
    v in t && t[v] == VectorEntry(i)
  }

  /** `n` states that the `i`-th extent of `arg` equals the number the `i`-th shape element holds. */
  ghost predicate ExtentCondition(t: SymbolTable, arg: string, shape: seq<Elem>, i: nat, n: Node)
    requires i < |shape|
  {
    var v, w := ExtentVector(n), LeftName(n);
    shape[i].Lit? && n == BinaryNode(EQUAL, Some([]), Scalar(w), Extent(v, arg, shape)) &&
    v in t && t[v] == VectorEntry(i) && w in t && t[w] == SymbolEntry(ARRAY, Some([]), Some([shape[i]]))
  }

  /** The first `n` shape elements of `arg` are lowered into `assigns` and `checks` over table `t`. */
  ghost predicate ShapeLowered(t: SymbolTable, arg: string, shape: seq<Elem>, n: nat, checks: seq<Node>, assigns: seq<Node>)
    requires n <= |shape|
  {
    |assigns| == |Positions(shape, n, true)| && |checks| == |Positions(shape, n, false)| &&
    (forall j :: 0 <= j < |assigns| ==> ExtentAssignment(t, arg, shape, Positions(shape, n, true)[j], assigns[j])) &&
    (forall j :: 0 <= j < |checks| ==> ExtentCondition(t, arg, shape, Positions(shape, n, false)[j], checks[j]))
  }

  lemma LoweredExtends(t: SymbolTable, t2: SymbolTable, arg: string, shape: seq<Elem>, n: nat, checks: seq<Node>, assigns: seq<Node>)
    requires n <= |shape|
    requires ShapeLowered(t, arg, shape, n, checks, assigns) && Extends(t, t2)
    ensures ShapeLowered(t2, arg, shape, n, checks, assigns)
  {
  }

  lemma LoweredAssignment(t: SymbolTable, arg: string, shape: seq<Elem>, i: nat, checks: seq<Node>, assigns: seq<Node>, vector: string)
    requires i < |shape| && shape[i].Ref?
    requires ShapeLowered(t, arg, shape, i, checks, assigns)
    requires vector in t && t[vector] == VectorEntry(i)
    ensures ShapeLowered(t, arg, shape, i + 1, checks,
      assigns + [BinaryNode(ASSIGN, Some([]), Scalar(shape[i].name), Extent(vector, arg, shape))])
  {
  }

  lemma LoweredCondition(t: SymbolTable, arg: string, shape: seq<Elem>, i: nat, checks: seq<Node>, assigns: seq<Node>, vector: string, value: string)
    requires i < |shape| && shape[i].Lit?
    requires ShapeLowered(t, arg, shape, i, checks, assigns)
    requires vector in t && t[vector] == VectorEntry(i)
    requires value in t && t[value] == SymbolEntry(ARRAY, Some([]), Some([shape[i]]))
    ensures ShapeLowered(t, arg, shape, i + 1,
      checks + [BinaryNode(EQUAL, Some([]), Scalar(value), Extent(vector, arg, shape))], assigns)
  {
  }

  /** The table grew from `t` by one vector per position below `n` and one value per check, and holds what `checks` and `assigns` read. */
  ghost predicate TableLowered(t: SymbolTable, t2: SymbolTable, arg: string, shape: seq<Elem>, n: nat, checks: seq<Node>, assigns: seq<Node>)
    requires n <= |shape|
  {
    Extends(t, t2) && |t2| == |t| + n + |checks| && ShapeLowered(t2, arg, shape, n, checks, assigns)
  }

  /** `assigns` holds one assignment per symbolic position below `n`, each to the symbol that position names. */
  ghost predicate AssignsNamed(shape: seq<Elem>, n: nat, assigns: seq<Node>)
    requires n <= |shape|
  {
    |assigns| == |Positions(shape, n, true)| &&
    forall j :: 0 <= j < |assigns| ==>
      assigns[j].symbol == [ASSIGN] && LeftName(assigns[j]) == shape[Positions(shape, n, true)[j]].name
  }

  lemma AssignsNamedStep(shape: seq<Elem>, i: nat, assigns: seq<Node>, next: seq<Node>)
    requires i < |shape| && AssignsNamed(shape, i, assigns)
    requires if shape[i].Ref? then |next| == 1 && next[0].symbol == [ASSIGN] && LeftName(next[0]) == shape[i].name
             else next == []
    ensures AssignsNamed(shape, i + 1, assigns + next)
  {
    PositionsStep(shape, i);
  }

  /** Position `i` joins the symbolic or the numeric positions, as its element is. */
  lemma PositionsStep(shape: seq<Elem>, i: nat)
    requires i < |shape|
    ensures Positions(shape, i + 1, true) == Positions(shape, i, true) + (if shape[i].Ref? then [i] else [])
    ensures Positions(shape, i + 1, false) == Positions(shape, i, false) + (if shape[i].Ref? then [] else [i])
  {
  }

  /** One symbolic shape element: a fresh vector symbol, and the assignment of the extent it reads. */
  lemma LowerSymbolicStep(t: SymbolTable, t2: SymbolTable, arg: string, shape: seq<Elem>, i: nat, checks: seq<Node>, assigns: seq<Node>)
    requires i < |shape| && shape[i].Ref?
    requires TableLowered(t, t2, arg, shape, i, checks, assigns)
    ensures var vector := UniqueArrayName(t2);
      TableLowered(t, t2[vector := VectorEntry(i)], arg, shape, i + 1, checks,
        assigns + [BinaryNode(ASSIGN, Some([]), Scalar(shape[i].name), Extent(vector, arg, shape))])
  {
    var vector := UniqueArrayName(t2);
    var t3 := t2[vector := VectorEntry(i)];
    AddGeneratedSymbol(t2, vector, VectorEntry(i));
    AddGeneratedExtends(t2, vector, VectorEntry(i));
    LoweredExtends(t2, t3, arg, shape, i, checks, assigns);
    ExtendsTransitive(t, t2, t3);
    LoweredAssignment(t3, arg, shape, i, checks, assigns, vector);
  }

  /** One numeric shape element: fresh vector and value symbols, and the condition that compares them. */
  lemma LowerNumericStep(t: SymbolTable, t2: SymbolTable, arg: string, shape: seq<Elem>, i: nat, checks: seq<Node>, assigns: seq<Node>)
    requires i < |shape| && shape[i].Lit?
    requires TableLowered(t, t2, arg, shape, i, checks, assigns)
    ensures var vector := UniqueArrayName(t2);
      var t3 := t2[vector := VectorEntry(i)];
      var value := UniqueArrayName(t3);
      TableLowered(t, t3[value := SymbolEntry(ARRAY, Some([]), Some([shape[i]]))], arg, shape, i + 1,
        checks + [BinaryNode(EQUAL, Some([]), Scalar(value), Extent(vector, arg, shape))], assigns)
  {
    var vector := UniqueArrayName(t2);
    var t3 := t2[vector := VectorEntry(i)];
    var value := UniqueArrayName(t3);
    var entry := SymbolEntry(ARRAY, Some([]), Some([shape[i]]));
    var t4 := t3[value := entry];
    AddGeneratedSymbol(t2, vector, VectorEntry(i));
    AddGeneratedExtends(t2, vector, VectorEntry(i));
    LoweredExtends(t2, t3, arg, shape, i, checks, assigns);
    ExtendsTransitive(t, t2, t3);
    AddGeneratedSymbol(t3, value, entry);
    AddGeneratedExtends(t3, value, entry);
    LoweredExtends(t3, t4, arg, shape, i, checks, assigns);
    ExtendsTransitive(t, t3, t4);
    LoweredCondition(t4, arg, shape, i, checks, assigns, vector, value);
  }

  /**
    Lines 43-64 for the `i`-th shape element: a vector `<i>` under a new name,
    then the assignment of the extent it reads to a symbolic element, or a
    new symbol holding a numeric element and the check that compares the two.
  */
  method LowerElement(t: SymbolTable, t2: SymbolTable, arg: string, shape: seq<Elem>, i: nat, checks: seq<Node>, assigns: seq<Node>)
    returns (t3: SymbolTable, checks2: seq<Node>, assigns2: seq<Node>)
    requires i < |shape| && |checks| == |Positions(shape, i, false)| && AssignsNamed(shape, i, assigns)
    requires forall j :: 0 <= j < |checks| ==> checks[j].symbol == [EQUAL]
    ensures |checks2| == |Positions(shape, i + 1, false)| && AssignsNamed(shape, i + 1, assigns2)
    ensures forall j :: 0 <= j < |checks2| ==> checks2[j].symbol == [EQUAL]
    ensures TableLowered(t, t2, arg, shape, i, checks, assigns) ==> TableLowered(t, t3, arg, shape, i + 1, checks2, assigns2)
  {
    PositionsStep(shape, i);
    var vector := UniqueArrayName(t2);
    var withVector := t2[vector := VectorEntry(i)];
    var extent := Extent(vector, arg, shape);
    if shape[i].Ref? {
      var assign := BinaryNode(ASSIGN, Some([]), Scalar(shape[i].name), extent);
      if TableLowered(t, t2, arg, shape, i, checks, assigns) {
        LowerSymbolicStep(t, t2, arg, shape, i, checks, assigns);
      }
      assert assign.symbol == [ASSIGN] && LeftName(assign) == shape[i].name by {
        assert assign.child[0].attrib[0] == Name(shape[i].name);
      }
      AssignsNamedStep(shape, i, assigns, [assign]);
      t3, checks2, assigns2 := withVector, checks, assigns + [assign];
    } else {
      var value := UniqueArrayName(withVector);
      var entry := SymbolEntry(ARRAY, Some([]), Some([shape[i]]));
      if TableLowered(t, t2, arg, shape, i, checks, assigns) {
        LowerNumericStep(t, t2, arg, shape, i, checks, assigns);
      }
      AssignsNamedStep(shape, i, assigns, []);
      t3, checks2, assigns2 := withVector[value := entry], checks + [BinaryNode(EQUAL, Some([]), Scalar(value), extent)], assigns;
    }
  }

  /**
    Lines 42-64 for one argument: every shape element gets a vector `<i>`; a
    symbolic element is assigned the `i`-th extent, a numeric one is checked
    against it. Over a table whose generated names are fresh, the new symbols
    hold what the conditions and assignments read.
  */
  method LowerShape(t: SymbolTable, arg: string, shape: seq<Elem>) returns (t2: SymbolTable, checks: seq<Node>, assigns: seq<Node>)
    ensures |assigns| == |Positions(shape, |shape|, true)| && |checks| == |Positions(shape, |shape|, false)|
    ensures forall j :: 0 <= j < |assigns| ==>
      assigns[j].symbol == [ASSIGN] && LeftName(assigns[j]) == shape[Positions(shape, |shape|, true)[j]].name
    ensures forall j :: 0 <= j < |checks| ==> checks[j].symbol == [EQUAL]
    ensures FreshNamesUnused(t) ==> Extends(t, t2) && |t2| == |t| + |shape| + |checks|
    ensures FreshNamesUnused(t) ==> ShapeLowered(t2, arg, shape, |shape|, checks, assigns)
  {
    ghost var isFresh := FreshNamesUnused(t);
    t2, checks, assigns := t, [], [];
    var i := 0;
    while i < |shape|
      invariant 0 <= i <= |shape|
      invariant |checks| == |Positions(shape, i, false)|
      invariant AssignsNamed(shape, i, assigns)
      invariant forall j :: 0 <= j < |checks| ==> checks[j].symbol == [EQUAL]
      invariant isFresh ==> TableLowered(t, t2, arg, shape, i, checks, assigns)
    {
      t2, checks, assigns := LowerElement(t, t2, arg, shape, i, checks, assigns);
      i := i + 1;
    }
  }

  /** Every symbolic position below `n` is listed by `Positions`. */
  lemma {:induction false} PositionsComplete(shape: seq<Elem>, n: nat, i: nat, symbolic: bool)
    requires i < n <= |shape| && shape[i].Ref? == symbolic
    ensures i in Positions(shape, n, symbolic)
  {
    var prefix := Positions(shape, n - 1, symbolic);
    assert Positions(shape, n, symbolic) == prefix + (if shape[n - 1].Ref? == symbolic then [n - 1] else []);
    if i < n - 1 {
      PositionsComplete(shape, n - 1, i, symbolic);
    }
  }

  /* ---------------------------------------------------------------------- */
  /* All arguments                                                           */

  /** `determine_function_arguments` attached a shape to `x`; without one, `len` raises `TypeError` (line 35). */
  predicate HasShape(t: SymbolTable, x: string) {
    x in t && t[x].shape.Some?
  }

  /** The shape `determine_function_arguments` attached to an argument (empty when there is none). */
  function ShapeOf(t: SymbolTable, x: string): seq<Elem> {
    if x in t && t[x].shape.Some? then t[x].shape.value else []
  }

  /** The symbol on the right of a condition. */
  function RightName(n: Node): string {
    if |n.child| == 2 && SymbolName(n.child[1]).Some? then SymbolName(n.child[1]).value else ""
  }

  /** `dim A == value`, with `value` the symbol that holds `d`. */
  ghost predicate DimensionCondition(t: SymbolTable, arg: string, d: nat, n: Node) {
    var w := RightName(n);
    n == BinaryNode(EQUAL, Some([]), UnaryNode(DIM, Some([]), Scalar(arg)), Scalar(w)) &&
    w in t && t[w] == SymbolEntry(ARRAY, Some([]), Some([Lit(d)]))
  }

  /** Some node of `assigns` assigns the `i`-th extent of `arg`. */
  ghost predicate ExtentAssigned(t: SymbolTable, arg: string, shape: seq<Elem>, i: nat, assigns: seq<Node>)
    requires i < |shape|
  {
    exists m :: 0 <= m < |assigns| && ExtentAssignment(t, arg, shape, i, assigns[m])
  }

  /** Some node of `checks` checks the `i`-th extent of `arg`. */
  ghost predicate ExtentChecked(t: SymbolTable, arg: string, shape: seq<Elem>, i: nat, checks: seq<Node>)
    requires i < |shape|
  {
    exists m :: 0 <= m < |checks| && ExtentCondition(t, arg, shape, i, checks[m])
  }

  /** `n` assigns an extent of one of the first `k` arguments. */
  ghost predicate AssignsArgumentExtent(t0: SymbolTable, t: SymbolTable, args: seq<string>, k: nat, n: Node)
    requires k <= |args|
  {
    exists j, i :: 0 <= j < k && 0 <= i < |ShapeOf(t0, args[j])| && ExtentAssignment(t, args[j], ShapeOf(t0, args[j]), i, n)
  }

  /** `n` checks an extent of one of the first `k` arguments. */
  ghost predicate ChecksArgumentExtent(t0: SymbolTable, t: SymbolTable, args: seq<string>, k: nat, n: Node)
    requires k <= |args|
  {
    exists j, i :: 0 <= j < k && 0 <= i < |ShapeOf(t0, args[j])| && ExtentCondition(t, args[j], ShapeOf(t0, args[j]), i, n)
  }

  /**
    The first `k` arguments are lowered over table `t`: one dimension condition
    each, in order; every symbolic extent is assigned and every numeric extent
    checked somewhere; and every assignment and check reads one extent.
  */
  ghost predicate ArgumentsLowered(t0: SymbolTable, t: SymbolTable, args: seq<string>, k: nat,
                                   dims: seq<Node>, checks: seq<Node>, assigns: seq<Node>)
    requires k <= |args|
  {
    && |dims| == k
    && (forall j :: 0 <= j < k ==> DimensionCondition(t, args[j], |ShapeOf(t0, args[j])|, dims[j]))
    && (forall j, i {:trigger ExtentAssigned(t, args[j], ShapeOf(t0, args[j]), i, assigns)} ::
          0 <= j < k && 0 <= i < |ShapeOf(t0, args[j])| && ShapeOf(t0, args[j])[i].Ref? ==>
          ExtentAssigned(t, args[j], ShapeOf(t0, args[j]), i, assigns))
    && (forall j, i {:trigger ExtentChecked(t, args[j], ShapeOf(t0, args[j]), i, checks)} ::
          0 <= j < k && 0 <= i < |ShapeOf(t0, args[j])| && ShapeOf(t0, args[j])[i].Lit? ==>
          ExtentChecked(t, args[j], ShapeOf(t0, args[j]), i, checks))
    && (forall m {:trigger AssignsArgumentExtent(t0, t, args, k, assigns[m])} ::
          0 <= m < |assigns| ==> AssignsArgumentExtent(t0, t, args, k, assigns[m]))
    && (forall m {:trigger ChecksArgumentExtent(t0, t, args, k, checks[m])} ::
          0 <= m < |checks| ==> ChecksArgumentExtent(t0, t, args, k, checks[m]))
  }

  lemma ArgumentsLoweredExtends(t0: SymbolTable, t: SymbolTable, t2: SymbolTable, args: seq<string>, k: nat,
                                dims: seq<Node>, checks: seq<Node>, assigns: seq<Node>)
    requires k <= |args|
    requires ArgumentsLowered(t0, t, args, k, dims, checks, assigns) && Extends(t, t2)
    ensures ArgumentsLowered(t0, t2, args, k, dims, checks, assigns)
  {
    ExtentsAssignedExtend(t0, t, t2, args, k, assigns);
    AssignmentsAssignExtentsExtend(t0, t, t2, args, k, assigns);
    ExtentsCheckedExtend(t0, t, t2, args, k, checks);
    ConditionsCheckExtentsExtend(t0, t, t2, args, k, checks);
  }

  lemma ExtentAssignmentExtends(t: SymbolTable, t2: SymbolTable, arg: string, shape: seq<Elem>, i: nat, n: Node)
    requires i < |shape| && Extends(t, t2) && ExtentAssignment(t, arg, shape, i, n)
    ensures ExtentAssignment(t2, arg, shape, i, n)
  {
  }

  lemma ExtentConditionExtends(t: SymbolTable, t2: SymbolTable, arg: string, shape: seq<Elem>, i: nat, n: Node)
    requires i < |shape| && Extends(t, t2) && ExtentCondition(t, arg, shape, i, n)
    ensures ExtentCondition(t2, arg, shape, i, n)
  {
  }

  /*
    Each conjunct of `ArgumentsLowered` is carried to a larger table on its own:
    with the "every extent is assigned" and "every assignment is an extent"
    conjuncts both in scope, each instantiates the other without end.
  */

  lemma ExtentsAssignedExtend(t0: SymbolTable, t: SymbolTable, t2: SymbolTable, args: seq<string>, k: nat, assigns: seq<Node>)
    requires k <= |args| && Extends(t, t2)
    requires forall j, i :: 0 <= j < k && 0 <= i < |ShapeOf(t0, args[j])| && ShapeOf(t0, args[j])[i].Ref? ==>
               ExtentAssigned(t, args[j], ShapeOf(t0, args[j]), i, assigns)
    ensures forall j, i :: 0 <= j < k && 0 <= i < |ShapeOf(t0, args[j])| && ShapeOf(t0, args[j])[i].Ref? ==>
              ExtentAssigned(t2, args[j], ShapeOf(t0, args[j]), i, assigns)
  {
    forall j, i | 0 <= j < k && 0 <= i < |ShapeOf(t0, args[j])| && ShapeOf(t0, args[j])[i].Ref?
      ensures ExtentAssigned(t2, args[j], ShapeOf(t0, args[j]), i, assigns)
    {
      var m :| 0 <= m < |assigns| && ExtentAssignment(t, args[j], ShapeOf(t0, args[j]), i, assigns[m]);
      ExtentAssignmentExtends(t, t2, args[j], ShapeOf(t0, args[j]), i, assigns[m]);
    }
  }

  lemma AssignmentsAssignExtentsExtend(t0: SymbolTable, t: SymbolTable, t2: SymbolTable, args: seq<string>, k: nat, assigns: seq<Node>)
    requires k <= |args| && Extends(t, t2)
    requires forall m :: 0 <= m < |assigns| ==> AssignsArgumentExtent(t0, t, args, k, assigns[m])
    ensures forall m :: 0 <= m < |assigns| ==> AssignsArgumentExtent(t0, t2, args, k, assigns[m])
  {
    forall m | 0 <= m < |assigns|
      ensures AssignsArgumentExtent(t0, t2, args, k, assigns[m])
    {
      assert AssignsArgumentExtent(t0, t, args, k, assigns[m]);
      var j, i :| 0 <= j < k && 0 <= i < |ShapeOf(t0, args[j])| &&
                  ExtentAssignment(t, args[j], ShapeOf(t0, args[j]), i, assigns[m]);
      ExtentAssignmentExtends(t, t2, args[j], ShapeOf(t0, args[j]), i, assigns[m]);
    }
  }

  lemma ExtentsCheckedExtend(t0: SymbolTable, t: SymbolTable, t2: SymbolTable, args: seq<string>, k: nat, checks: seq<Node>)
    requires k <= |args| && Extends(t, t2)
    requires forall j, i :: 0 <= j < k && 0 <= i < |ShapeOf(t0, args[j])| && ShapeOf(t0, args[j])[i].Lit? ==>
               ExtentChecked(t, args[j], ShapeOf(t0, args[j]), i, checks)
    ensures forall j, i :: 0 <= j < k && 0 <= i < |ShapeOf(t0, args[j])| && ShapeOf(t0, args[j])[i].Lit? ==>
              ExtentChecked(t2, args[j], ShapeOf(t0, args[j]), i, checks)
  {
    forall j, i | 0 <= j < k && 0 <= i < |ShapeOf(t0, args[j])| && ShapeOf(t0, args[j])[i].Lit?
      ensures ExtentChecked(t2, args[j], ShapeOf(t0, args[j]), i, checks)
    {
      var m :| 0 <= m < |checks| && ExtentCondition(t, args[j], ShapeOf(t0, args[j]), i, checks[m]);
      ExtentConditionExtends(t, t2, args[j], ShapeOf(t0, args[j]), i, checks[m]);
    }
  }

  lemma ConditionsCheckExtentsExtend(t0: SymbolTable, t: SymbolTable, t2: SymbolTable, args: seq<string>, k: nat, checks: seq<Node>)
    requires k <= |args| && Extends(t, t2)
    requires forall m :: 0 <= m < |checks| ==> ChecksArgumentExtent(t0, t, args, k, checks[m])
    ensures forall m :: 0 <= m < |checks| ==> ChecksArgumentExtent(t0, t2, args, k, checks[m])
  {
    forall m | 0 <= m < |checks|
      ensures ChecksArgumentExtent(t0, t2, args, k, checks[m])
    {
      assert ChecksArgumentExtent(t0, t, args, k, checks[m]);
      var j, i :| 0 <= j < k && 0 <= i < |ShapeOf(t0, args[j])| &&
                  ExtentCondition(t, args[j], ShapeOf(t0, args[j]), i, checks[m]);
      ExtentConditionExtends(t, t2, args[j], ShapeOf(t0, args[j]), i, checks[m]);
    }
  }

  /** After appending an argument's assignments, every symbolic extent of the first `k + 1` arguments is assigned. */
  lemma StepAssigned(t0: SymbolTable, t: SymbolTable, args: seq<string>, k: nat, assigns: seq<Node>, checks2: seq<Node>, assigns2: seq<Node>)
    requires k < |args|
    requires forall j, i :: 0 <= j < k && 0 <= i < |ShapeOf(t0, args[j])| && ShapeOf(t0, args[j])[i].Ref? ==>
               ExtentAssigned(t, args[j], ShapeOf(t0, args[j]), i, assigns)
    requires ShapeLowered(t, args[k], ShapeOf(t0, args[k]), |ShapeOf(t0, args[k])|, checks2, assigns2)
    ensures forall j, i :: 0 <= j < k + 1 && 0 <= i < |ShapeOf(t0, args[j])| && ShapeOf(t0, args[j])[i].Ref? ==>
              ExtentAssigned(t, args[j], ShapeOf(t0, args[j]), i, assigns + assigns2)
  {
    var shape := ShapeOf(t0, args[k]);
    var n := |shape|;
    var assigns' := assigns + assigns2;
    forall j, i | 0 <= j < k + 1 && 0 <= i < |ShapeOf(t0, args[j])| && ShapeOf(t0, args[j])[i].Ref?
      ensures ExtentAssigned(t, args[j], ShapeOf(t0, args[j]), i, assigns')
    {
      if j < k {
        assert ExtentAssigned(t, args[j], ShapeOf(t0, args[j]), i, assigns);
        var m :| 0 <= m < |assigns| && ExtentAssignment(t, args[j], ShapeOf(t0, args[j]), i, assigns[m]);
        assert assigns'[m] == assigns[m];
      } else {
        PositionsComplete(shape, n, i, true);
        var q :| 0 <= q < |Positions(shape, n, true)| && Positions(shape, n, true)[q] == i;
        assert assigns'[|assigns| + q] == assigns2[q];
        assert ExtentAssignment(t, args[k], shape, i, assigns'[|assigns| + q]);
      }
    }
  }

  /** After appending an argument's checks, every numeric extent of the first `k + 1` arguments is checked. */
  lemma StepChecked(t0: SymbolTable, t: SymbolTable, args: seq<string>, k: nat, checks: seq<Node>, checks2: seq<Node>, assigns2: seq<Node>)
    requires k < |args|
    requires forall j, i :: 0 <= j < k && 0 <= i < |ShapeOf(t0, args[j])| && ShapeOf(t0, args[j])[i].Lit? ==>
               ExtentChecked(t, args[j], ShapeOf(t0, args[j]), i, checks)
    requires ShapeLowered(t, args[k], ShapeOf(t0, args[k]), |ShapeOf(t0, args[k])|, checks2, assigns2)
    ensures forall j, i :: 0 <= j < k + 1 && 0 <= i < |ShapeOf(t0, args[j])| && ShapeOf(t0, args[j])[i].Lit? ==>
              ExtentChecked(t, args[j], ShapeOf(t0, args[j]), i, checks + checks2)
  {
    var shape := ShapeOf(t0, args[k]);
    var n := |shape|;
    var checks' := checks + checks2;
    forall j, i | 0 <= j < k + 1 && 0 <= i < |ShapeOf(t0, args[j])| && ShapeOf(t0, args[j])[i].Lit?
      ensures ExtentChecked(t, args[j], ShapeOf(t0, args[j]), i, checks')
    {
      if j < k {
        assert ExtentChecked(t, args[j], ShapeOf(t0, args[j]), i, checks);
        var m :| 0 <= m < |checks| && ExtentCondition(t, args[j], ShapeOf(t0, args[j]), i, checks[m]);
        assert checks'[m] == checks[m];
      } else {
        PositionsComplete(shape, n, i, false);
        var q :| 0 <= q < |Positions(shape, n, false)| && Positions(shape, n, false)[q] == i;
        assert checks'[|checks| + q] == checks2[q];
        assert ExtentCondition(t, args[k], shape, i, checks'[|checks| + q]);
      }
    }
  }

  /** After appending, every assignment still reads an extent of one of the first `k + 1` arguments. */
  lemma StepAssignsSound(t0: SymbolTable, t: SymbolTable, args: seq<string>, k: nat, assigns: seq<Node>, checks2: seq<Node>, assigns2: seq<Node>)
    requires k < |args|
    requires forall m :: 0 <= m < |assigns| ==> AssignsArgumentExtent(t0, t, args, k, assigns[m])
    requires ShapeLowered(t, args[k], ShapeOf(t0, args[k]), |ShapeOf(t0, args[k])|, checks2, assigns2)
    ensures forall m :: 0 <= m < |assigns + assigns2| ==> AssignsArgumentExtent(t0, t, args, k + 1, (assigns + assigns2)[m])
  {
    var shape := ShapeOf(t0, args[k]);
    var n := |shape|;
    var assigns' := assigns + assigns2;
    forall m | 0 <= m < |assigns'|
      ensures AssignsArgumentExtent(t0, t, args, k + 1, assigns'[m])
    {
      if m < |assigns| {
        assert AssignsArgumentExtent(t0, t, args, k, assigns[m]);
        var j, i :| 0 <= j < k && 0 <= i < |ShapeOf(t0, args[j])| &&
                    ExtentAssignment(t, args[j], ShapeOf(t0, args[j]), i, assigns[m]);
        assert assigns'[m] == assigns[m];
      } else {
        var q := m - |assigns|;
        assert assigns'[m] == assigns2[q];
        assert ExtentAssignment(t, args[k], shape, Positions(shape, n, true)[q], assigns2[q]);
      }
    }
  }

  /** After appending, every check still reads an extent of one of the first `k + 1` arguments. */
  lemma StepChecksSound(t0: SymbolTable, t: SymbolTable, args: seq<string>, k: nat, checks: seq<Node>, checks2: seq<Node>, assigns2: seq<Node>)
    requires k < |args|
    requires forall m :: 0 <= m < |checks| ==> ChecksArgumentExtent(t0, t, args, k, checks[m])
    requires ShapeLowered(t, args[k], ShapeOf(t0, args[k]), |ShapeOf(t0, args[k])|, checks2, assigns2)
    ensures forall m :: 0 <= m < |checks + checks2| ==> ChecksArgumentExtent(t0, t, args, k + 1, (checks + checks2)[m])
  {
    var shape := ShapeOf(t0, args[k]);
    var n := |shape|;
    var checks' := checks + checks2;
    forall m | 0 <= m < |checks'|
      ensures ChecksArgumentExtent(t0, t, args, k + 1, checks'[m])
    {
      if m < |checks| {
        assert ChecksArgumentExtent(t0, t, args, k, checks[m]);
        var j, i :| 0 <= j < k && 0 <= i < |ShapeOf(t0, args[j])| &&
                    ExtentCondition(t, args[j], ShapeOf(t0, args[j]), i, checks[m]);
        assert checks'[m] == checks[m];
      } else {
        var q := m - |checks|;
        assert checks'[m] == checks2[q];
        assert ExtentCondition(t, args[k], shape, Positions(shape, n, false)[q], checks2[q]);
      }
    }
  }

  lemma StepDimensions(t0: SymbolTable, t: SymbolTable, args: seq<string>, k: nat, dims: seq<Node>, dim: Node)
    requires k < |args| && |dims| == k
    requires forall j :: 0 <= j < k ==> DimensionCondition(t, args[j], |ShapeOf(t0, args[j])|, dims[j])
    requires DimensionCondition(t, args[k], |ShapeOf(t0, args[k])|, dim)
    ensures forall j :: 0 <= j < k + 1 ==> DimensionCondition(t, args[j], |ShapeOf(t0, args[j])|, (dims + [dim])[j])
  {
    forall j | 0 <= j < k + 1
      ensures DimensionCondition(t, args[j], |ShapeOf(t0, args[j])|, (dims + [dim])[j])
    {
      if j < k {
        assert (dims + [dim])[j] == dims[j];
      }
    }
  }

  /** Appending one more lowered argument. */
  /** Lines 37-41 for argument `k`: the symbol holding its dimension, and the condition that reads it. */
  lemma LoweredDimension(t: SymbolTable, t2: SymbolTable, args: seq<string>, k: nat,
                         dims: seq<Node>, checks: seq<Node>, assigns: seq<Node>, shape: seq<Elem>)
    requires k < |args| && shape == ShapeOf(t, args[k])
    requires Extends(t, t2) && ArgumentsLowered(t, t2, args, k, dims, checks, assigns)
    ensures var value := UniqueArrayName(t2);
      var t3 := t2[value := SymbolEntry(ARRAY, Some([]), Some([Lit(|shape|)]))];
      && Extends(t, t3) && ArgumentsLowered(t, t3, args, k, dims, checks, assigns)
      && DimensionCondition(t3, args[k], |shape|, BinaryNode(EQUAL, Some([]), UnaryNode(DIM, Some([]), Scalar(args[k])), Scalar(value)))
  {
    var value := UniqueArrayName(t2);
    var entry := SymbolEntry(ARRAY, Some([]), Some([Lit(|shape|)]));
    var t3 := t2[value := entry];
    AddGeneratedExtends(t2, value, entry);
    ArgumentsLoweredExtends(t, t2, t3, args, k, dims, checks, assigns);
    ExtendsTransitive(t, t2, t3);
    var dim := BinaryNode(EQUAL, Some([]), UnaryNode(DIM, Some([]), Scalar(args[k])), Scalar(value));
    assert dim.child[1].attrib[0] == Name(value);
  }

  /** The checks and assignments of the shape of argument `k` join those of the first `k`. */
  lemma ArgumentShapeLowered(t: SymbolTable, t3: SymbolTable, t4: SymbolTable, args: seq<string>, k: nat,
                        dims: seq<Node>, checks: seq<Node>, assigns: seq<Node>, shape: seq<Elem>,
                        dim: Node, checks2: seq<Node>, assigns2: seq<Node>)
    requires k < |args| && shape == ShapeOf(t, args[k])
    requires Extends(t, t3) && ArgumentsLowered(t, t3, args, k, dims, checks, assigns)
    requires DimensionCondition(t3, args[k], |shape|, dim)
    requires Extends(t3, t4) && ShapeLowered(t4, args[k], shape, |shape|, checks2, assigns2)
    ensures Extends(t, t4) && ArgumentsLowered(t, t4, args, k + 1, dims + [dim], checks + checks2, assigns + assigns2)
  {
    ArgumentsLoweredExtends(t, t3, t4, args, k, dims, checks, assigns);
    ExtendsTransitive(t, t3, t4);
    assert DimensionCondition(t4, args[k], |shape|, dim);
    ArgumentsLoweredStep(t, t4, args, k, dims, checks, assigns, dim, checks2, assigns2);
  }

  /** Argument `k` lowered: its dimension condition and the checks and assignments of its shape join the first `k`. */
  lemma LoweredArgument(t: SymbolTable, t2: SymbolTable, t4: SymbolTable, args: seq<string>, k: nat,
                        dims: seq<Node>, checks: seq<Node>, assigns: seq<Node>, shape: seq<Elem>,
                        checks2: seq<Node>, assigns2: seq<Node>)
    requires k < |args| && shape == ShapeOf(t, args[k])
    requires Extends(t, t2) && ArgumentsLowered(t, t2, args, k, dims, checks, assigns)
    requires Extends(t2[UniqueArrayName(t2) := SymbolEntry(ARRAY, Some([]), Some([Lit(|shape|)]))], t4)
    requires ShapeLowered(t4, args[k], shape, |shape|, checks2, assigns2)
    ensures var dim := BinaryNode(EQUAL, Some([]), UnaryNode(DIM, Some([]), Scalar(args[k])), Scalar(UniqueArrayName(t2)));
      Extends(t, t4) && ArgumentsLowered(t, t4, args, k + 1, dims + [dim], checks + checks2, assigns + assigns2)
  {
    var t3 := t2[UniqueArrayName(t2) := SymbolEntry(ARRAY, Some([]), Some([Lit(|shape|)]))];
    var dim := BinaryNode(EQUAL, Some([]), UnaryNode(DIM, Some([]), Scalar(args[k])), Scalar(UniqueArrayName(t2)));
    LoweredDimension(t, t2, args, k, dims, checks, assigns, shape);
    ArgumentShapeLowered(t, t3, t4, args, k, dims, checks, assigns, shape, dim, checks2, assigns2);
  }

  lemma ArgumentsLoweredStep(t0: SymbolTable, t: SymbolTable, args: seq<string>, k: nat,
                             dims: seq<Node>, checks: seq<Node>, assigns: seq<Node>,
                             dim: Node, checks2: seq<Node>, assigns2: seq<Node>)
    requires k < |args|
    requires ArgumentsLowered(t0, t, args, k, dims, checks, assigns)
    requires DimensionCondition(t, args[k], |ShapeOf(t0, args[k])|, dim)
    requires ShapeLowered(t, args[k], ShapeOf(t0, args[k]), |ShapeOf(t0, args[k])|, checks2, assigns2)
    ensures ArgumentsLowered(t0, t, args, k + 1, dims + [dim], checks + checks2, assigns + assigns2)
  {
    StepDimensions(t0, t, args, k, dims, dim);
    StepAssigned(t0, t, args, k, assigns, checks2, assigns2);
    StepChecked(t0, t, args, k, checks, checks2, assigns2);
    StepAssignsSound(t0, t, args, k, assigns, checks2, assigns2);
    StepChecksSound(t0, t, args, k, checks, checks2, assigns2);
  }

  /**
    Lines 33-64 for argument `k`, which has a shape: the symbol holding its
    dimension and the condition that reads it, then its shape lowered.
  */
  method LowerArgument(t: SymbolTable, t2: SymbolTable, args: seq<string>, k: nat, dims: seq<Node>, checks: seq<Node>, assigns: seq<Node>)
    returns (t4: SymbolTable, dims2: seq<Node>, checks2: seq<Node>, assigns2: seq<Node>)
    requires k < |args| && HasShape(t, args[k]) && |dims| == k
    requires forall m :: 0 <= m < |dims| ==> dims[m].symbol == [EQUAL]
    requires forall m :: 0 <= m < |checks| ==> checks[m].symbol == [EQUAL]
    requires forall m :: 0 <= m < |assigns| ==> assigns[m].symbol == [ASSIGN]
    ensures |dims2| == k + 1
    ensures forall m :: 0 <= m < |dims2| ==> dims2[m].symbol == [EQUAL]
    ensures forall m :: 0 <= m < |checks2| ==> checks2[m].symbol == [EQUAL]
    ensures forall m :: 0 <= m < |assigns2| ==> assigns2[m].symbol == [ASSIGN]
    ensures Extends(t, t2) && ArgumentsLowered(t, t2, args, k, dims, checks, assigns) ==>
      Extends(t, t4) && ArgumentsLowered(t, t4, args, k + 1, dims2, checks2, assigns2)
  {
    var arg := args[k];
    var shape := t[arg].shape.value;
    var value := UniqueArrayName(t2);
    var entry := SymbolEntry(ARRAY, Some([]), Some([Lit(|shape|)]));
    var t3 := t2[value := entry];
    var dim := BinaryNode(EQUAL, Some([]), UnaryNode(DIM, Some([]), Scalar(arg)), Scalar(value));
    ghost var lowered := Extends(t, t2) && ArgumentsLowered(t, t2, args, k, dims, checks, assigns);
    if lowered {
      AddGeneratedExtends(t2, value, entry);
    }
    var shapeChecks, shapeAssigns;
    t4, shapeChecks, shapeAssigns := LowerShape(t3, arg, shape);
    if lowered {
      LoweredArgument(t, t2, t4, args, k, dims, checks, assigns, shape, shapeChecks, shapeAssigns);
    }
    dims2, checks2, assigns2 := dims + [dim], checks + shapeChecks, assigns + shapeAssigns;
  }

  datatype Lowering = Lowering(table: SymbolTable, dims: seq<Node>, checks: seq<Node>, assigns: seq<Node>)

  /**
    Lines 32-64: the dimension condition, the assignments and the shape checks
    of every argument, in the order of `args`. An argument without a shape
    raises `TypeError` (`len(None)`).
  */
  method LowerArguments(t: SymbolTable, args: seq<string>) returns (r: Result<Lowering, Exception>)
    ensures r.Err? <==> exists k :: 0 <= k < |args| && !HasShape(t, args[k])
    ensures r.Err? ==> r.error == TypeError
    ensures r.Ok? ==> |r.value.dims| == |args|
    ensures r.Ok? ==> forall m :: 0 <= m < |r.value.dims| ==> r.value.dims[m].symbol == [EQUAL]
    ensures r.Ok? ==> forall m :: 0 <= m < |r.value.checks| ==> r.value.checks[m].symbol == [EQUAL]
    ensures r.Ok? ==> forall m :: 0 <= m < |r.value.assigns| ==> r.value.assigns[m].symbol == [ASSIGN]
    ensures r.Ok? && FreshNamesUnused(t) ==>
      Extends(t, r.value.table) &&
      ArgumentsLowered(t, r.value.table, args, |args|, r.value.dims, r.value.checks, r.value.assigns)
  {
    ghost var isFresh := FreshNamesUnused(t);
    var t2, dims: seq<Node>, checks: seq<Node>, assigns: seq<Node> := t, [], [], [];
    var k := 0;
    while k < |args|
      invariant 0 <= k <= |args|
      invariant forall j :: 0 <= j < k ==> HasShape(t, args[j])
      invariant |dims| == k
      invariant forall m :: 0 <= m < |dims| ==> dims[m].symbol == [EQUAL]
      invariant forall m :: 0 <= m < |checks| ==> checks[m].symbol == [EQUAL]
      invariant forall m :: 0 <= m < |assigns| ==> assigns[m].symbol == [ASSIGN]
      invariant isFresh ==> Extends(t, t2) && ArgumentsLowered(t, t2, args, k, dims, checks, assigns)
    {
      var arg := args[k];
      if !HasShape(t, arg) {
        return Err(TypeError);
      }
      t2, dims, checks, assigns := LowerArgument(t, t2, args, k, dims, checks, assigns);
      k := k + 1;
    }
    return Ok(Lowering(t2, dims, checks, assigns));
  }

  /* ---------------------------------------------------------------------- */
  /* Function arguments                                                      */

  /**
    `determine_function_arguments` of `moa/onf.py`: the arguments in ascending
    order of name. The source wraps each in `ArrayNode(ARRAY, shape, name)`
    with the shape from the table; the model keeps the names, and `ShapeOf`
    reads the shape.
  */
  method DetermineFunctionArguments(t: SymbolTable, order: seq<string>) returns (r: Result<seq<string>, Exception>)
    requires forall x :: x in order <==> x in t
    ensures r.Err? <==> ScanFails(OnfScan, t, order)
    ensures r.Err? ==> exists i :: 0 <= i < |order| && EntryError(OnfScan, t, order[i]) == Some(r.error)
    ensures r.Ok? ==> StrictlySorted(r.value) && forall x :: x in r.value <==> FunctionArgument(OnfScan, t, x)
    ensures r.Ok? ==> forall x :: x in r.value ==> x in t && t[x].nodeType != INDEX
  {
    var found := DetermineArguments(OnfScan, t, order);
    if found.Err? {
      return Err(found.error);
    }
    var names := SortedNames(found.value);
    forall x | x in names
      ensures x in t && t[x].nodeType != INDEX
    {
      OnfArgumentsAreArrays(t, x);
    }
    return Ok(names);
  }

  /* ---------------------------------------------------------------------- */
  /* naive_reduction                                                         */

  const DimensionMessage := "arguments have invalid dimension"
  const ShapeMessage := "arguments have invalid shape"

  /** The expression being computed: the operand of a root `CONDITION`, otherwise the node itself. */
  function Core(node: Node): Node {
    if node.symbol == [CONDITION] && |node.child| >= 2 then node.child[1] else node
  }

  /** `result[index] = expression`, the statement inside the loops (lines 105-109). */
  function ResultAssignment(core: Node, index: string, result: string): Node {
    BinaryNode(ASSIGN, core.shape,
      BinaryNode(PSI, core.shape, ArrayNode(ARRAY, core.shape, Some(index), None), ArrayNode(ARRAY, core.shape, Some(result), None)),
      core)
  }

  /** The condition an `if not condition: error` node tests. */
  function Guarded(n: Node): Node {
    if |n.child| > 0 && |n.child[0].child| > 0 then n.child[0].child[0] else n
  }

  /** An `if not c: error(message)` node. */
  predicate IsGuard(n: Node, message: string) {
    n == IfNode(Not(Guarded(n)), [ErrorNode(message)])
  }

  /** The dimension guard: one `dim A == d` per argument, the last argument first. */
  ghost predicate DimensionGuard(t: SymbolTable, t2: SymbolTable, args: seq<string>, n: Node) {
    var cs := Conjuncts(Guarded(n));
    IsGuard(n, DimensionMessage) && |cs| == |args| &&
    forall k :: 0 <= k < |args| ==> DimensionCondition(t2, args[k], |ShapeOf(t, args[k])|, cs[|args| - 1 - k])
  }

  /**
    The shape guard: every numeric extent of every argument is checked, and the
    conjuncts of a root `CONDITION` close the guard.
  */
  ghost predicate ShapeGuard(t: SymbolTable, t2: SymbolTable, args: seq<string>, node: Node, n: Node) {
    var cs := Conjuncts(Guarded(n));
    IsGuard(n, ShapeMessage) &&
    (forall j, i :: 0 <= j < |args| && 0 <= i < |ShapeOf(t, args[j])| && ShapeOf(t, args[j])[i].Lit? ==>
       exists q :: 0 <= q < |cs| && ExtentCondition(t2, args[j], ShapeOf(t, args[j]), i, cs[q])) &&
    (node.symbol == [CONDITION] && |node.child| >= 2 ==>
       var user := Conjuncts(node.child[0]);
       |user| <= |cs| && cs[|cs| - |user|..] == user)
  }

  /** Some argument has a numeric extent to check. */
  ghost predicate HasNumericExtent(t: SymbolTable, args: seq<string>) {
    exists j, i :: 0 <= j < |args| && 0 <= i < |ShapeOf(t, args[j])| && ShapeOf(t, args[j])[i].Lit?
  }

  /** The shape checks and a root condition's condition, joined as lines 78-88 join them. */
  function ShapeCondition(checks: seq<Node>, condition: Option<Node>): Node
    requires |checks| > 0 || condition.Some?
  {
    if condition.None? then FoldAnd(checks)
    else if |checks| == 0 then condition.value
    else BinaryNode(AND, Some([]), FoldAnd(checks), condition.value)
  }

  /** The conjuncts of the shape condition: the checks, last first, then those of the root condition. */
  lemma ShapeConditionConjuncts(checks: seq<Node>, condition: Option<Node>)
    requires |checks| > 0 || condition.Some?
    requires forall k :: 0 <= k < |checks| ==> checks[k].symbol == [EQUAL]
    ensures Conjuncts(ShapeCondition(checks, condition)) ==
            Shape.Reverse(checks) + (if condition.Some? then Conjuncts(condition.value) else [])
  {
    if |checks| > 0 {
      FoldAndConjuncts(checks);
    }
  }

  /** Under the lowered arguments, the shape guard built from `checks` meets `ShapeGuard`. */
  lemma ShapeGuardHolds(t: SymbolTable, t2: SymbolTable, args: seq<string>, node: Node,
                        dims: seq<Node>, checks: seq<Node>, assigns: seq<Node>, condition: Option<Node>)
    requires ArgumentsLowered(t, t2, args, |args|, dims, checks, assigns)
    requires forall k :: 0 <= k < |checks| ==> checks[k].symbol == [EQUAL]
    requires |checks| > 0 || condition.Some?
    requires node.symbol == [CONDITION] && |node.child| >= 2 ==> condition == Some(node.child[0])
    ensures ShapeGuard(t, t2, args, node, IfNode(Not(ShapeCondition(checks, condition)), [ErrorNode(ShapeMessage)]))
  {
    var c := ShapeCondition(checks, condition);
    var n := IfNode(Not(c), [ErrorNode(ShapeMessage)]);
    assert Guarded(n) == c;
    assert forall j, i :: 0 <= j < |args| && 0 <= i < |ShapeOf(t, args[j])| && ShapeOf(t, args[j])[i].Lit? ==>
             ExtentChecked(t2, args[j], ShapeOf(t, args[j]), i, checks);
    ChecksInShapeCondition(t, t2, args, checks, condition);
    ShapeConditionConjuncts(checks, condition);
  }

  /** Every checked extent is a conjunct of the shape condition. */
  lemma ChecksInShapeCondition(t: SymbolTable, t2: SymbolTable, args: seq<string>, checks: seq<Node>, condition: Option<Node>)
    requires forall k :: 0 <= k < |checks| ==> checks[k].symbol == [EQUAL]
    requires |checks| > 0 || condition.Some?
    requires forall j, i :: 0 <= j < |args| && 0 <= i < |ShapeOf(t, args[j])| && ShapeOf(t, args[j])[i].Lit? ==>
               ExtentChecked(t2, args[j], ShapeOf(t, args[j]), i, checks)
    ensures var cs := Conjuncts(ShapeCondition(checks, condition));
      forall j, i :: 0 <= j < |args| && 0 <= i < |ShapeOf(t, args[j])| && ShapeOf(t, args[j])[i].Lit? ==>
        exists q :: 0 <= q < |cs| && ExtentCondition(t2, args[j], ShapeOf(t, args[j]), i, cs[q])
  {
    ShapeConditionConjuncts(checks, condition);
    var cs := Conjuncts(ShapeCondition(checks, condition));
    forall j, i | 0 <= j < |args| && 0 <= i < |ShapeOf(t, args[j])| && ShapeOf(t, args[j])[i].Lit?
      ensures exists q :: 0 <= q < |cs| && ExtentCondition(t2, args[j], ShapeOf(t, args[j]), i, cs[q])
    {
      assert ExtentChecked(t2, args[j], ShapeOf(t, args[j]), i, checks);
      var m :| 0 <= m < |checks| && ExtentCondition(t2, args[j], ShapeOf(t, args[j]), i, checks[m]);
      assert cs[|checks| - 1 - m] == checks[m];
    }
  }

  /** Under the lowered arguments, the dimension guard built from `dims` meets `DimensionGuard`. */
  lemma DimensionGuardHolds(t: SymbolTable, t2: SymbolTable, args: seq<string>,
                            dims: seq<Node>, checks: seq<Node>, assigns: seq<Node>)
    requires |args| > 0
    requires ArgumentsLowered(t, t2, args, |args|, dims, checks, assigns)
    requires forall k :: 0 <= k < |dims| ==> dims[k].symbol == [EQUAL]
    ensures DimensionGuard(t, t2, args, IfNode(Not(FoldAnd(dims)), [ErrorNode(DimensionMessage)]))
  {
    var n := IfNode(Not(FoldAnd(dims)), [ErrorNode(DimensionMessage)]);
    assert Guarded(n) == FoldAnd(dims);
    FoldAndConjuncts(dims);
  }

  /** The body of lines 66-114: optional dimension guard, assignments, optional shape guard, initialization, loops. */
  lemma BodyLayout(pre: seq<Node>, assigns: seq<Node>, post: seq<Node>, init: Node, loops: Node, includeConditions: bool)
    requires forall m :: 0 <= m < |assigns| ==> assigns[m].symbol == [ASSIGN]
    requires init.symbol == [INITIALIZE] && loops.symbol != [IF]
    requires !includeConditions ==> pre == [] && post == []
    requires |pre| <= 1 && (pre != [] ==> IsGuard(pre[0], DimensionMessage))
    requires forall m :: 0 <= m < |post| ==> IsGuard(post[m], ShapeMessage)
    ensures var body := pre + assigns + post + [init, loops];
      && (!includeConditions ==> forall k :: 0 <= k < |body| ==> body[k].symbol != [IF])
      && (pre != [] <==> IsGuard(body[0], DimensionMessage))
  {
    var body := pre + assigns + post + [init, loops];
    if pre == [] {
      if |assigns| > 0 {
        assert body[0] == assigns[0];
      } else if |post| > 0 {
        assert body[0] == post[0];
        assert DimensionMessage[24] != ShapeMessage[24];
        assert post[0].child[1] == ErrorNode(ShapeMessage);
      }
    }
  }

  /** Every symbolic extent is assigned in the body, before the initialization and the loops. */
  lemma AssignmentsInBody(t: SymbolTable, t2: SymbolTable, args: seq<string>, pre: seq<Node>, assigns: seq<Node>, post: seq<Node>, tail: seq<Node>)
    requires |tail| == 2
    requires forall j, i :: 0 <= j < |args| && 0 <= i < |ShapeOf(t, args[j])| && ShapeOf(t, args[j])[i].Ref? ==>
               ExtentAssigned(t2, args[j], ShapeOf(t, args[j]), i, assigns)
    ensures ExtentsAssignedInBody(t, t2, args, pre + assigns + post + tail)
  {
    var body := pre + assigns + post + tail;
    forall j, i | 0 <= j < |args| && 0 <= i < |ShapeOf(t, args[j])| && ShapeOf(t, args[j])[i].Ref?
      ensures exists m :: 0 <= m < |body| - 2 && ExtentAssignment(t2, args[j], ShapeOf(t, args[j]), i, body[m])
    {
      assert ExtentAssigned(t2, args[j], ShapeOf(t, args[j]), i, assigns);
      var m :| 0 <= m < |assigns| && ExtentAssignment(t2, args[j], ShapeOf(t, args[j]), i, assigns[m]);
      assert body[|pre| + m] == assigns[m];
    }
  }

  /** Two fresh array symbols leave the index symbols of the table as they were. */
  lemma ResultSymbolsKeepIndices(t: SymbolTable, e1: SymbolEntry, e2: SymbolEntry)
    requires FreshNamesUnused(t) && e1.nodeType == ARRAY && e2.nodeType == ARRAY
    ensures var t3 := t[UniqueArrayName(t) := e1];
      var t4 := t3[UniqueArrayName(t3) := e2];
      && Extends(t, t4) && UniqueArrayName(t) in t4 && t4[UniqueArrayName(t)] == e1
      && forall x :: x in t4 && t4[x].nodeType == INDEX <==> x in t && t[x].nodeType == INDEX
  {
    var t3 := t[UniqueArrayName(t) := e1];
    AddGeneratedSymbol(t, UniqueArrayName(t), e1);
    AddGeneratedExtends(t, UniqueArrayName(t), e1);
    AddGeneratedExtends(t3, UniqueArrayName(t3), e2);
    ExtendsTransitive(t, t3, t3[UniqueArrayName(t3) := e2]);
    GeneratedNamesDistinct(|t|, |t3|);
  }

  /**
    The function node `naive_reduction` returns: its arguments, in ascending
    order, are exactly the function arguments of the table; the body ends with
    the initialization of the result and the loops over the index symbols,
    outermost last in name order, around `result[index] = expression`; without
    conditions there is no guard, with them the body opens with the dimension
    guard exactly when there are arguments.
  */
  ghost predicate OnfFunction(t: SymbolTable, node: Node, includeConditions: bool, f: Node) {
    var body := f.child;
    && f.symbol == [FUNCTION] && f.shape == Core(node).shape
    && |f.attrib| == 2 && f.attrib[0].Names? && f.attrib[1].Name?
    && StrictlySorted(f.attrib[0].names)
    && (forall x :: x in f.attrib[0].names <==> FunctionArgument(OnfScan, t, x))
    && |body| >= 2 && body[|body| - 2] == InitializeNode(Core(node).shape, f.attrib[1].name)
    && StrictlySorted(Shape.Reverse(LoopIndices(body[|body| - 1])))
    && (exists index :: Innermost(body[|body| - 1]) == ResultAssignment(Core(node), index, f.attrib[1].name))
    && (!includeConditions ==> forall k :: 0 <= k < |body| ==> body[k].symbol != [IF])
    && (includeConditions ==> (|f.attrib[0].names| > 0 <==> IsGuard(body[0], DimensionMessage)))
  }

  /** Every symbolic extent of every argument is assigned in the body before the initialization and the loops. */
  ghost predicate ExtentsAssignedInBody(t: SymbolTable, t2: SymbolTable, args: seq<string>, body: seq<Node>) {
    forall j, i :: 0 <= j < |args| && 0 <= i < |ShapeOf(t, args[j])| && ShapeOf(t, args[j])[i].Ref? ==>
      exists m :: 0 <= m < |body| - 2 && ExtentAssignment(t2, args[j], ShapeOf(t, args[j]), i, body[m])
  }

  /** With conditions, the body opens with the dimension guard and holds the shape guard before the loops. */
  ghost predicate GuardsInBody(t: SymbolTable, t2: SymbolTable, node: Node, includeConditions: bool, args: seq<string>, body: seq<Node>) {
    && (includeConditions && |args| > 0 ==> |body| > 0 && DimensionGuard(t, t2, args, body[0]))
    && (includeConditions && (HasNumericExtent(t, args) || node.symbol == [CONDITION]) ==>
          exists m :: 0 <= m < |body| - 2 && ShapeGuard(t, t2, args, node, body[m]))
  }

  /**
    What the returned table holds for the function node: it extends the input
    table, declares the result with the expression's shape, and holds what the
    guards and the assignments read; the loops run over its index symbols, and
    the vector the innermost assignment indexes the result with holds those
    index symbols in ascending order (lines 99-101).
  */
  ghost predicate OnfTable(t: SymbolTable, node: Node, includeConditions: bool, f: Node, t2: SymbolTable)
    requires |f.attrib| == 2 && f.attrib[0].Names? && f.attrib[1].Name? && |f.child| >= 2
  {
    var body, args, result := f.child, f.attrib[0].names, f.attrib[1].name;
    && Extends(t, t2)
    && result in t2 && t2[result] == SymbolEntry(ARRAY, Core(node).shape, None)
    && ResultIndexed(t2, Core(node), result, body[|body| - 1])
    && (forall x :: x in LoopIndices(body[|body| - 1]) <==> x in t2 && t2[x].nodeType == INDEX)
    && ExtentsAssignedInBody(t, t2, args, body)
    && GuardsInBody(t, t2, node, includeConditions, args, body)
  }

  /**
    The assignment inside the loop nest `loops` writes `result` through an index
    vector that the table holds with the loop indices, in ascending order.
  */
  ghost predicate ResultIndexed(t: SymbolTable, core: Node, result: string, loops: Node) {
    var indices := Shape.Reverse(LoopIndices(loops));
    forall index :: Innermost(loops) == ResultAssignment(core, index, result) ==>
      index in t && t[index] == SymbolEntry(ARRAY, Some([Lit(|indices|)]), Some(Refs(indices)))
  }

  /** Lines 99-101 and 108-109: the index vector registered for the loops built over `indices`. */
  lemma IndexVectorRegistered(t: SymbolTable, core: Node, indices: seq<string>, index: string, result: string)
    requires index in t && t[index] == SymbolEntry(ARRAY, Some([Lit(|indices|)]), Some(Refs(indices)))
    ensures ResultIndexed(t, core, result, LoopNest(core.shape, indices, ResultAssignment(core, index, result)))
  {
    var assign := ResultAssignment(core, index, result);
    var loops := LoopNest(core.shape, indices, assign);
    LoopNestStructure(core.shape, indices, assign);
    Shape.ReverseReverse(indices);
    forall other | Innermost(loops) == ResultAssignment(core, other, result)
      ensures other == index
    {
      assert ResultAssignment(core, other, result).child[0].child[0].attrib[0] == Name(other);
      assert assign.child[0].child[0].attrib[0] == Name(index);
    }
  }

  /** The node assembled at lines 66-116 has the form `OnfFunction` describes. */
  lemma AssembledFunction(t: SymbolTable, node: Node, includeConditions: bool, args: seq<string>,
                          dims: seq<Node>, checks: seq<Node>, assigns: seq<Node>, pre: seq<Node>, post: seq<Node>,
                          indices: seq<string>, index: string, result: string)
    requires StrictlySorted(args) && forall x :: x in args <==> FunctionArgument(OnfScan, t, x)
    requires |dims| == |args| && forall m :: 0 <= m < |assigns| ==> assigns[m].symbol == [ASSIGN]
    requires pre == if |dims| > 0 && includeConditions then [IfNode(Not(FoldAnd(dims)), [ErrorNode(DimensionMessage)])] else []
    requires |post| <= 1 && (forall m :: 0 <= m < |post| ==> IsGuard(post[m], ShapeMessage)) && (!includeConditions ==> post == [])
    requires StrictlySorted(indices)
    ensures var core := Core(node);
      OnfFunction(t, node, includeConditions,
        FunctionNode(core.shape, args, result,
          pre + assigns + post + [InitializeNode(core.shape, result), LoopNest(core.shape, indices, ResultAssignment(core, index, result))]))
  {
    var core := Core(node);
    var init := InitializeNode(core.shape, result);
    var assign := ResultAssignment(core, index, result);
    var loops := LoopNest(core.shape, indices, assign);
    var body := pre + assigns + post + [init, loops];
    assert body[|body| - 2] == init && body[|body| - 1] == loops;
    LoopNestStructure(core.shape, indices, assign);
    Shape.ReverseReverse(indices);
    assert loops.symbol != [IF] by {
      if indices != [] {
        assert loops.symbol == [LOOP];
      }
    }
    if pre != [] {
      assert Guarded(pre[0]) == FoldAnd(dims);
    }
    BodyLayout(pre, assigns, post, init, loops, includeConditions);
  }

  /** The table returned at line 116 meets `OnfTable` for the assembled node. */
  /** The loops built over `indices` range over exactly the index symbols of `t` and write the result through its registered index vector. */
  lemma LoopsRegistered(t: SymbolTable, core: Node, indices: seq<string>, index: string, result: string)
    requires forall x :: x in indices <==> x in t && t[x].nodeType == INDEX
    requires index in t && t[index] == SymbolEntry(ARRAY, Some([Lit(|indices|)]), Some(Refs(indices)))
    ensures var loops := LoopNest(core.shape, indices, ResultAssignment(core, index, result));
      && (forall x :: x in LoopIndices(loops) <==> x in t && t[x].nodeType == INDEX)
      && ResultIndexed(t, core, result, loops)
  {
    LoopNestStructure(core.shape, indices, ResultAssignment(core, index, result));
    Shape.ReverseMembers(indices);
    IndexVectorRegistered(t, core, indices, index, result);
  }

  /** The conjuncts of `OnfTable` for a function node built from its parts. */
  lemma OnfTableIntro(t: SymbolTable, node: Node, includeConditions: bool, shape: Option<seq<Elem>>,
                      args: seq<string>, result: string, body: seq<Node>, t2: SymbolTable)
    requires |body| >= 2 && Extends(t, t2)
    requires result in t2 && t2[result] == SymbolEntry(ARRAY, Core(node).shape, None)
    requires ResultIndexed(t2, Core(node), result, body[|body| - 1])
    requires forall x :: x in LoopIndices(body[|body| - 1]) <==> x in t2 && t2[x].nodeType == INDEX
    requires ExtentsAssignedInBody(t, t2, args, body)
    requires GuardsInBody(t, t2, node, includeConditions, args, body)
    ensures OnfTable(t, node, includeConditions, FunctionNode(shape, args, result, body), t2)
  {
  }

  lemma AssembledTable(t: SymbolTable, t2: SymbolTable, node: Node, includeConditions: bool, args: seq<string>,
                       dims: seq<Node>, checks: seq<Node>, assigns: seq<Node>, pre: seq<Node>, post: seq<Node>,
                       condition: Option<Node>, indices: seq<string>)
    requires FreshNamesUnused(t) && Extends(t, t2)
    requires ArgumentsLowered(t, t2, args, |args|, dims, checks, assigns)
    requires forall m :: 0 <= m < |dims| ==> dims[m].symbol == [EQUAL]
    requires forall m :: 0 <= m < |checks| ==> checks[m].symbol == [EQUAL]
    requires pre == if |dims| > 0 && includeConditions then [IfNode(Not(FoldAnd(dims)), [ErrorNode(DimensionMessage)])] else []
    requires node.symbol == [CONDITION] ==> |node.child| >= 2 && condition == Some(node.child[0])
    requires node.symbol != [CONDITION] ==> condition == None
    requires post == if (|checks| > 0 || condition.Some?) && includeConditions
                     then [IfNode(Not(ShapeCondition(checks, condition)), [ErrorNode(ShapeMessage)])] else []
    requires forall x :: x in indices <==> x in t2 && t2[x].nodeType == INDEX
    ensures var core := Core(node);
      var result := UniqueArrayName(t2);
      var t3 := t2[result := SymbolEntry(ARRAY, core.shape, None)];
      var index := UniqueArrayName(t3);
      var t4 := t3[index := SymbolEntry(ARRAY, Some([Lit(|indices|)]), Some(Refs(indices)))];
      OnfTable(t, node, includeConditions,
        FunctionNode(core.shape, args, result,
          pre + assigns + post + [InitializeNode(core.shape, result), LoopNest(core.shape, indices, ResultAssignment(core, index, result))]),
        t4)
  {
    var core := Core(node);
    var result := UniqueArrayName(t2);
    var t3 := t2[result := SymbolEntry(ARRAY, core.shape, None)];
    var index := UniqueArrayName(t3);
    var t4 := t3[index := SymbolEntry(ARRAY, Some([Lit(|indices|)]), Some(Refs(indices)))];
    var init := InitializeNode(core.shape, result);
    var assign := ResultAssignment(core, index, result);
    var loops := LoopNest(core.shape, indices, assign);
    var body := pre + assigns + post + [init, loops];
    var e1, e2 := SymbolEntry(ARRAY, core.shape, None), SymbolEntry(ARRAY, Some([Lit(|indices|)]), Some(Refs(indices)));
    ResultSymbolsKeepIndices(t2, e1, e2);
    ExtendsTransitive(t, t2, t4);
    assert body[|body| - 1] == loops;
    LoopsRegistered(t4, core, indices, index, result);
    BodyGuarded(t, t2, t4, node, includeConditions, args, dims, checks, assigns, pre, post, condition, [init, loops]);
    OnfTableIntro(t, node, includeConditions, core.shape, args, result, body, t4);
  }

  /** Over a table grown from `t2`, the body built from the lowered arguments assigns every extent and carries the guards. */
  lemma BodyGuarded(t: SymbolTable, t2: SymbolTable, t4: SymbolTable, node: Node, includeConditions: bool, args: seq<string>,
                    dims: seq<Node>, checks: seq<Node>, assigns: seq<Node>, pre: seq<Node>, post: seq<Node>,
                    condition: Option<Node>, tail: seq<Node>)
    requires |tail| == 2 && Extends(t2, t4)
    requires ArgumentsLowered(t, t2, args, |args|, dims, checks, assigns)
    requires forall m :: 0 <= m < |dims| ==> dims[m].symbol == [EQUAL]
    requires forall m :: 0 <= m < |checks| ==> checks[m].symbol == [EQUAL]
    requires pre == if |dims| > 0 && includeConditions then [IfNode(Not(FoldAnd(dims)), [ErrorNode(DimensionMessage)])] else []
    requires node.symbol == [CONDITION] ==> |node.child| >= 2 && condition == Some(node.child[0])
    requires post == if (|checks| > 0 || condition.Some?) && includeConditions
                     then [IfNode(Not(ShapeCondition(checks, condition)), [ErrorNode(ShapeMessage)])] else []
    ensures ExtentsAssignedInBody(t, t4, args, pre + assigns + post + tail)
    ensures GuardsInBody(t, t4, node, includeConditions, args, pre + assigns + post + tail)
  {
    ArgumentsLoweredExtends(t, t2, t4, args, |args|, dims, checks, assigns);
    AssignmentsInBody(t, t4, args, pre, assigns, post, tail);
    GuardsAssembled(t, t4, node, includeConditions, args, dims, checks, assigns, pre, post, condition, tail);
  }

  lemma GuardsAssembled(t: SymbolTable, t2: SymbolTable, node: Node, includeConditions: bool, args: seq<string>,
                        dims: seq<Node>, checks: seq<Node>, assigns: seq<Node>, pre: seq<Node>, post: seq<Node>,
                        condition: Option<Node>, tail: seq<Node>)
    requires |tail| == 2
    requires ArgumentsLowered(t, t2, args, |args|, dims, checks, assigns)
    requires forall m :: 0 <= m < |dims| ==> dims[m].symbol == [EQUAL]
    requires forall m :: 0 <= m < |checks| ==> checks[m].symbol == [EQUAL]
    requires pre == if |dims| > 0 && includeConditions then [IfNode(Not(FoldAnd(dims)), [ErrorNode(DimensionMessage)])] else []
    requires node.symbol == [CONDITION] ==> |node.child| >= 2 && condition == Some(node.child[0])
    requires post == if (|checks| > 0 || condition.Some?) && includeConditions
                     then [IfNode(Not(ShapeCondition(checks, condition)), [ErrorNode(ShapeMessage)])] else []
    ensures GuardsInBody(t, t2, node, includeConditions, args, pre + assigns + post + tail)
  {
    var body := pre + assigns + post + tail;
    if includeConditions && |args| > 0 {
      DimensionGuardHolds(t, t2, args, dims, checks, assigns);
      assert body[0] == pre[0];
    }
    if includeConditions && (HasNumericExtent(t, args) || node.symbol == [CONDITION]) {
      if HasNumericExtent(t, args) {
        var j, i :| 0 <= j < |args| && 0 <= i < |ShapeOf(t, args[j])| && ShapeOf(t, args[j])[i].Lit?;
        assert ExtentChecked(t2, args[j], ShapeOf(t, args[j]), i, checks);
      }
      ShapeGuardHolds(t, t2, args, node, dims, checks, assigns, condition);
      assert body[|pre| + |assigns|] == post[0];
    }
  }

  /**
    Lines 66-72 and 90-93: the guard on the arguments' dimensions, placed
    before the assignments, and the guard on their extents together with the
    condition of a `CONDITION` node, placed after them. Either is left out
    when there is nothing to check or conditions are not wanted.
  */
  method BuildGuards(node: Node, includeConditions: bool, dims: seq<Node>, checks: seq<Node>)
    returns (pre: seq<Node>, post: seq<Node>, condition: Option<Node>)
    requires node.symbol == [CONDITION] ==> |node.child| >= 2
    ensures pre == if |dims| > 0 && includeConditions then [IfNode(Not(FoldAnd(dims)), [ErrorNode(DimensionMessage)])] else []
    ensures node.symbol == [CONDITION] ==> condition == Some(node.child[0])
    ensures node.symbol != [CONDITION] ==> condition == None
    ensures post == if (|checks| > 0 || condition.Some?) && includeConditions
                    then [IfNode(Not(ShapeCondition(checks, condition)), [ErrorNode(ShapeMessage)])] else []
  {
    pre := [];
    if |dims| > 0 && includeConditions {
      var c := JoinConditions(dims);
      pre := [IfNode(Not(c), [ErrorNode(DimensionMessage)])];
    }
    condition := None;
    if node.symbol == [CONDITION] {
      condition := Some(node.child[0]);
    }
    post := [];
    if (|checks| > 0 || condition.Some?) && includeConditions {
      post := [IfNode(Not(ShapeCondition(checks, condition)), [ErrorNode(ShapeMessage)])];
    }
  }

  /**
    Lines 66-116 once the arguments are lowered: the guards, the assignments,
    the result and its index vector, the loops and the function node.
  */
  method Assemble(t: SymbolTable, node: Node, includeConditions: bool, args: seq<string>, lowering: Lowering)
    returns (f: Node, t4: SymbolTable)
    requires StrictlySorted(args) && forall x :: x in args <==> FunctionArgument(OnfScan, t, x)
    requires |lowering.dims| == |args|
    requires forall m :: 0 <= m < |lowering.dims| ==> lowering.dims[m].symbol == [EQUAL]
    requires forall m :: 0 <= m < |lowering.checks| ==> lowering.checks[m].symbol == [EQUAL]
    requires forall m :: 0 <= m < |lowering.assigns| ==> lowering.assigns[m].symbol == [ASSIGN]
    requires FreshNamesUnused(t) ==>
      (Extends(t, lowering.table) &&
       ArgumentsLowered(t, lowering.table, args, |args|, lowering.dims, lowering.checks, lowering.assigns))
    requires node.symbol == [CONDITION] ==> |node.child| >= 2
    ensures OnfFunction(t, node, includeConditions, f)
    ensures FreshNamesUnused(t) ==> OnfTable(t, node, includeConditions, f, t4)
  {
    var Lowering(t2, dims, checks, assigns) := lowering;
    var pre, post, condition := BuildGuards(node, includeConditions, dims, checks);
    var core := Core(node);
    var indices := DetermineIndices(t2);
    var result := UniqueArrayName(t2);
    var t3 := t2[result := SymbolEntry(ARRAY, core.shape, None)];
    var index := UniqueArrayName(t3);
    t4 := t3[index := SymbolEntry(ARRAY, Some([Lit(|indices|)]), Some(Refs(indices)))];
    var loops := WrapLoops(core.shape, indices, ResultAssignment(core, index, result));
    f := FunctionNode(core.shape, args, result, pre + assigns + post + [InitializeNode(core.shape, result), loops]);
    assert OnfFunction(t, node, includeConditions, f) by {
      AssembledFunction(t, node, includeConditions, args, dims, checks, assigns, pre, post, indices, index, result);
    }
    if FreshNamesUnused(t) {
      assert OnfTable(t, node, includeConditions, f, t4) by {
        AssembledTable(t, t2, node, includeConditions, args, dims, checks, assigns, pre, post, condition, indices);
      }
    }
  }

  /**
    `naive_reduction`: the ψ-reduced expression `node` as a function of the
    arguments in the operational normal form (see `OnfFunction` and
    `OnfTable`). The guards are left out when `includeConditions` is false;
    the symbols are added either way.
  */
  method NaiveReduction(t: SymbolTable, order: seq<string>, node: Node, includeConditions: bool)
    returns (r: Result<Context, Exception>)
    requires forall x :: x in order <==> x in t
    ensures ScanFails(OnfScan, t, order) ==> r.Err?
    ensures !ScanFails(OnfScan, t, order) ==>
      (r.Err? <==> (exists x :: FunctionArgument(OnfScan, t, x) && t[x].shape.None?) ||
                   (node.symbol == [CONDITION] && |node.child| < 2))
    ensures r.Ok? ==> OnfFunction(t, node, includeConditions, r.value.ast)
    ensures r.Ok? && FreshNamesUnused(t) ==> OnfTable(t, node, includeConditions, r.value.ast, r.value.symbolTable)
  {
    var found := DetermineFunctionArguments(t, order);
    if found.Err? {
      return Err(found.error);
    }
    var args := found.value;
    var lowered := LowerArguments(t, args);
    if lowered.Err? {
      return Err(lowered.error);
    }
    if node.symbol == [CONDITION] && |node.child| < 2 {
      return Err(IndexError);
    }
    var f, table := Assemble(t, node, includeConditions, args, lowered.value);
    return Ok(Context(f, table));
  }
}
