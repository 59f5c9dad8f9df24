/**
  The first generation of ψ-reduction (`moa/reduction.py`), on tuple nodes: an
  index vector of fresh index names is put in front of the expression, and then
  `psi` is pushed down through `psi`, `transpose` and `+` until it rests on the
  arrays themselves.

  The meaning the rewrites keep is given by `Access`: what an expression denotes
  when indexed by a full index, written as reads of arrays at symbolic indices
  combined by `+`, and opaque for every operation the rules do not touch.
*/
module Reduction {
  import opened Wrappers
  import opened Errors
  import opened Names
  import opened MoaAst
  import Shape

  /** An entry `(0, bound)` of the index table: the range of one loop index. */
  datatype IndexBound = IndexBound(start: int, stop: Elem)

  type IndexTable = map<string, IndexBound>

  /** The index name `f'i{k}'` for counter value `k`. */
  function CounterName(k: nat): string {
    "i" + NatToString(k)
  }

  lemma CounterNamesDistinct(j: nat, k: nat)
    ensures CounterName(j) == CounterName(k) <==> j == k
  {
    NatToStringInjective(j, k);
    if CounterName(j) == CounterName(k) {
      assert NatToString(j) == CounterName(j)[1..];
      assert NatToString(k) == CounterName(k)[1..];
    }
  }

  /** The names `i{counter}`, ..., `i{counter + n - 1}`. */
  function CounterNames(counter: nat, n: nat): (r: seq<string>)
    ensures |r| == n && forall k :: 0 <= k < n ==> r[k] == CounterName(counter + k)
  {
    seq(n, k requires 0 <= k < n => CounterName(counter + k))
  }

  lemma CounterNamesSplit(counter: nat, n: nat)
    requires n > 0
    ensures CounterNames(counter, n) == [CounterName(counter)] + CounterNames(counter + 1, n - 1)
  {
  }

  lemma CounterNameNotLater(counter: nat, n: nat)
    ensures CounterName(counter) !in CounterNames(counter + 1, n)
  {
    var names := CounterNames(counter + 1, n);
    forall j | 0 <= j < n ensures names[j] != CounterName(counter) {
      CounterNamesDistinct(counter, counter + 1 + j);
    }
  }

  /** The table after `symbol_table[f'i{k}'] = (0, bound)` for each bound in turn. */
  function AddBounds(t: IndexTable, counter: nat, shape: seq<Elem>): IndexTable
    decreases |shape|
  {
    if shape == [] then t
    else AddBounds(t[CounterName(counter) := IndexBound(0, shape[0])], counter + 1, shape[1..])
  }

  /**
    The loop adds exactly the names `i{counter}` .. `i{counter + |shape| - 1}`, the
    k-th bound to the k-th of them, and keeps every other entry.
  */
  lemma {:induction false} AddBoundsContents(t: IndexTable, counter: nat, shape: seq<Elem>)
    ensures var r, names := AddBounds(t, counter, shape), CounterNames(counter, |shape|);
      && (forall k :: 0 <= k < |shape| ==> names[k] in r && r[names[k]] == IndexBound(0, shape[k]))
      && (forall x :: x in r <==> x in t || x in names)
      && (forall x :: x in t && x !in names ==> r[x] == t[x])
    decreases |shape|
  {
    if shape != [] {
      var t1 := t[CounterName(counter) := IndexBound(0, shape[0])];
      var rest := shape[1..];
      AddBoundsContents(t1, counter + 1, rest);
      var r := AddBounds(t, counter, shape);
      var names := CounterNames(counter, |shape|);
      var later := CounterNames(counter + 1, |rest|);
      assert r == AddBounds(t1, counter + 1, rest);
      CounterNamesSplit(counter, |shape|);
      CounterNameNotLater(counter, |rest|);
      assert names == [CounterName(counter)] + later;
      forall k | 0 <= k < |shape|
        ensures names[k] in r && r[names[k]] == IndexBound(0, shape[k])
      {
        if k > 0 {
          assert names[k] == later[k - 1] && rest[k - 1] == shape[k];
        }
      }
    }
  }

  /** The index vector `(i{counter}, ..., i{counter + n - 1})`. */
  function IndexRefs(counter: nat, n: nat): (r: seq<Elem>)
    ensures |r| == n && forall k :: 0 <= k < n ==> r[k] == Ref(CounterName(counter + k))
  {
    seq(n, k requires 0 <= k < n => Ref(CounterName(counter + k)))
  }

  /** A literal index vector: an unnamed array of shape `(len(values),)` holding `values`. */
  function IndexVector(values: seq<Elem>): Node {
    ArrayNode(ARRAY, Some([Lit(|values|)]), None, Some(values))
  }

  /** `is_vector(node) and node.value is not None` on a tuple node. */
  predicate HasIndexValues(n: Node) {
    IsArray(n) && n.shape.Some? && |n.shape.value| == 1 && InlineValue(n).Some?
  }

  lemma IndexVectorValues(values: seq<Elem>)
    ensures HasIndexValues(IndexVector(values)) && InlineValue(IndexVector(values)) == Some(values)
    ensures WellShaped(IndexVector(values))
  {
    ArrayNodeFields(ARRAY, Some([Lit(|values|)]), None, Some(values));
  }

  /**
    `add_indexing_node`: the table, the tree `<i{c} ... > psi node` and the
    counter afterwards. `zip` draws one value of the counter more than the shape
    has elements; a node without a shape raises `TypeError`.
  */
  function Indexed(node: Node, table: IndexTable, counter: nat): Result<(Node, IndexTable, nat), Exception> {
    if node.shape.None? then Err(TypeError)
    else
      var shape := node.shape.value;
      Ok((BinaryNode(PSI, node.shape, IndexVector(IndexRefs(counter, |shape|)), node),
          AddBounds(table, counter, shape),
          counter + |shape| + 1))
  }

  /** One index per dimension of the root: the names, their bounds, and the vector that uses them. */
  lemma IndexedContents(node: Node, table: IndexTable, counter: nat)
    requires node.shape.Some?
    ensures var (tree, t, c) := Indexed(node, table, counter).value;
      var shape := node.shape.value;
      var names := CounterNames(counter, |shape|);
      && tree.symbol == [PSI] && tree.shape == node.shape && tree.child[1] == node
      && HasIndexValues(tree.child[0]) && InlineValue(tree.child[0]) == Some(IndexRefs(counter, |shape|))
      && (forall k :: 0 <= k < |shape| ==> names[k] in t && t[names[k]] == IndexBound(0, shape[k]))
      && (forall x :: x in t <==> x in table || x in names)
      && (forall x :: x in table && x !in names ==> t[x] == table[x])
      && c == counter + |shape| + 1
  {
    IndexVectorValues(IndexRefs(counter, |node.shape.value|));
    AddBoundsContents(table, counter, node.shape.value);
  }

  /** `add_indexing_node`, filling the table one dimension at a time. */
  method AddIndexingNode(node: Node, table: IndexTable, counter: nat) returns (r: Result<(Node, IndexTable, nat), Exception>)
    ensures r == Indexed(node, table, counter)
  {
    if node.shape.None? {
      return Err(TypeError);
    }
    var shape := node.shape.value;
    var t := table;
    var symbols: seq<Elem> := [];
    var k := 0;
    while k < |shape|
      invariant 0 <= k <= |shape|
      invariant AddBounds(t, counter + k, shape[k..]) == AddBounds(table, counter, shape)
      invariant symbols == IndexRefs(counter, k)
    {
      assert shape[k..][1..] == shape[k + 1..];
      t := t[CounterName(counter + k) := IndexBound(0, shape[k])];
      symbols := symbols + [Ref(CounterName(counter + k))];
      k := k + 1;
    }
    return Ok((BinaryNode(PSI, node.shape, IndexVector(symbols), node), t, counter + |shape| + 1));
  }

  /* ---------------------------------------------------------------------- */
  /* The rewrite rules                                                       */

  /** `node` is `psi` applied to an expression whose root is `s`, with the operands of each. */
  predicate PsiOver(n: Node, s: NodeSymbol) {
    n.symbol == [PSI] && |n.child| == 2 && n.child[1].symbol == [s] &&
    |n.child[1].child| == (if s == TRANSPOSE then 1 else 2)
  }

  lemma PsiOverOperands(n: Node)
    requires WellShaped(n) && n.symbol == [PSI]
    ensures |n.child| == 2 && WellShaped(n.child[0]) && WellShaped(n.child[1])
    ensures n.child[1].symbol == [PSI] ==> PsiOver(n, PSI)
    ensures n.child[1].symbol == [TRANSPOSE] ==> PsiOver(n, TRANSPOSE)
    ensures n.child[1].symbol == [PLUS] ==> PsiOver(n, PLUS)
    ensures |n.child[1].child| > 0 ==> WellShaped(n.child[1].child[0])
    ensures |n.child[1].child| > 1 ==> WellShaped(n.child[1].child[1])
  {
    WellShapedOperands(n);
    WellShapedOperands(n.child[1]);
  }

  /**
    `_reduce_psi_psi`: `<i j> psi <k l> psi e` becomes `<k l i j> psi e`. An inner
    left operand that is not a vector with values raises `MOAReductionError`; an
    outer one without values cannot be concatenated (`TypeError`).
  */
  function ReducePsiPsi(n: Node): (r: Result<Node, Exception>)
    requires WellShaped(n) && PsiOver(n, PSI)
    ensures r.Err? <==> !HasIndexValues(n.child[1].child[0]) || InlineValue(n.child[0]).None?
    ensures !HasIndexValues(n.child[1].child[0]) ==> r == Err(MOAReductionError)
    ensures r.Ok? ==>
      && r.value.symbol == [PSI] && r.value.shape == n.shape && |r.value.child| == 2
      && r.value.child[1] == n.child[1].child[1] && HasIndexValues(r.value.child[0])
    ensures r.Ok? ==>
      var v := InlineValue(r.value.child[0]).value;
      && v == InlineValue(n.child[1].child[0]).value + InlineValue(n.child[0]).value
      && |v| == |InlineValue(n.child[1].child[0]).value| + |InlineValue(n.child[0]).value|
  {
    var inner := n.child[1].child[0];
    if !HasIndexValues(inner) then Err(MOAReductionError)
    else if InlineValue(n.child[0]).None? then Err(TypeError)
    else
      var values := InlineValue(inner).value + InlineValue(n.child[0]).value;
      IndexVectorValues(values);
      Ok(BinaryNode(PSI, n.shape, IndexVector(values), n.child[1].child[1]))
  }

  /**
    `_reduce_psi_transpose`: `<i j k> psi transpose e` becomes `<k j i> psi e`.
    An index vector without values cannot be reversed (`TypeError`).
  */
  function ReducePsiTranspose(n: Node): (r: Result<Node, Exception>)
    requires WellShaped(n) && PsiOver(n, TRANSPOSE)
    ensures r.Err? <==> InlineValue(n.child[0]).None?
    ensures r.Ok? ==>
      && r.value.symbol == [PSI] && r.value.shape == n.shape && |r.value.child| == 2
      && r.value.child[1] == n.child[1].child[0] && HasIndexValues(r.value.child[0])
    ensures r.Ok? ==>
      var v := InlineValue(n.child[0]).value;
      && |InlineValue(r.value.child[0]).value| == |v|
      && forall k :: 0 <= k < |v| ==> InlineValue(r.value.child[0]).value[k] == v[|v| - 1 - k]
  {
    var v := InlineValue(n.child[0]);
    if v.None? then Err(TypeError)
    else
      IndexVectorValues(Shape.Reverse(v.value));
      Ok(BinaryNode(PSI, n.shape, IndexVector(Shape.Reverse(v.value)), n.child[1].child[0]))
  }

  /** `_reduce_psi_plus`: `v psi (a + b)` becomes `(v psi a) + (v psi b)`, every node of the shape of the root. */
  function ReducePsiPlus(n: Node): (r: Node)
    requires WellShaped(n) && PsiOver(n, PLUS)
    ensures r.symbol == [PLUS] && r.shape == n.shape && |r.child| == 2
    ensures forall k :: 0 <= k < 2 ==>
      r.child[k].symbol == [PSI] && r.child[k].shape == n.shape &&
      r.child[k].child == [n.child[0], n.child[1].child[k]]
  {
    BinaryNode(PLUS, n.shape,
      BinaryNode(PSI, n.shape, n.child[0], n.child[1].child[0]),
      BinaryNode(PSI, n.shape, n.child[0], n.child[1].child[1]))
  }

  /**
    A size that every rewrite makes smaller: the right operand of `psi` weighs
    three times its size, so that pushing `psi` one level down pays for the
    copies of the index vector it makes.
  */
  function Measure(n: Node): (m: nat)
    ensures m >= 1
    decreases n
  {
    if n.symbol == [PSI] && |n.child| == 2 then Measure(n.child[0]) + 3 * Measure(n.child[1])
    else if IsUnaryOperation(n) && |n.child| == 1 then 1 + Measure(n.child[0])
    else if IsBinaryOperation(n) && |n.child| == 2 then 1 + Measure(n.child[0]) + Measure(n.child[1])
    else 1
  }

  /**
    `_reduce_replacement`: on `psi` over `psi`, `transpose` or `+`, the rewrite of
    that rule, after checking that the left operand is a vector with values
    (else `MOAReductionError`); on any other node, no rewrite.
  */
  function ReduceReplacement(n: Node): (r: Result<Option<Node>, Exception>)
    requires WellShaped(n)
    ensures !(PsiOver(n, PSI) || PsiOver(n, TRANSPOSE) || PsiOver(n, PLUS)) ==> r == Ok(None)
    ensures (PsiOver(n, PSI) || PsiOver(n, TRANSPOSE) || PsiOver(n, PLUS)) && !HasIndexValues(n.child[0]) ==>
      r == Err(MOAReductionError)
    ensures (PsiOver(n, PSI) || PsiOver(n, TRANSPOSE) || PsiOver(n, PLUS)) && HasIndexValues(n.child[0]) ==>
      r != Ok(None)
    ensures r.Ok? && r.value.Some? ==> WellShaped(r.value.value) && Measure(r.value.value) < Measure(n)
  {
    WellShapedOperands(n);
    if n.symbol == [PSI] && n.child[1].symbol in {[PSI], [TRANSPOSE], [PLUS]} then
      PsiOverOperands(n);
      if !HasIndexValues(n.child[0]) then Err(MOAReductionError)
      else if n.child[1].symbol == [PSI] then
        match ReducePsiPsi(n)
        case Err(e) => Err(e)
        case Ok(m) => PsiPsiDecreases(n); Ok(Some(m))
      else if n.child[1].symbol == [TRANSPOSE] then
        match ReducePsiTranspose(n)
        case Err(e) => Err(e)
        case Ok(m) => PsiTransposeDecreases(n); Ok(Some(m))
      else
        PsiPlusDecreases(n);
        Ok(Some(ReducePsiPlus(n)))
    else Ok(None)
  }

  lemma PsiPsiDecreases(n: Node)
    requires WellShaped(n) && PsiOver(n, PSI) && ReducePsiPsi(n).Ok?
    ensures WellShaped(ReducePsiPsi(n).value) && Measure(ReducePsiPsi(n).value) < Measure(n)
  {
    PsiOverOperands(n);
    var m := ReducePsiPsi(n).value;
    IndexVectorValues(InlineValue(m.child[0]).value);
    assert m.child[0] == IndexVector(InlineValue(m.child[0]).value);
  }

  lemma PsiTransposeDecreases(n: Node)
    requires WellShaped(n) && PsiOver(n, TRANSPOSE) && ReducePsiTranspose(n).Ok?
    ensures WellShaped(ReducePsiTranspose(n).value) && Measure(ReducePsiTranspose(n).value) < Measure(n)
  {
    PsiOverOperands(n);
    var m := ReducePsiTranspose(n).value;
    IndexVectorValues(InlineValue(m.child[0]).value);
    assert m.child[0] == IndexVector(InlineValue(m.child[0]).value);
  }

  lemma PsiPlusDecreases(n: Node)
    requires WellShaped(n) && PsiOver(n, PLUS) && HasIndexValues(n.child[0])
    ensures WellShaped(ReducePsiPlus(n)) && Measure(ReducePsiPlus(n)) < Measure(n)
  {
    PsiOverOperands(n);
    var v, a, b := n.child[0], n.child[1].child[0], n.child[1].child[1];
    assert WellShaped(ReducePsiPlus(n)) by {
      BuiltWellShaped(n.shape, None, None, PSI, v, a);
      BuiltWellShaped(n.shape, None, None, PSI, v, b);
      BuiltWellShaped(n.shape, None, None, PLUS, BinaryNode(PSI, n.shape, v, a), BinaryNode(PSI, n.shape, v, b));
    }
    assert Measure(v) == 1;
    PsiPlusMeasure(n, ReducePsiPlus(n));
  }

  /** Distributing an index of measure one over `+` lowers the measure. */
  lemma PsiPlusMeasure(n: Node, m: Node)
    requires n.symbol == [PSI] && |n.child| == 2 && Measure(n.child[0]) == 1
    requires n.child[1].symbol == [PLUS] && |n.child[1].child| == 2
    requires m.symbol == [PLUS] && |m.child| == 2
    requires forall k :: 0 <= k < 2 ==> m.child[k].symbol == [PSI] && m.child[k].child == [n.child[0], n.child[1].child[k]]
    ensures Measure(m) < Measure(n)
  {
    var a, b := n.child[1].child[0], n.child[1].child[1];
    assert Measure(n.child[1]) == 1 + Measure(a) + Measure(b);
    assert Measure(m.child[0]) == 1 + 3 * Measure(a);
    assert Measure(m.child[1]) == 1 + 3 * Measure(b);
  }

  /**
    The pre-order replacement the reduction applies: rewrite a node until no rule
    applies, then reduce the operands of the result, left before right.
  */
  function ReduceTree(n: Node): (r: Result<Node, Exception>)
    requires WellShaped(n)
    ensures r.Ok? ==> WellShaped(r.value)
    decreases Measure(n)
  {
    match ReduceReplacement(n)
    case Err(e) => Err(e)
    case Ok(Some(m)) => ReduceTree(m)
    case Ok(None) =>
      if IsUnaryOperation(n) then
        match ReduceTree(n.child[0])
        case Err(e) => Err(e)
        case Ok(c) => Ok(n.(child := [c]))
      else if IsBinaryOperation(n) then
        match ReduceTree(n.child[0])
        case Err(e) => Err(e)
        case Ok(l) =>
          match ReduceTree(n.child[1])
          case Err(e) => Err(e)
          case Ok(c) => Ok(n.(child := [l, c]))
      else Ok(n)
  }

  /** `reduce_ast`: index the expression with a fresh table and counter, then reduce it. */
  function ReduceAstSpec(tree: Node): Result<(IndexTable, Node), Exception>
    requires WellShaped(tree)
  {
    match Indexed(tree, map[], 0)
    case Err(e) => Err(e)
    case Ok((node, table, _)) =>
      IndexVectorValues(IndexRefs(0, |tree.shape.value|));
      match ReduceTree(node)
      case Err(e) => Err(e)
      case Ok(reduced) => Ok((table, reduced))
  }

  method ReduceAst(tree: Node) returns (r: Result<(IndexTable, Node), Exception>)
    requires WellShaped(tree)
    ensures r == ReduceAstSpec(tree)
  {
    var indexed := AddIndexingNode(tree, map[], 0);
    if indexed.Err? {
      return Err(indexed.error);
    }
    var (node, table, _) := indexed.value;
    IndexVectorValues(IndexRefs(0, |tree.shape.value|));
    var reduced := ReduceTree(node);
    if reduced.Err? {
      return Err(reduced.error);
    }
    return Ok((table, reduced.value));
  }

  /* ---------------------------------------------------------------------- */
  /* Meaning                                                                 */

  /**
    A symbolic array element: a read of an array at an index, a sum, or an
    operation the reduction does not rewrite applied to the meanings of its
    operands.
  */
  datatype Term =
    | Read(array: Node, index: seq<Elem>)
    | Apply(op: NodeSymbol, left: Term, right: Term)
    | Opaque(header: Node, operands: seq<Term>, index: seq<Elem>)

  /**
    The element of `n` at index `idx`: `v psi e` at `idx` is `e` at `v ++ idx`,
    `transpose e` at `idx` is `e` at the reversed index, `a + b` at `idx` is the
    sum of `a` and `b` at `idx`.
  */
  function Access(n: Node, idx: seq<Elem>): Term
    decreases n
  {
    if IsArray(n) then Read(n, idx)
    else if n.symbol == [PSI] && |n.child| == 2 && HasIndexValues(n.child[0]) then
      Access(n.child[1], InlineValue(n.child[0]).value + idx)
    else if n.symbol == [TRANSPOSE] && |n.child| == 1 then Access(n.child[0], Shape.Reverse(idx))
    else if n.symbol == [PLUS] && |n.child| == 2 then Apply(PLUS, Access(n.child[0], idx), Access(n.child[1], idx))
    else Opaque(Header(n), seq(|n.child|, i requires 0 <= i < |n.child| => Access(n.child[i], [])), idx)
  }

  /** `psi` over `psi` keeps the meaning: `w ++ v` indexes `e` as `v` then `w` do. */
  lemma PsiPsiPreservesAccess(n: Node)
    requires WellShaped(n) && PsiOver(n, PSI) && HasIndexValues(n.child[0]) && ReducePsiPsi(n).Ok?
    ensures Access(ReducePsiPsi(n).value, []) == Access(n, [])
  {
    var inner := n.child[1];
    var v := InlineValue(n.child[0]).value;
    var w := InlineValue(inner.child[0]).value;
    var e := inner.child[1];
    IndexVectorValues(w + v);
    var m := ReducePsiPsi(n).value;
    assert m == BinaryNode(PSI, n.shape, IndexVector(w + v), e);
    assert Access(m, []) == Access(e, (w + v) + []);
    assert Access(inner, v + []) == Access(e, w + (v + []));
    assert Access(n, []) == Access(inner, v + []);
    assert (w + v) + [] == w + (v + []);
  }

  /** `psi` over `transpose` keeps the meaning of a full index: the reversed vector indexes the operand. */
  lemma PsiTransposePreservesAccess(n: Node)
    requires WellShaped(n) && PsiOver(n, TRANSPOSE) && HasIndexValues(n.child[0]) && ReducePsiTranspose(n).Ok?
    ensures Access(ReducePsiTranspose(n).value, []) == Access(n, [])
  {
    var tr := n.child[1];
    var v := InlineValue(n.child[0]).value;
    var e := tr.child[0];
    IndexVectorValues(Shape.Reverse(v));
    var m := ReducePsiTranspose(n).value;
    assert m == BinaryNode(PSI, n.shape, IndexVector(Shape.Reverse(v)), e);
    assert v + [] == v;
    assert Shape.Reverse(v) + [] == Shape.Reverse(v);
    assert Access(m, []) == Access(e, Shape.Reverse(v));
    assert Access(tr, v) == Access(e, Shape.Reverse(v));
    assert Access(n, []) == Access(tr, v);
  }

  /** `psi` over `+` keeps the meaning: the sum of the operands at the same index. */
  lemma PsiPlusPreservesAccess(n: Node)
    requires WellShaped(n) && PsiOver(n, PLUS) && HasIndexValues(n.child[0])
    ensures Access(ReducePsiPlus(n), []) == Access(n, [])
  {
    var pl := n.child[1];
    var v := InlineValue(n.child[0]).value;
    var m := ReducePsiPlus(n);
    assert v + [] == v;
    assert Access(m.child[0], []) == Access(pl.child[0], v);
    assert Access(m.child[1], []) == Access(pl.child[1], v);
    assert Access(n, []) == Access(pl, v);
  }

  /** Each rule rewrites an expression into one with the same meaning. */
  lemma ReplacementPreservesAccess(n: Node)
    requires WellShaped(n) && ReduceReplacement(n).Ok? && ReduceReplacement(n).value.Some?
    ensures Access(ReduceReplacement(n).value.value, []) == Access(n, [])
  {
    PsiOverOperands(n);
    if PsiOver(n, PSI) {
      PsiPsiPreservesAccess(n);
    } else if PsiOver(n, TRANSPOSE) {
      PsiTransposePreservesAccess(n);
    } else {
      PsiPlusPreservesAccess(n);
    }
  }

  /** An operation no rule rewrites means the same at every index once its operands mean the same. */
  lemma OpaqueAtAnyIndex(c: Node, d: Node, idx: seq<Elem>)
    requires c.symbol == d.symbol && Header(c) == Header(d)
    requires !IsArray(c) && c.symbol != [PSI] && c.symbol != [TRANSPOSE] && c.symbol != [PLUS]
    requires Access(d, []) == Access(c, [])
    ensures Access(d, idx) == Access(c, idx)
  {
  }

  lemma ReduceTreeOfArray(n: Node)
    requires WellShaped(n) && IsArray(n)
    ensures ReduceTree(n) == Ok(n)
  {
    ClassificationExclusive(n);
  }

  lemma ReduceTreeKeepsHeader(n: Node)
    requires WellShaped(n) && !PsiOver(n, PSI) && !PsiOver(n, TRANSPOSE) && !PsiOver(n, PLUS)
    requires ReduceTree(n).Ok?
    ensures Header(ReduceTree(n).value) == Header(n)
  {
  }

  /** A unary node no rule rewrites reduces to the same node over its reduced operand. */
  lemma ReduceTreeUnary(n: Node)
    requires WellShaped(n) && IsUnaryOperation(n) && ReduceReplacement(n) == Ok(None) && ReduceTree(n).Ok?
    ensures |n.child| == 1 && WellShaped(n.child[0]) && ReduceTree(n.child[0]).Ok?
    ensures ReduceTree(n) == Ok(n.(child := [ReduceTree(n.child[0]).value]))
  {
    WellShapedOperands(n);
  }

  /** A binary node no rule rewrites reduces to the same node over its reduced operands. */
  lemma ReduceTreeBinary(n: Node)
    requires WellShaped(n) && IsBinaryOperation(n) && ReduceReplacement(n) == Ok(None) && ReduceTree(n).Ok?
    ensures |n.child| == 2 && WellShaped(n.child[0]) && WellShaped(n.child[1])
    ensures ReduceTree(n.child[0]).Ok? && ReduceTree(n.child[1]).Ok?
    ensures ReduceTree(n) == Ok(n.(child := [ReduceTree(n.child[0]).value, ReduceTree(n.child[1]).value]))
  {
    WellShapedOperands(n);
    ClassificationExclusive(n);
  }

  /** Reduction never turns an operation into an array leaf. */
  lemma {:induction false} ReduceTreeKeepsOperations(n: Node)
    requires WellShaped(n) && !IsArray(n) && ReduceTree(n).Ok?
    ensures !IsArray(ReduceTree(n).value)
    decreases Measure(n)
  {
    var step := ReduceReplacement(n);
    if step.Ok? && step.value.Some? {
      ReduceTreeKeepsOperations(step.value.value);
    } else if IsUnaryOperation(n) {
      ReduceTreeUnary(n);
    } else if IsBinaryOperation(n) {
      ReduceTreeBinary(n);
    }
  }

  /**
    The operand of a `psi` that no rule rewrites reduces to something with the
    same meaning at every index, not only at the empty one.
  */
  lemma ReducedOperandAtAnyIndex(b: Node, idx: seq<Elem>)
    requires WellShaped(b) && ReduceTree(b).Ok? && b.symbol != [PSI] && b.symbol != [TRANSPOSE] && b.symbol != [PLUS]
    requires Access(ReduceTree(b).value, []) == Access(b, [])
    ensures Access(ReduceTree(b).value, idx) == Access(b, idx)
  {
    if IsArray(b) {
      ReduceTreeOfArray(b);
    } else {
      ReduceTreeKeepsHeader(b);
      OpaqueAtAnyIndex(b, ReduceTree(b).value, idx);
    }
  }

  /** The meaning of a unary node with operand `c`, in terms of the meaning of `c`. */
  lemma UnaryAccess(n: Node, c: Node)
    requires IsUnaryOperation(n)
    ensures n.symbol == [TRANSPOSE] ==> Access(n.(child := [c]), []) == Access(c, [])
    ensures n.symbol != [TRANSPOSE] ==> Access(n.(child := [c]), []) == Opaque(Header(n), [Access(c, [])], [])
  {
    var r := n.(child := [c]);
    if n.symbol == [TRANSPOSE] {
      assert Shape.Reverse<Elem>([]) == [];
    } else {
      assert Header(r) == Header(n);
      assert seq(1, i requires 0 <= i < 1 => Access(r.child[i], [])) == [Access(c, [])];
    }
  }

  /**
    The meaning of a binary node with operands `a` and `b`: under a `psi` whose
    left operand is a vector with values, the meaning of `b` at that vector.
  */
  lemma BinaryAccess(n: Node, a: Node, b: Node)
    requires IsBinaryOperation(n)
    ensures n.symbol == [PSI] && HasIndexValues(a) ==>
      Access(n.(child := [a, b]), []) == Access(b, InlineValue(a).value)
    ensures n.symbol == [PLUS] ==>
      Access(n.(child := [a, b]), []) == Apply(PLUS, Access(a, []), Access(b, []))
    ensures !(n.symbol == [PSI] && HasIndexValues(a)) && n.symbol != [PLUS] ==>
      Access(n.(child := [a, b]), []) == Opaque(Header(n), [Access(a, []), Access(b, [])], [])
  {
    var r := n.(child := [a, b]);
    if n.symbol == [PSI] && HasIndexValues(a) {
      assert InlineValue(a).value + [] == InlineValue(a).value;
    } else if n.symbol != [PLUS] {
      assert Header(r) == Header(n);
      assert seq(2, i requires 0 <= i < 2 => Access(r.child[i], [])) == [Access(a, []), Access(b, [])];
    }
  }

  /** Reducing a tree keeps its meaning. */
  lemma {:induction false} ReduceTreePreservesAccess(n: Node)
    requires WellShaped(n) && ReduceTree(n).Ok?
    ensures Access(ReduceTree(n).value, []) == Access(n, [])
    decreases Measure(n)
  {
    var step := ReduceReplacement(n);
    if step.Ok? && step.value.Some? {
      ReplacementPreservesAccess(n);
      ReduceTreePreservesAccess(step.value.value);
    } else if IsUnaryOperation(n) {
      ReduceTreeUnary(n);
      ReduceTreePreservesAccess(n.child[0]);
      UnaryStepAccess(n);
    } else if IsBinaryOperation(n) {
      ReduceTreeBinary(n);
      ReduceTreePreservesAccess(n.child[0]);
      ReduceTreePreservesAccess(n.child[1]);
      assert n.symbol == [PSI] && HasIndexValues(n.child[0]) ==> n.child[1].symbol !in {[PSI], [TRANSPOSE], [PLUS]} by {
        if n.symbol == [PSI] {
          PsiOverOperands(n);
        }
      }
      BinaryStepAccess(n);
    }
  }

  /** A unary node no rule rewrites keeps its meaning when its operand does. */
  lemma UnaryStepAccess(n: Node)
    requires WellShaped(n) && IsUnaryOperation(n) && ReduceReplacement(n) == Ok(None) && ReduceTree(n).Ok?
    requires |n.child| == 1 && WellShaped(n.child[0]) && ReduceTree(n.child[0]).Ok?
    requires Access(ReduceTree(n.child[0]).value, []) == Access(n.child[0], [])
    ensures Access(ReduceTree(n).value, []) == Access(n, [])
  {
    ReduceTreeUnary(n);
    var c := n.child[0];
    SameChildren(n);
    UnaryAccess(n, ReduceTree(c).value);
    UnaryAccess(n, c);
  }

  /** A binary node no rule rewrites keeps its meaning when its operands do. */
  lemma BinaryStepAccess(n: Node)
    requires WellShaped(n) && IsBinaryOperation(n) && |n.child| == 2
    requires n.symbol == [PSI] && HasIndexValues(n.child[0]) ==> n.child[1].symbol !in {[PSI], [TRANSPOSE], [PLUS]}
    requires ReduceTree(n.child[0]).Ok? && ReduceTree(n.child[1]).Ok?
    requires Access(ReduceTree(n.child[0]).value, []) == Access(n.child[0], [])
    requires Access(ReduceTree(n.child[1]).value, []) == Access(n.child[1], [])
    ensures Access(n.(child := [ReduceTree(n.child[0]).value, ReduceTree(n.child[1]).value]), []) == Access(n, [])
  {
    WellShapedOperands(n);
    var a, b := n.child[0], n.child[1];
    var a', b' := ReduceTree(a).value, ReduceTree(b).value;
    assert (HasIndexValues(a') <==> HasIndexValues(a)) && (HasIndexValues(a) ==> a' == a) by {
      if IsArray(a) {
        ReduceTreeOfArray(a);
      } else {
        ReduceTreeKeepsOperations(a);
      }
    }
    assert n.symbol == [PSI] && HasIndexValues(a) ==> Access(b', InlineValue(a).value) == Access(b, InlineValue(a).value) by {
      if n.symbol == [PSI] && HasIndexValues(a) {
        ReducedOperandAtAnyIndex(b, InlineValue(a).value);
      }
    }
    BinaryAccessKept(n, a', b');
  }

  /** Replacing the operands of a binary node by operands of the same meaning keeps its meaning. */
  lemma BinaryAccessKept(n: Node, a': Node, b': Node)
    requires IsBinaryOperation(n) && |n.child| == 2
    requires Access(a', []) == Access(n.child[0], []) && Access(b', []) == Access(n.child[1], [])
    requires HasIndexValues(a') <==> HasIndexValues(n.child[0])
    requires HasIndexValues(n.child[0]) ==> a' == n.child[0]
    requires n.symbol == [PSI] && HasIndexValues(n.child[0]) ==>
      Access(b', InlineValue(n.child[0]).value) == Access(n.child[1], InlineValue(n.child[0]).value)
    ensures Access(n.(child := [a', b']), []) == Access(n, [])
  {
    var a, b := n.child[0], n.child[1];
    SameChildren(n);
    BinaryAccess(n, a, b);
    BinaryAccess(n, a', b');
  }

  /** A node rebuilt from its own operands is the node itself. */
  lemma SameChildren(n: Node)
    ensures |n.child| == 1 ==> n.(child := [n.child[0]]) == n
    ensures |n.child| == 2 ==> n.(child := [n.child[0], n.child[1]]) == n
  {
    if |n.child| == 1 {
      assert [n.child[0]] == n.child;
    } else if |n.child| == 2 {
      assert [n.child[0], n.child[1]] == n.child;
    }
  }

  /** `reduce_ast` keeps the meaning of the expression read at its fresh indices. */
  lemma ReduceAstPreservesAccess(tree: Node)
    requires WellShaped(tree) && ReduceAstSpec(tree).Ok?
    ensures tree.shape.Some?
    ensures Access(ReduceAstSpec(tree).value.1, []) == Access(tree, IndexRefs(0, |tree.shape.value|))
  {
    var v := IndexRefs(0, |tree.shape.value|);
    var node := IndexedTreeReduced(tree);
    assert Access(node, []) == Access(tree, v) by {
      IndexVectorValues(v);
      assert v + [] == v;
    }
    ReduceTreePreservesAccess(node);
  }

  /** The tree `ReduceAstSpec` reduces: the indexed root, which is well shaped and rewrites without error. */
  lemma IndexedTreeReduced(tree: Node) returns (node: Node)
    requires WellShaped(tree) && ReduceAstSpec(tree).Ok?
    ensures tree.shape.Some? && Indexed(tree, map[], 0).Ok?
    ensures node == Indexed(tree, map[], 0).value.0 && node == BinaryNode(PSI, tree.shape, IndexVector(IndexRefs(0, |tree.shape.value|)), tree)
    ensures WellShaped(node) && ReduceTree(node).Ok? && ReduceAstSpec(tree).value.1 == ReduceTree(node).value
  {
    node := Indexed(tree, map[], 0).value.0;
    IndexVectorValues(IndexRefs(0, |tree.shape.value|));
  }

  /* ---------------------------------------------------------------------- */
  /* The rules on the expressions of the tests                               */

  function Unnamed(shape: seq<int>): Node {
    ArrayNode(ARRAY, Some(Lits(shape)), None, None)
  }

  /** `<i0> psi (<1 2 3> psi A)` becomes `<1 2 3 i0> psi A`. */
  lemma PsiPsiExample()
    ensures var n := BinaryNode(PSI, Some([Lit(0)]), IndexVector([Ref("i0")]),
        BinaryNode(PSI, Some([Lit(4)]), IndexVector([Lit(1), Lit(2), Lit(3)]), Unnamed([1, 2, 3, 4])));
      WellShaped(n) && PsiOver(n, PSI) &&
      ReducePsiPsi(n) == Ok(BinaryNode(PSI, Some([Lit(0)]), IndexVector([Lit(1), Lit(2), Lit(3), Ref("i0")]), Unnamed([1, 2, 3, 4])))
  {
    var a := Unnamed([1, 2, 3, 4]);
    var v, w := [Ref("i0")], [Lit(1), Lit(2), Lit(3)];
    var inner := BinaryNode(PSI, Some([Lit(4)]), IndexVector(w), a);
    var n := BinaryNode(PSI, Some([Lit(0)]), IndexVector(v), inner);
    IndexVectorValues(v);
    IndexVectorValues(w);
    BuiltWellShaped(a.shape, None, None, PSI, IndexVector(w), a);
    BuiltWellShaped(a.shape, None, None, PSI, IndexVector(v), inner);
    assert w + v == [Lit(1), Lit(2), Lit(3), Ref("i0")];
  }

  /** `<3 2 i0 i1> psi transpose(A)` becomes `<i1 i0 2 3> psi A`. */
  lemma PsiTransposeExample()
    ensures var n := BinaryNode(PSI, Some([Lit(0)]), IndexVector([Lit(3), Lit(2), Ref("i0"), Ref("i1")]),
        UnaryNode(TRANSPOSE, Some([Lit(4), Lit(3), Lit(2), Lit(1)]), Unnamed([1, 2, 3, 4])));
      WellShaped(n) && PsiOver(n, TRANSPOSE) &&
      ReducePsiTranspose(n) == Ok(BinaryNode(PSI, Some([Lit(0)]), IndexVector([Ref("i1"), Ref("i0"), Lit(2), Lit(3)]), Unnamed([1, 2, 3, 4])))
  {
    var a := Unnamed([1, 2, 3, 4]);
    var v := [Lit(3), Lit(2), Ref("i0"), Ref("i1")];
    var tr := UnaryNode(TRANSPOSE, Some([Lit(4), Lit(3), Lit(2), Lit(1)]), a);
    var n := BinaryNode(PSI, Some([Lit(0)]), IndexVector(v), tr);
    IndexVectorValues(v);
    BuiltWellShaped(a.shape, None, None, TRANSPOSE, a, a);
    BuiltWellShaped(a.shape, None, None, PSI, IndexVector(v), tr);
    assert Shape.Reverse(v) == [Ref("i1"), Ref("i0"), Lit(2), Lit(3)];
  }

  function LeafA(): Node { ArrayNode(ARRAY, Some([Lit(3), Lit(4)]), Some("A"), None) }
  function LeafB(): Node { ArrayNode(ARRAY, Some([Lit(3), Lit(4)]), Some("B"), None) }
  function SumAB(): Node { BinaryNode(PLUS, Some([Lit(3), Lit(4)]), LeafA(), LeafB()) }

  /** `<0> psi transpose(A + B)` with A and B of shape (3, 4). */
  function IntegrationTree(): Node {
    BinaryNode(PSI, Some([Lit(3)]), IndexVector([Lit(0)]), UnaryNode(TRANSPOSE, Some([Lit(4), Lit(3)]), SumAB()))
  }

  /**
    The trees the reduction of the integration expression passes through: indexed,
    after `psi`-`psi`, after `psi`-`transpose`, after `psi`-`+`.
  */
  function IntegrationStage(k: nat): Node {
    var s3 := Some([Lit(3)]);
    var v := [Ref("i0"), Lit(0)];
    if k == 0 then BinaryNode(PSI, s3, IndexVector([Ref("i0")]), IntegrationTree())
    else if k == 1 then BinaryNode(PSI, s3, IndexVector([Lit(0), Ref("i0")]), IntegrationTree().child[1])
    else if k == 2 then BinaryNode(PSI, s3, IndexVector(v), SumAB())
    else BinaryNode(PLUS, s3, BinaryNode(PSI, s3, IndexVector(v), LeafA()), BinaryNode(PSI, s3, IndexVector(v), LeafB()))
  }

  lemma IntegrationWellShaped()
    ensures WellShaped(IntegrationTree())
    ensures forall k :: 0 <= k < 4 ==> WellShaped(IntegrationStage(k))
  {
    var s3 := Some([Lit(3)]);
    var v := [Ref("i0"), Lit(0)];
    IndexVectorValues([Lit(0)]);
    IndexVectorValues([Ref("i0")]);
    IndexVectorValues([Lit(0), Ref("i0")]);
    IndexVectorValues(v);
    var a, b := LeafA(), LeafB();
    BuiltWellShaped(s3, Some("A"), None, PLUS, a, a);
    BuiltWellShaped(s3, Some("B"), None, PLUS, b, b);
    BuiltWellShaped(s3, None, None, PLUS, a, b);
    var tr := IntegrationTree().child[1];
    BuiltWellShaped(Some([Lit(4), Lit(3)]), None, None, TRANSPOSE, a, SumAB());
    BuiltWellShaped(s3, None, None, PSI, IndexVector([Lit(0)]), tr);
    BuiltWellShaped(s3, None, None, PSI, IndexVector([Ref("i0")]), IntegrationTree());
    BuiltWellShaped(s3, None, None, PSI, IndexVector([Lit(0), Ref("i0")]), tr);
    BuiltWellShaped(s3, None, None, PSI, IndexVector(v), SumAB());
    BuiltWellShaped(s3, None, None, PSI, IndexVector(v), a);
    BuiltWellShaped(s3, None, None, PSI, IndexVector(v), b);
    BuiltWellShaped(s3, None, None, PLUS, IntegrationStage(3).child[0], IntegrationStage(3).child[1]);
  }

  lemma IntegrationIndexed()
    ensures Indexed(IntegrationTree(), map[], 0) == Ok((IntegrationStage(0), map["i0" := IndexBound(0, Lit(3))], 2))
  {
    assert CounterName(0) == "i0";
    assert IndexRefs(0, 1) == [Ref("i0")];
  }

  lemma IntegrationRewrites()
    ensures WellShaped(IntegrationStage(0)) && ReduceReplacement(IntegrationStage(0)) == Ok(Some(IntegrationStage(1)))
    ensures WellShaped(IntegrationStage(1)) && ReduceReplacement(IntegrationStage(1)) == Ok(Some(IntegrationStage(2)))
    ensures WellShaped(IntegrationStage(2)) && ReduceReplacement(IntegrationStage(2)) == Ok(Some(IntegrationStage(3)))
  {
    IntegrationWellShaped();
    IndexVectorValues([Lit(0)]);
    IndexVectorValues([Ref("i0")]);
    IndexVectorValues([Lit(0), Ref("i0")]);
    IndexVectorValues([Ref("i0"), Lit(0)]);
    assert [Lit(0)] + [Ref("i0")] == [Lit(0), Ref("i0")];
    assert Shape.Reverse([Lit(0), Ref("i0")]) == [Ref("i0"), Lit(0)];
  }

  lemma IntegrationFixedPoint()
    ensures WellShaped(IntegrationStage(3)) && ReduceTree(IntegrationStage(3)) == Ok(IntegrationStage(3))
  {
    IntegrationWellShaped();
    var r3 := IntegrationStage(3);
    var pa, pb := r3.child[0], r3.child[1];
    IndexVectorValues([Ref("i0"), Lit(0)]);
    ReduceTreeOfArray(LeafA());
    ReduceTreeOfArray(LeafB());
    ReduceTreeOfArray(pa.child[0]);
    assert ReduceReplacement(pa) == Ok(None);
    assert ReduceTree(pa) == Ok(pa);
    assert ReduceReplacement(pb) == Ok(None);
    assert ReduceTree(pb) == Ok(pb);
    assert ReduceReplacement(r3) == Ok(None);
  }

  /** The reduction gives the table `{'i0': (0, 3)}` and `(<i0 0> psi A) + (<i0 0> psi B)`. */
  lemma IntegrationExample()
    ensures WellShaped(IntegrationTree())
    ensures ReduceAstSpec(IntegrationTree()) == Ok((map["i0" := IndexBound(0, Lit(3))], IntegrationStage(3)))
  {
    IntegrationWellShaped();
    IntegrationIndexed();
    IntegrationRewrites();
    IntegrationFixedPoint();
    assert ReduceTree(IntegrationStage(2)) == Ok(IntegrationStage(3));
    assert ReduceTree(IntegrationStage(1)) == Ok(IntegrationStage(3));
    assert ReduceTree(IntegrationStage(0)) == Ok(IntegrationStage(3));
  }
}
