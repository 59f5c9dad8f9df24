/**
  `metric_flops` of `moa/analysis.py`: a post-order fold over a shaped
  expression that counts one floating point operation per element of every
  `+ - * /` node. The traversal visits every operand of a node, left to right,
  before the node itself, and the first raise stops it.
*/
module Analysis {
  import opened Wrappers
  import opened Errors
  import opened MoaAst

  /** `symbol[-1] in {PLUS, MINUS, TIMES, DIVIDE}`: a reduction by `+` counts as well. */
  predicate Arithmetic(n: Node)
    requires |n.symbol| > 0
  {
    n.symbol[|n.symbol| - 1] in {PLUS, MINUS, TIMES, DIVIDE}
  }

  predicate Concrete(s: seq<Elem>) {
    forall k :: 0 <= k < |s| ==> s[k].Lit?
  }

  /** The product of the extents, 1 for the empty shape. */
  function Product(s: seq<Elem>): int
    requires Concrete(s)
  {
    if s == [] then 1 else s[0].n * Product(s[1..])
  }

  /**
    Lines 8-14 for one node. A node that is not shaped yet raises `ValueError`,
    one without symbols `IndexError`; an arithmetic node counts the product of
    its shape, any other node nothing. A symbolic extent cannot be multiplied
    into a count and raises `TypeError`. As written, the product is
    `reduce(lambda x, y: x * y, shape)` without a start value, which raises
    `TypeError` on the empty shape of a scalar operation; `asWritten` selects
    that reading, the corrected one counts a scalar operation once.
  */
  function NodeFlops(n: Node, asWritten: bool): (r: Result<int, Exception>)
    ensures r.Err? <==> n.shape.None? || |n.symbol| == 0 ||
                        (Arithmetic(n) && (!Concrete(n.shape.value) || (asWritten && n.shape.value == [])))
    ensures r.Err? && n.shape.None? ==> r.error == ValueError
    ensures r.Err? && n.shape.Some? ==> r.error in {IndexError, TypeError}
    ensures r.Ok? && !Arithmetic(n) ==> r.value == 0
    ensures r.Ok? && Arithmetic(n) ==> r.value == Product(n.shape.value)
  {
    if n.shape.None? then Err(ValueError)
    else if |n.symbol| == 0 then Err(IndexError)
    else if !Arithmetic(n) then Ok(0)
    else if !Concrete(n.shape.value) then Err(TypeError)
    else if asWritten && n.shape.value == [] then Err(TypeError)
    else Ok(Product(n.shape.value))
  }

  /** The first error, else the sum. */
  function Combine(a: Result<int, Exception>, b: Result<int, Exception>): Result<int, Exception> {
    if a.Err? then a else if b.Err? then b else Ok(a.value + b.value)
  }

  /** Line 17 over the whole tree: the operands' counts, then the node's own. */
  function FoldFlops(n: Node, asWritten: bool): Result<int, Exception>
    decreases n, 1
  {
    Combine(FoldOperands(n, 0, asWritten), NodeFlops(n, asWritten))
  }

  function FoldOperands(n: Node, k: nat, asWritten: bool): Result<int, Exception>
    requires k <= |n.child|
    decreases n, 0, |n.child| - k
  {
    if k == |n.child| then Ok(0)
    else Combine(FoldFlops(n.child[k], asWritten), FoldOperands(n, k + 1, asWritten))
  }

  /** `metric_flops` as written. */
  function FlopsAsWritten(n: Node): Result<int, Exception> {
    FoldFlops(n, true)
  }

  /** `metric_flops` with a scalar operation counted once. */
  function Flops(n: Node): Result<int, Exception> {
    FoldFlops(n, false)
  }

  /* ---------------------------------------------------------------------- */
  /* The reference definition: one pass over the nodes in post-order         */

  /** Every node of the tree, operands before the node, left before right. */
  function AllNodes(n: Node): (r: seq<Node>)
    ensures |r| > 0 && r[|r| - 1] == n
    decreases n, 1
  {
    OperandNodes(n, 0) + [n]
  }

  function OperandNodes(n: Node, k: nat): seq<Node>
    requires k <= |n.child|
    decreases n, 0, |n.child| - k
  {
    if k == |n.child| then [] else AllNodes(n.child[k]) + OperandNodes(n, k + 1)
  }

  /** The nodes' counts taken left to right; the first node that raises decides the error. */
  function FlatFlops(ns: seq<Node>, asWritten: bool): Result<int, Exception> {
    if ns == [] then Ok(0) else Combine(NodeFlops(ns[0], asWritten), FlatFlops(ns[1..], asWritten))
  }

  /** What a node counts once it counts at all. */
  function Contribution(n: Node): int {
    if n.shape.Some? && |n.symbol| > 0 && Arithmetic(n) && Concrete(n.shape.value) then Product(n.shape.value) else 0
  }

  function SumContributions(ns: seq<Node>): int {
    if ns == [] then 0 else Contribution(ns[0]) + SumContributions(ns[1..])
  }

  lemma CombineAssociative(a: Result<int, Exception>, b: Result<int, Exception>, c: Result<int, Exception>)
    ensures Combine(Combine(a, b), c) == Combine(a, Combine(b, c))
  {
  }

  lemma {:induction false} FlatAppend(a: seq<Node>, b: seq<Node>, asWritten: bool)
    ensures FlatFlops(a + b, asWritten) == Combine(FlatFlops(a, asWritten), FlatFlops(b, asWritten))
  {
    if a == [] {
      assert a + b == b;
    } else {
      assert (a + b)[1..] == a[1..] + b;
      FlatAppend(a[1..], b, asWritten);
      CombineAssociative(NodeFlops(a[0], asWritten), FlatFlops(a[1..], asWritten), FlatFlops(b, asWritten));
    }
  }

  /** The tree fold is the flat pass over the post-order nodes. */
  lemma {:induction false} FoldIsFlat(n: Node, asWritten: bool)
    ensures FoldFlops(n, asWritten) == FlatFlops(AllNodes(n), asWritten)
    decreases n, 1
  {
    OperandsAreFlat(n, 0, asWritten);
    FlatAppend(OperandNodes(n, 0), [n], asWritten);
    assert FlatFlops([n], asWritten) == Combine(NodeFlops(n, asWritten), Ok(0));
  }

  lemma {:induction false} OperandsAreFlat(n: Node, k: nat, asWritten: bool)
    requires k <= |n.child|
    ensures FoldOperands(n, k, asWritten) == FlatFlops(OperandNodes(n, k), asWritten)
    decreases n, 0, |n.child| - k
  {
    if k < |n.child| {
      FoldIsFlat(n.child[k], asWritten);
      OperandsAreFlat(n, k + 1, asWritten);
      FlatAppend(AllNodes(n.child[k]), OperandNodes(n, k + 1), asWritten);
    }
  }

  /** The first node that raises, in the order of the pass. */
  ghost predicate FirstRaise(ns: seq<Node>, asWritten: bool, e: Exception, i: int) {
    0 <= i < |ns| && NodeFlops(ns[i], asWritten) == Err(e) &&
    forall j :: 0 <= j < i ==> NodeFlops(ns[j], asWritten).Ok?
  }

  lemma {:induction false} FlatErrorFound(ns: seq<Node>, asWritten: bool, e: Exception)
    requires FlatFlops(ns, asWritten) == Err(e)
    ensures exists i :: FirstRaise(ns, asWritten, e, i)
  {
    if NodeFlops(ns[0], asWritten).Ok? {
      FlatErrorFound(ns[1..], asWritten, e);
      var i :| FirstRaise(ns[1..], asWritten, e, i);
      assert FirstRaise(ns, asWritten, e, i + 1) by {
        forall j | 0 < j <= i + 1 ensures ns[j] == ns[1..][j - 1] { }
      }
    } else {
      assert FirstRaise(ns, asWritten, e, 0);
    }
  }

  lemma {:induction false} FlatErrorRaised(ns: seq<Node>, asWritten: bool, e: Exception, i: int)
    requires FirstRaise(ns, asWritten, e, i)
    ensures FlatFlops(ns, asWritten) == Err(e)
    decreases i
  {
    if i > 0 {
      assert FirstRaise(ns[1..], asWritten, e, i - 1) by {
        forall j | 0 <= j <= i - 1 ensures ns[1..][j] == ns[j + 1] { }
      }
      FlatErrorRaised(ns[1..], asWritten, e, i - 1);
    }
  }

  /** The flat pass raises exactly the error of the first node that raises. */
  lemma FlatError(ns: seq<Node>, asWritten: bool, e: Exception)
    ensures FlatFlops(ns, asWritten) == Err(e) <==> exists i :: FirstRaise(ns, asWritten, e, i)
  {
    if FlatFlops(ns, asWritten) == Err(e) {
      FlatErrorFound(ns, asWritten, e);
    }
    if exists i :: FirstRaise(ns, asWritten, e, i) {
      var i :| FirstRaise(ns, asWritten, e, i);
      FlatErrorRaised(ns, asWritten, e, i);
    }
  }

  /** Without a raise, the flat pass adds up every node's contribution. */
  lemma {:induction false} FlatSum(ns: seq<Node>, asWritten: bool)
    ensures FlatFlops(ns, asWritten).Ok? <==> forall i :: 0 <= i < |ns| ==> NodeFlops(ns[i], asWritten).Ok?
    ensures FlatFlops(ns, asWritten).Ok? ==> FlatFlops(ns, asWritten).value == SumContributions(ns)
  {
    if ns != [] {
      FlatSum(ns[1..], asWritten);
      assert forall i :: 1 <= i < |ns| ==> ns[i] == ns[1..][i - 1];
    }
  }

  /**
    `metric_flops` raises the error of the first node, in post-order, that
    cannot be counted: `ValueError` for a node not yet shaped (lines 8-9).
  */
  lemma FlopsRaises(n: Node, e: Exception)
    ensures Flops(n) == Err(e) <==> exists i :: FirstRaise(AllNodes(n), false, e, i)
  {
    FoldIsFlat(n, false);
    FlatError(AllNodes(n), false, e);
  }

  /**
    Lines 11-18: when no node raises, the count is the sum over all nodes of
    the product of the shape of each `+ - * /` node, 0 for every other node.
  */
  lemma FlopsSum(n: Node)
    ensures var ns := AllNodes(n);
      Flops(n).Ok? <==> forall i :: 0 <= i < |ns| ==> NodeFlops(ns[i], false).Ok?
    ensures Flops(n).Ok? ==> Flops(n).value == SumContributions(AllNodes(n))
  {
    FoldIsFlat(n, false);
    FlatSum(AllNodes(n), false);
  }

  /** A tree with a node that is not shaped yet never gets a count. */
  lemma UnshapedRaises(n: Node, i: nat)
    requires i < |AllNodes(n)| && AllNodes(n)[i].shape.None?
    ensures Flops(n).Err? && FlopsAsWritten(n).Err?
  {
    FoldIsFlat(n, false);
    FlatSum(AllNodes(n), false);
    FoldIsFlat(n, true);
    FlatSum(AllNodes(n), true);
  }

  /* ---------------------------------------------------------------------- */
  /* The empty product                                                       */

  /** Away from scalar arithmetic, the two readings agree. */
  lemma {:induction false} FlatReadingsAgree(ns: seq<Node>)
    requires forall i :: 0 <= i < |ns| && ns[i].shape.Some? && |ns[i].symbol| > 0 && Arithmetic(ns[i]) ==>
               ns[i].shape.value != []
    ensures FlatFlops(ns, true) == FlatFlops(ns, false)
  {
    if ns != [] {
      assert forall i :: 1 <= i < |ns| ==> ns[i] == ns[1..][i - 1];
      FlatReadingsAgree(ns[1..]);
    }
  }

  lemma ReadingsAgree(n: Node)
    requires var ns := AllNodes(n);
      forall i :: 0 <= i < |ns| && ns[i].shape.Some? && |ns[i].symbol| > 0 && Arithmetic(ns[i]) ==>
        ns[i].shape.value != []
    ensures FlopsAsWritten(n) == Flops(n)
  {
    FoldIsFlat(n, true);
    FoldIsFlat(n, false);
    FlatReadingsAgree(AllNodes(n));
  }

  /**
    A scalar `+` such as the fully indexed `(<i0> psi A) + (<i0> psi B)` raises
    `TypeError` as written, where one operation is meant.
  */
  lemma ScalarOperationCounted(l: Node, r: Node)
    requires Flops(l) == Ok(0) && Flops(r) == Ok(0)
    requires FlopsAsWritten(l) == Ok(0) && FlopsAsWritten(r) == Ok(0)
    ensures FlopsAsWritten(Node([PLUS], Some([]), [], [l, r])) == Err(TypeError)
    ensures Flops(Node([PLUS], Some([]), [], [l, r])) == Ok(1)
  {
    var n := Node([PLUS], Some([]), [], [l, r]);
    BinaryOperands(n, true);
    BinaryOperands(n, false);
  }

  lemma UnaryOperands(n: Node, asWritten: bool)
    requires |n.child| == 1
    ensures FoldOperands(n, 0, asWritten) == Combine(FoldFlops(n.child[0], asWritten), Ok(0))
  {
    assert FoldOperands(n, 1, asWritten) == Ok(0);
  }

  lemma BinaryOperands(n: Node, asWritten: bool)
    requires |n.child| == 2
    ensures FoldOperands(n, 0, asWritten) ==
      Combine(FoldFlops(n.child[0], asWritten), Combine(FoldFlops(n.child[1], asWritten), Ok(0)))
  {
    assert FoldOperands(n, 2, asWritten) == Ok(0);
  }

  /* ---------------------------------------------------------------------- */
  /* The expression of the tests                                             */

  function ShapedArray(name: string, shape: seq<int>): Node {
    Node([ARRAY], Some(Lits(shape)), [Name(name)], [])
  }

  /** `<0> psi tran(A + B)` on `(10, 100)`, shaped. */
  function FlopsTestTree(v: string, a: string, b: string): Node {
    Node([PSI], Some(Lits([10])), [], [
      ShapedArray(v, [1]),
      Node([TRANSPOSE], Some(Lits([100, 10])), [], [
        Node([PLUS], Some(Lits([10, 100])), [], [ShapedArray(a, [10, 100]), ShapedArray(b, [10, 100])])])])
  }

  /**
    The same expression ψ-reduced: `(v psi A) + (v psi B)` of shape `(10,)`.
    Each new `psi` carries the shape of the node it replaces, `(10,)`, as the
    rewrites at moa/dnf.py:119-121 and 178-188 give it; `psi` counts nothing either way.
  */
  function FlopsReducedTree(v: string, a: string, b: string): Node {
    Node([PLUS], Some(Lits([10])), [], [
      Node([PSI], Some(Lits([10])), [], [ShapedArray(v, [1]), ShapedArray(a, [10, 100])]),
      Node([PSI], Some(Lits([10])), [], [ShapedArray(v, [1]), ShapedArray(b, [10, 100])])])
  }

  lemma LeafFlops(name: string, shape: seq<int>)
    ensures Flops(ShapedArray(name, shape)) == Ok(0)
  {
    assert FoldOperands(ShapedArray(name, shape), 0, false) == Ok(0);
  }


  /** The tests count 1000 operations before the reduction and 10 after it. */
  lemma FlopsTestExample(v: string, a: string, b: string)
    ensures Flops(FlopsTestTree(v, a, b)) == Ok(1000)
    ensures Flops(FlopsReducedTree(v, a, b)) == Ok(10)
  {
    LeafFlops(v, [1]);
    LeafFlops(a, [10, 100]);
    LeafFlops(b, [10, 100]);
    var plus := Node([PLUS], Some(Lits([10, 100])), [], [ShapedArray(a, [10, 100]), ShapedArray(b, [10, 100])]);
    BinaryOperands(plus, false);
    assert Product(Lits([10, 100])) == 1000;
    assert Flops(plus) == Ok(1000);
    var tran := Node([TRANSPOSE], Some(Lits([100, 10])), [], [plus]);
    UnaryOperands(tran, false);
    assert Flops(tran) == Ok(1000);
    BinaryOperands(FlopsTestTree(v, a, b), false);
    var pa := Node([PSI], Some(Lits([10])), [], [ShapedArray(v, [1]), ShapedArray(a, [10, 100])]);
    var pb := Node([PSI], Some(Lits([10])), [], [ShapedArray(v, [1]), ShapedArray(b, [10, 100])]);
    BinaryOperands(pa, false);
    BinaryOperands(pb, false);
    BinaryOperands(FlopsReducedTree(v, a, b), false);
    assert Product(Lits([10])) == 10;
  }
}
