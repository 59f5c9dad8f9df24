/**
  The abstract syntax of MoA expressions, the symbol table and the context that
  pairs them, the classification of nodes by the numeric values of their
  symbols, and the recursive post-order replacement.

  One `Node` covers both generations of nodes the compiler has used:
  the tuple nodes `ArrayNode(type, shape, name, value)`, `UnaryNode(type, shape,
  right)` and `BinaryNode(type, shape, left, right)`, and the later
  `Node(symbol, shape, attrib, child)` whose symbol is a tuple of symbols
  (`(REDUCE, PLUS)` for a reduction by `+`). A tuple node's single type becomes
  a one-symbol `symbol`, its operands become `child`, and the name and inline
  value of an array node become `attrib`.
*/
module MoaAst {
  import opened Wrappers
  import opened Names

  /** Every node symbol the compiler uses. */
  datatype NodeSymbol =
    | ARRAY | INDEX
    | PLUSRED | MINUSRED | TIMESRED | DIVIDERED | IOTA | DIM | TAU | SHAPE | RAV | TRANSPOSE
    | PLUS | MINUS | TIMES | DIVIDE | PSI | TAKE | DROP | CAT
    | TRANSPOSEV | ASSIGN | DOT | REDUCE | CONDITION
    | EQUAL | NOTEQUAL | LESSTHAN | LESSTHANEQUAL | GREATERTHANEQUAL | AND | OR | NOT
    | IF | ERROR | LOOP | FUNCTION | INITIALIZE

  /**
    The value of a symbol in the `MOANodeTypes` enumeration: 1 for arrays, 101 to
    110 for the unary operations, 201 to 208 for the binary ones. Symbols that the
    enumeration does not list have no value.
  */
  function EnumValue(s: NodeSymbol): Option<int> {
    match s
    case ARRAY => Some(1)
    case PLUSRED => Some(101)
    case MINUSRED => Some(102)
    case TIMESRED => Some(103)
    case DIVIDERED => Some(104)
    case IOTA => Some(105)
    case DIM => Some(106)
    case TAU => Some(107)
    case SHAPE => Some(108)
    case RAV => Some(109)
    case TRANSPOSE => Some(110)
    case PLUS => Some(201)
    case MINUS => Some(202)
    case TIMES => Some(203)
    case DIVIDE => Some(204)
    case PSI => Some(205)
    case TAKE => Some(206)
    case DROP => Some(207)
    case CAT => Some(208)
    case _ => None
  }

  lemma EnumValuesDistinct(a: NodeSymbol, b: NodeSymbol)
    requires EnumValue(a).Some? && EnumValue(a) == EnumValue(b)
    ensures a == b
  {
  }

  /** An element of a shape or of an index vector: a number, or the name of a symbol. */
  datatype Elem = Lit(n: int) | Ref(name: string)

  datatype Attr =
    | Name(name: string)
    | Names(names: seq<string>)
    | Values(elems: seq<Elem>)
    | Text(text: string)

  datatype Node = Node(symbol: seq<NodeSymbol>, shape: Option<seq<Elem>>, attrib: seq<Attr>, child: seq<Node>)

  /** `ArrayNode(t, shape, name, value)`: a leaf with an optional name and an optional inline value. */
  function ArrayNode(t: NodeSymbol, shape: Option<seq<Elem>>, name: Option<string>, value: Option<seq<Elem>>): Node {
    Node([t], shape,
         (if name.Some? then [Name(name.value)] else []) + (if value.Some? then [Values(value.value)] else []),
         [])
  }

  function UnaryNode(t: NodeSymbol, shape: Option<seq<Elem>>, right: Node): Node {
    Node([t], shape, [], [right])
  }

  function BinaryNode(t: NodeSymbol, shape: Option<seq<Elem>>, left: Node, right: Node): Node {
    Node([t], shape, [], [left, right])
  }

  /** An array leaf of the later generation: `Node((ARRAY,), shape, (name,), ())`. */
  function NamedArray(shape: Option<seq<Elem>>, name: string): Node {
    Node([ARRAY], shape, [Name(name)], [])
  }

  /** The symbol name an array node refers to (`node.symbol_node`, `node.attrib[0]`). */
  function SymbolName(n: Node): Option<string> {
    if |n.attrib| > 0 && n.attrib[0].Name? then Some(n.attrib[0].name) else None
  }

  /** The inline value of a tuple-generation array node (`node.value`). */
  function InlineValue(n: Node): Option<seq<Elem>> {
    if |n.attrib| > 0 && n.attrib[|n.attrib| - 1].Values? then Some(n.attrib[|n.attrib| - 1].elems) else None
  }

  lemma ArrayNodeFields(t: NodeSymbol, shape: Option<seq<Elem>>, name: Option<string>, value: Option<seq<Elem>>)
    ensures SymbolName(ArrayNode(t, shape, name, value)) == name
    ensures InlineValue(ArrayNode(t, shape, name, value)) == value
    ensures ArrayNode(t, shape, name, value).symbol == [t]
  {
  }

  /** A literal shape `(2, 3)`. */
  function Lits(ns: seq<int>): (r: seq<Elem>)
    ensures |r| == |ns| && forall i :: 0 <= i < |ns| ==> r[i] == Lit(ns[i])
  {
    if ns == [] then [] else [Lit(ns[0])] + Lits(ns[1..])
  }

  /** The names of the symbolic elements of a shape or value, absent ones having none. */
  function RefNames(o: Option<seq<Elem>>): (r: set<string>)
    ensures forall x :: x in r <==> o.Some? && Ref(x) in o.value
  {
    if o.None? then {} else set e | e in o.value && e.Ref? :: e.name
  }

  /** `has_symbolic_elements`: some element is a name rather than a number. */
  predicate HasSymbolic(o: Option<seq<Elem>>) {
    o.Some? && exists e :: e in o.value && e.Ref?
  }

  lemma HasSymbolicIff(o: Option<seq<Elem>>)
    ensures HasSymbolic(o) <==> RefNames(o) != {}
  {
    if HasSymbolic(o) {
      var e :| e in o.value && e.Ref?;
      assert e.name in RefNames(o);
    }
  }

  /* ---------------------------------------------------------------------- */
  /* Symbol table and context                                                */

  /** `SymbolNode(node_type, shape, type, value)`; the `type` slot is always `None` and is not kept. */
  datatype SymbolEntry = SymbolEntry(nodeType: NodeSymbol, shape: Option<seq<Elem>>, value: Option<seq<Elem>>)

  type SymbolTable = map<string, SymbolEntry>

  datatype Context = Context(ast: Node, symbolTable: SymbolTable)

  /** `generate_unique_array_name`: `_a` followed by the size of the table. */
  function UniqueArrayName(t: SymbolTable): string {
    ArrayName(|t|)
  }

  /** `generate_unique_index_name`: `_i` followed by the size of the table. */
  function UniqueIndexName(t: SymbolTable): string {
    IndexName(|t|)
  }

  /**
    The invariant that makes the generated names fresh: no name the generators
    could still produce is in use.
  */
  ghost predicate FreshNamesUnused(t: SymbolTable) {
    forall k: nat :: k >= |t| ==> ArrayName(k) !in t && IndexName(k) !in t
  }

  lemma EmptyTableFresh()
    ensures FreshNamesUnused(map[])
  {
  }

  /**
    Adding a symbol under a generated name gives a table one larger in which the
    old entries are unchanged, and keeps the generated names fresh.
  */
  lemma {:induction false} AddGeneratedSymbol(t: SymbolTable, name: string, e: SymbolEntry)
    requires FreshNamesUnused(t)
    requires name == UniqueArrayName(t) || name == UniqueIndexName(t)
    ensures name !in t
    ensures |t[name := e]| == |t| + 1
    ensures forall x :: x in t ==> x in t[name := e] && t[name := e][x] == t[x]
    ensures FreshNamesUnused(t[name := e])
  {
    var t2 := t[name := e];
    assert t2.Keys == t.Keys + {name};
    forall k: nat | k >= |t2|
      ensures ArrayName(k) !in t2 && IndexName(k) !in t2
    {
      GeneratedNamesDistinct(k, |t|);
      GeneratedNamesDistinct(|t|, k);
    }
  }

  /** The table only grows: every old entry survives and the generated names stay fresh. */
  ghost predicate Extends(t: SymbolTable, t2: SymbolTable) {
    FreshNamesUnused(t2) && forall x :: x in t ==> x in t2 && t2[x] == t[x]
  }

  lemma ExtendsTransitive(t: SymbolTable, t1: SymbolTable, t2: SymbolTable)
    requires Extends(t, t1) && Extends(t1, t2)
    ensures Extends(t, t2)
  {
  }

  lemma AddGeneratedExtends(t: SymbolTable, name: string, e: SymbolEntry)
    requires FreshNamesUnused(t)
    requires name == UniqueArrayName(t) || name == UniqueIndexName(t)
    ensures Extends(t, t[name := e])
  {
    AddGeneratedSymbol(t, name, e);
  }

  /** Adding a symbol under a name without a leading underscore keeps the generated names fresh. */
  lemma {:induction false} AddUserSymbol(t: SymbolTable, name: string, e: SymbolEntry)
    requires FreshNamesUnused(t)
    requires !StartsWith(name, "_")
    ensures FreshNamesUnused(t[name := e])
    ensures |t[name := e]| == if name in t then |t| else |t| + 1
  {
    var t2 := t[name := e];
    if name in t {
      assert t2.Keys == t.Keys;
    } else {
      assert t2.Keys == t.Keys + {name};
    }
    forall k: nat | k >= |t2|
      ensures ArrayName(k) !in t2 && IndexName(k) !in t2
    {
      GeneratedNamePrefixes(k);
      assert ArrayName(k) != name && IndexName(k) != name;
    }
  }

  /* ---------------------------------------------------------------------- */
  /* Classification                                                          */

  predicate IsArray(n: Node) {
    n.symbol == [ARRAY]
  }

  /** The unary operations: the members of the enumeration valued 101 to 110. */
  predicate IsUnaryOperation(n: Node) {
    |n.symbol| == 1 && n.symbol[0] in {PLUSRED, MINUSRED, TIMESRED, DIVIDERED, IOTA, DIM, TAU, SHAPE, RAV, TRANSPOSE}
  }

  /** The binary operations: the members of the enumeration valued 201 to 208. */
  predicate IsBinaryOperation(n: Node) {
    |n.symbol| == 1 && n.symbol[0] in {PLUS, MINUS, TIMES, DIVIDE, PSI, TAKE, DROP, CAT}
  }

  /**
    The classification is the one the enumeration's values make: arrays are
    valued 1, unary operations lie strictly between 100 and 200, binary ones
    strictly between 200 and 300.
  */
  lemma ClassificationByValue(n: Node)
    ensures IsArray(n) <==> |n.symbol| == 1 && EnumValue(n.symbol[0]) == Some(1)
    ensures IsUnaryOperation(n) <==>
      |n.symbol| == 1 && EnumValue(n.symbol[0]).Some? && 100 < EnumValue(n.symbol[0]).value < 200
    ensures IsBinaryOperation(n) <==>
      |n.symbol| == 1 && EnumValue(n.symbol[0]).Some? && 200 < EnumValue(n.symbol[0]).value < 300
  {
  }

  lemma ClassificationExclusive(n: Node)
    ensures !(IsArray(n) && IsUnaryOperation(n))
    ensures !(IsArray(n) && IsBinaryOperation(n))
    ensures !(IsUnaryOperation(n) && IsBinaryOperation(n))
  {
  }

  /* ---------------------------------------------------------------------- */
  /* Post-order replacement                                                  */

  /** The arities of the tuple nodes: arrays are leaves, unary nodes have one operand, binary nodes two. */
  predicate WellShaped(n: Node) {
    (IsArray(n) ==> |n.child| == 0) &&
    (IsUnaryOperation(n) ==> |n.child| == 1) &&
    (IsBinaryOperation(n) ==> |n.child| == 2) &&
    forall i :: 0 <= i < |n.child| ==> WellShaped(n.child[i])
  }

  /** What WellShaped gives one level down, for the symbols the rewrites inspect. */
  lemma WellShapedOperands(n: Node)
    requires WellShaped(n)
    ensures forall i :: 0 <= i < |n.child| ==> WellShaped(n.child[i])
    ensures IsArray(n) ==> |n.child| == 0
    ensures n.symbol == [TRANSPOSE] ==> IsUnaryOperation(n) && |n.child| == 1
    ensures n.symbol == [PSI] || n.symbol == [PLUS] ==> IsBinaryOperation(n) && |n.child| == 2
  {
  }

  /** Leaves, and operation nodes built over well-shaped operands, are well shaped. */
  lemma BuiltWellShaped(shape: Option<seq<Elem>>, name: Option<string>, value: Option<seq<Elem>>, t: NodeSymbol, l: Node, r: Node)
    requires WellShaped(l) && WellShaped(r)
    ensures WellShaped(ArrayNode(ARRAY, shape, name, value))
    ensures t in {PLUSRED, MINUSRED, TIMESRED, DIVIDERED, IOTA, DIM, TAU, SHAPE, RAV, TRANSPOSE} ==>
      WellShaped(UnaryNode(t, shape, r))
    ensures t in {PLUS, MINUS, TIMES, DIVIDE, PSI, TAKE, DROP, CAT} ==>
      WellShaped(BinaryNode(t, shape, l, r))
  {
    ClassificationExclusive(UnaryNode(t, shape, r));
    ClassificationExclusive(BinaryNode(t, shape, l, r));
  }

  /** A node without its operands: `node[:2]`. */
  function Header(n: Node): Node {
    n.(child := [])
  }

  /**
    `postorder_replacement`: replace the operand of a unary node, or the left and
    then the right operand of a binary node, and apply the replacement function to
    the node rebuilt from the replaced operands; any other node goes to the
    function unchanged. The function may carry state from call to call, as the
    counter of the tests does.
  */
  function Postorder<S, T>(n: Node, s: S, f: (S, Node, seq<T>) -> (S, T)): (S, T)
    requires WellShaped(n)
    decreases n
  {
    if IsUnaryOperation(n) then
      var (s1, r) := Postorder(n.child[0], s, f);
      f(s1, Header(n), [r])
    else if IsBinaryOperation(n) then
      var (s1, l) := Postorder(n.child[0], s, f);
      var (s2, r) := Postorder(n.child[1], s1, f);
      f(s2, Header(n), [l, r])
    else
      f(s, n, [])
  }

  /** The nodes in the order the replacement function sees them, operands stripped. */
  function PostorderNodes(n: Node): (r: seq<Node>)
    requires WellShaped(n)
    ensures |r| >= 1
    decreases n
  {
    if IsUnaryOperation(n) then PostorderNodes(n.child[0]) + [Header(n)]
    else if IsBinaryOperation(n) then PostorderNodes(n.child[0]) + PostorderNodes(n.child[1]) + [Header(n)]
    else [n]
  }

  function LogStep(log: seq<Node>, h: Node, kids: seq<()>): (seq<Node>, ()) {
    (log + [h], ())
  }

  /** The replacement function is applied once per node, operands before the node, left before right. */
  lemma {:induction false} PostorderVisitOrder(n: Node, log: seq<Node>)
    requires WellShaped(n)
    ensures Postorder(n, log, LogStep).0 == log + PostorderNodes(n)
    decreases n
  {
    if IsUnaryOperation(n) {
      PostorderVisitOrder(n.child[0], log);
    } else if IsBinaryOperation(n) {
      PostorderVisitOrder(n.child[0], log);
      var log1 := Postorder(n.child[0], log, LogStep).0;
      PostorderVisitOrder(n.child[1], log1);
    }
  }

  /** The identity replacement: a node rebuilt from its replaced operands, any other node as it is. */
  function RebuildStep(s: (), h: Node, kids: seq<Node>): ((), Node) {
    ((), if kids == [] then h else h.(child := kids))
  }

  lemma PostorderUnfold<S, T>(n: Node, s: S, f: (S, Node, seq<T>) -> (S, T))
    requires WellShaped(n)
    ensures IsUnaryOperation(n) ==>
      var (s1, r) := Postorder(n.child[0], s, f);
      Postorder(n, s, f) == f(s1, Header(n), [r])
    ensures IsBinaryOperation(n) ==>
      var (s1, l) := Postorder(n.child[0], s, f);
      var (s2, r) := Postorder(n.child[1], s1, f);
      Postorder(n, s, f) == f(s2, Header(n), [l, r])
    ensures !IsUnaryOperation(n) && !IsBinaryOperation(n) ==> Postorder(n, s, f) == f(s, n, [])
  {
  }

  /** Replacing every node by itself rebuilt from its replaced operands gives back the tree. */
  lemma {:induction false} PostorderRebuildIdentity(n: Node)
    requires WellShaped(n)
    ensures Postorder(n, (), RebuildStep).1 == n
    decreases n
  {
    PostorderUnfold(n, (), RebuildStep);
    if IsUnaryOperation(n) {
      PostorderRebuildIdentity(n.child[0]);
      assert n.child == [n.child[0]];
    } else if IsBinaryOperation(n) {
      PostorderRebuildIdentity(n.child[0]);
      PostorderRebuildIdentity(n.child[1]);
      assert n.child == [n.child[0], n.child[1]];
    }
  }

  /** The result of numbering nodes with a counter, as the tests do. */
  datatype Numbered = Numbered(number: nat, kids: seq<Numbered>)

  function CountStep(k: nat, h: Node, kids: seq<Numbered>): (nat, Numbered) {
    (k + 1, Numbered(k, kids))
  }

  /**
    A counter advanced by the replacement function is advanced once per node, and
    the root gets the last number.
  */
  lemma {:induction false} PostorderCounter(n: Node, k: nat)
    requires WellShaped(n)
    ensures Postorder(n, k, CountStep).0 == k + |PostorderNodes(n)|
    ensures Postorder(n, k, CountStep).1.number == k + |PostorderNodes(n)| - 1
    decreases n
  {
    if IsUnaryOperation(n) {
      PostorderCounter(n.child[0], k);
    } else if IsBinaryOperation(n) {
      PostorderCounter(n.child[0], k);
      PostorderCounter(n.child[1], k + |PostorderNodes(n.child[0])|);
    }
  }

  function TestLeaf(v: int): Node {
    ArrayNode(ARRAY, None, None, Some([Lit(v)]))
  }

  /** `CAT(PLUSRED(1), PLUS(SHAPE(2), RAV(3)))` */
  function CounterTestTree(): Node {
    BinaryNode(CAT, None,
      UnaryNode(PLUSRED, None, TestLeaf(1)),
      BinaryNode(PLUS, None,
        UnaryNode(SHAPE, None, TestLeaf(2)),
        UnaryNode(RAV, None, TestLeaf(3))))
  }

  /** The numbering the tests expect: `(7, (1, (0,)), (6, (3, (2,)), (5, (4,))))`. */
  lemma PostorderCounterExample()
    ensures WellShaped(CounterTestTree())
    ensures Postorder(CounterTestTree(), 0, CountStep).1 ==
      Numbered(7, [
        Numbered(1, [Numbered(0, [])]),
        Numbered(6, [
          Numbered(3, [Numbered(2, [])]),
          Numbered(5, [Numbered(4, [])])])])
  {
    var l1, l2, l3 := TestLeaf(1), TestLeaf(2), TestLeaf(3);
    var u1 := UnaryNode(PLUSRED, None, l1);
    var u2 := UnaryNode(SHAPE, None, l2);
    var u3 := UnaryNode(RAV, None, l3);
    var b := BinaryNode(PLUS, None, u2, u3);
    var root := BinaryNode(CAT, None, u1, b);
    assert WellShaped(l1) && WellShaped(l2) && WellShaped(l3);
    assert WellShaped(u1) && WellShaped(u2) && WellShaped(u3);
    assert WellShaped(b);
    assert WellShaped(root);
    PostorderUnfold(l1, 0, CountStep);
    PostorderUnfold(l2, 2, CountStep);
    PostorderUnfold(l3, 4, CountStep);
    PostorderUnfold(u1, 0, CountStep);
    PostorderUnfold(u2, 2, CountStep);
    PostorderUnfold(u3, 4, CountStep);
    PostorderUnfold(b, 2, CountStep);
    PostorderUnfold(root, 0, CountStep);
  }
}
