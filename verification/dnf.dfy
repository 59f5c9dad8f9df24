/**
  The second generation of ψ-reduction (`moa/dnf.py`), on `Node` and context:
  indexing the expression with fresh `_i` index symbols and an `_a` index
  vector, a pattern matcher over node symbols, the table of rules it selects
  from, and the rules themselves. Each rule rewrites `v psi e` for one kind of
  operation `e` into an expression whose index vectors are built from `v`:
  concatenated, reversed, permuted, split, or extended by a fresh index, and it
  registers every new vector in the symbol table under a generated name.
*/
module Dnf {
  import opened Wrappers
  import opened Errors
  import opened Names
  import opened MoaAst
  import Shape

  /* ---------------------------------------------------------------------- */
  /* Indexing                                                                */

  /** The entry of a loop index running over `range(0, bound, 1)`. */
  function IndexEntry(bound: Elem): SymbolEntry {
    SymbolEntry(INDEX, Some([]), Some([Lit(0), bound, Lit(1)]))
  }

  /** An array node naming a vector of `n` elements registered in the table. */
  function VectorNode(name: string, n: nat): Node {
    NamedArray(Some([Lit(n)]), name)
  }

  function Psi(shape: Option<seq<Elem>>, v: Node, e: Node): Node {
    Node([PSI], shape, [], [v, e])
  }

  /** The index symbols for `shape`, added one at a time, each named after the size of the table then. */
  function AddIndices(t: SymbolTable, shape: seq<Elem>): (SymbolTable, seq<Elem>)
    decreases |shape|
  {
    if shape == [] then (t, [])
    else
      var name := UniqueIndexName(t);
      var rest := AddIndices(t[name := IndexEntry(shape[0])], shape[1..]);
      (rest.0, [Ref(name)] + rest.1)
  }

  /**
    On a table whose generated names are fresh, the k-th bound gets the index
    `_i{|t| + k}`, the table grows by one entry per bound, and nothing else changes.
  */
  lemma {:induction false} AddIndicesKeepsTable(t: SymbolTable, shape: seq<Elem>)
    requires FreshNamesUnused(t)
    ensures |AddIndices(t, shape).1| == |shape| && |AddIndices(t, shape).0| == |t| + |shape|
    ensures FreshNamesUnused(AddIndices(t, shape).0)
    ensures forall x :: x in t ==> x in AddIndices(t, shape).0 && AddIndices(t, shape).0[x] == t[x]
    decreases |shape|
  {
    if shape != [] {
      var name := UniqueIndexName(t);
      var t1 := t[name := IndexEntry(shape[0])];
      AddGeneratedSymbol(t, name, IndexEntry(shape[0]));
      AddIndicesKeepsTable(t1, shape[1..]);
    }
  }

  lemma {:induction false} AddIndicesRefs(t: SymbolTable, shape: seq<Elem>)
    requires FreshNamesUnused(t)
    ensures |AddIndices(t, shape).1| == |shape|
    ensures forall k :: 0 <= k < |shape| ==> AddIndices(t, shape).1[k] == Ref(IndexName(|t| + k))
    decreases |shape|
  {
    if shape != [] {
      var name := UniqueIndexName(t);
      var t1 := t[name := IndexEntry(shape[0])];
      AddGeneratedSymbol(t, name, IndexEntry(shape[0]));
      AddIndicesRefs(t1, shape[1..]);
      var rest := AddIndices(t1, shape[1..]).1;
      assert AddIndices(t, shape).1 == [Ref(name)] + rest;
      forall k | 0 < k < |shape| ensures AddIndices(t, shape).1[k] == Ref(IndexName(|t| + k)) {
        assert rest[k - 1] == Ref(IndexName(|t1| + (k - 1)));
        assert |t1| + (k - 1) == |t| + k;
      }
    }
  }

  lemma {:induction false} AddIndicesEntries(t: SymbolTable, shape: seq<Elem>)
    requires FreshNamesUnused(t)
    ensures |AddIndices(t, shape).1| == |shape|
    ensures forall k :: 0 <= k < |shape| ==>
      var x := AddIndices(t, shape).1[k];
      x.Ref? && x.name in AddIndices(t, shape).0 && AddIndices(t, shape).0[x.name] == IndexEntry(shape[k])
    decreases |shape|
  {
    if shape != [] {
      var name := UniqueIndexName(t);
      var t1 := t[name := IndexEntry(shape[0])];
      AddGeneratedSymbol(t, name, IndexEntry(shape[0]));
      AddIndicesEntries(t1, shape[1..]);
      AddIndicesKeepsTable(t1, shape[1..]);
      var t2 := AddIndices(t1, shape[1..]).0;
      var rest := AddIndices(t1, shape[1..]).1;
      assert AddIndices(t, shape) == (t2, [Ref(name)] + rest);
      assert name in t2 && t2[name] == IndexEntry(shape[0]);
      forall k | 0 < k < |shape|
        ensures rest[k - 1].Ref? && rest[k - 1].name in t2 && t2[rest[k - 1].name] == IndexEntry(shape[k])
      {
        assert shape[k] == shape[1..][k - 1];
      }
    }
  }

  /**
    The indexing of one expression: `<_i.. _i..> psi e` over fresh indices, one
    per dimension of `e`, the indices and their vector added to the table. An
    expression without a shape raises `TypeError`.
  */
  function IndexExpression(e: Node, t: SymbolTable): Result<Context, Exception> {
    if e.shape.None? then Err(TypeError)
    else
      var added := AddIndices(t, e.shape.value);
      var refs := added.1;
      var name := UniqueArrayName(added.0);
      Ok(Context(Psi(e.shape, VectorNode(name, |refs|), e),
                 added.0[name := SymbolEntry(ARRAY, Some([Lit(|refs|)]), Some(refs))]))
  }

  /**
    What indexing adds: the table gains, under fresh generated names, one vector
    `_a` of as many index names as `e` has dimensions, and the expression is that
    vector `psi` `e`; the old entries stay as they were.
  */
  lemma IndexExpressionContents(e: Node, t: SymbolTable)
    requires FreshNamesUnused(t)
    ensures IndexExpression(e, t).Err? <==> e.shape.None?
    ensures IndexExpression(e, t).Ok? ==>
      var shape := e.shape.value;
      var r := IndexExpression(e, t).value;
      var vec := ArrayName(|t| + |shape|);
      && |r.symbolTable| == |t| + |shape| + 1 && FreshNamesUnused(r.symbolTable)
      && (forall x :: x in t ==> x in r.symbolTable && r.symbolTable[x] == t[x])
      && vec in r.symbolTable && r.symbolTable[vec].shape == Some([Lit(|shape|)])
      && r.symbolTable[vec].value.Some? && |r.symbolTable[vec].value.value| == |shape|
      && (forall k :: 0 <= k < |shape| ==> r.symbolTable[vec].value.value[k] == Ref(IndexName(|t| + k)))
      && r.ast == Psi(e.shape, VectorNode(vec, |shape|), e)
  {
    if e.shape.Some? {
      var shape := e.shape.value;
      AddIndicesKeepsTable(t, shape);
      AddIndicesRefs(t, shape);
      var t1 := AddIndices(t, shape).0;
      var refs := AddIndices(t, shape).1;
      AddGeneratedSymbol(t1, UniqueArrayName(t1), SymbolEntry(ARRAY, Some([Lit(|refs|)]), Some(refs)));
    }
  }

  /** Each component of the new vector names an index running over the matching dimension of `e`. */
  lemma IndexExpressionIndices(e: Node, t: SymbolTable)
    requires FreshNamesUnused(t) && e.shape.Some?
    ensures var r := IndexExpression(e, t).value;
      var vec := r.ast.child[0].attrib[0].name;
      && vec in r.symbolTable && r.symbolTable[vec].value.Some?
      && |r.symbolTable[vec].value.value| == |e.shape.value|
      && forall k :: 0 <= k < |e.shape.value| ==>
        var x := r.symbolTable[vec].value.value[k];
        x.Ref? && x.name in r.symbolTable && r.symbolTable[x.name] == IndexEntry(e.shape.value[k])
  {
    var shape := e.shape.value;
    AddIndicesKeepsTable(t, shape);
    AddIndicesEntries(t, shape);
    var t1 := AddIndices(t, shape).0;
    var refs := AddIndices(t, shape).1;
    var vec := UniqueArrayName(t1);
    var entry := SymbolEntry(ARRAY, Some([Lit(|refs|)]), Some(refs));
    AddGeneratedSymbol(t1, vec, entry);
  }

  /**
    `add_indexing_node`: the indexed expression; a root `CONDITION` keeps its
    condition outside the new `psi`, and one without two operands raises
    `IndexError`.
  */
  function Indexed(c: Context): (r: Result<Context, Exception>)
    ensures c.ast.symbol != [CONDITION] ==> r == IndexExpression(c.ast, c.symbolTable)
    ensures c.ast.symbol == [CONDITION] && |c.ast.child| < 2 ==> r == Err(IndexError)
    ensures c.ast.symbol == [CONDITION] && |c.ast.child| >= 2 ==>
      var inner := IndexExpression(c.ast.child[1], c.symbolTable);
      && (r.Ok? <==> inner.Ok?)
      && (r.Ok? ==> r.value.symbolTable == inner.value.symbolTable &&
                    r.value.ast == Node([CONDITION], inner.value.ast.shape, [], [c.ast.child[0], inner.value.ast]))
  {
    if c.ast.symbol != [CONDITION] then IndexExpression(c.ast, c.symbolTable)
    else if |c.ast.child| < 2 then Err(IndexError)
    else match IndexExpression(c.ast.child[1], c.symbolTable)
      case Err(e) => Err(e)
      case Ok(r) => Ok(Context(Node([CONDITION], r.ast.shape, [], [c.ast.child[0], r.ast]), r.symbolTable))
  }

  /** `add_indexing_node`, rebinding the context and the tuple of index symbols once per bound. */
  method AddIndexingNode(c: Context) returns (r: Result<Context, Exception>)
    ensures r == Indexed(c)
  {
    var condition: Option<Node> := None;
    var ctx := c;
    if c.ast.symbol == [CONDITION] {
      if |c.ast.child| < 2 {
        return Err(IndexError);
      }
      condition := Some(c.ast.child[0]);
      ctx := Context(c.ast.child[1], c.symbolTable);
    }
    if ctx.ast.shape.None? {
      return Err(TypeError);
    }
    var shape := ctx.ast.shape.value;
    var t := ctx.symbolTable;
    var symbols: seq<Elem> := [];
    var k := 0;
    assert shape[k..] == shape;
    while k < |shape|
      invariant 0 <= k <= |shape|
      invariant AddIndices(t, shape[k..]).0 == AddIndices(ctx.symbolTable, shape).0
      invariant symbols + AddIndices(t, shape[k..]).1 == AddIndices(ctx.symbolTable, shape).1
    {
      assert shape[k..][1..] == shape[k + 1..] && shape[k..][0] == shape[k];
      var name := UniqueIndexName(t);
      ghost var rest := AddIndices(t[name := IndexEntry(shape[k])], shape[k + 1..]).1;
      assert AddIndices(t, shape[k..]).1 == [Ref(name)] + rest;
      assert symbols + ([Ref(name)] + rest) == (symbols + [Ref(name)]) + rest;
      t := t[name := IndexEntry(shape[k])];
      symbols := symbols + [Ref(name)];
      k := k + 1;
    }
    assert shape[k..] == [];
    assert symbols == AddIndices(ctx.symbolTable, shape).1;
    var name := UniqueArrayName(t);
    t := t[name := SymbolEntry(ARRAY, Some([Lit(|symbols|)]), Some(symbols))];
    var node := Psi(ctx.ast.shape, VectorNode(name, |symbols|), ctx.ast);
    assert IndexExpression(ctx.ast, ctx.symbolTable) == Ok(Context(node, t));
    if condition.Some? {
      node := Node([CONDITION], node.shape, [], [condition.value, node]);
    }
    return Ok(Context(node, t));
  }

  /* ---------------------------------------------------------------------- */
  /* Rule patterns                                                           */

  /**
    The head of a rule: `None`, which matches any node, a tuple of symbols, which
    must equal the node's symbol, or a bare symbol, which never equals a node's
    symbol since those are tuples.
  */
  datatype Head = Wildcard | Symbols(symbols: seq<NodeSymbol>) | Bare(symbol: NodeSymbol)

  /** A rule `(head,)`, or `(head, (p0, p1, ...))` with one pattern per operand. */
  datatype Pattern =
    | Leaf(head: Head)
    | Operands(head: Head, operands: seq<OperandPattern>)

  /** An operand pattern: `None`, which matches any operand, or a rule. */
  datatype OperandPattern = Any | Sub(pattern: Pattern)

  function HeadMatches(h: Head, n: Node): bool {
    match h
    case Wildcard => true
    case Symbols(s) => s == n.symbol
    case Bare(_) => false
  }

  /** `matches_rule` on the tree of the context. */
  predicate Matches(p: Pattern, n: Node)
    decreases p
  {
    HeadMatches(p.head, n) &&
    (p.Operands? ==>
      |n.child| == |p.operands| &&
      forall i :: 0 <= i < |n.child| ==> p.operands[i].Any? || Matches(p.operands[i].pattern, n.child[i]))
  }

  /** `matches_rule`: the head first, then the operand count, then each operand pattern in turn. */
  method MatchesRule(p: Pattern, c: Context) returns (r: bool)
    ensures r == Matches(p, c.ast)
    decreases p
  {
    if !HeadMatches(p.head, c.ast) {
      return false;
    }
    if p.Operands? {
      var ps := p.operands;
      if |c.ast.child| != |ps| {
        return false;
      }
      var i := 0;
      while i < |c.ast.child|
        invariant 0 <= i <= |c.ast.child|
        invariant forall j :: 0 <= j < i ==> ps[j].Any? || Matches(ps[j].pattern, c.ast.child[j])
      {
        if ps[i].Sub? {
          var m := MatchesRule(ps[i].pattern, Context(c.ast.child[i], c.symbolTable));
          if !m {
            return false;
          }
        }
        i := i + 1;
      }
    }
    return true;
  }

  /** The four test patterns: `(ARRAY,)`, `(PSI,)`, `(TRANSPOSE, ((ARRAY,),))`, `(TRANSPOSE, ((TRANSPOSE,),))`. */
  lemma MatchesExamples()
    ensures var a := NamedArray(Some([Lit(2), Lit(3)]), "A");
      && Matches(Leaf(Symbols([ARRAY])), a)
      && !Matches(Leaf(Symbols([PSI])), a)
      && Matches(Operands(Symbols([TRANSPOSE]), [Sub(Leaf(Symbols([ARRAY])))]), Node([TRANSPOSE], None, [], [a]))
      && !Matches(Operands(Symbols([TRANSPOSE]), [Sub(Leaf(Symbols([TRANSPOSE])))]), Node([TRANSPOSE], None, [], [a]))
  {
    var a := NamedArray(Some([Lit(2), Lit(3)]), "A");
    var tr := Node([TRANSPOSE], None, [], [a]);
    assert tr.child[0] == a;
  }

  /* ---------------------------------------------------------------------- */
  /* The rule table                                                          */

  datatype RuleKind =
    | PsiAssign | PsiPsi | PsiTranspose | PsiTransposeV | PsiElementwise | PsiOuter | PsiReduce

  /** One entry of the table: the symbol the operand of `psi` must have, and the rule for it. */
  datatype Rule = Rule(operand: seq<NodeSymbol>, pattern: Pattern, kind: RuleKind)

  /** The operand symbols of the table, in its order. */
  function RuleOperands(): seq<(seq<NodeSymbol>, RuleKind)> {
    [([ASSIGN], PsiAssign), ([PSI], PsiPsi), ([TRANSPOSE], PsiTranspose), ([TRANSPOSEV], PsiTransposeV),
     ([PLUS], PsiElementwise), ([MINUS], PsiElementwise), ([TIMES], PsiElementwise), ([DIVIDE], PsiElementwise),
     ([DOT, PLUS], PsiOuter), ([DOT, MINUS], PsiOuter), ([DOT, TIMES], PsiOuter), ([DOT, DIVIDE], PsiOuter),
     ([REDUCE, PLUS], PsiReduce), ([REDUCE, MINUS], PsiReduce), ([REDUCE, TIMES], PsiReduce), ([REDUCE, DIVIDE], PsiReduce)]
  }

  /**
    The table as written: each operand pattern is the parenthesised symbol
    `((X,))`, which is the one-element rule `(X,)` whose head is the bare
    symbol `X`. For `((DOT, PLUS))` the rule is `(DOT, PLUS)`, whose second
    part is never read because the bare head already fails.
  */
  function AsWrittenRules(): (r: seq<Rule>)
    ensures |r| == |RuleOperands()|
  {
    var ops := RuleOperands();
    seq(|ops|, k requires 0 <= k < |ops| =>
      Rule(ops[k].0, Operands(Symbols([PSI]), [Any, Sub(Leaf(Bare(ops[k].0[0])))]), ops[k].1))
  }

  /** The table as intended: the operand pattern `((X,),)`, whose head is the tuple of symbols. */
  function Rules(): (r: seq<Rule>)
    ensures |r| == |RuleOperands()|
  {
    var ops := RuleOperands();
    seq(|ops|, k requires 0 <= k < |ops| =>
      Rule(ops[k].0, Operands(Symbols([PSI]), [Any, Sub(Leaf(Symbols(ops[k].0)))]), ops[k].1))
  }

  /** As written, no rule of the table matches any node, so the reduction never rewrites anything. */
  lemma AsWrittenRulesNeverMatch(n: Node, k: nat)
    requires k < |AsWrittenRules()|
    ensures !Matches(AsWrittenRules()[k].pattern, n)
  {
    var p := AsWrittenRules()[k].pattern;
    var q := p.operands[1].pattern;
    assert q.Leaf? && q.head.Bare?;
    if |n.child| == 2 {
      assert !Matches(q, n.child[1]);
    }
  }

  /** A corrected rule matches exactly `v psi e` where `e` has the rule's operand symbol. */
  lemma RuleMatchesExactly(n: Node, k: nat)
    requires k < |Rules()|
    ensures Matches(Rules()[k].pattern, n) <==>
      n.symbol == [PSI] && |n.child| == 2 && n.child[1].symbol == Rules()[k].operand
  {
    var p := Rules()[k].pattern;
    if n.symbol == [PSI] && |n.child| == 2 && n.child[1].symbol == Rules()[k].operand {
      assert Matches(p.operands[1].pattern, n.child[1]);
    }
  }

  lemma RuleOperandsDistinct(j: nat, k: nat)
    requires j < k < |Rules()|
    ensures Rules()[j].operand != Rules()[k].operand
  {
  }

  /** The first rule of the table that matches the node, if any. */
  function FirstMatch(rules: seq<Rule>, n: Node, from: nat): (r: Option<nat>)
    requires from <= |rules|
    ensures r.Some? ==> from <= r.value < |rules| && Matches(rules[r.value].pattern, n)
    ensures r.Some? ==> forall j :: from <= j < r.value ==> !Matches(rules[j].pattern, n)
    ensures r.None? ==> forall j :: from <= j < |rules| ==> !Matches(rules[j].pattern, n)
    decreases |rules| - from
  {
    if from == |rules| then None
    else if Matches(rules[from].pattern, n) then Some(from)
    else FirstMatch(rules, n, from + 1)
  }

  /** The loop of `_reduce_replacement` over the table, stopping at the first matching rule. */
  method FindRule(rules: seq<Rule>, c: Context) returns (r: Option<nat>)
    ensures r == FirstMatch(rules, c.ast, 0)
  {
    var k := 0;
    while k < |rules|
      invariant 0 <= k <= |rules|
      invariant FirstMatch(rules, c.ast, 0) == FirstMatch(rules, c.ast, k)
    {
      var m := MatchesRule(rules[k].pattern, c);
      if m {
        return Some(k);
      }
      k := k + 1;
    }
    return None;
  }

  /* ---------------------------------------------------------------------- */
  /* Python sequence operations the rules use                                */

  /** `s[:d]` for `d >= 0`. */
  function Prefix<T>(s: seq<T>, d: nat): (r: seq<T>)
    ensures |r| == if d <= |s| then d else |s|
    ensures forall k :: 0 <= k < |r| ==> r[k] == s[k]
  {
    if d <= |s| then s[..d] else s
  }

  /** `s[-d:]` for `d >= 0`, as Python reads it: `-0` is `0`, so `s[-0:]` is all of `s`. */
  function SuffixAsWritten<T>(s: seq<T>, d: nat): seq<T> {
    if d == 0 || d >= |s| then s else s[|s| - d..]
  }

  /** The last `d` elements of `s`, or all of them when `s` is shorter. */
  function Suffix<T>(s: seq<T>, d: nat): (r: seq<T>)
    ensures |r| == if d <= |s| then d else |s|
    ensures forall k :: 0 <= k < |r| ==> r[k] == s[|s| - |r| + k]
  {
    if d <= |s| then s[|s| - d..] else s
  }

  /** Splitting an index vector between the two operands of an outer product gives it back whole. */
  lemma OuterSplit(v: seq<Elem>, left: nat, right: nat)
    requires left + right == |v|
    ensures |Prefix(v, left)| == left && |Suffix(v, right)| == right
    ensures Prefix(v, left) + Suffix(v, right) == v
  {
  }

  /**
    Read as Python reads it, the suffix for a right operand of dimension 0 is the
    whole index vector: `<i0> psi (a outer s)` for a vector `a` and a scalar `s`
    gives `s` the index `<i0>`, though the vector registered for it has shape `(0,)`.
  */
  lemma OuterSplitAsWrittenScalar()
    ensures SuffixAsWritten([Ref("_i0")], 0) == [Ref("_i0")]
    ensures Suffix([Ref("_i0")], 0) == []
    ensures Prefix([Ref("_i0")], 1) + SuffixAsWritten([Ref("_i0")], 0) != [Ref("_i0")]
  {
    assert |Prefix([Ref("_i0")], 1) + SuffixAsWritten([Ref("_i0")], 0)| == 2;
  }

  /** `zip(a, b)`: pairs up to the shorter length. */
  function Zip<A, B>(a: seq<A>, b: seq<B>): (r: seq<(A, B)>)
    ensures |r| == if |a| <= |b| then |a| else |b|
    ensures forall k :: 0 <= k < |r| ==> r[k] == (a[k], b[k])
  {
    if a == [] || b == [] then [] else [(a[0], b[0])] + Zip(a[1..], b[1..])
  }

  predicate KeySorted(s: seq<(int, Elem)>) {
    forall i, j :: 0 <= i < j < |s| ==> s[i].0 <= s[j].0
  }

  /** The second components of a sequence of pairs. */
  function Seconds(s: seq<(int, Elem)>): (r: seq<Elem>)
    ensures |r| == |s| && forall k :: 0 <= k < |s| ==> r[k] == s[k].1
  {
    if s == [] then [] else [s[0].1] + Seconds(s[1..])
  }

  /** `p` inserted before the first pair whose key is not smaller. */
  function InsertByKey(p: (int, Elem), s: seq<(int, Elem)>): (r: seq<(int, Elem)>)
    ensures |r| == |s| + 1
    ensures r[0] == p || (s != [] && r[0] == s[0])
  {
    if s == [] then [p]
    else if p.0 <= s[0].0 then [p] + s
    else [s[0]] + InsertByKey(p, s[1..])
  }

  lemma {:induction false} InsertByKeySorted(p: (int, Elem), s: seq<(int, Elem)>)
    requires KeySorted(s)
    ensures KeySorted(InsertByKey(p, s))
  {
    if s != [] && p.0 > s[0].0 {
      InsertByKeySorted(p, s[1..]);
      var rest := InsertByKey(p, s[1..]);
      var r := InsertByKey(p, s);
      assert r == [s[0]] + rest;
      assert s[0].0 <= rest[0].0 by {
        if rest[0] != p { assert rest[0] == s[1]; }
      }
      forall i, j | 0 <= i < j < |r| ensures r[i].0 <= r[j].0 {
        if i == 0 && j > 1 {
          assert rest[0].0 <= rest[j - 1].0;
        }
      }
    }
  }

  lemma {:induction false} InsertByKeyPermutes(p: (int, Elem), s: seq<(int, Elem)>)
    ensures multiset(InsertByKey(p, s)) == multiset(s) + multiset{p}
  {
    if s != [] && p.0 > s[0].0 {
      InsertByKeyPermutes(p, s[1..]);
      assert s == [s[0]] + s[1..];
      assert InsertByKey(p, s) == [s[0]] + InsertByKey(p, s[1..]);
    }
  }

  lemma {:induction false} InsertByKeySeconds(p: (int, Elem), s: seq<(int, Elem)>)
    ensures multiset(Seconds(InsertByKey(p, s))) == multiset(Seconds(s)) + multiset{p.1}
  {
    if s != [] {
      assert Seconds(s) == [s[0].1] + Seconds(s[1..]);
      if p.0 <= s[0].0 {
        assert Seconds([p] + s) == [p.1] + Seconds(s);
      } else {
        InsertByKeySeconds(p, s[1..]);
        var rest := InsertByKey(p, s[1..]);
        assert Seconds([s[0]] + rest) == [s[0].1] + Seconds(rest);
      }
    }
  }

  /**
    `sorted(pairs, key=lambda pair: pair[0])` by insertion: each pair goes before
    the first later-sorted pair whose key is not smaller, so of two pairs with
    equal keys the earlier stays first.
  */
  function SortByKey(s: seq<(int, Elem)>): (r: seq<(int, Elem)>)
    ensures |r| == |s|
  {
    if s == [] then [] else InsertByKey(s[0], SortByKey(s[1..]))
  }

  /** The sorted pairs ascend by key. */
  lemma {:induction false} SortByKeySorted(s: seq<(int, Elem)>)
    ensures KeySorted(SortByKey(s))
  {
    if s != [] {
      SortByKeySorted(s[1..]);
      InsertByKeySorted(s[0], SortByKey(s[1..]));
    }
  }

  /** The sorted pairs are a rearrangement of the input. */
  lemma {:induction false} SortByKeyPermutes(s: seq<(int, Elem)>)
    ensures multiset(SortByKey(s)) == multiset(s)
  {
    if s != [] {
      SortByKeyPermutes(s[1..]);
      InsertByKeyPermutes(s[0], SortByKey(s[1..]));
      assert s == [s[0]] + s[1..];
    }
  }

  /** The second components of the sorted pairs are a rearrangement of those of the input. */
  lemma {:induction false} SortByKeySeconds(s: seq<(int, Elem)>)
    ensures multiset(Seconds(SortByKey(s))) == multiset(Seconds(s))
  {
    if s != [] {
      SortByKeySeconds(s[1..]);
      InsertByKeySeconds(s[0], SortByKey(s[1..]));
      assert Seconds(s) == [s[0].1] + Seconds(s[1..]);
    }
  }

  /** The integer keys of a permutation vector, when every element of it is a number. */
  function Keys(perm: seq<Elem>): (r: Option<seq<int>>)
    ensures r.Some? <==> forall e :: e in perm ==> e.Lit?
    ensures r.Some? ==> |r.value| == |perm| && forall k :: 0 <= k < |perm| ==> perm[k] == Lit(r.value[k])
  {
    if perm == [] then Some([])
    else if perm[0].Ref? then assert perm[0] in perm; None
    else
      assert perm == [perm[0]] + perm[1..];
      match Keys(perm[1..])
      case None => None
      case Some(ks) => Some([perm[0].n] + ks)
  }

  /** The index components of `outer`, reordered by ascending value of the permutation. */
  function PermuteByKeys(keys: seq<int>, outer: seq<Elem>): (r: seq<Elem>)
    ensures |r| == if |keys| <= |outer| then |keys| else |outer|
  {
    Seconds(SortByKey(Zip(keys, outer)))
  }

  /**
    The permuted vector is a rearrangement of the components of `outer` that have
    a key, taken in an order in which their keys ascend.
  */
  lemma PermuteByKeysPermutes(keys: seq<int>, outer: seq<Elem>)
    ensures var m := if |keys| <= |outer| then |keys| else |outer|;
      multiset(PermuteByKeys(keys, outer)) == multiset(outer[..m])
    ensures KeySorted(SortByKey(Zip(keys, outer))) && multiset(SortByKey(Zip(keys, outer))) == multiset(Zip(keys, outer))
  {
    var m := if |keys| <= |outer| then |keys| else |outer|;
    SortByKeySorted(Zip(keys, outer));
    SortByKeyPermutes(Zip(keys, outer));
    SortByKeySeconds(Zip(keys, outer));
    assert Seconds(Zip(keys, outer)) == outer[..m];
  }

  /** `<3 2 1 1>` permuted by `<4 2 3 1>` is `<1 2 1 3>`. */
  lemma PermuteByKeysExample()
    ensures PermuteByKeys([4, 2, 3, 1], [Lit(3), Lit(2), Lit(1), Lit(1)]) == [Lit(1), Lit(2), Lit(1), Lit(3)]
  {
    var z := Zip([4, 2, 3, 1], [Lit(3), Lit(2), Lit(1), Lit(1)]);
    var a, b, c, d := (4, Lit(3)), (2, Lit(2)), (3, Lit(1)), (1, Lit(1));
    assert z == [a, b, c, d];
    assert z[3..] == [d] && z[2..] == [c, d] && z[1..] == [b, c, d];
    assert SortByKey([d]) == [d];
    assert InsertByKey(c, [d]) == [d] + InsertByKey(c, []);
    assert SortByKey(z[2..]) == [d, c];
    assert InsertByKey(b, [d, c]) == [d] + InsertByKey(b, [c]);
    assert SortByKey(z[1..]) == [d, b, c];
    assert InsertByKey(a, [d, b, c]) == [d] + InsertByKey(a, [b, c]);
    assert InsertByKey(a, [b, c]) == [b] + InsertByKey(a, [c]);
    assert InsertByKey(a, [c]) == [c] + InsertByKey(a, []);
    assert SortByKey(z) == [d, b, c, a];
  }

  /* ---------------------------------------------------------------------- */
  /* The rules                                                               */

  /** The values registered for an array node: a missing name is an `IndexError` or a `KeyError`. */
  function VectorValues(t: SymbolTable, n: Node): (r: Result<Option<seq<Elem>>, Exception>)
    ensures r.Ok? <==> Shape.ArrayEntry(Context(n, t)).Ok?
    ensures r.Ok? ==> r.value == Shape.ArrayEntry(Context(n, t)).value.value
  {
    match Shape.ArrayEntry(Context(n, t))
    case Err(e) => Err(e)
    case Ok(entry) => Ok(entry.value)
  }

  /** The number of operands each rule reads from the operation under `psi`. */
  function OperandArity(kind: RuleKind): nat {
    match kind
    case PsiTranspose => 1
    case PsiReduce => 1
    case _ => 2
  }

  /** `v psi e` with `e` an operation of the rule's kind and the operands the rule reads. */
  predicate RuleShaped(n: Node, kind: RuleKind) {
    n.symbol == [PSI] && |n.child| == 2 && |n.child[1].child| >= OperandArity(kind) &&
    (kind == PsiOuter ==> |n.child[1].symbol| == 2)
  }

  /** The table with a vector of `values` added under the next generated array name. */
  function AddVector(t: SymbolTable, values: seq<Elem>): SymbolTable {
    t[UniqueArrayName(t) := SymbolEntry(ARRAY, Some([Lit(|values|)]), Some(values))]
  }

  /**
    The node's first attribute is `name`, so a lookup of the node sees an entry
    added under `name`. A rule that registers a fresh name before it looks up an
    operand is affected only by an operand named so.
  */
  predicate NamesSymbol(n: Node, name: string) {
    |n.attrib| > 0 && n.attrib[0] == Name(name)
  }

  /** Adding an entry under a name the node does not carry leaves its lookups as they were. */
  lemma LookupUnaffected(n: Node, t: SymbolTable, name: string, e: SymbolEntry)
    requires !NamesSymbol(n, name)
    ensures Shape.ArrayEntry(Context(n, t[name := e])) == Shape.ArrayEntry(Context(n, t))
    ensures VectorValues(t[name := e], n) == VectorValues(t, n)
    ensures Shape.Dimension(Context(n, t[name := e])) == Shape.Dimension(Context(n, t))
  {
  }

  /** A node found in a table whose generated names are unused does not carry the next generated name. */
  lemma FoundNotFresh(n: Node, t: SymbolTable)
    requires FreshNamesUnused(t) && Shape.ArrayEntry(Context(n, t)).Ok?
    ensures !NamesSymbol(n, UniqueArrayName(t)) && !NamesSymbol(n, UniqueIndexName(t))
  {
    assert ArrayName(|t|) !in t && IndexName(|t|) !in t;
  }

  /** `_reduce_psi_assign`: `v psi (a assign b)` is `(v psi a) assign (v psi b)`; the table is unchanged. */
  function ReducePsiAssign(c: Context): (r: Context)
    requires RuleShaped(c.ast, PsiAssign)
    ensures r.symbolTable == c.symbolTable
    ensures var e := c.ast.child[1];
      r.ast.symbol == [ASSIGN] && r.ast.shape == c.ast.shape && |r.ast.child| == 2 &&
      forall k :: 0 <= k < 2 ==> r.ast.child[k] == Psi(c.ast.shape, c.ast.child[0], e.child[k])
  {
    var n := c.ast;
    Context(Node([ASSIGN], n.shape, [], [Psi(n.shape, n.child[0], n.child[1].child[0]), Psi(n.shape, n.child[0], n.child[1].child[1])]),
            c.symbolTable)
  }

  /**
    `_reduce_psi_psi`: `w psi (u psi e)` is `(u ++ w) psi e`, the concatenation
    registered as a new vector. The inner `u` must be a vector with values, else
    `MOAReductionError`; an outer `w` without values cannot be concatenated
    (`TypeError`).
  */
  function ReducePsiPsi(c: Context): (r: Result<Context, Exception>)
    requires RuleShaped(c.ast, PsiPsi)
  {
    var n, t := c.ast, c.symbolTable;
    var inner := n.child[1].child[0];
    match Shape.IsVector(Context(inner, t))
    case Err(e) => Err(e)
    case Ok(isVector) =>
      if !isVector || Shape.ArrayEntry(Context(inner, t)).value.value.None? then Err(MOAReductionError)
      else match VectorValues(t, n.child[0])
        case Err(e) => Err(e)
        case Ok(None) => Err(TypeError)
        case Ok(Some(outer)) =>
          var values := Shape.ArrayEntry(Context(inner, t)).value.value.value + outer;
          Ok(Context(Psi(n.shape, VectorNode(UniqueArrayName(t), |values|), n.child[1].child[1]), AddVector(t, values)))
  }

  /** The rewrite of `psi` over `psi`: its errors, and the concatenated vector it registers. */
  lemma ReducePsiPsiContents(c: Context)
    requires RuleShaped(c.ast, PsiPsi)
    ensures var inner := Context(c.ast.child[1].child[0], c.symbolTable);
      Shape.IsVector(inner) == Ok(false) ==> ReducePsiPsi(c) == Err(MOAReductionError)
    ensures var inner := Context(c.ast.child[1].child[0], c.symbolTable);
      Shape.IsVector(inner) == Ok(true) && Shape.ArrayEntry(inner).value.value.None? ==> ReducePsiPsi(c) == Err(MOAReductionError)
    ensures var inner := Context(c.ast.child[1].child[0], c.symbolTable);
      Shape.IsVector(inner).Err? ==> ReducePsiPsi(c) == Err(Shape.IsVector(inner).error)
    ensures var inner := Context(c.ast.child[1].child[0], c.symbolTable);
      var outer := VectorValues(c.symbolTable, c.ast.child[0]);
      ReducePsiPsi(c).Ok? <==>
        && Shape.IsVector(inner) == Ok(true) && Shape.ArrayEntry(inner).Ok? && Shape.ArrayEntry(inner).value.value.Some?
        && outer.Ok? && outer.value.Some?
    ensures var inner := Context(c.ast.child[1].child[0], c.symbolTable);
      var outer := VectorValues(c.symbolTable, c.ast.child[0]);
      Shape.IsVector(inner) == Ok(true) && Shape.ArrayEntry(inner).Ok? && Shape.ArrayEntry(inner).value.value.Some? ==>
        && (outer.Err? ==> ReducePsiPsi(c) == Err(outer.error))
        && (outer == Ok(None) ==> ReducePsiPsi(c) == Err(TypeError))
    ensures ReducePsiPsi(c).Ok? ==>
      var t := c.symbolTable;
      var u := Shape.ArrayEntry(Context(c.ast.child[1].child[0], t)).value.value.value;
      var w := VectorValues(t, c.ast.child[0]).value.value;
      var r := ReducePsiPsi(c).value;
      var name := UniqueArrayName(t);
      && Shape.IsVector(Context(c.ast.child[1].child[0], t)) == Ok(true)
      && r.ast == Psi(c.ast.shape, VectorNode(name, |u| + |w|), c.ast.child[1].child[1])
      && r.symbolTable == t[name := SymbolEntry(ARRAY, Some([Lit(|u| + |w|)]), Some(u + w))]
  {
  }

  /**
    `_reduce_psi_transpose`: `v psi transpose(e)` is `reverse(v) psi e`, the
    reversal registered as a new vector. A vector without values cannot be
    reversed (`TypeError`).
  */
  function ReducePsiTranspose(c: Context): (r: Result<Context, Exception>)
    requires RuleShaped(c.ast, PsiTranspose)
    ensures r.Ok? <==> VectorValues(c.symbolTable, c.ast.child[0]).Ok? && VectorValues(c.symbolTable, c.ast.child[0]).value.Some?
    ensures VectorValues(c.symbolTable, c.ast.child[0]).Err? ==> r == Err(VectorValues(c.symbolTable, c.ast.child[0]).error)
    ensures r.Ok? ==>
      var v := VectorValues(c.symbolTable, c.ast.child[0]).value.value;
      var name := UniqueArrayName(c.symbolTable);
      && r.value.ast == Psi(c.ast.shape, VectorNode(name, |v|), c.ast.child[1].child[0])
      && name in r.value.symbolTable && r.value.symbolTable[name].value.Some?
      && |r.value.symbolTable[name].value.value| == |v|
      && forall k :: 0 <= k < |v| ==> r.value.symbolTable[name].value.value[k] == v[|v| - 1 - k]
    ensures VectorValues(c.symbolTable, c.ast.child[0]) == Ok(None) ==> r == Err(TypeError)
  {
    var n, t := c.ast, c.symbolTable;
    match VectorValues(t, n.child[0])
    case Err(e) => Err(e)
    case Ok(None) => Err(TypeError)
    case Ok(Some(v)) =>
      var values := Shape.Reverse(v);
      Ok(Context(Psi(n.shape, VectorNode(UniqueArrayName(t), |values|), n.child[1].child[0]), AddVector(t, values)))
  }

  /**
    `_reduce_psi_transposev`: `v psi (p transpose e)` is `v' psi e`, where `v'`
    lists the components of `v` in ascending order of the matching components of
    `p`. Both arguments of `zip` are looked up first, `p` before `v`, so a
    missing name is a `KeyError` before either vector is found to lack values,
    which is a `TypeError`.

    A symbolic component of `p` is taken to raise `TypeError` once two keys are
    compared. This assumes that element nodes do not order among themselves;
    `Node` is not part of this model, and were it a named tuple, two symbolic
    keys would compare by their fields without raising.
  */
  function ReducePsiTransposeV(c: Context): (r: Result<Context, Exception>)
    requires RuleShaped(c.ast, PsiTransposeV)
  {
    var n, t := c.ast, c.symbolTable;
    var permValues := VectorValues(t, n.child[1].child[0]);
    var outerValues := VectorValues(t, n.child[0]);
    if permValues.Err? then Err(permValues.error)
    else if outerValues.Err? then Err(outerValues.error)
    else if permValues.value.None? || outerValues.value.None? then Err(TypeError)
    else
      var perm, outer := permValues.value.value, outerValues.value.value;
      var pairs := if |perm| <= |outer| then |perm| else |outer|;
      var keys := Keys(perm[..pairs]);
      if keys.None? && pairs >= 2 then Err(TypeError)
      else
        var values := if keys.Some? then PermuteByKeys(keys.value, outer) else outer[..pairs];
        Ok(Context(Psi(n.shape, VectorNode(UniqueArrayName(t), |values|), n.child[1].child[1]), AddVector(t, values)))
  }

  /**
    The new vector is a rearrangement of the components of `v` that have a
    partner in `p`, in the order of ascending keys when `p` is numeric.
  */
  lemma ReducePsiTransposeVContents(c: Context)
    requires RuleShaped(c.ast, PsiTransposeV) && ReducePsiTransposeV(c).Ok?
    ensures var t := c.symbolTable;
      && VectorValues(t, c.ast.child[1].child[0]).Ok? && VectorValues(t, c.ast.child[1].child[0]).value.Some?
      && VectorValues(t, c.ast.child[0]).Ok? && VectorValues(t, c.ast.child[0]).value.Some?
    ensures var t := c.symbolTable;
      var perm := VectorValues(t, c.ast.child[1].child[0]).value.value;
      var outer := VectorValues(t, c.ast.child[0]).value.value;
      var m := if |perm| <= |outer| then |perm| else |outer|;
      var name := UniqueArrayName(t);
      var r := ReducePsiTransposeV(c).value;
      && name in r.symbolTable && r.symbolTable[name].value.Some?
      && multiset(r.symbolTable[name].value.value) == multiset(outer[..m])
      && (Keys(perm[..m]).Some? ==> r.symbolTable[name].value.value == PermuteByKeys(Keys(perm[..m]).value, outer))
      && r.ast == Psi(c.ast.shape, VectorNode(name, m), c.ast.child[1].child[1])
  {
    var t := c.symbolTable;
    var perm := VectorValues(t, c.ast.child[1].child[0]).value.value;
    var outer := VectorValues(t, c.ast.child[0]).value.value;
    var m := if |perm| <= |outer| then |perm| else |outer|;
    if Keys(perm[..m]).Some? {
      PermuteByKeysPermutes(Keys(perm[..m]).value, outer);
    }
  }

  /**
    When the transposev rule succeeds and how it fails: a lookup error of `p`,
    then of `v`, comes first; a vector without values is a `TypeError`, and so
    is a symbolic component among the keys once two of them are compared.
  */
  lemma ReducePsiTransposeVOutcome(c: Context)
    requires RuleShaped(c.ast, PsiTransposeV)
    ensures var p := VectorValues(c.symbolTable, c.ast.child[1].child[0]);
      p.Err? ==> ReducePsiTransposeV(c) == Err(p.error)
    ensures var p := VectorValues(c.symbolTable, c.ast.child[1].child[0]);
      var o := VectorValues(c.symbolTable, c.ast.child[0]);
      p.Ok? && o.Err? ==> ReducePsiTransposeV(c) == Err(o.error)
    ensures var p := VectorValues(c.symbolTable, c.ast.child[1].child[0]);
      var o := VectorValues(c.symbolTable, c.ast.child[0]);
      p.Ok? && o.Ok? && (p.value.None? || o.value.None?) ==> ReducePsiTransposeV(c) == Err(TypeError)
    ensures var p := VectorValues(c.symbolTable, c.ast.child[1].child[0]);
      var o := VectorValues(c.symbolTable, c.ast.child[0]);
      ReducePsiTransposeV(c).Ok? <==>
        && p.Ok? && o.Ok? && p.value.Some? && o.value.Some?
        && var m := if |p.value.value| <= |o.value.value| then |p.value.value| else |o.value.value|;
           (m < 2 || forall k :: 0 <= k < m ==> p.value.value[k].Lit?)
    ensures var p := VectorValues(c.symbolTable, c.ast.child[1].child[0]);
      var o := VectorValues(c.symbolTable, c.ast.child[0]);
      p.Ok? && o.Ok? && p.value.Some? && o.value.Some? && ReducePsiTransposeV(c).Err? ==>
        ReducePsiTransposeV(c) == Err(TypeError)
  {
    var t := c.symbolTable;
    var p := VectorValues(t, c.ast.child[1].child[0]);
    var o := VectorValues(t, c.ast.child[0]);
    if p.Ok? && o.Ok? && p.value.Some? && o.value.Some? {
      var perm, outer := p.value.value, o.value.value;
      var m := if |perm| <= |outer| then |perm| else |outer|;
      var keys := Keys(perm[..m]);
      assert keys.Some? <==> forall k :: 0 <= k < m ==> perm[k].Lit? by {
        if keys.None? {
          var e :| e in perm[..m] && !e.Lit?;
          var k :| 0 <= k < m && perm[..m][k] == e;
          assert !perm[k].Lit?;
        } else {
          forall k | 0 <= k < m ensures perm[k].Lit? {
            assert perm[..m][k] in perm[..m];
          }
        }
      }
    }
  }

  /**
    `_reduce_psi_reduce_*`: `v psi (op-reduce e)` is `op-reduce` over a fresh
    index `j` of `(<j> ++ v) psi e`, with `j` running over the first extent of `e`.
    An `e` without a shape is a `TypeError`, a scalar `e` an `IndexError`.
  */
  function ReducePsiReduce(c: Context): (r: Result<Context, Exception>)
    requires RuleShaped(c.ast, PsiReduce)
  {
    var n, t := c.ast, c.symbolTable;
    var e := n.child[1].child[0];
    if e.shape.None? then Err(TypeError)
    else if e.shape.value == [] then Err(IndexError)
    else
      var index := UniqueIndexName(t);
      var t1 := t[index := IndexEntry(e.shape.value[0])];
      match VectorValues(t1, n.child[0])
      case Err(err) => Err(err)
      case Ok(None) => Err(TypeError)
      case Ok(Some(v)) =>
        var values := [Ref(index)] + v;
        Ok(Context(Node(n.child[1].symbol, n.shape, [Name(index)],
                        [Psi(n.shape, VectorNode(UniqueArrayName(t1), |values|), e)]),
                   AddVector(t1, values)))
  }

  /**
    The reduction rule registers a fresh index over the first extent of the
    operand and a vector one longer than `v` that starts with it.
  */
  lemma ReducePsiReduceContents(c: Context)
    requires RuleShaped(c.ast, PsiReduce) && FreshNamesUnused(c.symbolTable)
    requires VectorValues(c.symbolTable, c.ast.child[0]).Ok? && ReducePsiReduce(c).Ok?
    ensures var t := c.symbolTable;
      var e := c.ast.child[1].child[0];
      var r := ReducePsiReduce(c).value;
      var index, vec := IndexName(|t|), ArrayName(|t| + 1);
      && e.shape.Some? && e.shape.value != []
      && index !in t && vec !in t && index != vec
      && r.symbolTable[index] == IndexEntry(e.shape.value[0])
      && r.symbolTable[vec].value.Some? && r.symbolTable[vec].value.value[0] == Ref(index)
      && r.symbolTable[vec].value.value[1..] == VectorValues(t, c.ast.child[0]).value.value
      && r.ast.symbol == c.ast.child[1].symbol && r.ast.attrib == [Name(index)]
      && r.ast.child == [Psi(c.ast.shape, VectorNode(vec, |r.symbolTable[vec].value.value|), e)]
  {
    var t := c.symbolTable;
    var index := UniqueIndexName(t);
    AddGeneratedSymbol(t, index, IndexEntry(c.ast.child[1].child[0].shape.value[0]));
    GeneratedNamesDistinct(|t| + 1, |t|);
    var t1 := t[index := IndexEntry(c.ast.child[1].child[0].shape.value[0])];
    assert c.ast.child[0].attrib[0].name != index;
    assert VectorValues(t1, c.ast.child[0]) == VectorValues(t, c.ast.child[0]);
  }

  /**
    `_reduce_psi_outer_*`: `v psi (a op-outer b)` is `(v_a psi a) op (v_b psi b)`,
    where `v_a` takes the first `dim a` components of `v` and `v_b` the last
    `dim b`, with `Suffix` in place of `v[-dim b:]` (see `SuffixAsWritten`).
  */
  function ReducePsiOuter(c: Context): (r: Result<Context, Exception>)
    requires RuleShaped(c.ast, PsiOuter)
  {
    var n, t := c.ast, c.symbolTable;
    var a, b := n.child[1].child[0], n.child[1].child[1];
    match Shape.Dimension(Context(a, t))
    case Err(err) => Err(err)
    case Ok(da) =>
      match VectorValues(t, n.child[0])
      case Err(err) => Err(err)
      case Ok(None) => Err(TypeError)
      case Ok(Some(v)) =>
        var leftName := UniqueArrayName(t);
        var t1 := t[leftName := SymbolEntry(ARRAY, Some([Lit(da)]), Some(Prefix(v, da)))];
        match Shape.Dimension(Context(b, t1))
        case Err(err) => Err(err)
        case Ok(db) =>
          match VectorValues(t1, n.child[0])
          case Err(err) => Err(err)
          case Ok(None) => Err(TypeError)
          case Ok(Some(v1)) =>
            var rightName := UniqueArrayName(t1);
            var t2 := t1[rightName := SymbolEntry(ARRAY, Some([Lit(db)]), Some(Suffix(v1, db)))];
            Ok(Context(Node([n.child[1].symbol[1]], n.shape, [],
                            [Psi(n.shape, VectorNode(leftName, da), a), Psi(n.shape, VectorNode(rightName, db), b)]),
                       t2))
  }

  /**
    When the dimensions of the operands add up to the length of `v`, the two new
    vectors have those lengths and together are `v`.
  */
  lemma ReducePsiOuterSplits(c: Context)
    requires RuleShaped(c.ast, PsiOuter) && FreshNamesUnused(c.symbolTable)
    requires ReducePsiOuter(c).Ok?
    ensures var t := c.symbolTable;
      var n := c.ast;
      var v := VectorValues(t, n.child[0]).value.value;
      var da := Shape.Dimension(Context(n.child[1].child[0], t)).value;
      var r := ReducePsiOuter(c).value;
      var left, right := ArrayName(|t|), ArrayName(|t| + 1);
      && left !in t && right !in t && left != right
      && r.symbolTable[left].value == Some(Prefix(v, da))
      && r.symbolTable[right].value.Some?
      && (da + |r.symbolTable[right].value.value| == |v| ==> r.symbolTable[left].value.value + r.symbolTable[right].value.value == v)
      && r.ast.symbol == [n.child[1].symbol[1]] && |r.ast.child| == 2
      && r.ast.child[0] == Psi(n.shape, VectorNode(left, da), n.child[1].child[0])
      && r.ast.child[1].child[1] == n.child[1].child[1]
  {
    var t := c.symbolTable;
    var n := c.ast;
    var da := Shape.Dimension(Context(n.child[1].child[0], t)).value;
    var v := VectorValues(t, n.child[0]).value.value;
    var leftName := UniqueArrayName(t);
    var t1 := t[leftName := SymbolEntry(ARRAY, Some([Lit(da)]), Some(Prefix(v, da)))];
    AddGeneratedSymbol(t, leftName, SymbolEntry(ARRAY, Some([Lit(da)]), Some(Prefix(v, da))));
    GeneratedNamesDistinct(|t| + 1, |t|);
    assert n.child[0].attrib[0].name != leftName;
    assert VectorValues(t1, n.child[0]) == VectorValues(t, n.child[0]);
    var r := ReducePsiOuter(c).value;
    var right := r.symbolTable[ArrayName(|t| + 1)].value.value;
    if da + |right| == |v| {
      OuterSplit(v, da, |right|);
    }
  }

  /**
    When the reduction rule succeeds and how it fails. The operand's shape is
    read first: `None` is a `TypeError` and `()` an `IndexError`. The index is
    registered before `v` is looked up, so the outcome follows the lookup of `v`
    in the original table unless `v` carries the index's own name, which a
    table whose generated names are unused rules out for a `v` it holds.
  */
  lemma ReducePsiReduceOutcome(c: Context)
    requires RuleShaped(c.ast, PsiReduce)
    ensures c.ast.child[1].child[0].shape.None? ==> ReducePsiReduce(c) == Err(TypeError)
    ensures c.ast.child[1].child[0].shape == Some([]) ==> ReducePsiReduce(c) == Err(IndexError)
    ensures var e, v := c.ast.child[1].child[0], VectorValues(c.symbolTable, c.ast.child[0]);
      !NamesSymbol(c.ast.child[0], UniqueIndexName(c.symbolTable)) ==>
        (ReducePsiReduce(c).Ok? <==> e.shape.Some? && e.shape.value != [] && v.Ok? && v.value.Some?)
    ensures var e, v := c.ast.child[1].child[0], VectorValues(c.symbolTable, c.ast.child[0]);
      !NamesSymbol(c.ast.child[0], UniqueIndexName(c.symbolTable)) && e.shape.Some? && e.shape.value != [] ==>
        && (v.Err? ==> ReducePsiReduce(c) == Err(v.error))
        && (v == Ok(None) ==> ReducePsiReduce(c) == Err(TypeError))
    ensures FreshNamesUnused(c.symbolTable) && VectorValues(c.symbolTable, c.ast.child[0]).Ok? ==>
      !NamesSymbol(c.ast.child[0], UniqueIndexName(c.symbolTable))
  {
    var t := c.symbolTable;
    var e := c.ast.child[1].child[0];
    if !NamesSymbol(c.ast.child[0], UniqueIndexName(t)) && e.shape.Some? && e.shape.value != [] {
      LookupUnaffected(c.ast.child[0], t, UniqueIndexName(t), IndexEntry(e.shape.value[0]));
    }
    if FreshNamesUnused(t) && VectorValues(t, c.ast.child[0]).Ok? {
      FoundNotFresh(c.ast.child[0], t);
    }
  }

  /**
    When the outer rule succeeds and how it fails: the dimension of `a`, then
    the lookup of `v`, then the dimension of `b`, each error raised as it
    comes. The left vector is registered before `b` is measured and `v` read
    again, so the outcome follows the original table unless `b` or `v` carries
    the left vector's name, which a table whose generated names are unused
    rules out for an array it holds.
  */
  lemma ReducePsiOuterOutcome(c: Context)
    requires RuleShaped(c.ast, PsiOuter)
    ensures var da := Shape.Dimension(Context(c.ast.child[1].child[0], c.symbolTable));
      da.Err? ==> ReducePsiOuter(c) == Err(da.error)
    ensures var da := Shape.Dimension(Context(c.ast.child[1].child[0], c.symbolTable));
      var v := VectorValues(c.symbolTable, c.ast.child[0]);
      da.Ok? ==> (v.Err? ==> ReducePsiOuter(c) == Err(v.error)) && (v == Ok(None) ==> ReducePsiOuter(c) == Err(TypeError))
    ensures var da := Shape.Dimension(Context(c.ast.child[1].child[0], c.symbolTable));
      var db := Shape.Dimension(Context(c.ast.child[1].child[1], c.symbolTable));
      var v := VectorValues(c.symbolTable, c.ast.child[0]);
      var left := UniqueArrayName(c.symbolTable);
      !NamesSymbol(c.ast.child[1].child[1], left) && !NamesSymbol(c.ast.child[0], left) ==>
        && (ReducePsiOuter(c).Ok? <==> da.Ok? && v.Ok? && v.value.Some? && db.Ok?)
        && (da.Ok? && v.Ok? && v.value.Some? && db.Err? ==> ReducePsiOuter(c) == Err(db.error))
    ensures FreshNamesUnused(c.symbolTable) && VectorValues(c.symbolTable, c.ast.child[0]).Ok? ==>
      !NamesSymbol(c.ast.child[0], UniqueArrayName(c.symbolTable))
    ensures var b := c.ast.child[1].child[1];
      FreshNamesUnused(c.symbolTable) && Shape.ArrayEntry(Context(b, c.symbolTable)).Ok? ==>
        !NamesSymbol(b, UniqueArrayName(c.symbolTable))
  {
    var t := c.symbolTable;
    var n := c.ast;
    var left := UniqueArrayName(t);
    var da := Shape.Dimension(Context(n.child[1].child[0], t));
    var v := VectorValues(t, n.child[0]);
    if da.Ok? && v.Ok? && v.value.Some? && !NamesSymbol(n.child[1].child[1], left) && !NamesSymbol(n.child[0], left) {
      var e := SymbolEntry(ARRAY, Some([Lit(da.value)]), Some(Prefix(v.value.value, da.value)));
      LookupUnaffected(n.child[1].child[1], t, left, e);
      LookupUnaffected(n.child[0], t, left, e);
    }
    if FreshNamesUnused(t) && v.Ok? {
      FoundNotFresh(n.child[0], t);
    }
    if FreshNamesUnused(t) && Shape.ArrayEntry(Context(n.child[1].child[1], t)).Ok? {
      FoundNotFresh(n.child[1].child[1], t);
    }
  }

  /**
    `_reduce_psi_plus_minus_times_divide`: `v psi (a op b)` is `(v psi a) op (v psi b)`,
    except that a scalar operand is used as it is (scalar extension). The table is
    unchanged.
  */
  function ReducePsiElementwise(c: Context): (r: Result<Context, Exception>)
    requires RuleShaped(c.ast, PsiElementwise)
    ensures r.Ok? <==> Shape.IsScalar(Context(c.ast.child[1].child[0], c.symbolTable)).Ok? &&
                       Shape.IsScalar(Context(c.ast.child[1].child[1], c.symbolTable)).Ok?
    ensures r.Ok? ==> r.value.symbolTable == c.symbolTable
    ensures r.Ok? ==> r.value.ast.symbol == c.ast.child[1].symbol && r.value.ast.shape == c.ast.shape && |r.value.ast.child| == 2
    ensures r.Ok? ==> forall k :: 0 <= k < 2 ==>
      var operand := c.ast.child[1].child[k];
      r.value.ast.child[k] ==
        if Shape.IsScalar(Context(operand, c.symbolTable)) == Ok(true) then operand
        else Psi(c.ast.shape, c.ast.child[0], operand)
  {
    var n, t := c.ast, c.symbolTable;
    var a, b := n.child[1].child[0], n.child[1].child[1];
    match Shape.IsScalar(Context(a, t))
    case Err(err) => Err(err)
    case Ok(sa) =>
      match Shape.IsScalar(Context(b, t))
      case Err(err) => Err(err)
      case Ok(sb) =>
        var left := if sa then a else Psi(n.shape, n.child[0], a);
        var right := if sb then b else Psi(n.shape, n.child[0], b);
        Ok(Context(Node(n.child[1].symbol, n.shape, [], [left, right]), t))
  }

  /** The rule of the given kind applied to a context it fits. */
  function ApplyRule(kind: RuleKind, c: Context): Result<Context, Exception>
    requires RuleShaped(c.ast, kind)
  {
    match kind
    case PsiAssign => Ok(ReducePsiAssign(c))
    case PsiPsi => ReducePsiPsi(c)
    case PsiTranspose => ReducePsiTranspose(c)
    case PsiTransposeV => ReducePsiTransposeV(c)
    case PsiElementwise => ReducePsiElementwise(c)
    case PsiOuter => ReducePsiOuter(c)
    case PsiReduce => ReducePsiReduce(c)
  }

  /**
    `_reduce_replacement` with a given table: the first rule that matches is
    applied, and a node no rule matches is left alone. An operation under `psi`
    with fewer operands than its rule reads is an `IndexError`.
  */
  function ReplacementWith(rules: seq<Rule>, c: Context): Result<Option<Context>, Exception> {
    match FirstMatch(rules, c.ast, 0)
    case None => Ok(None)
    case Some(k) =>
      if RuleShaped(c.ast, rules[k].kind) then
        match ApplyRule(rules[k].kind, c)
        case Err(e) => Err(e)
        case Ok(r) => Ok(Some(r))
      else Err(IndexError)
  }

  /** As written, `_reduce_replacement` never rewrites. */
  lemma ReplacementAsWrittenIsIdentity(c: Context)
    ensures ReplacementWith(AsWrittenRules(), c) == Ok(None)
  {
    if FirstMatch(AsWrittenRules(), c.ast, 0).Some? {
      AsWrittenRulesNeverMatch(c.ast, FirstMatch(AsWrittenRules(), c.ast, 0).value);
    }
  }

  /** `_reduce_replacement` with the corrected table. */
  function ReduceReplacement(c: Context): Result<Option<Context>, Exception> {
    ReplacementWith(Rules(), c)
  }

  /** A `psi` over one of the sixteen operations of the corrected table selects that operation's rule. */
  lemma ReplacementSelectsRule(c: Context, k: nat)
    requires k < |Rules()|
    requires c.ast.symbol == [PSI] && |c.ast.child| == 2 && c.ast.child[1].symbol == Rules()[k].operand
    ensures FirstMatch(Rules(), c.ast, 0) == Some(k)
    ensures RuleShaped(c.ast, Rules()[k].kind) ==>
      ReduceReplacement(c) == match ApplyRule(Rules()[k].kind, c) case Err(e) => Err(e) case Ok(r) => Ok(Some(r))
    ensures !RuleShaped(c.ast, Rules()[k].kind) ==> ReduceReplacement(c) == Err(IndexError)
  {
    RuleMatchesExactly(c.ast, k);
    match FirstMatch(Rules(), c.ast, 0)
    case None =>
    case Some(j) =>
      RuleMatchesExactly(c.ast, j);
      if j < k {
        RuleOperandsDistinct(j, k);
      } else if j > k {
        RuleOperandsDistinct(k, j);
      }
  }

  /** Any other node is left alone. */
  lemma ReplacementLeavesOthers(c: Context)
    requires !(c.ast.symbol == [PSI] && |c.ast.child| == 2) ||
             forall k :: 0 <= k < |Rules()| ==> c.ast.child[1].symbol != Rules()[k].operand
    ensures ReduceReplacement(c) == Ok(None)
  {
    var f := FirstMatch(Rules(), c.ast, 0);
    if f.Some? {
      RuleMatchesExactly(c.ast, f.value);
    }
  }

  lemma AddVectorExtends(t: SymbolTable, values: seq<Elem>)
    requires FreshNamesUnused(t)
    ensures Extends(t, AddVector(t, values))
  {
    AddGeneratedSymbol(t, UniqueArrayName(t), SymbolEntry(ARRAY, Some([Lit(|values|)]), Some(values)));
  }

  lemma ReducePsiPsiExtends(c: Context)
    requires RuleShaped(c.ast, PsiPsi) && FreshNamesUnused(c.symbolTable) && ReducePsiPsi(c).Ok?
    ensures Extends(c.symbolTable, ReducePsiPsi(c).value.symbolTable)
  {
    var t := c.symbolTable;
    var values := ReducePsiPsi(c).value.symbolTable[UniqueArrayName(t)].value.value;
    assert ReducePsiPsi(c).value.symbolTable == AddVector(t, values);
    AddVectorExtends(t, values);
  }

  lemma ReducePsiTransposeExtends(c: Context)
    requires RuleShaped(c.ast, PsiTranspose) && FreshNamesUnused(c.symbolTable) && ReducePsiTranspose(c).Ok?
    ensures Extends(c.symbolTable, ReducePsiTranspose(c).value.symbolTable)
  {
    var t := c.symbolTable;
    var values := ReducePsiTranspose(c).value.symbolTable[UniqueArrayName(t)].value.value;
    assert ReducePsiTranspose(c).value.symbolTable == AddVector(t, values);
    AddVectorExtends(t, values);
  }

  lemma ReducePsiTransposeVExtends(c: Context)
    requires RuleShaped(c.ast, PsiTransposeV) && FreshNamesUnused(c.symbolTable) && ReducePsiTransposeV(c).Ok?
    ensures Extends(c.symbolTable, ReducePsiTransposeV(c).value.symbolTable)
  {
    var t := c.symbolTable;
    var values := ReducePsiTransposeV(c).value.symbolTable[UniqueArrayName(t)].value.value;
    assert ReducePsiTransposeV(c).value.symbolTable == AddVector(t, values);
    AddVectorExtends(t, values);
  }

  lemma ReducePsiReduceExtends(c: Context)
    requires RuleShaped(c.ast, PsiReduce) && FreshNamesUnused(c.symbolTable) && ReducePsiReduce(c).Ok?
    ensures Extends(c.symbolTable, ReducePsiReduce(c).value.symbolTable)
  {
    var t := c.symbolTable;
    var e := c.ast.child[1].child[0];
    var index := UniqueIndexName(t);
    var t1 := t[index := IndexEntry(e.shape.value[0])];
    AddGeneratedExtends(t, index, IndexEntry(e.shape.value[0]));
    var values := ReducePsiReduce(c).value.symbolTable[UniqueArrayName(t1)].value.value;
    assert ReducePsiReduce(c).value.symbolTable == AddVector(t1, values);
    AddVectorExtends(t1, values);
    ExtendsTransitive(t, t1, AddVector(t1, values));
  }

  lemma ReducePsiOuterExtends(c: Context)
    requires RuleShaped(c.ast, PsiOuter) && FreshNamesUnused(c.symbolTable) && ReducePsiOuter(c).Ok?
    ensures Extends(c.symbolTable, ReducePsiOuter(c).value.symbolTable)
  {
    var t := c.symbolTable;
    var t2 := ReducePsiOuter(c).value.symbolTable;
    var left := UniqueArrayName(t);
    var t1 := t[left := t2[left]];
    AddGeneratedExtends(t, left, t2[left]);
    var right := UniqueArrayName(t1);
    assert t2 == t1[right := t2[right]];
    AddGeneratedExtends(t1, right, t2[right]);
    ExtendsTransitive(t, t1, t2);
  }

  /** Every rule only adds entries, under generated names that were fresh. */
  lemma ReplacementExtendsTable(c: Context)
    requires FreshNamesUnused(c.symbolTable)
    requires ReduceReplacement(c).Ok? && ReduceReplacement(c).value.Some?
    ensures Extends(c.symbolTable, ReduceReplacement(c).value.value.symbolTable)
  {
    var k := FirstMatch(Rules(), c.ast, 0).value;
    match Rules()[k].kind
    case PsiAssign =>
    case PsiElementwise =>
    case PsiPsi => ReducePsiPsiExtends(c);
    case PsiTranspose => ReducePsiTransposeExtends(c);
    case PsiTransposeV => ReducePsiTransposeVExtends(c);
    case PsiReduce => ReducePsiReduceExtends(c);
    case PsiOuter => ReducePsiOuterExtends(c);
  }
}
