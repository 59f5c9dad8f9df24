/**
  The rewrites of `moa/dnf.py` on the symbol tables and trees of the
  repository's own test cases.
*/
module DnfExamples {
  import opened Wrappers
  import opened MoaAst
  import opened Names
  import opened Dnf
  import Shape

  function Entry(shape: seq<int>, value: Option<seq<Elem>>): SymbolEntry {
    SymbolEntry(ARRAY, Some(Lits(shape)), value)
  }

  /** `A` of shape (2, 3) indexed by `<_i1 _i2>`, recorded as `_a3`. */
  lemma IndexingExample()
    ensures var t := map["A" := Entry([2, 3], Some(Lits([1, 2, 3, 4, 5, 6])))];
      var a := NamedArray(Some(Lits([2, 3])), "A");
      Indexed(Context(a, t)) == Ok(Context(
        Psi(Some(Lits([2, 3])), VectorNode("_a3", 2), a),
        t["_i1" := IndexEntry(Lit(2))]["_i2" := IndexEntry(Lit(3))]["_a3" := Entry([2], Some([Ref("_i1"), Ref("_i2")]))]))
  {
    var t := map["A" := Entry([2, 3], Some(Lits([1, 2, 3, 4, 5, 6])))];
    assert |t| == 1;
    var t1 := t["_i1" := IndexEntry(Lit(2))];
    assert |t1| == 2;
    var t2 := t1["_i2" := IndexEntry(Lit(3))];
    assert |t2| == 3;
    assert Lits([2, 3]) == [Lit(2), Lit(3)];
    assert NatToString(1) == "1" && NatToString(2) == "2" && NatToString(3) == "3";
    assert UniqueIndexName(t) == "_i1" && UniqueIndexName(t1) == "_i2" && UniqueArrayName(t2) == "_a3";
    assert [Lit(3)][1..] == [] && [Lit(2), Lit(3)][1..] == [Lit(3)];
    assert AddIndices(t2, []) == (t2, []);
    var r2 := AddIndices(t1[UniqueIndexName(t1) := IndexEntry([Lit(3)][0])], [Lit(3)][1..]);
    assert t1[UniqueIndexName(t1) := IndexEntry([Lit(3)][0])] == t2;
    assert r2 == (t2, []);
    assert AddIndices(t1, [Lit(3)]) == (r2.0, [Ref(UniqueIndexName(t1))] + r2.1);
    assert [Ref(UniqueIndexName(t1))] + r2.1 == [Ref("_i2")];
    assert AddIndices(t1, [Lit(3)]) == (t2, [Ref("_i2")]);
    var r1 := AddIndices(t[UniqueIndexName(t) := IndexEntry([Lit(2), Lit(3)][0])], [Lit(2), Lit(3)][1..]);
    assert t[UniqueIndexName(t) := IndexEntry([Lit(2), Lit(3)][0])] == t1;
    assert r1 == (t2, [Ref("_i2")]);
    assert [Ref(UniqueIndexName(t))] + r1.1 == [Ref("_i1"), Ref("_i2")];
    assert AddIndices(t, [Lit(2), Lit(3)]) == (t2, [Ref("_i1"), Ref("_i2")]);
    assert Lits([2]) == [Lit(2)];
  }

  function PsiPsiTable(): SymbolTable {
    map["_i0" := IndexEntry(Lit(3)), "_a1" := Entry([1], Some([Ref("_i0")])),
        "_a2" := Entry([3], Some(Lits([1, 2, 3]))), "_a3" := Entry([1, 2, 3, 4], None)]
  }

  function A3(): Node {
    NamedArray(Some(Lits([1, 2, 3, 4])), "_a3")
  }

  function PsiPsiTree(): Node {
    Psi(Some([Lit(0)]), VectorNode("_a1", 1), Psi(Some([Lit(4)]), VectorNode("_a2", 3), A3()))
  }

  /** `<_i0> psi (<1 2 3> psi _a3)` becomes `<1 2 3 _i0> psi _a3`, the new vector recorded as `_a4`. */
  lemma PsiPsiExample()
    ensures ReducePsiPsi(Context(PsiPsiTree(), PsiPsiTable())) == Ok(Context(
        Psi(Some([Lit(0)]), VectorNode("_a4", 4), A3()),
        PsiPsiTable()["_a4" := Entry([4], Some([Lit(1), Lit(2), Lit(3), Ref("_i0")]))]))
  {
    var t := PsiPsiTable();
    assert |t| == 4;
    assert NatToString(4) == "4" && UniqueArrayName(t) == "_a4";
    assert Lits([1, 2, 3]) == [Lit(1), Lit(2), Lit(3)] && Lits([1]) == [Lit(1)] && Lits([3]) == [Lit(3)] && Lits([4]) == [Lit(4)];
    var c := Context(PsiPsiTree(), t);
    var inner := Context(VectorNode("_a2", 3), t);
    assert Shape.ArrayEntry(inner) == Ok(Entry([3], Some(Lits([1, 2, 3]))));
    assert Shape.IsVector(inner) == Ok(true);
    assert VectorValues(t, VectorNode("_a1", 1)) == Ok(Some([Ref("_i0")]));
    assert Lits([1, 2, 3]) + [Ref("_i0")] == [Lit(1), Lit(2), Lit(3), Ref("_i0")];
  }

  /** The corrected rule table selects the `psi`-over-`psi` rule for that tree. */
  lemma PsiPsiSelected()
    ensures ReduceReplacement(Context(PsiPsiTree(), PsiPsiTable())) == Ok(Some(ReducePsiPsi(Context(PsiPsiTree(), PsiPsiTable())).value))
  {
    var c := Context(PsiPsiTree(), PsiPsiTable());
    PsiPsiExample();
    assert Rules()[1].operand == [PSI] && Rules()[1].kind == PsiPsi;
    ReplacementSelectsRule(c, 1);
    assert RuleShaped(c.ast, PsiPsi);
    assert ApplyRule(PsiPsi, c) == ReducePsiPsi(c);
    assert ReducePsiPsi(c).Ok?;
    assert ApplyRule(Rules()[1].kind, c).Ok?;
    assert ReduceReplacement(c) == Ok(Some(ApplyRule(Rules()[1].kind, c).value));
    assert ReduceReplacement(c) == Ok(Some(ReducePsiPsi(c).value));
  }

  /** `<_i0 _i1 1 0> psi transpose(_a3)` becomes `<0 1 _i1 _i0> psi _a3`, recorded as `_a4`. */
  lemma PsiTransposeExample()
    ensures var t := map["_i0" := IndexEntry(Lit(3)), "_i1" := IndexEntry(Lit(2)),
                         "_a2" := Entry([4], Some([Ref("_i0"), Ref("_i1"), Lit(1), Lit(0)])), "_a3" := Entry([1, 2, 3, 4], None)];
      var tree := Psi(Some([Lit(0)]), VectorNode("_a2", 4), Node([TRANSPOSE], Some(Lits([4, 3, 2, 1])), [], [A3()]));
      ReducePsiTranspose(Context(tree, t)) == Ok(Context(
        Psi(Some([Lit(0)]), VectorNode("_a4", 4), A3()),
        t["_a4" := Entry([4], Some([Lit(0), Lit(1), Ref("_i1"), Ref("_i0")]))]))
  {
    var t := map["_i0" := IndexEntry(Lit(3)), "_i1" := IndexEntry(Lit(2)),
                 "_a2" := Entry([4], Some([Ref("_i0"), Ref("_i1"), Lit(1), Lit(0)])), "_a3" := Entry([1, 2, 3, 4], None)];
    assert |t| == 4;
    assert NatToString(4) == "4" && UniqueArrayName(t) == "_a4";
    assert Lits([4]) == [Lit(4)];
    var v := [Ref("_i0"), Ref("_i1"), Lit(1), Lit(0)];
    assert VectorValues(t, VectorNode("_a2", 4)) == Ok(Some(v));
    assert Shape.Reverse(v) == [Lit(0), Lit(1), Ref("_i1"), Ref("_i0")];
  }

  /** A vector of numbers has those numbers as its keys. */
  lemma KeysOfLits(ns: seq<int>)
    ensures Keys(Lits(ns)) == Some(ns)
  {
    var perm := Lits(ns);
    forall e | e in perm
      ensures e.Lit?
    {
      var i :| 0 <= i < |perm| && perm[i] == e;
    }
    var ks := Keys(perm).value;
    assert |ks| == |ns|;
    forall k | 0 <= k < |ns|
      ensures ks[k] == ns[k]
    {
      assert Lit(ks[k]) == perm[k] == Lit(ns[k]);
    }
    assert ks == ns;
  }

  lemma KeysExample()
    ensures Keys(Lits([4, 2, 3, 1])) == Some([4, 2, 3, 1])
  {
    KeysOfLits([4, 2, 3, 1]);
  }

  function TransposeVTable(): SymbolTable {
    map["_a0" := Entry([4], Some(Lits([3, 2, 1, 1]))), "_a1" := Entry([4], Some(Lits([4, 2, 3, 1]))),
        "_a2" := Entry([2, 3, 5, 7], None)]
  }

  function A2(): Node {
    NamedArray(Some(Lits([2, 3, 5, 7])), "_a2")
  }

  lemma PermuteExample()
    ensures PermuteByKeys([4, 2, 3, 1], Lits([3, 2, 1, 1])) == Lits([1, 2, 1, 3])
  {
    assert Lits([3, 2, 1, 1]) == [Lit(3), Lit(2), Lit(1), Lit(1)];
    assert Lits([1, 2, 1, 3]) == [Lit(1), Lit(2), Lit(1), Lit(3)];
    PermuteByKeysExample();
  }

  function TransposeVContext(): Context {
    Context(Psi(Some([]), VectorNode("_a0", 4), Node([TRANSPOSEV], Some(Lits([7, 3, 5, 2])), [], [VectorNode("_a1", 4), A2()])),
      TransposeVTable())
  }

  lemma TransposeVInputs()
    ensures var c := TransposeVContext();
      && UniqueArrayName(c.symbolTable) == "_a3"
      && RuleShaped(c.ast, PsiTransposeV)
      && VectorValues(c.symbolTable, c.ast.child[1].child[0]) == Ok(Some(Lits([4, 2, 3, 1])))
      && VectorValues(c.symbolTable, c.ast.child[0]) == Ok(Some(Lits([3, 2, 1, 1])))
  {
    var t := TransposeVTable();
    assert |t| == 3;
    assert NatToString(3) == "3";
  }

  /** `<3 2 1 1> psi (<4 2 3 1> transpose _a2)` becomes `<1 2 1 3> psi _a2`, recorded as `_a3`. */
  lemma PsiTransposeVExample()
    ensures ReducePsiTransposeV(TransposeVContext()) == Ok(Context(
        Psi(Some([]), VectorNode("_a3", 4), A2()),
        TransposeVTable()["_a3" := Entry([4], Some(Lits([1, 2, 1, 3])))]))
  {
    var perm, outer := Lits([4, 2, 3, 1]), Lits([3, 2, 1, 1]);
    KeysExample();
    PermuteExample();
    TransposeVInputs();
    ReducePsiTransposeVNumeric(TransposeVContext(), perm, outer, [4, 2, 3, 1], "_a3", Lits([1, 2, 1, 3]));
    assert Lits([4]) == [Lit(4)];
  }

  /** The transposev rule on two equally long vectors whose keys are all numbers. */
  lemma ReducePsiTransposeVNumeric(c: Context, perm: seq<Elem>, outer: seq<Elem>, keys: seq<int>, name: string, values: seq<Elem>)
    requires RuleShaped(c.ast, PsiTransposeV)
    requires VectorValues(c.symbolTable, c.ast.child[1].child[0]) == Ok(Some(perm))
    requires VectorValues(c.symbolTable, c.ast.child[0]) == Ok(Some(outer))
    requires |perm| == |outer| && Keys(perm) == Some(keys)
    requires UniqueArrayName(c.symbolTable) == name && PermuteByKeys(keys, outer) == values
    ensures ReducePsiTransposeV(c) == Ok(Context(Psi(c.ast.shape, VectorNode(name, |perm|), c.ast.child[1].child[1]),
        c.symbolTable[name := SymbolEntry(ARRAY, Some([Lit(|perm|)]), Some(values))]))
  {
    assert perm[..|perm|] == perm;
  }

  function OuterTable(): SymbolTable {
    map["_i0" := IndexEntry(Lit(3)), "_i1" := IndexEntry(Lit(4)), "_i2" := IndexEntry(Lit(5)),
        "_a2" := Entry([4], Some([Ref("_i0"), Ref("_i1"), Ref("_i2")])),
        "_a3" := Entry([3], None), "_a4" := Entry([4, 5], None)]
  }

  function OuterTree(): Node {
    Psi(Some([Lit(0)]), VectorNode("_a2", 4),
        Node([DOT, PLUS], Some(Lits([3, 4, 5])), [], [NamedArray(Some(Lits([3])), "_a3"), NamedArray(Some(Lits([4, 5])), "_a4")]))
  }

  /**
    `<_i0 _i1 _i2> psi (_a3 +-outer _a4)` with `_a3` a vector and `_a4` a matrix becomes
    `(<_i0> psi _a3) + (<_i1 _i2> psi _a4)`, the two vectors recorded as `_a6` and `_a7`.
  */
  lemma PsiOuterExample()
    ensures ReducePsiOuter(Context(OuterTree(), OuterTable())) == Ok(Context(
      Node([PLUS], Some([Lit(0)]), [], [
        Psi(Some([Lit(0)]), VectorNode("_a6", 1), NamedArray(Some(Lits([3])), "_a3")),
        Psi(Some([Lit(0)]), VectorNode("_a7", 2), NamedArray(Some(Lits([4, 5])), "_a4"))]),
      OuterTable()["_a6" := Entry([1], Some([Ref("_i0")]))]["_a7" := Entry([2], Some([Ref("_i1"), Ref("_i2")]))]))
  {
    var t := OuterTable();
    assert |t| == 6;
    assert NatToString(6) == "6" && UniqueArrayName(t) == "_a6";
    var t1 := t["_a6" := Entry([1], Some([Ref("_i0")]))];
    assert |t1| == 7;
    assert NatToString(7) == "7" && UniqueArrayName(t1) == "_a7";
    assert Lits([1]) == [Lit(1)] && Lits([2]) == [Lit(2)] && Lits([4]) == [Lit(4)] && Lits([3]) == [Lit(3)] && Lits([4, 5]) == [Lit(4), Lit(5)];
    var v := [Ref("_i0"), Ref("_i1"), Ref("_i2")];
    assert Shape.Dimension(Context(NamedArray(Some(Lits([3])), "_a3"), t)) == Ok(1);
    assert VectorValues(t, VectorNode("_a2", 4)) == Ok(Some(v));
    assert Prefix(v, 1) == [Ref("_i0")];
    assert Shape.Dimension(Context(NamedArray(Some(Lits([4, 5])), "_a4"), t1)) == Ok(2);
    assert VectorValues(t1, VectorNode("_a2", 4)) == Ok(Some(v));
    assert Suffix(v, 2) == [Ref("_i1"), Ref("_i2")];
  }

  /** The corrected table selects the outer-product rule for the two-symbol operation `(DOT, PLUS)`. */
  lemma PsiOuterSelected()
    ensures var c := Context(OuterTree(), OuterTable());
      ReducePsiOuter(c).Ok? && ReduceReplacement(c) == Ok(Some(ReducePsiOuter(c).value))
  {
    var c := Context(OuterTree(), OuterTable());
    assert ReducePsiOuter(c).Ok? by {
      PsiOuterExample();
    }
    OuterRuleSelected(c);
  }

  /** Any `psi` over `(DOT, PLUS)` with two operands goes to the outer-product rule. */
  lemma OuterRuleSelected(c: Context)
    requires c.ast.symbol == [PSI] && |c.ast.child| == 2 && c.ast.child[1].symbol == [DOT, PLUS] && |c.ast.child[1].child| >= 2
    ensures ReduceReplacement(c) == match ReducePsiOuter(c) case Err(e) => Err(e) case Ok(r) => Ok(Some(r))
  {
    assert Rules()[8].operand == [DOT, PLUS] && Rules()[8].kind == PsiOuter;
    ReplacementSelectsRule(c, 8);
  }

  /** `<_i0 _i1> psi (+-reduce _a3)` becomes `+-reduce` over `_i4` of `<_i4 _i0 _i1> psi _a3`. */
  lemma PsiReduceExample()
    ensures var t := map["_i0" := IndexEntry(Lit(4)), "_i1" := IndexEntry(Lit(5)),
                         "_a2" := Entry([2], Some([Ref("_i0"), Ref("_i1")])), "_a3" := Entry([3, 4, 5], None)];
      var a3 := NamedArray(Some(Lits([3, 4, 5])), "_a3");
      var tree := Psi(Some([Lit(0)]), VectorNode("_a2", 2), Node([REDUCE, PLUS], Some(Lits([4, 5])), [], [a3]));
      ReducePsiReduce(Context(tree, t)) == Ok(Context(
        Node([REDUCE, PLUS], Some([Lit(0)]), [Name("_i4")], [Psi(Some([Lit(0)]), VectorNode("_a5", 3), a3)]),
        t["_i4" := IndexEntry(Lit(3))]["_a5" := Entry([3], Some([Ref("_i4"), Ref("_i0"), Ref("_i1")]))]))
  {
    var t := map["_i0" := IndexEntry(Lit(4)), "_i1" := IndexEntry(Lit(5)),
                 "_a2" := Entry([2], Some([Ref("_i0"), Ref("_i1")])), "_a3" := Entry([3, 4, 5], None)];
    assert |t| == 4;
    assert NatToString(4) == "4" && UniqueIndexName(t) == "_i4";
    var t1 := t["_i4" := IndexEntry(Lit(3))];
    assert |t1| == 5;
    assert NatToString(5) == "5" && UniqueArrayName(t1) == "_a5";
    assert Lits([2]) == [Lit(2)] && Lits([3]) == [Lit(3)] && Lits([3, 4, 5]) == [Lit(3), Lit(4), Lit(5)];
    assert VectorValues(t1, VectorNode("_a2", 2)) == Ok(Some([Ref("_i0"), Ref("_i1")]));
    var a3 := NamedArray(Some(Lits([3, 4, 5])), "_a3");
    var tree := Psi(Some([Lit(0)]), VectorNode("_a2", 2), Node([REDUCE, PLUS], Some(Lits([4, 5])), [], [a3]));
    assert tree.child[1].child[0] == a3 && a3.shape.value[0] == Lit(3);
    assert [Ref("_i4")] + [Ref("_i0"), Ref("_i1")] == [Ref("_i4"), Ref("_i0"), Ref("_i1")];
  }

  /** `<1 2 _i0 _i1> psi (_a3 + _a4)` with `_a3` a scalar keeps `_a3` as it is. */
  lemma PsiElementwiseScalarExample()
    ensures var t := map["_i0" := SymbolEntry(INDEX, Some([]), Some(Lits([0, 3]))), "_i1" := SymbolEntry(INDEX, Some([]), Some(Lits([0, 4]))),
                         "_a2" := Entry([4], Some([Lit(1), Lit(2), Ref("_i0"), Ref("_i1")])),
                         "_a3" := Entry([], None), "_a4" := Entry([1, 2, 3, 4], None)];
      var a3 := NamedArray(Some([]), "_a3");
      var a4 := NamedArray(Some(Lits([1, 2, 3, 4])), "_a4");
      var tree := Psi(Some([Lit(0)]), VectorNode("_a2", 4), Node([PLUS], Some(Lits([1, 2, 3, 4])), [], [a3, a4]));
      ReducePsiElementwise(Context(tree, t)) == Ok(Context(
        Node([PLUS], Some([Lit(0)]), [], [a3, Psi(Some([Lit(0)]), VectorNode("_a2", 4), a4)]), t))
  {
    var t := map["_i0" := SymbolEntry(INDEX, Some([]), Some(Lits([0, 3]))), "_i1" := SymbolEntry(INDEX, Some([]), Some(Lits([0, 4]))),
                 "_a2" := Entry([4], Some([Lit(1), Lit(2), Ref("_i0"), Ref("_i1")])),
                 "_a3" := Entry([], None), "_a4" := Entry([1, 2, 3, 4], None)];
    assert Lits([]) == [];
    assert Shape.IsScalar(Context(NamedArray(Some([]), "_a3"), t)) == Ok(true);
    assert Shape.IsScalar(Context(NamedArray(Some(Lits([1, 2, 3, 4])), "_a4"), t)) == Ok(false);
  }
}
