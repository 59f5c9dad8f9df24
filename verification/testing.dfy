/**
  The comparison helpers of `moa/testing.py`: two expression trees are
  compared node by node, the symbol, then the shape, then the attributes, then
  the number of operands, and the first difference is reported with the path
  of operand indices that leads to it; two symbol tables are compared by their
  names and then entry by entry; two contexts by their trees and then their
  tables.

  Each helper raises `ValueError` whose message names the difference. The model
  returns that difference (`None` when nothing is raised).
*/
module Testing {
  import opened Wrappers
  import opened MoaAst

  datatype Field = SymbolField | ShapeField | AttribField | ArityField

  /** The field compared and the path of operand indices to the node where it differs. */
  datatype Difference = Difference(field: Field, path: seq<nat>)

  /** Lines 11-21: the first of the four fields of two nodes that differs. */
  function FieldDifference(l: Node, r: Node): (f: Option<Field>)
    ensures f.None? <==> l.symbol == r.symbol && l.shape == r.shape && l.attrib == r.attrib && |l.child| == |r.child|
    ensures f == Some(ShapeField) ==> l.symbol == r.symbol
    ensures f == Some(AttribField) ==> l.symbol == r.symbol && l.shape == r.shape
    ensures f == Some(ArityField) ==> l.symbol == r.symbol && l.shape == r.shape && l.attrib == r.attrib
  {
    if l.symbol != r.symbol then Some(SymbolField)
    else if l.shape != r.shape then Some(ShapeField)
    else if l.attrib != r.attrib then Some(AttribField)
    else if |l.child| != |r.child| then Some(ArityField)
    else None
  }

  /** A field that differs between two nodes, compared in the order of lines 11-21. */
  predicate Differs(l: Node, r: Node, f: Field) {
    match f
    case SymbolField => l.symbol != r.symbol
    case ShapeField => l.symbol == r.symbol && l.shape != r.shape
    case AttribField => l.symbol == r.symbol && l.shape == r.shape && l.attrib != r.attrib
    case ArityField => l.symbol == r.symbol && l.shape == r.shape && l.attrib == r.attrib && |l.child| != |r.child|
  }

  /**
    `assert_ast_equal(left, right, index)`: the fields of the two roots, then the
    operands pairwise, left to right, each under `index` extended by its
    position (lines 10-24).
  */
  function AstDifference(l: Node, r: Node, index: seq<nat>): Option<Difference>
    decreases l, 1
  {
    match FieldDifference(l, r)
    case Some(f) => Some(Difference(f, index))
    case None => OperandsDifference(l, r, index, 0)
  }

  function OperandsDifference(l: Node, r: Node, index: seq<nat>, k: nat): Option<Difference>
    requires |l.child| == |r.child| && k <= |l.child|
    decreases l, 0, |l.child| - k
  {
    if k == |l.child| then None
    else match AstDifference(l.child[k], r.child[k], index + [k])
      case Some(d) => Some(d)
      case None => OperandsDifference(l, r, index, k + 1)
  }

  /** The node that a path of operand indices leads to, if it leads anywhere. */
  function At(n: Node, path: seq<nat>): Option<Node>
    decreases path
  {
    if path == [] then Some(n)
    else if path[0] < |n.child| then At(n.child[path[0]], path[1..])
    else None
  }

  /** Nothing is raised exactly when the two trees are equal. */
  lemma {:induction false} AstDifferenceNone(l: Node, r: Node, index: seq<nat>)
    ensures AstDifference(l, r, index).None? <==> l == r
    decreases l, 1
  {
    if FieldDifference(l, r).None? {
      OperandsDifferenceNone(l, r, index, 0);
      if OperandsDifference(l, r, index, 0).None? {
        assert l.child == r.child;
      }
    }
  }

  lemma {:induction false} OperandsDifferenceNone(l: Node, r: Node, index: seq<nat>, k: nat)
    requires |l.child| == |r.child| && k <= |l.child|
    ensures OperandsDifference(l, r, index, k).None? <==> forall j :: k <= j < |l.child| ==> l.child[j] == r.child[j]
    decreases l, 0, |l.child| - k
  {
    if k < |l.child| {
      AstDifferenceNone(l.child[k], r.child[k], index + [k]);
      OperandsDifferenceNone(l, r, index, k + 1);
    }
  }

  /**
    A reported difference lies below `index`, both paths lead to a node, and
    the two nodes it leads to differ in the reported field.
  */
  lemma {:induction false} AstDifferenceLocated(l: Node, r: Node, index: seq<nat>)
    requires AstDifference(l, r, index).Some?
    ensures var d := AstDifference(l, r, index).value;
      |index| <= |d.path| && d.path[..|index|] == index &&
      At(l, d.path[|index|..]).Some? && At(r, d.path[|index|..]).Some? &&
      Differs(At(l, d.path[|index|..]).value, At(r, d.path[|index|..]).value, d.field)
    decreases l, 1
  {
    var d := AstDifference(l, r, index).value;
    if FieldDifference(l, r).None? {
      OperandsDifferenceLocated(l, r, index, 0);
    } else {
      assert d.path[|index|..] == [];
    }
  }

  lemma {:induction false} OperandsDifferenceLocated(l: Node, r: Node, index: seq<nat>, k: nat)
    requires |l.child| == |r.child| && k <= |l.child|
    requires OperandsDifference(l, r, index, k).Some?
    ensures var d := OperandsDifference(l, r, index, k).value;
      |index| < |d.path| && d.path[..|index|] == index && k <= d.path[|index|] < |l.child| &&
      At(l, d.path[|index|..]).Some? && At(r, d.path[|index|..]).Some? &&
      Differs(At(l, d.path[|index|..]).value, At(r, d.path[|index|..]).value, d.field)
    decreases l, 0, |l.child| - k
  {
    var d := OperandsDifference(l, r, index, k).value;
    var below := AstDifference(l.child[k], r.child[k], index + [k]);
    if below.Some? {
      AstDifferenceLocated(l.child[k], r.child[k], index + [k]);
      var rest := d.path[|index| + 1..];
      assert d.path[..|index| + 1] == index + [k];
      assert d.path[..|index|] == index;
      assert d.path[|index|] == k;
      assert d.path[|index|..] == [k] + rest;
      assert d.path[|index|..][1..] == rest;
    } else {
      OperandsDifferenceLocated(l, r, index, k + 1);
    }
  }

  /**
    The difference reported is the first one: every operand left of the path
    is equal on both sides.
  */
  lemma {:induction false} OperandsBeforeEqual(l: Node, r: Node, index: seq<nat>, k: nat)
    requires |l.child| == |r.child| && k <= |l.child|
    requires OperandsDifference(l, r, index, k).Some?
    ensures var d := OperandsDifference(l, r, index, k).value;
      |index| < |d.path| && d.path[|index|] < |l.child| &&
      forall j :: k <= j < d.path[|index|] ==> l.child[j] == r.child[j]
    decreases |l.child| - k
  {
    OperandsDifferenceLocated(l, r, index, k);
    var below := AstDifference(l.child[k], r.child[k], index + [k]);
    if below.None? {
      AstDifferenceNone(l.child[k], r.child[k], index + [k]);
      OperandsBeforeEqual(l, r, index, k + 1);
    } else {
      AstDifferenceLocated(l.child[k], r.child[k], index + [k]);
      assert OperandsDifference(l, r, index, k).value.path[..|index| + 1] == index + [k];
    }
  }

  lemma FirstDifference(l: Node, r: Node)
    requires AstDifference(l, r, []).Some? && |AstDifference(l, r, []).value.path| > 0
    ensures var d := AstDifference(l, r, []).value;
      FieldDifference(l, r).None? && d.path[0] < |l.child| &&
      forall j :: 0 <= j < d.path[0] ==> l.child[j] == r.child[j]
  {
    var d := AstDifference(l, r, []).value;
    if FieldDifference(l, r).None? {
      OperandsBeforeEqual(l, r, [], 0);
    }
  }

  /* ---------------------------------------------------------------------- */
  /* Symbol tables and contexts                                              */

  datatype TableMismatch =
    /** Line 29: the names only the left table has, and those only the right one has. */
    | KeysDiffer(leftOnly: set<string>, rightOnly: set<string>)
    /** Line 33: a name whose two entries differ. */
    | EntryDiffers(key: string)

  /** Lines 31-33 over the names in `keys`, in that order. */
  function EntriesDifference(lt: SymbolTable, rt: SymbolTable, keys: seq<string>): Option<TableMismatch>
    requires forall x :: x in keys ==> x in lt && x in rt
  {
    if keys == [] then None
    else if lt[keys[0]] != rt[keys[0]] then Some(EntryDiffers(keys[0]))
    else EntriesDifference(lt, rt, keys[1..])
  }

  /**
    `assert_symbol_table_equal`: the name sets first, then the entries in the
    order `order` in which the left table lists its names.
  */
  function TableDifference(lt: SymbolTable, rt: SymbolTable, order: seq<string>): Option<TableMismatch>
    requires forall x :: x in order <==> x in lt
  {
    if lt.Keys != rt.Keys then Some(KeysDiffer(lt.Keys - rt.Keys, rt.Keys - lt.Keys))
    else EntriesDifference(lt, rt, order)
  }

  lemma {:induction false} EntriesDifferenceNone(lt: SymbolTable, rt: SymbolTable, keys: seq<string>)
    requires forall x :: x in keys ==> x in lt && x in rt
    ensures EntriesDifference(lt, rt, keys).None? <==> forall j :: 0 <= j < |keys| ==> lt[keys[j]] == rt[keys[j]]
    ensures EntriesDifference(lt, rt, keys).Some? ==>
      exists i :: 0 <= i < |keys| && EntriesDifference(lt, rt, keys) == Some(EntryDiffers(keys[i])) &&
        lt[keys[i]] != rt[keys[i]] && forall j :: 0 <= j < i ==> lt[keys[j]] == rt[keys[j]]
  {
    if keys != [] {
      EntriesDifferenceNone(lt, rt, keys[1..]);
      assert forall j :: 1 <= j < |keys| ==> keys[j] == keys[1..][j - 1];
      if lt[keys[0]] == rt[keys[0]] && EntriesDifference(lt, rt, keys).Some? {
        var i :| 0 <= i < |keys[1..]| && EntriesDifference(lt, rt, keys[1..]) == Some(EntryDiffers(keys[1..][i])) &&
          lt[keys[1..][i]] != rt[keys[1..][i]] && forall j :: 0 <= j < i ==> lt[keys[1..][j]] == rt[keys[1..][j]];
        assert keys[1..][i] == keys[i + 1];
        assert forall j :: 0 <= j < i + 1 ==> lt[keys[j]] == rt[keys[j]] by {
          forall j | 0 < j < i + 1 ensures lt[keys[j]] == rt[keys[j]] {
            assert keys[j] == keys[1..][j - 1];
          }
        }
      }
    }
  }

  /** Nothing is raised exactly when the two tables are equal. */
  lemma TableDifferenceNone(lt: SymbolTable, rt: SymbolTable, order: seq<string>)
    requires forall x :: x in order <==> x in lt
    ensures TableDifference(lt, rt, order).None? <==> lt == rt
  {
    if lt.Keys == rt.Keys {
      EntriesDifferenceNone(lt, rt, order);
      if TableDifference(lt, rt, order).None? {
        forall x | x in lt ensures lt[x] == rt[x] {
          var j :| 0 <= j < |order| && order[j] == x;
        }
      }
    }
  }

  /**
    What is raised names the difference: names missing on either side, or the
    first name, in the left table's order, whose entries differ.
  */
  lemma TableDifferenceReported(lt: SymbolTable, rt: SymbolTable, order: seq<string>)
    requires forall x :: x in order <==> x in lt
    ensures TableDifference(lt, rt, order).Some? && TableDifference(lt, rt, order).value.KeysDiffer? ==>
      var m := TableDifference(lt, rt, order).value;
      (forall x :: x in m.leftOnly <==> x in lt && x !in rt) &&
      (forall x :: x in m.rightOnly <==> x in rt && x !in lt) &&
      m.leftOnly + m.rightOnly != {}
    ensures TableDifference(lt, rt, order).Some? && TableDifference(lt, rt, order).value.EntryDiffers? ==>
      var k := TableDifference(lt, rt, order).value.key;
      lt.Keys == rt.Keys && k in lt && lt[k] != rt[k] &&
      exists i :: 0 <= i < |order| && order[i] == k && forall j :: 0 <= j < i ==> lt[order[j]] == rt[order[j]]
  {
    if lt.Keys == rt.Keys {
      EntriesDifferenceNone(lt, rt, order);
    } else {
      var m := TableDifference(lt, rt, order).value;
      assert m.leftOnly + m.rightOnly != {} by {
        if x :| x in lt.Keys && x !in rt.Keys {
          assert x in m.leftOnly;
        } else {
          var y :| y in rt.Keys && y !in lt.Keys;
          assert y in m.rightOnly;
        }
      }
    }
  }

  datatype ContextMismatch = InAst(difference: Difference) | InTable(mismatch: TableMismatch)

  /** `assert_context_equal`: the trees first, then the tables (lines 5-7). */
  function ContextDifference(lc: Context, rc: Context, order: seq<string>): Option<ContextMismatch>
    requires forall x :: x in order <==> x in lc.symbolTable
  {
    match AstDifference(lc.ast, rc.ast, [])
    case Some(d) => Some(InAst(d))
    case None =>
      match TableDifference(lc.symbolTable, rc.symbolTable, order)
      case Some(m) => Some(InTable(m))
      case None => None
  }

  /** Nothing is raised exactly when the two contexts are equal; a table is compared only under equal trees. */
  lemma ContextDifferenceNone(lc: Context, rc: Context, order: seq<string>)
    requires forall x :: x in order <==> x in lc.symbolTable
    ensures ContextDifference(lc, rc, order).None? <==> lc == rc
    ensures ContextDifference(lc, rc, order).Some? && ContextDifference(lc, rc, order).value.InTable? ==>
      lc.ast == rc.ast && lc.symbolTable != rc.symbolTable
  {
    AstDifferenceNone(lc.ast, rc.ast, []);
    TableDifferenceNone(lc.symbolTable, rc.symbolTable, order);
  }

  /** Two trees that differ in the shape of their second operand's first operand. */
  lemma DifferenceExample(a: Node, b: Node, s: seq<Elem>)
    requires a.shape == Some(s) && b == a.(shape := None)
    ensures var p := NamedArray(None, "A");
      AstDifference(BinaryNode(PLUS, None, p, UnaryNode(TRANSPOSE, None, a)),
                    BinaryNode(PLUS, None, p, UnaryNode(TRANSPOSE, None, b)), []) ==
      Some(Difference(ShapeField, [1, 0]))
  {
    var p := NamedArray(None, "A");
    var ua, ub := UnaryNode(TRANSPOSE, None, a), UnaryNode(TRANSPOSE, None, b);
    var l, r := BinaryNode(PLUS, None, p, ua), BinaryNode(PLUS, None, p, ub);
    assert [1] + [0] == [1, 0];
    assert AstDifference(a, b, [1, 0]) == Some(Difference(ShapeField, [1, 0]));
    assert OperandsDifference(ua, ub, [1], 0) == Some(Difference(ShapeField, [1, 0]));
    assert AstDifference(ua, ub, [1]) == Some(Difference(ShapeField, [1, 0]));
    AstDifferenceNone(p, p, [0]);
    assert [] + [1] == [1] && l.child[1] == ua && r.child[1] == ub;
    assert OperandsDifference(l, r, [], 1) == Some(Difference(ShapeField, [1, 0]));
    assert OperandsDifference(l, r, [], 0) == Some(Difference(ShapeField, [1, 0]));
  }
}
