/**
  `LazyArray` of `moa/frontend/array.py`: an expression builder that holds a
  context (a tree and its symbol table) and grows it in place, one call at a
  time: indexing wraps the tree in `psi` with a new index vector, `transpose`
  wraps it in `transpose` or `transposev`, `reduce` in a reduction.

  Python values passed to the builder are modelled as follows: the items of a
  shape or of a transpose vector are `Elem`s, a string being `Ref(name)`; the
  items of an index expression are `IndexItem`s.
*/
module LazyArrays {
  import opened Wrappers
  import opened Errors
  import opened Names
  import opened MoaAst

  /** An item of an index expression `A[...]`. */
  datatype IndexItem =
    | IntIndex(n: int)
    | NameIndex(name: string)
    | SliceIndex(start: Option<int>, stop: Option<int>, step: Option<int>)
    /** Any other Python object, such as a float. */
    | OtherIndex

  /** `add_symbol(context, name, ARRAY, (), None, None)`: a scalar known by name only. */
  function ScalarEntry(): SymbolEntry {
    SymbolEntry(ARRAY, Some([]), None)
  }

  /** The entry of an index or transpose vector with the given elements. */
  function VectorEntry(elements: seq<Elem>): SymbolEntry {
    SymbolEntry(ARRAY, Some([Lit(|elements|)]), Some(elements))
  }

  /** Every name among the elements, left to right, registered as a scalar. */
  function AddNames(t: SymbolTable, elements: seq<Elem>): SymbolTable
    decreases |elements|
  {
    if elements == [] then t
    else AddNames(if elements[0].Ref? then t[elements[0].name := ScalarEntry()] else t, elements[1..])
  }

  /** The names of `elements` are added as scalars; every other entry is kept. */
  lemma {:induction false} AddNamesEntries(t: SymbolTable, elements: seq<Elem>)
    ensures forall x :: x in AddNames(t, elements) <==> x in t || Ref(x) in elements
    ensures forall x :: Ref(x) in elements ==> AddNames(t, elements)[x] == ScalarEntry()
    ensures forall x :: x in t && Ref(x) !in elements ==> AddNames(t, elements)[x] == t[x]
    decreases |elements|
  {
    if elements != [] {
      var t1 := if elements[0].Ref? then t[elements[0].name := ScalarEntry()] else t;
      AddNamesEntries(t1, elements[1..]);
      assert forall e :: e in elements <==> e == elements[0] || e in elements[1..];
    }
  }

  /** Registering names that do not start with `_` keeps the generated names fresh. */
  lemma {:induction false} AddNamesFresh(t: SymbolTable, elements: seq<Elem>)
    requires FreshNamesUnused(t)
    requires forall x :: Ref(x) in elements ==> !StartsWith(x, "_")
    ensures FreshNamesUnused(AddNames(t, elements))
    decreases |elements|
  {
    if elements != [] {
      if elements[0].Ref? {
        AddUserSymbol(t, elements[0].name, ScalarEntry());
      }
      var t1 := if elements[0].Ref? then t[elements[0].name := ScalarEntry()] else t;
      assert forall x :: Ref(x) in elements[1..] ==> Ref(x) in elements;
      AddNamesFresh(t1, elements[1..]);
    }
  }

  /* ---------------------------------------------------------------------- */
  /* Indexing, lines 23-52                                                   */

  /** The state of the loop of lines 29-42: the table, the index elements so far, the slices so far. */
  datatype Scan = Scan(table: SymbolTable, indices: seq<Elem>, slices: nat)

  /**
    The loop of lines 29-42 over the items left: a name registers a scalar and
    becomes an index element, an integer becomes one, a slice is recorded; a
    name or an integer after a slice, or an item of another type, raises
    `IndexError`.
  */
  function ScanItems(s: Scan, items: seq<IndexItem>): (Scan, Option<Exception>)
    decreases |items|
  {
    if items == [] then (s, None)
    else match items[0]
      case NameIndex(x) =>
        if s.slices > 0 then (s, Some(IndexError))
        else ScanItems(Scan(s.table[x := ScalarEntry()], s.indices + [Ref(x)], 0), items[1..])
      case IntIndex(n) =>
        if s.slices > 0 then (s, Some(IndexError))
        else ScanItems(s.(indices := s.indices + [Lit(n)]), items[1..])
      case SliceIndex(_, _, _) => ScanItems(s.(slices := s.slices + 1), items[1..])
      case OtherIndex => (s, Some(IndexError))
  }

  /**
    `__getitem__` on a context: the scan, then, with index elements, a vector
    symbol under a fresh name and a `psi` of that vector over the tree, and last
    the `NameError` that the misspelled `NotImplemenetedError` of line 51 turns
    into when there are slices. A raise keeps the symbols registered before it.
  */
  function Indexed(c: Context, items: seq<IndexItem>): (Context, Result<(), Exception>) {
    var (s, err) := ScanItems(Scan(c.symbolTable, [], 0), items);
    if err.Some? then (c.(symbolTable := s.table), Err(err.value))
    else
      var c2 :=
        if s.indices == [] then c.(symbolTable := s.table)
        else
          var name := UniqueArrayName(s.table);
          Context(Node([PSI], None, [], [NamedArray(None, name), c.ast]), s.table[name := VectorEntry(s.indices)]);
      (c2, if s.slices > 0 then Err(NameError) else Ok(()))
  }

  predicate IsElement(item: IndexItem) {
    item.IntIndex? || item.NameIndex?
  }

  /** An item that raises `IndexError`: of another type, or an element after a slice. */
  predicate Misplaced(sliced: bool, items: seq<IndexItem>) {
    exists i :: 0 <= i < |items| &&
      (items[i].OtherIndex? || (IsElement(items[i]) && (sliced || exists j :: 0 <= j < i && items[j].SliceIndex?)))
  }

  predicate HasSlice(items: seq<IndexItem>) {
    exists i :: 0 <= i < |items| && items[i].SliceIndex?
  }

  /** The index elements of the items, slices skipped. */
  function Elements(items: seq<IndexItem>): (r: seq<Elem>)
    ensures |r| <= |items|
  {
    if items == [] then []
    else match items[0]
      case NameIndex(x) => [Ref(x)] + Elements(items[1..])
      case IntIndex(n) => [Lit(n)] + Elements(items[1..])
      case _ => Elements(items[1..])
  }

  function SliceCount(items: seq<IndexItem>): nat {
    if items == [] then 0 else (if items[0].SliceIndex? then 1 else 0) + SliceCount(items[1..])
  }

  lemma {:induction false} SliceCountPositive(items: seq<IndexItem>)
    ensures SliceCount(items) > 0 <==> HasSlice(items)
  {
    if items != [] {
      SliceCountPositive(items[1..]);
      assert forall i :: 1 <= i < |items| ==> items[i] == items[1..][i - 1];
      if HasSlice(items[1..]) {
        var i :| 0 <= i < |items[1..]| && items[1..][i].SliceIndex?;
        assert items[i + 1].SliceIndex?;
      }
    }
  }

  /** The scan raises exactly on a misplaced item, and the raise is `IndexError`. */
  lemma {:induction false} ScanRaises(s: Scan, items: seq<IndexItem>)
    ensures ScanItems(s, items).1.Some? <==> Misplaced(s.slices > 0, items)
    ensures ScanItems(s, items).1.Some? ==> ScanItems(s, items).1.value == IndexError
    decreases |items|
  {
    if items != [] {
      var rest := items[1..];
      assert forall i :: 1 <= i < |items| ==> items[i] == rest[i - 1];
      match items[0]
      case NameIndex(x) =>
        if s.slices == 0 {
          ScanRaises(Scan(s.table[x := ScalarEntry()], s.indices + [Ref(x)], 0), rest);
          MisplacedShift(false, items);
        } else {
          assert IsElement(items[0]);
        }
      case IntIndex(n) =>
        if s.slices == 0 {
          ScanRaises(s.(indices := s.indices + [Lit(n)]), rest);
          MisplacedShift(false, items);
        } else {
          assert IsElement(items[0]);
        }
      case SliceIndex(_, _, _) =>
        ScanRaises(s.(slices := s.slices + 1), rest);
        MisplacedAfterSlice(s.slices > 0, items);
      case OtherIndex =>
        assert items[0].OtherIndex?;
    }
  }

  /** An element or a slice at the head, without an earlier slice, shifts the search to the rest. */
  lemma MisplacedShift(sliced: bool, items: seq<IndexItem>)
    requires |items| > 0 && IsElement(items[0]) && !sliced
    ensures Misplaced(sliced, items) <==> Misplaced(false, items[1..])
  {
    var rest := items[1..];
    if Misplaced(sliced, items) {
      var i :| 0 <= i < |items| &&
        (items[i].OtherIndex? || (IsElement(items[i]) && (sliced || exists j :: 0 <= j < i && items[j].SliceIndex?)));
      assert i > 0;
      if !items[i].OtherIndex? {
        var j :| 0 <= j < i && items[j].SliceIndex?;
        assert j > 0 && rest[j - 1].SliceIndex?;
      }
      assert rest[i - 1] == items[i];
    }
    if Misplaced(false, rest) {
      var i :| 0 <= i < |rest| &&
        (rest[i].OtherIndex? || (IsElement(rest[i]) && exists j :: 0 <= j < i && rest[j].SliceIndex?));
      assert items[i + 1] == rest[i];
      if !rest[i].OtherIndex? {
        var j :| 0 <= j < i && rest[j].SliceIndex?;
        assert items[j + 1].SliceIndex?;
      }
    }
  }

  lemma MisplacedAfterSlice(sliced: bool, items: seq<IndexItem>)
    requires |items| > 0 && items[0].SliceIndex?
    ensures Misplaced(sliced, items) <==> Misplaced(true, items[1..])
  {
    var rest := items[1..];
    if Misplaced(sliced, items) {
      var i :| 0 <= i < |items| &&
        (items[i].OtherIndex? || (IsElement(items[i]) && (sliced || exists j :: 0 <= j < i && items[j].SliceIndex?)));
      assert i > 0 && rest[i - 1] == items[i];
    }
    if Misplaced(true, rest) {
      var i :| 0 <= i < |rest| && (rest[i].OtherIndex? || IsElement(rest[i]));
      assert items[i + 1] == rest[i];
      assert items[0].SliceIndex?;
    }
  }

  /** Without a raise, the scan registers the names, collects the elements and counts the slices. */
  lemma {:induction false} ScanCompletes(s: Scan, items: seq<IndexItem>)
    requires ScanItems(s, items).1.None?
    ensures ScanItems(s, items).0 ==
      Scan(AddNames(s.table, Elements(items)), s.indices + Elements(items), s.slices + SliceCount(items))
    decreases |items|
  {
    if items != [] {
      var rest := items[1..];
      match items[0]
      case NameIndex(x) =>
        ScanCompletes(Scan(s.table[x := ScalarEntry()], s.indices + [Ref(x)], 0), rest);
        assert s.indices + [Ref(x)] + Elements(rest) == s.indices + Elements(items);
        assert SliceCount(rest) == SliceCount(items);
      case IntIndex(n) =>
        ScanCompletes(s.(indices := s.indices + [Lit(n)]), rest);
        assert s.indices + [Lit(n)] + Elements(rest) == s.indices + Elements(items);
        assert SliceCount(rest) == SliceCount(items);
      case SliceIndex(_, _, _) =>
        ScanCompletes(s.(slices := s.slices + 1), rest);
      case OtherIndex =>
    }
  }

  /**
    Lines 29-51: `IndexError` exactly for a misplaced item; otherwise the
    `NameError` of line 51 exactly when there is a slice; otherwise nothing is
    raised.
  */
  lemma IndexedRaises(c: Context, items: seq<IndexItem>)
    ensures Indexed(c, items).1 == Err(IndexError) <==> Misplaced(false, items)
    ensures Indexed(c, items).1 == Err(NameError) <==> !Misplaced(false, items) && HasSlice(items)
    ensures Indexed(c, items).1.Ok? <==> !Misplaced(false, items) && !HasSlice(items)
  {
    var s0 := Scan(c.symbolTable, [], 0);
    ScanRaises(s0, items);
    if ScanItems(s0, items).1.None? {
      ScanCompletes(s0, items);
      SliceCountPositive(items);
    }
  }

  /**
    Lines 44-49 once nothing is misplaced: with index elements, the tree
    becomes `psi` of a new vector holding them, in order, over the old tree; the
    names among them are registered as scalars.
  */
  lemma IndexedContext(c: Context, items: seq<IndexItem>)
    requires !Misplaced(false, items)
    ensures var t := AddNames(c.symbolTable, Elements(items));
      var name := UniqueArrayName(t);
      Indexed(c, items).0 ==
        if Elements(items) == [] then Context(c.ast, t)
        else Context(Node([PSI], None, [], [NamedArray(None, name), c.ast]), t[name := VectorEntry(Elements(items))])
  {
    var s0 := Scan(c.symbolTable, [], 0);
    ScanRaises(s0, items);
    ScanCompletes(s0, items);
    assert [] + Elements(items) == Elements(items);
  }

  /**
    With user names that do not start with `_`, the vector's name is new, the
    generated names stay fresh and every entry not named by an index survives.
  */
  lemma IndexedKeepsEntries(c: Context, items: seq<IndexItem>)
    requires FreshNamesUnused(c.symbolTable)
    requires forall i :: 0 <= i < |items| && items[i].NameIndex? ==> !StartsWith(items[i].name, "_")
    requires !Misplaced(false, items)
    ensures var t := Indexed(c, items).0.symbolTable;
      FreshNamesUnused(t) &&
      forall x :: x in c.symbolTable && Ref(x) !in Elements(items) ==> x in t && t[x] == c.symbolTable[x]
  {
    var es := Elements(items);
    ElementNames(items);
    AddNamesFresh(c.symbolTable, es);
    AddNamesEntries(c.symbolTable, es);
    IndexedContext(c, items);
    var t := AddNames(c.symbolTable, es);
    if es != [] {
      AddGeneratedSymbol(t, UniqueArrayName(t), VectorEntry(es));
    }
  }

  lemma {:induction false} ElementNames(items: seq<IndexItem>)
    ensures forall x :: Ref(x) in Elements(items) ==> exists i :: 0 <= i < |items| && items[i] == NameIndex(x)
  {
    if items != [] {
      ElementNames(items[1..]);
      forall x | Ref(x) in Elements(items)
        ensures exists i :: 0 <= i < |items| && items[i] == NameIndex(x)
      {
        if items[0] == NameIndex(x) {
          assert items[0] == NameIndex(x);
        } else {
          assert Ref(x) in Elements(items[1..]);
          var i :| 0 <= i < |items[1..]| && items[1..][i] == NameIndex(x);
          assert items[i + 1] == NameIndex(x);
        }
      }
    }
  }

  /* ---------------------------------------------------------------------- */
  /* Transposition, lines 76-93                                              */

  /**
    `transpose`: without a vector, `transpose` over the tree; with one, its
    names registered as scalars, a vector symbol under a fresh name, and
    `transposev` of that vector over the tree.
  */
  function Transposed(c: Context, v: Option<seq<Elem>>): Context {
    if v.None? then Context(Node([TRANSPOSE], None, [], [c.ast]), c.symbolTable)
    else
      var t := AddNames(c.symbolTable, v.value);
      var name := UniqueArrayName(t);
      Context(Node([TRANSPOSEV], None, [], [NamedArray(None, name), c.ast]), t[name := VectorEntry(v.value)])
  }

  /** The old tree is the operand, the vector is kept as given, and the table only grows. */
  lemma TransposedKeepsTree(c: Context, v: Option<seq<Elem>>)
    requires FreshNamesUnused(c.symbolTable)
    requires v.Some? ==> forall x :: Ref(x) in v.value ==> !StartsWith(x, "_")
    ensures var r := Transposed(c, v);
      |r.ast.child| > 0 && r.ast.child[|r.ast.child| - 1] == c.ast &&
      (v.None? ==> r.symbolTable == c.symbolTable) &&
      (v.Some? ==> SymbolName(r.ast.child[0]).Some? &&
                   r.symbolTable[SymbolName(r.ast.child[0]).value] == VectorEntry(v.value) &&
                   SymbolName(r.ast.child[0]).value !in c.symbolTable) &&
      FreshNamesUnused(r.symbolTable) &&
      forall x :: x in c.symbolTable && (v.None? || Ref(x) !in v.value) ==>
        x in r.symbolTable && r.symbolTable[x] == c.symbolTable[x]
  {
    if v.Some? {
      var t := AddNames(c.symbolTable, v.value);
      AddNamesEntries(c.symbolTable, v.value);
      AddNamesFresh(c.symbolTable, v.value);
      AddGeneratedSymbol(t, UniqueArrayName(t), VectorEntry(v.value));
    }
  }

  /**
    Line 70 as written: `NodeSymbol` is not imported there, so any name among
    the elements raises `NameError` before anything is registered; elements
    without names come back unchanged.
  */
  function ListTupleAsWritten(value: seq<Elem>): (r: Result<seq<Elem>, Exception>)
    ensures r.Err? <==> exists x :: Ref(x) in value
    ensures r.Err? ==> r.error == NameError
    ensures r.Ok? ==> r.value == value
  {
    if exists i :: 0 <= i < |value| && value[i].Ref? then Err(NameError) else Ok(value)
  }

  /** `transpose(['n', 0])` raises as written; read as line 33 reads, it registers `n`. */
  lemma SymbolicTransposeVector(c: Context)
    ensures ListTupleAsWritten([Ref("n"), Lit(0)]) == Err(NameError)
    ensures var r := Transposed(c, Some([Ref("n"), Lit(0)]));
      "n" in r.symbolTable && r.symbolTable["n"] == ScalarEntry() &&
      r.ast.child[0] == NamedArray(None, UniqueArrayName(c.symbolTable["n" := ScalarEntry()]))
  {
    assert Ref("n") in [Ref("n"), Lit(0)];
    var t := c.symbolTable["n" := ScalarEntry()];
    assert AddNames(c.symbolTable, [Ref("n"), Lit(0)]) == AddNames(t, [Lit(0)]);
    assert AddNames(t, [Lit(0)]) == AddNames(t, []);
    GeneratedNamePrefixes(|t|);
    assert UniqueArrayName(t) != "n";
  }

  /* ---------------------------------------------------------------------- */
  /* Reduction, lines 116-129                                                */

  /** Python's `a in b` on strings: `a` occurs in `b`. */
  predicate Occurs(a: string, b: string) {
    exists i :: 0 <= i <= |b| - |a| && OccursAt(a, b, i)
  }

  /** `a` occurs in `b` starting at position `i`. */
  predicate OccursAt(a: string, b: string, i: int) {
    0 <= i <= |b| - |a| && b[i..i + |a|] == a
  }

  /** The guard of line 123, `operation not in operation`, never holds. */
  lemma GuardNeverHolds(op: string)
    ensures Occurs(op, op)
  {
    assert op[0..|op|] == op;
    assert OccursAt(op, op, 0);
  }

  /** The entries of `operation_map` (lines 117-122). */
  function OperationMap(): map<string, seq<NodeSymbol>> {
    map["+" := [REDUCE, PLUS], "-" := [REDUCE, MINUS], "*" := [REDUCE, TIMES], "/" := [REDUCE, DIVIDE]]
  }

  /**
    The symbols of a reduction by `op` as written: the guard never fires, so
    an operation outside the map raises `KeyError` from the lookup at line 127.
  */
  function ReduceSymbolsAsWritten(op: string): (r: Result<seq<NodeSymbol>, Exception>)
    ensures r.Ok? <==> op in OperationMap()
    ensures r.Ok? ==> r.value == OperationMap()[op]
    ensures r.Err? ==> r.error == KeyError
  {
    GuardNeverHolds(op);
    if !Occurs(op, op) then Err(ValueError)
    else if op !in OperationMap() then Err(KeyError)
    else Ok(OperationMap()[op])
  }

  /** The symbols of a reduction by `op`, with the guard checking the map as its message says. */
  function ReduceSymbols(op: string): (r: Result<seq<NodeSymbol>, Exception>)
    ensures r.Ok? <==> op in {"+", "-", "*", "/"}
    ensures r.Ok? ==> |r.value| == 2 && r.value[0] == REDUCE && r.value[1] in {PLUS, MINUS, TIMES, DIVIDE}
    ensures r.Err? ==> r.error == ValueError
  {
    if op !in OperationMap() then Err(ValueError) else Ok(OperationMap()[op])
  }

  /** The two readings agree on the four operations and differ only in the exception otherwise. */
  lemma ReduceReadings(op: string)
    ensures ReduceSymbolsAsWritten(op).Ok? <==> ReduceSymbols(op).Ok?
    ensures ReduceSymbols(op).Ok? ==> ReduceSymbolsAsWritten(op) == ReduceSymbols(op)
    ensures ReduceSymbols(op).Err? ==> ReduceSymbolsAsWritten(op) == Err(KeyError) && ReduceSymbols(op) == Err(ValueError)
  {
  }

  /** `reduce('%')` raises `KeyError` as written, where `ValueError` is meant. */
  lemma UnknownReduction()
    ensures ReduceSymbolsAsWritten("%") == Err(KeyError)
    ensures ReduceSymbols("%") == Err(ValueError)
  {
  }

  /* ---------------------------------------------------------------------- */
  /* Construction, lines 10-21                                               */

  /**
    Line 18 as written: `name or generate_unique_array_name(self.context)`
    reads `self.context` before line 20 creates it, so an empty name raises
    `AttributeError`.
  */
  function ArrayNameAsWritten(name: string): (r: Result<string, Exception>)
    ensures r.Err? <==> name == ""
    ensures r.Err? ==> r.error == AttributeError
    ensures r.Ok? ==> r.value == name
  {
    if name == "" then Err(AttributeError) else Ok(name)
  }

  /** Line 18 as meant: an empty name is replaced by a generated one, from the empty table the array starts with. */
  function ArrayName(name: string): (r: string)
    ensures r != ""
    ensures name != "" ==> r == name
    ensures name == "" ==> StartsWith(r, "_a")
  {
    GeneratedNamePrefixes(0);
    if name == "" then UniqueArrayName(map[]) else name
  }

  /** `LazyArray(shape=(2, 3), name='')` raises as written; as meant it is the array `_a0`. */
  lemma EmptyArrayName()
    ensures ArrayNameAsWritten("") == Err(AttributeError)
    ensures ArrayName("") == Names.ArrayName(0)
  {
  }

  class LazyArray {
    var context: Context

    /** Lines 20-21: one array node and one entry with the shape and no value. */
    constructor Named(name: string, shape: seq<Elem>)
      ensures context == Context(NamedArray(None, name), map[name := SymbolEntry(ARRAY, Some(shape), None)])
    {
      context := Context(NamedArray(None, name), map[name := SymbolEntry(ARRAY, Some(shape), None)]);
    }

    /**
      The loop of lines 67-74, `NodeSymbol` read as `ast.NodeSymbol` as line 33
      reads it: every name among the elements is registered as a scalar, in
      order, and the elements come back with the names standing for those
      scalars.
    */
    method ListTuple(value: seq<Elem>) returns (elements: seq<Elem>)
      modifies this
      ensures elements == value
      ensures context == Context(old(context).ast, AddNames(old(context).symbolTable, value))
    {
      elements := [];
      var k := 0;
      while k < |value|
        invariant 0 <= k <= |value|
        invariant elements == value[..k]
        invariant context.ast == old(context).ast
        invariant AddNames(context.symbolTable, value[k..]) == AddNames(old(context).symbolTable, value)
      {
        assert value[k..][1..] == value[k + 1..];
        if value[k].Ref? {
          context := Context(context.ast, context.symbolTable[value[k].name := ScalarEntry()]);
        }
        elements := elements + [value[k]];
        k := k + 1;
      }
      assert value[..k] == value;
    }

    /** `__getitem__`: the scan of the items, then the `psi` node (lines 23-52). */
    method GetItem(items: seq<IndexItem>) returns (r: Result<(), Exception>)
      modifies this
      ensures (context, r) == Indexed(old(context), items)
    {
      var indices: seq<Elem> := [];
      var slices: nat := 0;
      var k := 0;
      while k < |items|
        invariant 0 <= k <= |items|
        invariant context.ast == old(context).ast
        invariant ScanItems(Scan(context.symbolTable, indices, slices), items[k..]) ==
                  ScanItems(Scan(old(context).symbolTable, [], 0), items)
        decreases |items| - k
      {
        assert items[k..][1..] == items[k + 1..];
        match items[k] {
          case NameIndex(x) =>
            if slices > 0 {
              return Err(IndexError);
            }
            context := Context(context.ast, context.symbolTable[x := ScalarEntry()]);
            indices := indices + [Ref(x)];
          case IntIndex(n) =>
            if slices > 0 {
              return Err(IndexError);
            }
            indices := indices + [Lit(n)];
          case SliceIndex(_, _, _) =>
            slices := slices + 1;
          case OtherIndex =>
            return Err(IndexError);
        }
        k := k + 1;
      }
      if indices != [] {
        var name := UniqueArrayName(context.symbolTable);
        context := Context(Node([PSI], None, [], [NamedArray(None, name), context.ast]),
                           context.symbolTable[name := VectorEntry(indices)]);
      }
      if slices > 0 {
        return Err(NameError);
      }
      return Ok(());
    }

    /** `transpose(transpose_vector)` (lines 80-93). */
    method Transpose(v: Option<seq<Elem>>)
      modifies this
      ensures context == Transposed(old(context), v)
    {
      if v.None? {
        context := Context(Node([TRANSPOSE], None, [], [context.ast]), context.symbolTable);
      } else {
        var vector := ListTuple(v.value);
        var name := UniqueArrayName(context.symbolTable);
        context := Context(Node([TRANSPOSEV], None, [], [NamedArray(None, name), context.ast]),
                           context.symbolTable[name := VectorEntry(vector)]);
      }
    }

    /** The property `T` (lines 76-78). */
    method T()
      modifies this
      ensures context == Transposed(old(context), None)
    {
      Transpose(None);
    }

    /** `reduce(operation)` (lines 116-129): the tree under the reduction's symbols, the table unchanged. */
    method Reduce(op: string) returns (r: Result<(), Exception>)
      modifies this
      ensures r.Err? <==> ReduceSymbols(op).Err?
      ensures r.Err? ==> r.error == ValueError && context == old(context)
      ensures r.Ok? ==> context == Context(Node(ReduceSymbols(op).value, None, [], [old(context).ast]), old(context).symbolTable)
    {
      var symbols := ReduceSymbols(op);
      if symbols.Err? {
        return Err(symbols.error);
      }
      context := Context(Node(symbols.value, None, [], [context.ast]), context.symbolTable);
      return Ok(());
    }
  }

  /**
    The constructor (lines 10-21): `ValueError` without a name and a value,
    the `NameError` of the misspelled `NotImplemenetedError` for a value, and
    `AttributeError` for a shape with names, whose registration at line 70
    reads `self.context` before line 20 creates it.
  */
  method NewLazyArray(shape: seq<Elem>, value: Option<seq<Elem>>, name: Option<string>)
    returns (r: Result<LazyArray, Exception>)
    ensures r.Err? <==> value.Some? || name.None? || exists x :: Ref(x) in shape
    ensures r.Err? && value.None? && name.None? ==> r.error == ValueError
    ensures r.Err? && value.Some? ==> r.error == NameError
    ensures r.Err? && value.None? && name.Some? ==> r.error == AttributeError
    ensures r.Ok? ==> fresh(r.value)
    ensures r.Ok? ==>
      var n := ArrayName(name.value);
      r.value.context == Context(NamedArray(None, n), map[n := SymbolEntry(ARRAY, Some(shape), None)])
  {
    if name.None? && value.None? {
      return Err(ValueError);
    }
    if value.Some? {
      return Err(NameError);
    }
    if exists i :: 0 <= i < |shape| && shape[i].Ref? {
      return Err(AttributeError);
    }
    var a := new LazyArray.Named(ArrayName(name.value), shape);
    return Ok(a);
  }

  /* ---------------------------------------------------------------------- */
  /* The expressions of the tests                                            */

  function ArrayA(): Context {
    Context(NamedArray(None, "A"), map["A" := SymbolEntry(ARRAY, Some(Lits([2, 3])), None)])
  }

  /** `A[0]`: `psi` of `_a1 = <0>` over `A`. */
  lemma IndexIntExample()
    ensures Indexed(ArrayA(), [IntIndex(0)]) ==
      (Context(Node([PSI], None, [], [NamedArray(None, "_a1"), NamedArray(None, "A")]),
               ArrayA().symbolTable["_a1" := SymbolEntry(ARRAY, Some([Lit(1)]), Some([Lit(0)]))]), Ok(()))
  {
    var t := ArrayA().symbolTable;
    assert ScanItems(Scan(t, [], 0), [IntIndex(0)]) == (Scan(t, [Lit(0)], 0), None) by {
      assert [IntIndex(0)][1..] == [];
      assert [] + [Lit(0)] == [Lit(0)];
    }
    assert |t| == 1;
    assert UniqueArrayName(t) == "_a1" by {
      assert NatToString(1) == "1";
    }
  }

  /** `A[1, 0]`: `psi` of `_a1 = <1 0>` over `A`. */
  lemma IndexTupleExample()
    ensures Indexed(ArrayA(), [IntIndex(1), IntIndex(0)]) ==
      (Context(Node([PSI], None, [], [NamedArray(None, "_a1"), NamedArray(None, "A")]),
               ArrayA().symbolTable["_a1" := SymbolEntry(ARRAY, Some([Lit(2)]), Some([Lit(1), Lit(0)]))]), Ok(()))
  {
    var t := ArrayA().symbolTable;
    assert ScanItems(Scan(t, [Lit(1)], 0), [IntIndex(0)]) == (Scan(t, [Lit(1), Lit(0)], 0), None) by {
      assert [IntIndex(0)][1..] == [];
      assert [Lit(1)] + [Lit(0)] == [Lit(1), Lit(0)];
    }
    assert ScanItems(Scan(t, [], 0), [IntIndex(1), IntIndex(0)]) == (Scan(t, [Lit(1), Lit(0)], 0), None) by {
      assert [IntIndex(1), IntIndex(0)][1..] == [IntIndex(0)];
      assert [] + [Lit(1)] == [Lit(1)];
    }
    assert |t| == 1;
    assert UniqueArrayName(t) == "_a1" by {
      assert NatToString(1) == "1";
    }
  }

  /** `A['n']`: the scalar `n`, then `psi` of `_a2 = <n>` over `A`. */
  lemma IndexSymbolExample()
    ensures Indexed(ArrayA(), [NameIndex("n")]) ==
      (Context(Node([PSI], None, [], [NamedArray(None, "_a2"), NamedArray(None, "A")]),
               ArrayA().symbolTable["n" := ScalarEntry()]["_a2" := SymbolEntry(ARRAY, Some([Lit(1)]), Some([Ref("n")]))]), Ok(()))
  {
    var t0 := ArrayA().symbolTable;
    var t := t0["n" := ScalarEntry()];
    assert ScanItems(Scan(t0, [], 0), [NameIndex("n")]) == (Scan(t, [Ref("n")], 0), None) by {
      assert [NameIndex("n")][1..] == [];
      assert [] + [Ref("n")] == [Ref("n")];
    }
    assert t.Keys == {"A", "n"};
    assert |t| == 2;
    assert UniqueArrayName(t) == "_a2" by {
      assert NatToString(2) == "2";
    }
  }

  /** `A.T` and `A.transpose([1, 0])`. */
  lemma TransposeExamples()
    ensures Transposed(ArrayA(), None) == Context(Node([TRANSPOSE], None, [], [NamedArray(None, "A")]), ArrayA().symbolTable)
    ensures Transposed(ArrayA(), Some(Lits([1, 0]))) ==
      Context(Node([TRANSPOSEV], None, [], [NamedArray(None, "_a1"), NamedArray(None, "A")]),
              ArrayA().symbolTable["_a1" := SymbolEntry(ARRAY, Some([Lit(2)]), Some(Lits([1, 0])))])
  {
    var t := ArrayA().symbolTable;
    assert Lits([1, 0]) == [Lit(1), Lit(0)];
    assert AddNames(t, [Lit(1), Lit(0)]) == t by {
      assert [Lit(1), Lit(0)][1..] == [Lit(0)];
      assert [Lit(0)][1..] == [];
    }
    assert |t| == 1;
    assert UniqueArrayName(t) == "_a1" by {
      assert NatToString(1) == "1";
    }
  }
}
