/**
  `join_symbol_tables` of `moa/temp.py`: two expression trees, each with its
  own symbol table, are brought under one table. The symbols each tree uses
  are discovered by a post-order visit; compiler-generated names (`_i…`,
  `_a…`) are renumbered from one shared counter, user names are kept and must
  have equal entries on both sides; the trees and the entries are renamed.

  The file as it stands imports nothing (`itertools`, `node_traversal`,
  `MOANodeTypes`, `Node`, `SymbolNode`, `is_symbolic_element` are all
  undefined there); the model gives the names their meaning elsewhere in the
  compiler, the traversal being the post-order one of `moa/ast.py`.
*/
module Temp {
  import opened Wrappers
  import opened Errors
  import opened Names
  import opened MoaAst
  import Arguments

  /* ---------------------------------------------------------------------- */
  /* Symbol discovery                                                        */

  /** `if node.shape:` — the shape is present and not empty. */
  predicate Shaped(n: Node) {
    n.shape.Some? && |n.shape.value| > 0
  }

  /** The names an entry's shape and value refer to. */
  function EntryRefs(e: SymbolEntry): set<string> {
    RefNames(e.shape) + RefNames(e.value)
  }

  /**
    `_visit_node`: a node that already carries a shape raises `ValueError`; an
    array node adds its name and the names its entry refers to, and raises
    `KeyError` when the table has no entry for it.
  */
  function VisitNode(t: SymbolTable, n: Node): Result<set<string>, Exception> {
    if Shaped(n) then Err(ValueError)
    else if n.symbol != [ARRAY] then Ok({})
    else if SymbolName(n).None? || SymbolName(n).value !in t then Err(KeyError)
    else Ok({SymbolName(n).value} + EntryRefs(t[SymbolName(n).value]))
  }

  /** The post-order visit: the operands left to right, then the node; the first raise stops it. */
  function VisitTree(t: SymbolTable, n: Node): Result<set<string>, Exception>
    decreases n, 1
  {
    match VisitChildren(t, n, 0)
    case Err(e) => Err(e)
    case Ok(below) =>
      match VisitNode(t, n)
      case Err(e) => Err(e)
      case Ok(here) => Ok(below + here)
  }

  function VisitChildren(t: SymbolTable, n: Node, k: nat): Result<set<string>, Exception>
    requires k <= |n.child|
    decreases n, 0, |n.child| - k
  {
    if k == |n.child| then Ok({})
    else
      match VisitTree(t, n.child[k])
      case Err(e) => Err(e)
      case Ok(first) =>
        match VisitChildren(t, n, k + 1)
        case Err(e) => Err(e)
        case Ok(rest) => Ok(first + rest)
  }

  /** No node of the tree carries a shape yet. */
  predicate Unshaped(n: Node)
    decreases n
  {
    !Shaped(n) && forall k :: 0 <= k < |n.child| ==> Unshaped(n.child[k])
  }

  /** Every array node of the tree is named, and by one of `keys`. */
  predicate ArraysIn(keys: set<string>, n: Node)
    decreases n
  {
    (n.symbol == [ARRAY] ==> SymbolName(n).Some? && SymbolName(n).value in keys) &&
    forall k :: 0 <= k < |n.child| ==> ArraysIn(keys, n.child[k])
  }

  /** Every array node of the tree names a symbol of the table. */
  predicate ArraysResolve(t: SymbolTable, n: Node) {
    ArraysIn(t.Keys, n)
  }

  /** The names of the array nodes of the tree. */
  function ArrayNames(n: Node): set<string>
    decreases n
  {
    (if n.symbol == [ARRAY] && SymbolName(n).Some? then {SymbolName(n).value} else {}) +
    (set k, x | 0 <= k < |n.child| && x in ArrayNames(n.child[k]) :: x)
  }

  /** The symbols a tree uses: its array names and the names their entries refer to. */
  function Used(t: SymbolTable, n: Node): set<string> {
    ArrayNames(n) + (set y, x | y in ArrayNames(n) && y in t && x in EntryRefs(t[y]) :: x)
  }

  function UsedByChildren(t: SymbolTable, n: Node, k: nat): set<string>
    requires k <= |n.child|
  {
    set j, x | k <= j < |n.child| && x in Used(t, n.child[j]) :: x
  }

  /**
    The visit succeeds exactly when no node is shaped and every array node
    resolves, and then yields the symbols the tree uses; with every array
    resolving it can only raise `ValueError`, with no node shaped only
    `KeyError`.
  */
  lemma {:induction false} VisitTreeMeaning(t: SymbolTable, n: Node)
    ensures VisitTree(t, n).Ok? <==> Unshaped(n) && ArraysResolve(t, n)
    ensures VisitTree(t, n).Ok? ==> VisitTree(t, n).value == Used(t, n)
    ensures VisitTree(t, n).Err? && ArraysResolve(t, n) ==> VisitTree(t, n).error == ValueError
    ensures VisitTree(t, n).Err? && Unshaped(n) ==> VisitTree(t, n).error == KeyError
    ensures VisitTree(t, n).Err? ==> VisitTree(t, n).error == KeyError || VisitTree(t, n).error == ValueError
    decreases n, 1
  {
    VisitChildrenMeaning(t, n, 0);
    if VisitTree(t, n).Ok? {
      var here := VisitNode(t, n).value;
      assert Used(t, n) == here + UsedByChildren(t, n, 0) by {
        UsedSplits(t, n);
      }
    }
  }

  lemma {:induction false} VisitChildrenMeaning(t: SymbolTable, n: Node, k: nat)
    requires k <= |n.child|
    ensures VisitChildren(t, n, k).Ok? <==>
      forall j :: k <= j < |n.child| ==> Unshaped(n.child[j]) && ArraysResolve(t, n.child[j])
    ensures VisitChildren(t, n, k).Ok? ==> VisitChildren(t, n, k).value == UsedByChildren(t, n, k)
    ensures VisitChildren(t, n, k).Err? && (forall j :: k <= j < |n.child| ==> ArraysResolve(t, n.child[j])) ==>
      VisitChildren(t, n, k).error == ValueError
    ensures VisitChildren(t, n, k).Err? && (forall j :: k <= j < |n.child| ==> Unshaped(n.child[j])) ==>
      VisitChildren(t, n, k).error == KeyError
    ensures VisitChildren(t, n, k).Err? ==> VisitChildren(t, n, k).error == KeyError || VisitChildren(t, n, k).error == ValueError
    decreases n, 0, |n.child| - k
  {
    if k < |n.child| {
      VisitTreeMeaning(t, n.child[k]);
      VisitChildrenMeaning(t, n, k + 1);
      if VisitChildren(t, n, k).Ok? {
        assert UsedByChildren(t, n, k) == Used(t, n.child[k]) + UsedByChildren(t, n, k + 1);
      }
    }
  }

  /** The symbols a resolving tree uses are those of its root and those of its operands. */
  lemma UsedSplits(t: SymbolTable, n: Node)
    requires ArraysResolve(t, n) && VisitNode(t, n).Ok?
    ensures Used(t, n) == VisitNode(t, n).value + UsedByChildren(t, n, 0)
  {
    var here := VisitNode(t, n).value;
    forall x | x in Used(t, n)
      ensures x in here + UsedByChildren(t, n, 0)
    {
      var y := if x in ArrayNames(n) then x else var y :| y in ArrayNames(n) && y in t && x in EntryRefs(t[y]); y;
      if !(n.symbol == [ARRAY] && SymbolName(n) == Some(y)) {
        var k :| 0 <= k < |n.child| && y in ArrayNames(n.child[k]);
        assert x in Used(t, n.child[k]);
      }
    }
    forall x | x in UsedByChildren(t, n, 0)
      ensures x in Used(t, n)
    {
      var k :| 0 <= k < |n.child| && x in Used(t, n.child[k]);
      if x !in ArrayNames(n.child[k]) {
        var y :| y in ArrayNames(n.child[k]) && y in t && x in EntryRefs(t[y]);
        assert y in ArrayNames(n);
      }
    }
  }

  /** `ArraysIn` only asks for the names of the tree's arrays. */
  lemma {:induction false} ArraysInNames(keys: set<string>, n: Node, wider: set<string>)
    requires ArraysIn(keys, n) && ArrayNames(n) <= wider
    ensures ArraysIn(wider, n)
    decreases n
  {
    forall k | 0 <= k < |n.child|
      ensures ArraysIn(wider, n.child[k])
    {
      ArraysInNames(keys, n.child[k], wider);
    }
  }

  /* ---------------------------------------------------------------------- */
  /* Renumbering                                                             */

  /** Generated index (`_i…`) and array (`_a…`) names are renumbered; every other name is kept. */
  predicate Renumbered(s: string) {
    StartsWith(s, "_i") || StartsWith(s, "_a")
  }

  /** The name `_i{c}` or `_a{c}` that counter value `c` gives a generated name. */
  function Renumber(s: string, c: nat): string {
    if StartsWith(s, "_i") then IndexName(c) else ArrayName(c)
  }

  function RenumberedOf(symbols: set<string>): set<string> {
    set x | x in symbols && Renumbered(x)
  }

  predicate Injective(m: map<string, string>) {
    forall x, y :: x in m && y in m && x != y ==> m[x] != m[y]
  }

  /**
    `m` is a mapping `_symbol_mapping` may build for `symbols` when the counter
    runs from `lo` up to `hi`: every other name maps to itself, every generated
    name to a new name of its own kind drawn from the counter, and no two names
    to the same one.
  */
  ghost predicate IsMapping(symbols: set<string>, m: map<string, string>, lo: nat, hi: nat) {
    m.Keys == symbols &&
    (forall x :: x in m && !Renumbered(x) ==> m[x] == x) &&
    (forall x :: x in m && Renumbered(x) ==> exists c :: lo <= c < hi && m[x] == Renumber(x, c)) &&
    Injective(m)
  }

  lemma RenumberedNames(x: string, c: nat, y: string, d: nat)
    requires Renumbered(x) && Renumbered(y) && Renumber(x, c) == Renumber(y, d)
    ensures c == d
  {
    GeneratedNamesDistinct(c, d);
  }

  lemma RenumberedIsGenerated(x: string, c: nat)
    ensures Renumbered(Renumber(x, c)) && Arguments.Implicit(Renumber(x, c))
  {
    GeneratedNamePrefixes(c);
  }

  /**
    `_symbol_mapping`: the counter is shared, so it advances once per generated
    name; the set is walked in an order the model leaves open.
  */
  method SymbolMapping(symbols: set<string>, counter: nat) returns (m: map<string, string>, next: nat)
    ensures next == counter + |RenumberedOf(symbols)|
    ensures IsMapping(symbols, m, counter, next)
  {
    m, next := map[], counter;
    var rest := symbols;
    ghost var num: map<string, nat> := map[];
    while rest != {}
      invariant rest <= symbols
      invariant forall x :: x in m <==> x in symbols && x !in rest
      invariant forall x :: x in num <==> x in m && Renumbered(x)
      invariant next == counter + |num|
      invariant forall x :: x in m && !Renumbered(x) ==> m[x] == x
      invariant forall x :: x in num ==> counter <= num[x] < next && m[x] == Renumber(x, num[x])
      invariant forall x, y :: x in num && y in num && x != y ==> num[x] != num[y]
      decreases |rest|
    {
      var symbol :| symbol in rest;
      if StartsWith(symbol, "_i") {
        m := m[symbol := IndexName(next)];
        num := num[symbol := next];
        next := next + 1;
      } else if StartsWith(symbol, "_a") {
        m := m[symbol := ArrayName(next)];
        num := num[symbol := next];
        next := next + 1;
      } else {
        m := m[symbol := symbol];
      }
      rest := rest - {symbol};
    }
    assert m.Keys == symbols;
    assert num.Keys == RenumberedOf(symbols);
    assert |num| == |num.Keys|;
    NumberedInjective(m, num);
  }

  /** Distinct counter values give distinct names, and kept names are never generated ones. */
  lemma NumberedInjective(m: map<string, string>, num: map<string, nat>)
    requires forall x :: x in m && !Renumbered(x) ==> m[x] == x
    requires num.Keys == RenumberedOf(m.Keys)
    requires forall x :: x in num ==> m[x] == Renumber(x, num[x])
    requires forall x, y :: x in num && y in num && x != y ==> num[x] != num[y]
    ensures Injective(m)
  {
    forall x, y | x in m && y in m && x != y
      ensures m[x] != m[y]
    {
      if Renumbered(x) && Renumbered(y) {
        if m[x] == m[y] {
          RenumberedNames(x, num[x], y, num[y]);
        }
      } else if Renumbered(x) {
        RenumberedIsGenerated(x, num[x]);
      } else if Renumbered(y) {
        RenumberedIsGenerated(y, num[y]);
      }
    }
  }

  /* ---------------------------------------------------------------------- */
  /* User symbols                                                            */

  /** The user symbols both trees use are the same symbol on both sides. */
  predicate UsersAgree(lt: SymbolTable, rt: SymbolTable, common: set<string>) {
    forall x :: x in common && !Arguments.Implicit(x) ==> x in lt && x in rt && lt[x] == rt[x]
  }

  /**
    The check of lines 52-54 over the names both mappings share: a user symbol
    missing from a table raises `KeyError`, one whose entries differ `ValueError`.
  */
  method CheckUserSymbols(lt: SymbolTable, rt: SymbolTable, common: set<string>) returns (r: Option<Exception>)
    ensures r.None? <==> UsersAgree(lt, rt, common)
    ensures r == Some(KeyError) || r == Some(ValueError) || r == None
    ensures r == Some(KeyError) ==> exists x :: x in common && !Arguments.Implicit(x) && (x !in lt || x !in rt)
    ensures r == Some(ValueError) ==> exists x :: x in common && !Arguments.Implicit(x) && x in lt && x in rt && lt[x] != rt[x]
  {
    var rest := common;
    while rest != {}
      invariant rest <= common
      invariant UsersAgree(lt, rt, common - rest)
      decreases |rest|
    {
      var symbol :| symbol in rest;
      if !StartsWith(symbol, "_") {
        if symbol !in lt || symbol !in rt {
          return Some(KeyError);
        }
        if lt[symbol] != rt[symbol] {
          return Some(ValueError);
        }
      }
      rest := rest - {symbol};
    }
    return None;
  }

  /* ---------------------------------------------------------------------- */
  /* Renaming                                                                */

  function RenameElem(e: Elem, m: map<string, string>): Elem
    requires e.Ref? ==> e.name in m
  {
    if e.Ref? then Ref(m[e.name]) else e
  }

  /** A shape or value with every symbolic element renamed. */
  function MapElems(o: Option<seq<Elem>>, m: map<string, string>): Option<seq<Elem>>
    requires RefNames(o) <= m.Keys
  {
    if o.None? then None
    else Some(seq(|o.value|, i requires 0 <= i < |o.value| => RenameElem(o.value[i], m)))
  }

  /** Renaming keeps the numbers where they are and renames exactly the names that were there. */
  lemma MapElemsMeaning(o: Option<seq<Elem>>, m: map<string, string>)
    requires RefNames(o) <= m.Keys
    ensures MapElems(o, m).Some? <==> o.Some?
    ensures o.Some? ==> |MapElems(o, m).value| == |o.value|
    ensures o.Some? ==> forall i :: 0 <= i < |o.value| && o.value[i].Lit? ==> MapElems(o, m).value[i] == o.value[i]
    ensures RefNames(MapElems(o, m)) == set x | x in RefNames(o) :: m[x]
  {
    if o.Some? {
      var r := MapElems(o, m).value;
      forall y | y in RefNames(MapElems(o, m))
        ensures exists x :: x in RefNames(o) && m[x] == y
      {
        var i :| 0 <= i < |r| && r[i] == Ref(y);
        assert o.value[i].name in RefNames(o);
      }
      forall x | x in RefNames(o)
        ensures m[x] in RefNames(MapElems(o, m))
      {
        var i :| 0 <= i < |o.value| && o.value[i] == Ref(x);
        assert r[i] == Ref(m[x]);
      }
    }
  }

  /** Lines 76-83 (and 85-92): the elements renamed one at a time, a name the mapping lacks raising `KeyError`. */
  method RenameElems(o: Option<seq<Elem>>, m: map<string, string>) returns (r: Result<Option<seq<Elem>>, Exception>)
    ensures r.Ok? <==> RefNames(o) <= m.Keys
    ensures r.Ok? ==> r.value == MapElems(o, m)
    ensures r.Err? ==> r.error == KeyError
  {
    if o.None? {
      return Ok(None);
    }
    var elems := o.value;
    var acc: seq<Elem> := [];
    var k := 0;
    while k < |elems|
      invariant 0 <= k <= |elems| && |acc| == k
      invariant forall i :: 0 <= i < k ==> (elems[i].Ref? ==> elems[i].name in m) && acc[i] == RenameElem(elems[i], m)
    {
      if elems[k].Ref? {
        if elems[k].name !in m {
          assert elems[k].name in RefNames(o);
          return Err(KeyError);
        }
        acc := acc + [Ref(m[elems[k].name])];
      } else {
        acc := acc + [elems[k]];
      }
      k := k + 1;
    }
    forall x | x in RefNames(o)
      ensures x in m
    {
      var i :| 0 <= i < |elems| && elems[i] == Ref(x);
    }
    assert |acc| == |MapElems(o, m).value|;
    assert forall i :: 0 <= i < |acc| ==> acc[i] == MapElems(o, m).value[i];
    assert acc == MapElems(o, m).value;
    return Ok(Some(acc));
  }

  /** Line 93: the renamed entry, always an array entry. */
  function RenamedEntry(e: SymbolEntry, m: map<string, string>): SymbolEntry
    requires EntryRefs(e) <= m.Keys
  {
    SymbolEntry(ARRAY, MapElems(e.shape, m), MapElems(e.value, m))
  }

  method RenameEntry(e: SymbolEntry, m: map<string, string>) returns (r: Result<SymbolEntry, Exception>)
    ensures r.Ok? <==> EntryRefs(e) <= m.Keys
    ensures r.Ok? ==> r.value == RenamedEntry(e, m)
    ensures r.Err? ==> r.error == KeyError
  {
    var shape := RenameElems(e.shape, m);
    if shape.Err? {
      return Err(shape.error);
    }
    var value := RenameElems(e.value, m);
    if value.Err? {
      return Err(value.error);
    }
    return Ok(SymbolEntry(ARRAY, shape.value, value.value));
  }

  predicate EntriesResolve(t: SymbolTable, m: map<string, string>) {
    forall k :: k in t ==> EntryRefs(t[k]) <= m.Keys
  }

  function RenameAll(t: SymbolTable, m: map<string, string>): SymbolTable
    requires EntriesResolve(t, m)
  {
    map k | k in t :: RenamedEntry(t[k], m)
  }

  /** Lines 75-93: every entry of the table renamed in place, in the table's order. */
  method RenameEntries(t: SymbolTable, m: map<string, string>) returns (r: Result<SymbolTable, Exception>)
    ensures r.Ok? <==> EntriesResolve(t, m)
    ensures r.Ok? ==> r.value == RenameAll(t, m)
    ensures r.Err? ==> r.error == KeyError
  {
    var out := t;
    var rest := t.Keys;
    while rest != {}
      invariant rest <= t.Keys && out.Keys == t.Keys
      invariant forall k :: k in out ==> RenamedSoFar(t, m, out, rest, k)
      decreases |rest|
    {
      var name :| name in rest;
      assert RenamedSoFar(t, m, out, rest, name);
      var e := RenameEntry(out[name], m);
      if e.Err? {
        return Err(e.error);
      }
      var next := out[name := e.value];
      forall k | k in next
        ensures RenamedSoFar(t, m, next, rest - {name}, k)
      {
        assert RenamedSoFar(t, m, out, rest, k);
      }
      out, rest := next, rest - {name};
    }
    RenamedAll(t, m, out);
    return Ok(out);
  }

  /** While the entries are renamed: the ones done are renamed, the others untouched. */
  predicate RenamedSoFar(t: SymbolTable, m: map<string, string>, out: SymbolTable, rest: set<string>, k: string)
    requires k in t && k in out
  {
    if k in rest then out[k] == t[k] else EntryRefs(t[k]) <= m.Keys && out[k] == RenamedEntry(t[k], m)
  }

  lemma RenamedAll(t: SymbolTable, m: map<string, string>, out: SymbolTable)
    requires out.Keys == t.Keys && forall k :: k in out ==> RenamedSoFar(t, m, out, {}, k)
    ensures EntriesResolve(t, m) && out == RenameAll(t, m)
  {
    assert EntriesResolve(t, m) by {
      forall k | k in t ensures EntryRefs(t[k]) <= m.Keys {
        assert RenamedSoFar(t, m, out, {}, k);
      }
    }
    forall k | k in t ensures out[k] == RenameAll(t, m)[k] {
      assert RenamedSoFar(t, m, out, {}, k);
    }
  }

  function Image(m: map<string, string>, s: set<string>): set<string> {
    set x | x in s && x in m :: m[x]
  }

  predicate Staging(t: SymbolTable, m: map<string, string>) {
    m.Keys <= t.Keys && Injective(m)
  }

  /** The entries of `t` the mapping selects, each under its new name. */
  function Stage(t: SymbolTable, m: map<string, string>): SymbolTable
    requires m.Keys <= t.Keys && Injective(m)
  {
    map x | x in m :: m[x] := t[x]
  }

  lemma StageLookup(t: SymbolTable, m: map<string, string>, x: string)
    requires m.Keys <= t.Keys && Injective(m) && x in m
    ensures m[x] in Stage(t, m) && Stage(t, m)[m[x]] == t[x]
  {
  }

  lemma StageKeys(t: SymbolTable, m: map<string, string>)
    requires m.Keys <= t.Keys && Injective(m)
    ensures Stage(t, m).Keys == set x | x in m :: m[x]
  {
  }

  /** Lines 69-72: the selected entries copied under their new names, a name the table lacks raising `KeyError`. */
  method AddEntries(nt: SymbolTable, t: SymbolTable, m: map<string, string>) returns (r: Result<SymbolTable, Exception>)
    requires Injective(m)
    ensures r.Ok? <==> m.Keys <= t.Keys
    ensures r.Ok? ==> r.value == nt + Stage(t, m)
    ensures r.Err? ==> r.error == KeyError
  {
    var out := nt;
    var rest := m.Keys;
    ghost var inverse: map<string, string> := map[];
    while rest != {}
      invariant rest <= m.Keys
      invariant forall x :: x in m && x !in rest ==> x in t && m[x] in inverse && inverse[m[x]] == x
      invariant forall y :: y in inverse ==> inverse[y] in m && inverse[y] !in rest && m[inverse[y]] == y
      invariant forall y :: y in out <==> y in nt || y in inverse
      invariant forall y :: y in inverse ==> out[y] == t[inverse[y]]
      invariant forall y :: y in out && y !in inverse ==> out[y] == nt[y]
      decreases |rest|
    {
      var old_name :| old_name in rest;
      if old_name !in t {
        return Err(KeyError);
      }
      out := out[m[old_name] := t[old_name]];
      inverse := inverse[m[old_name] := old_name];
      rest := rest - {old_name};
    }
    AddedAll(nt, t, m, inverse, out);
    return Ok(out);
  }

  /** Once the whole mapping is walked, the copied entries are exactly the staged ones. */
  lemma AddedAll(nt: SymbolTable, t: SymbolTable, m: map<string, string>, inverse: map<string, string>, out: SymbolTable)
    requires Staging(t, m)
    requires forall x :: x in m ==> m[x] in inverse && inverse[m[x]] == x
    requires forall y :: y in inverse ==> inverse[y] in m && m[inverse[y]] == y
    requires forall y :: y in out <==> y in nt || y in inverse
    requires forall y :: y in inverse ==> out[y] == t[inverse[y]]
    requires forall y :: y in out && y !in inverse ==> out[y] == nt[y]
    ensures out == nt + Stage(t, m)
  {
    var staged := Stage(t, m);
    forall y | y in staged
      ensures y in inverse
    {
      StageKeys(t, m);
      var x :| x in m && m[x] == y;
    }
    forall y | y in inverse
      ensures y in staged && staged[y] == t[inverse[y]]
    {
      StageLookup(t, m, inverse[y]);
    }
    assert out.Keys == (nt + staged).Keys;
    forall y | y in out
      ensures out[y] == (nt + staged)[y]
    {
    }
  }

  lemma EmptyUnion(a: SymbolTable)
    ensures map[] + a == a
  {
  }

  /**
    `_rename_symbols` applied in post-order: every array node becomes a bare
    array node under its new name, with no shape.
  */
  function RenameTree(n: Node, m: map<string, string>): Node
    requires ArraysIn(m.Keys, n)
    decreases n
  {
    if n.symbol == [ARRAY] then NamedArray(None, m[SymbolName(n).value])
    else Node(n.symbol, n.shape, n.attrib, seq(|n.child|, k requires 0 <= k < |n.child| => RenameTree(n.child[k], m)))
  }

  /** The renamed tree uses exactly the new names of the old tree's arrays, and no shape appears. */
  lemma {:induction false} RenameTreeNames(n: Node, m: map<string, string>)
    requires ArraysIn(m.Keys, n) && ArrayLeaves(n)
    ensures ArrayNames(RenameTree(n, m)) == Image(m, ArrayNames(n))
    ensures Unshaped(n) ==> Unshaped(RenameTree(n, m))
    decreases n
  {
    var r := RenameTree(n, m);
    if n.symbol != [ARRAY] {
      forall k | 0 <= k < |n.child|
        ensures ArrayNames(r.child[k]) == Image(m, ArrayNames(n.child[k]))
        ensures Unshaped(n.child[k]) ==> Unshaped(r.child[k])
      {
        RenameTreeNames(n.child[k], m);
      }
      assert ArrayNames(r) == Image(m, ArrayNames(n)) by {
        RenamedChildrenNames(n, r, m);
      }
    } else {
      assert ArrayNames(n) == {SymbolName(n).value};
    }
  }

  /** A node that is not an array uses the names its children use, so renaming them child by child renames them all. */
  lemma RenamedChildrenNames(n: Node, r: Node, m: map<string, string>)
    requires n.symbol != [ARRAY] && r.symbol == n.symbol && |r.child| == |n.child|
    requires forall k :: 0 <= k < |n.child| ==> ArrayNames(r.child[k]) == Image(m, ArrayNames(n.child[k]))
    ensures ArrayNames(r) == Image(m, ArrayNames(n))
  {
    forall y | y in ArrayNames(r)
      ensures y in Image(m, ArrayNames(n))
    {
      var k :| 0 <= k < |r.child| && y in ArrayNames(r.child[k]);
      ChildNameRenamed(n, m, k, y);
    }
    forall y | y in Image(m, ArrayNames(n))
      ensures y in ArrayNames(r)
    {
      var x :| x in ArrayNames(n) && x in m && m[x] == y;
      var k :| 0 <= k < |n.child| && x in ArrayNames(n.child[k]);
      assert y in ArrayNames(r.child[k]);
    }
  }

  lemma ChildNameRenamed(n: Node, m: map<string, string>, k: nat, y: string)
    requires k < |n.child| && y in Image(m, ArrayNames(n.child[k]))
    ensures y in Image(m, ArrayNames(n))
  {
    var x :| x in ArrayNames(n.child[k]) && x in m && m[x] == y;
    assert x in ArrayNames(n);
  }

  /* ---------------------------------------------------------------------- */
  /* Joining                                                                 */

  datatype Joined = Joined(table: SymbolTable, left: Node, right: Node)

  /**
    Both trees were visited without error and `lm`, `rm` are the mappings built
    from what each uses, the counter running on from the left mapping into the
    right one.
  */
  ghost predicate Mapped(lt: SymbolTable, ltree: Node, rt: SymbolTable, rtree: Node, lm: map<string, string>, rm: map<string, string>) {
    VisitTree(lt, ltree).Ok? && VisitTree(rt, rtree).Ok? &&
    var n1 := |RenumberedOf(VisitTree(lt, ltree).value)|;
    IsMapping(VisitTree(lt, ltree).value, lm, 0, n1) &&
    IsMapping(VisitTree(rt, rtree).value, rm, n1, n1 + |RenumberedOf(VisitTree(rt, rtree).value)|)
  }

  lemma MappedTrees(lt: SymbolTable, ltree: Node, rt: SymbolTable, rtree: Node, lm: map<string, string>, rm: map<string, string>)
    requires Mapped(lt, ltree, rt, rtree, lm, rm)
    ensures ArraysIn(lm.Keys, ltree) && ArraysIn(rm.Keys, rtree)
    ensures ArraysIn((lm + rm).Keys, ltree) && ArraysIn((lm + rm).Keys, rtree)
    ensures Injective(lm) && Injective(rm)
    ensures ArrayNames(ltree) <= lm.Keys && ArrayNames(rtree) <= rm.Keys
  {
    VisitTreeMeaning(lt, ltree);
    VisitTreeMeaning(rt, rtree);
    ArraysInNames(lt.Keys, ltree, lm.Keys);
    ArraysInNames(rt.Keys, rtree, rm.Keys);
    ArraysInNames(lt.Keys, ltree, (lm + rm).Keys);
    ArraysInNames(rt.Keys, rtree, (lm + rm).Keys);
  }

  /**
    A name the left mapping gives a generated name, or a name the right tree
    does not use, is never a name the right mapping gives: the counter values
    of the two sides do not overlap.
  */
  lemma LeftNameNotOnRight(lt: SymbolTable, ltree: Node, rt: SymbolTable, rtree: Node, lm: map<string, string>, rm: map<string, string>, x: string)
    requires Mapped(lt, ltree, rt, rtree, lm, rm)
    requires x in lm && (Renumbered(x) || x !in rm)
    ensures lm[x] !in Image(rm, rm.Keys)
  {
    var n1 := |RenumberedOf(VisitTree(lt, ltree).value)|;
    if y :| y in rm && rm[y] == lm[x] {
      if Renumbered(x) {
        var c :| 0 <= c < n1 && lm[x] == Renumber(x, c);
        RenumberedIsGenerated(x, c);
        if Renumbered(y) {
          var d :| n1 <= d && rm[y] == Renumber(y, d);
          RenumberedNames(x, c, y, d);
        }
      } else if Renumbered(y) {
        var d :| n1 <= d && rm[y] == Renumber(y, d);
        RenumberedIsGenerated(y, d);
      }
    }
  }

  /** Array nodes are leaves, as they are in the compiler's trees. */
  predicate ArrayLeaves(n: Node)
    decreases n
  {
    (n.symbol == [ARRAY] ==> n.child == []) && forall k :: 0 <= k < |n.child| ==> ArrayLeaves(n.child[k])
  }

  /** Every step of `join_symbol_tables` as written succeeds. */
  ghost predicate JoinableAsWritten(lt: SymbolTable, ltree: Node, rt: SymbolTable, rtree: Node, lm: map<string, string>, rm: map<string, string>) {
    Mapped(lt, ltree, rt, rtree, lm, rm) && UsersAgree(lt, rt, lm.Keys * rm.Keys) &&
    Staging(lt, lm) && Staging(rt, rm) && EntriesResolve(Stage(lt, lm) + Stage(rt, rm), lm + rm)
  }

  /** What `join_symbol_tables` returns as written: both trees and all entries renamed by the merged mapping. */
  ghost function JoinedAsWritten(lt: SymbolTable, ltree: Node, rt: SymbolTable, rtree: Node, lm: map<string, string>, rm: map<string, string>): Joined
    requires JoinableAsWritten(lt, ltree, rt, rtree, lm, rm)
  {
    MappedTrees(lt, ltree, rt, rtree, lm, rm);
    Joined(RenameAll(Stage(lt, lm) + Stage(rt, rm), lm + rm), RenameTree(ltree, lm + rm), RenameTree(rtree, lm + rm))
  }

  /** Every step of the corrected join succeeds. */
  ghost predicate Joinable(lt: SymbolTable, ltree: Node, rt: SymbolTable, rtree: Node, lm: map<string, string>, rm: map<string, string>) {
    Mapped(lt, ltree, rt, rtree, lm, rm) && UsersAgree(lt, rt, lm.Keys * rm.Keys) &&
    Staging(lt, lm) && Staging(rt, rm) && EntriesResolve(Stage(lt, lm), lm) && EntriesResolve(Stage(rt, rm), rm)
  }

  /** The corrected join: each side renamed by its own mapping, the right side's entries taking precedence. */
  ghost function JoinedTables(lt: SymbolTable, ltree: Node, rt: SymbolTable, rtree: Node, lm: map<string, string>, rm: map<string, string>): Joined
    requires Joinable(lt, ltree, rt, rtree, lm, rm)
  {
    MappedTrees(lt, ltree, rt, rtree, lm, rm);
    Joined(RenameAll(Stage(lt, lm), lm) + RenameAll(Stage(rt, rm), rm), RenameTree(ltree, lm), RenameTree(rtree, rm))
  }

  /**
    Lines 67-93 as written: the entries of both sides copied under their new
    names, the right side's last, then all of them renamed by the merged mapping.
  */
  method MergeEntriesAsWritten(lt: SymbolTable, rt: SymbolTable, lm: map<string, string>, rm: map<string, string>)
    returns (r: Result<SymbolTable, Exception>)
    requires Injective(lm) && Injective(rm)
    ensures r.Ok? <==> Staging(lt, lm) && Staging(rt, rm) && EntriesResolve(Stage(lt, lm) + Stage(rt, rm), lm + rm)
    ensures r.Ok? ==> r.value == RenameAll(Stage(lt, lm) + Stage(rt, rm), lm + rm)
    ensures r.Err? ==> r.error == KeyError
  {
    var staged := AddEntries(map[], lt, lm);
    if staged.Err? {
      return Err(staged.error);
    }
    var both := AddEntries(staged.value, rt, rm);
    if both.Err? {
      return Err(both.error);
    }
    EmptyUnion(Stage(lt, lm));
    r := RenameEntries(both.value, lm + rm);
  }

  /** Lines 67-93 corrected: each side's entries renamed by that side's own mapping. */
  method MergeEntries(lt: SymbolTable, rt: SymbolTable, lm: map<string, string>, rm: map<string, string>)
    returns (r: Result<SymbolTable, Exception>)
    requires Injective(lm) && Injective(rm)
    ensures r.Ok? <==> Staging(lt, lm) && Staging(rt, rm) && EntriesResolve(Stage(lt, lm), lm) && EntriesResolve(Stage(rt, rm), rm)
    ensures r.Ok? ==> r.value == RenameAll(Stage(lt, lm), lm) + RenameAll(Stage(rt, rm), rm)
    ensures r.Err? ==> r.error == KeyError
  {
    var leftStaged := AddEntries(map[], lt, lm);
    if leftStaged.Err? {
      return Err(leftStaged.error);
    }
    var rightStaged := AddEntries(map[], rt, rm);
    if rightStaged.Err? {
      return Err(rightStaged.error);
    }
    EmptyUnion(Stage(lt, lm));
    EmptyUnion(Stage(rt, rm));
    var leftTable := RenameEntries(leftStaged.value, lm);
    if leftTable.Err? {
      return Err(leftTable.error);
    }
    var rightTable := RenameEntries(rightStaged.value, rm);
    if rightTable.Err? {
      return Err(rightTable.error);
    }
    return Ok(leftTable.value + rightTable.value);
  }

  /**
    Lines 44-54: each tree is visited and its mapping built, the counter
    running on from the left side into the right, and the user symbols both
    sides use are checked.
  */
  method DiscoverMappings(lt: SymbolTable, ltree: Node, rt: SymbolTable, rtree: Node)
    returns (r: Result<(map<string, string>, map<string, string>), Exception>, ghost lm: map<string, string>, ghost rm: map<string, string>)
    ensures VisitTree(lt, ltree).Err? ==> r == Err(VisitTree(lt, ltree).error)
    ensures VisitTree(lt, ltree).Ok? && VisitTree(rt, rtree).Err? ==> r == Err(VisitTree(rt, rtree).error)
    ensures VisitTree(lt, ltree).Ok? && VisitTree(rt, rtree).Ok? ==> Mapped(lt, ltree, rt, rtree, lm, rm)
    ensures r.Ok? <==> Mapped(lt, ltree, rt, rtree, lm, rm) && UsersAgree(lt, rt, lm.Keys * rm.Keys)
    ensures r.Ok? ==> r.value == (lm, rm)
    ensures r.Err? ==> r.error == KeyError || r.error == ValueError
    ensures r == Err(ValueError) && Unshaped(ltree) && Unshaped(rtree) ==>
      exists x :: x in lm && x in rm && !Arguments.Implicit(x) && x in lt && x in rt && lt[x] != rt[x]
  {
    lm, rm := map[], map[];
    var lv := VisitTree(lt, ltree);
    if lv.Err? {
      assert (lv.error == KeyError || lv.error == ValueError) && (Unshaped(ltree) ==> lv.error == KeyError) by {
        VisitTreeMeaning(lt, ltree);
      }
      return Err(lv.error), lm, rm;
    }
    var leftMapping, n1 := SymbolMapping(lv.value, 0);
    lm := leftMapping;
    var rv := VisitTree(rt, rtree);
    if rv.Err? {
      assert (rv.error == KeyError || rv.error == ValueError) && (Unshaped(rtree) ==> rv.error == KeyError) by {
        VisitTreeMeaning(rt, rtree);
      }
      return Err(rv.error), lm, rm;
    }
    var rightMapping, n2 := SymbolMapping(rv.value, n1);
    rm := rightMapping;
    var check := CheckUserSymbols(lt, rt, leftMapping.Keys * rightMapping.Keys);
    if check.Some? {
      return Err(check.value), lm, rm;
    }
    return Ok((leftMapping, rightMapping)), lm, rm;
  }

  /**
    `join_symbol_tables` as written: lines 57-65 rename both trees, and lines
    75-93 the entries of both sides, by the one merged mapping
    `{**left_symbol_mapping, **right_symbol_mapping}`.
  */
  method JoinSymbolTablesAsWritten(lt: SymbolTable, ltree: Node, rt: SymbolTable, rtree: Node)
    returns (r: Result<Joined, Exception>, ghost lm: map<string, string>, ghost rm: map<string, string>)
    ensures VisitTree(lt, ltree).Err? ==> r == Err(VisitTree(lt, ltree).error)
    ensures VisitTree(lt, ltree).Ok? && VisitTree(rt, rtree).Err? ==> r == Err(VisitTree(rt, rtree).error)
    ensures VisitTree(lt, ltree).Ok? && VisitTree(rt, rtree).Ok? ==> Mapped(lt, ltree, rt, rtree, lm, rm)
    ensures r.Ok? <==> JoinableAsWritten(lt, ltree, rt, rtree, lm, rm)
    ensures r.Ok? ==> r.value == JoinedAsWritten(lt, ltree, rt, rtree, lm, rm)
    ensures r.Err? ==> r.error == KeyError || r.error == ValueError
    ensures r == Err(ValueError) && Unshaped(ltree) && Unshaped(rtree) ==>
      exists x :: x in lm && x in rm && !Arguments.Implicit(x) && x in lt && x in rt && lt[x] != rt[x]
  {
    var mappings;
    mappings, lm, rm := DiscoverMappings(lt, ltree, rt, rtree);
    if mappings.Err? {
      return Err(mappings.error), lm, rm;
    }
    var (leftMapping, rightMapping) := mappings.value;
    MappedTrees(lt, ltree, rt, rtree, lm, rm);
    var merged := leftMapping + rightMapping;
    var left := RenameTree(ltree, merged);
    var right := RenameTree(rtree, merged);
    var table := MergeEntriesAsWritten(lt, rt, leftMapping, rightMapping);
    if table.Err? {
      return Err(table.error), lm, rm;
    }
    return Ok(Joined(table.value, left, right)), lm, rm;
  }

  /**
    The corrected join: the left tree and the left entries are renamed by the
    left mapping, the right ones by the right mapping.
  */
  method JoinSymbolTables(lt: SymbolTable, ltree: Node, rt: SymbolTable, rtree: Node)
    returns (r: Result<Joined, Exception>, ghost lm: map<string, string>, ghost rm: map<string, string>)
    ensures VisitTree(lt, ltree).Err? ==> r == Err(VisitTree(lt, ltree).error)
    ensures VisitTree(lt, ltree).Ok? && VisitTree(rt, rtree).Err? ==> r == Err(VisitTree(rt, rtree).error)
    ensures VisitTree(lt, ltree).Ok? && VisitTree(rt, rtree).Ok? ==> Mapped(lt, ltree, rt, rtree, lm, rm)
    ensures r.Ok? <==> Joinable(lt, ltree, rt, rtree, lm, rm)
    ensures r.Ok? ==> r.value == JoinedTables(lt, ltree, rt, rtree, lm, rm)
    ensures r.Err? ==> r.error == KeyError || r.error == ValueError
    ensures r == Err(ValueError) && Unshaped(ltree) && Unshaped(rtree) ==>
      exists x :: x in lm && x in rm && !Arguments.Implicit(x) && x in lt && x in rt && lt[x] != rt[x]
  {
    var mappings;
    mappings, lm, rm := DiscoverMappings(lt, ltree, rt, rtree);
    if mappings.Err? {
      return Err(mappings.error), lm, rm;
    }
    var (leftMapping, rightMapping) := mappings.value;
    MappedTrees(lt, ltree, rt, rtree, lm, rm);
    var left := RenameTree(ltree, leftMapping);
    var right := RenameTree(rtree, rightMapping);
    var table := MergeEntries(lt, rt, leftMapping, rightMapping);
    if table.Err? {
      return Err(table.error), lm, rm;
    }
    return Ok(Joined(table.value, left, right)), lm, rm;
  }

  /* ---------------------------------------------------------------------- */
  /* What the joined table means                                             */

  /**
    In the corrected join every array of the left tree is renamed to the name
    its own entry was copied to, when that name is a generated one or one the
    right tree does not use.
  */
  lemma JoinedLeftEntries(lt: SymbolTable, ltree: Node, rt: SymbolTable, rtree: Node, lm: map<string, string>, rm: map<string, string>, x: string)
    requires Joinable(lt, ltree, rt, rtree, lm, rm) && ArrayLeaves(ltree) && x in ArrayNames(ltree)
    requires Renumbered(x) || x !in rm
    ensures x in lm && x in lt && lm[x] in ArrayNames(JoinedTables(lt, ltree, rt, rtree, lm, rm).left)
    ensures lm[x] in JoinedTables(lt, ltree, rt, rtree, lm, rm).table
    ensures EntryRefs(lt[x]) <= lm.Keys && JoinedTables(lt, ltree, rt, rtree, lm, rm).table[lm[x]] == RenamedEntry(lt[x], lm)
  {
    MappedTrees(lt, ltree, rt, rtree, lm, rm);
    RenameTreeNames(ltree, lm);
    LeftNameNotOnRight(lt, ltree, rt, rtree, lm, rm, x);
    LeftEntryKept(lt, rt, lm, rm, x);
  }

  /** An entry copied under a name the right side does not give keeps, renamed, its left entry. */
  lemma LeftEntryKept(lt: SymbolTable, rt: SymbolTable, lm: map<string, string>, rm: map<string, string>, x: string)
    requires Staging(lt, lm) && Staging(rt, rm) && EntriesResolve(Stage(lt, lm), lm) && EntriesResolve(Stage(rt, rm), rm)
    requires x in lm && lm[x] !in Image(rm, rm.Keys)
    ensures lm[x] in RenameAll(Stage(lt, lm), lm) + RenameAll(Stage(rt, rm), rm)
    ensures EntryRefs(lt[x]) <= lm.Keys && (RenameAll(Stage(lt, lm), lm) + RenameAll(Stage(rt, rm), rm))[lm[x]] == RenamedEntry(lt[x], lm)
  {
    StageLookup(lt, lm, x);
    StageKeys(rt, rm);
    assert EntryRefs(Stage(lt, lm)[lm[x]]) <= lm.Keys;
  }

  /** An entry copied from the right side keeps, renamed, its right entry. */
  lemma RightEntryKept(lt: SymbolTable, rt: SymbolTable, lm: map<string, string>, rm: map<string, string>, x: string)
    requires Staging(lt, lm) && Staging(rt, rm) && EntriesResolve(Stage(lt, lm), lm) && EntriesResolve(Stage(rt, rm), rm)
    requires x in rm
    ensures rm[x] in RenameAll(Stage(lt, lm), lm) + RenameAll(Stage(rt, rm), rm)
    ensures EntryRefs(rt[x]) <= rm.Keys && (RenameAll(Stage(lt, lm), lm) + RenameAll(Stage(rt, rm), rm))[rm[x]] == RenamedEntry(rt[x], rm)
  {
    StageLookup(rt, rm, x);
    assert EntryRefs(Stage(rt, rm)[rm[x]]) <= rm.Keys;
  }

  /** As written, the entry under a name the right side gives is the right entry, renamed by the merged mapping. */
  lemma MergedEntryFromRight(lt: SymbolTable, rt: SymbolTable, lm: map<string, string>, rm: map<string, string>, x: string)
    requires Staging(lt, lm) && Staging(rt, rm) && EntriesResolve(Stage(lt, lm) + Stage(rt, rm), lm + rm)
    requires x in rm
    ensures rm[x] in RenameAll(Stage(lt, lm) + Stage(rt, rm), lm + rm)
    ensures EntryRefs(rt[x]) <= (lm + rm).Keys && RenameAll(Stage(lt, lm) + Stage(rt, rm), lm + rm)[rm[x]] == RenamedEntry(rt[x], lm + rm)
  {
    StageLookup(rt, rm, x);
    assert EntryRefs((Stage(lt, lm) + Stage(rt, rm))[rm[x]]) <= (lm + rm).Keys;
  }

  /** A user symbol both trees use keeps its name, and the joined entry is the one both tables agree on. */
  lemma JoinedSharedUser(lt: SymbolTable, ltree: Node, rt: SymbolTable, rtree: Node, lm: map<string, string>, rm: map<string, string>, x: string)
    requires Joinable(lt, ltree, rt, rtree, lm, rm) && ArrayLeaves(ltree)
    requires x in ArrayNames(ltree) && x in ArrayNames(rtree) && !Arguments.Implicit(x)
    ensures x in lm && lm[x] == x && x in ArrayNames(JoinedTables(lt, ltree, rt, rtree, lm, rm).left)
    ensures x in lt && x in JoinedTables(lt, ltree, rt, rtree, lm, rm).table
    ensures EntryRefs(lt[x]) <= rm.Keys && JoinedTables(lt, ltree, rt, rtree, lm, rm).table[x] == RenamedEntry(lt[x], rm)
  {
    MappedTrees(lt, ltree, rt, rtree, lm, rm);
    RenameTreeNames(ltree, lm);
    RenumberedIsImplicit(x);
    RightEntryKept(lt, rt, lm, rm, x);
  }

  /** Generated names begin with `_`, so a user symbol is never renumbered. */
  lemma RenumberedIsImplicit(x: string)
    ensures Renumbered(x) ==> Arguments.Implicit(x)
  {
    if Renumbered(x) {
      assert x[..1] == x[..2][..1];
    }
  }

  /** In the corrected join every array of the right tree names its own renamed entry. */
  lemma JoinedRightEntries(lt: SymbolTable, ltree: Node, rt: SymbolTable, rtree: Node, lm: map<string, string>, rm: map<string, string>, x: string)
    requires Joinable(lt, ltree, rt, rtree, lm, rm) && x in ArrayNames(rtree)
    ensures x in rm && x in rt && rm[x] in JoinedTables(lt, ltree, rt, rtree, lm, rm).table
    ensures EntryRefs(rt[x]) <= rm.Keys && JoinedTables(lt, ltree, rt, rtree, lm, rm).table[rm[x]] == RenamedEntry(rt[x], rm)
  {
    MappedTrees(lt, ltree, rt, rtree, lm, rm);
    RightEntryKept(lt, rt, lm, rm, x);
  }

  /**
    As written, a generated name both trees use is renamed in the left tree by
    the right mapping: the left tree then refers to the right side's entry, and
    no longer to the name its own entry was copied to.
  */
  lemma MergedMappingRedirects(lt: SymbolTable, ltree: Node, rt: SymbolTable, rtree: Node, lm: map<string, string>, rm: map<string, string>, x: string)
    requires JoinableAsWritten(lt, ltree, rt, rtree, lm, rm) && ArrayLeaves(ltree)
    requires x in ArrayNames(ltree) && x in ArrayNames(rtree) && Renumbered(x)
    ensures x in lm && x in rm && lm[x] != rm[x]
    ensures rm[x] in ArrayNames(JoinedAsWritten(lt, ltree, rt, rtree, lm, rm).left)
    ensures lm[x] !in ArrayNames(JoinedAsWritten(lt, ltree, rt, rtree, lm, rm).left)
    ensures x in rt && rm[x] in JoinedAsWritten(lt, ltree, rt, rtree, lm, rm).table
    ensures EntryRefs(rt[x]) <= (lm + rm).Keys && JoinedAsWritten(lt, ltree, rt, rtree, lm, rm).table[rm[x]] == RenamedEntry(rt[x], lm + rm)
  {
    MappedTrees(lt, ltree, rt, rtree, lm, rm);
    LeftNameNotOnRight(lt, ltree, rt, rtree, lm, rm, x);
    MergedTreeRedirect(ltree, lm, rm, x);
    MergedEntryFromRight(lt, rt, lm, rm, x);
  }

  /** The merged mapping sends the left tree's `x` to the right name, and nothing of the left tree to `x`'s left name. */
  lemma MergedTreeRedirect(ltree: Node, lm: map<string, string>, rm: map<string, string>, x: string)
    requires ArraysIn((lm + rm).Keys, ltree) && ArrayLeaves(ltree) && Injective(lm)
    requires x in ArrayNames(ltree) && x in lm && x in rm && lm[x] !in Image(rm, rm.Keys)
    ensures lm[x] != rm[x]
    ensures rm[x] in ArrayNames(RenameTree(ltree, lm + rm))
    ensures lm[x] !in ArrayNames(RenameTree(ltree, lm + rm))
  {
    RenameTreeNames(ltree, lm + rm);
    assert rm[x] in Image(rm, rm.Keys);
    forall y | y in ArrayNames(ltree) && y in lm + rm
      ensures (lm + rm)[y] != lm[x]
    {
      if y in rm {
        assert rm[y] in Image(rm, rm.Keys);
      }
    }
  }

  /* ---------------------------------------------------------------------- */
  /* One generated array name used by two different tables                  */

  /** Both trees are the array `_a{k}`; on the left its shape is `(0,)`, on the right `(1,)`. */
  function LeftTable(k: nat): SymbolTable {
    map[ArrayName(k) := LitEntry(0)]
  }

  function RightTable(k: nat): SymbolTable {
    map[ArrayName(k) := LitEntry(1)]
  }

  function Leaf(k: nat): Node {
    NamedArray(None, ArrayName(k))
  }

  lemma LeafVisit(t: SymbolTable, k: nat)
    requires ArrayName(k) in t && EntryRefs(t[ArrayName(k)]) == {}
    ensures VisitTree(t, Leaf(k)) == Ok({ArrayName(k)})
  {
    var refs := EntryRefs(t[ArrayName(k)]);
    assert {ArrayName(k)} + refs == {ArrayName(k)};
    assert VisitNode(t, Leaf(k)) == Ok({ArrayName(k)} + refs);
    assert VisitTree(t, Leaf(k)) == Ok({} + {ArrayName(k)});
    assert {} + {ArrayName(k)} == {ArrayName(k)};
  }

  /** The only mapping for `{_a{k}}` whose counter starts at `c` renames `_a{k}` to `_a{c}`. */
  lemma SingleMapping(m: map<string, string>, k: nat, c: nat)
    requires IsMapping({ArrayName(k)}, m, c, c + |RenumberedOf({ArrayName(k)})|)
    ensures m == map[ArrayName(k) := ArrayName(c)]
  {
    GeneratedNamePrefixes(k);
    assert RenumberedOf({ArrayName(k)}) == {ArrayName(k)};
    assert ArrayName(k) in m;
    var d :| c <= d < c + 1 && m[ArrayName(k)] == Renumber(ArrayName(k), d);
    assert m.Keys == map[ArrayName(k) := ArrayName(c)].Keys;
  }

  lemma CounterexampleMappings(k: nat, lm: map<string, string>, rm: map<string, string>)
    requires Mapped(LeftTable(k), Leaf(k), RightTable(k), Leaf(k), lm, rm)
    ensures lm == map[ArrayName(k) := ArrayName(0)] && rm == map[ArrayName(k) := ArrayName(1)]
  {
    LeafVisit(LeftTable(k), k);
    LeafVisit(RightTable(k), k);
    SingleMapping(lm, k, 0);
    assert |RenumberedOf({ArrayName(k)})| == 1 by {
      GeneratedNamePrefixes(k);
      assert RenumberedOf({ArrayName(k)}) == {ArrayName(k)};
    }
    SingleMapping(rm, k, 1);
  }

  /** An array entry of known shape `(i,)` and no value. */
  function LitEntry(i: nat): SymbolEntry {
    SymbolEntry(ARRAY, Some([Lit(i)]), None)
  }

  /** An entry that names no symbol is unchanged by renaming, whatever the mapping. */
  lemma LitEntryRenamed(i: nat, m: map<string, string>)
    ensures EntryRefs(LitEntry(i)) == {}
    ensures RenamedEntry(LitEntry(i), m) == LitEntry(i)
  {
    assert RefNames(Some([Lit(i)])) == {};
    assert MapElems(Some([Lit(i)]), m).value == [Lit(i)];
  }

  /** Staging one name of a table under one new name. */
  lemma StageSingle(t: SymbolTable, x: string, y: string)
    requires x in t
    ensures Staging(t, map[x := y]) && Stage(t, map[x := y]) == map[y := t[x]]
  {
  }

  /** Renaming a one-entry table whose entry names no symbol. */
  lemma RenameSingle(y: string, i: nat, m: map<string, string>)
    ensures EntriesResolve(map[y := LitEntry(i)], m)
    ensures RenameAll(map[y := LitEntry(i)], m) == map[y := LitEntry(i)]
  {
    LitEntryRenamed(i, m);
  }

  /** Both joins for the two mappings the counterexample forces. */
  lemma CounterexampleTables(k: nat, lm: map<string, string>, rm: map<string, string>)
    requires lm == map[ArrayName(k) := ArrayName(0)] && rm == map[ArrayName(k) := ArrayName(1)]
    ensures Staging(LeftTable(k), lm) && Staging(RightTable(k), rm)
    ensures Stage(LeftTable(k), lm) == map[ArrayName(0) := LitEntry(0)]
    ensures Stage(RightTable(k), rm) == map[ArrayName(1) := LitEntry(1)]
    ensures EntriesResolve(Stage(LeftTable(k), lm) + Stage(RightTable(k), rm), lm + rm)
    ensures var t := RenameAll(Stage(LeftTable(k), lm) + Stage(RightTable(k), rm), lm + rm);
      ArrayName(1) in t && t[ArrayName(1)] == LitEntry(1)
    ensures EntriesResolve(Stage(LeftTable(k), lm), lm) && EntriesResolve(Stage(RightTable(k), rm), rm)
    ensures var t := RenameAll(Stage(LeftTable(k), lm), lm) + RenameAll(Stage(RightTable(k), rm), rm);
      ArrayName(0) in t && t[ArrayName(0)] == LitEntry(0)
  {
    GeneratedNamesDistinct(0, 1);
    StageSingle(LeftTable(k), ArrayName(k), ArrayName(0));
    StageSingle(RightTable(k), ArrayName(k), ArrayName(1));
    var both := map[ArrayName(0) := LitEntry(0)] + map[ArrayName(1) := LitEntry(1)];
    LitEntryRenamed(0, lm + rm);
    LitEntryRenamed(1, lm + rm);
    assert EntriesResolve(both, lm + rm);
    assert RenameAll(both, lm + rm)[ArrayName(1)] == RenamedEntry(LitEntry(1), lm + rm);
    RenameSingle(ArrayName(0), 0, lm);
    RenameSingle(ArrayName(1), 1, rm);
  }

  /** An array leaf is renamed to the bare array of its new name. */
  lemma RenameLeaf(k: nat, m: map<string, string>)
    requires ArrayName(k) in m
    ensures ArraysIn(m.Keys, Leaf(k)) && RenameTree(Leaf(k), m) == NamedArray(None, m[ArrayName(k)])
  {
  }

  /**
    As written, joining two trees that both use the generated array `_a{k}`
    leaves the left tree as `_a1`, whose joined entry has the right side's
    shape `(1,)`; the left side's entry sits, unused, under `_a0`.
  */
  lemma MergedMappingCounterexample(k: nat, lm: map<string, string>, rm: map<string, string>)
    requires Mapped(LeftTable(k), Leaf(k), RightTable(k), Leaf(k), lm, rm)
    ensures JoinableAsWritten(LeftTable(k), Leaf(k), RightTable(k), Leaf(k), lm, rm)
    ensures var j := JoinedAsWritten(LeftTable(k), Leaf(k), RightTable(k), Leaf(k), lm, rm);
      j.left == Leaf(1) && ArrayName(1) in j.table && j.table[ArrayName(1)] == LitEntry(1)
  {
    CounterexampleMappings(k, lm, rm);
    assert JoinableAsWritten(LeftTable(k), Leaf(k), RightTable(k), Leaf(k), lm, rm) by {
      assert UsersAgree(LeftTable(k), RightTable(k), lm.Keys * rm.Keys) by {
        GeneratedNamePrefixes(k);
      }
      CounterexampleTables(k, lm, rm);
    }
    var j := JoinedAsWritten(LeftTable(k), Leaf(k), RightTable(k), Leaf(k), lm, rm);
    assert j.left == Leaf(1) by {
      RenameLeaf(k, lm + rm);
    }
    assert ArrayName(1) in j.table && j.table[ArrayName(1)] == LitEntry(1) by {
      CounterexampleTables(k, lm, rm);
    }
  }

  /** The corrected join of the same trees leaves the left tree as `_a0`, of shape `(0,)`. */
  lemma CorrectedJoinExample(k: nat, lm: map<string, string>, rm: map<string, string>)
    requires Mapped(LeftTable(k), Leaf(k), RightTable(k), Leaf(k), lm, rm)
    ensures Joinable(LeftTable(k), Leaf(k), RightTable(k), Leaf(k), lm, rm)
    ensures var j := JoinedTables(LeftTable(k), Leaf(k), RightTable(k), Leaf(k), lm, rm);
      j.left == Leaf(0) && ArrayName(0) in j.table && j.table[ArrayName(0)] == LitEntry(0)
  {
    CounterexampleMappings(k, lm, rm);
    assert UsersAgree(LeftTable(k), RightTable(k), lm.Keys * rm.Keys) by {
      GeneratedNamePrefixes(k);
    }
    CounterexampleTables(k, lm, rm);
    assert RenameTree(Leaf(k), lm) == Leaf(0) by {
      RenameLeaf(k, lm);
    }
  }
}
