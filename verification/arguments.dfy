/**
  Discovery of the arguments of the generated function: which symbols of the
  table the caller has to supply. The compiler carries this scan three times:
  in `moa/onf.py`, and in `moa/backend/backend.py` and
  `moa/frontend/frontend.py`, whose two copies are the same text. The `onf`
  copy passes over index symbols and drops elements that name index symbols;
  the other copy does neither.

  The table is a Python dictionary, scanned in its insertion order; `order`
  is that order. Which entry raises first depends on it, the set of arguments
  does not.
*/
module Arguments {
  import opened Wrappers
  import opened Errors
  import opened Names
  import opened MoaAst

  datatype Scan = OnfScan | BackendScan

  /** Names that begin with `_` are the ones the compiler generated for implicit arrays. */
  predicate Implicit(name: string) {
    StartsWith(name, "_")
  }

  /** The `onf` copy skips index symbols altogether. */
  predicate Scanned(s: Scan, e: SymbolEntry) {
    !(s == OnfScan && e.nodeType == INDEX)
  }

  predicate ShapeUnknown(e: SymbolEntry) {
    e.shape.None? || HasSymbolic(e.shape)
  }

  /**
    What the scan raises at one entry: an implicit array whose shape is unknown
    or symbolic raises `NotImplementedError`; in the `onf` copy, a symbolic
    element of an implicit array's value that names no symbol raises `KeyError`.
  */
  function EntryError(s: Scan, t: SymbolTable, name: string): Option<Exception>
    requires name in t
  {
    var e := t[name];
    if !Scanned(s, e) || !Implicit(name) then None
    else if ShapeUnknown(e) then Some(NotImplementedError)
    else if s == OnfScan && exists x :: x in RefNames(e.value) && x !in t then Some(KeyError)
    else None
  }

  /**
    The names one entry makes arguments: the symbolic elements of an implicit
    array's value (in `onf`, those that name a symbol that is not an index), or
    a user symbol itself when its shape or value is unknown or symbolic.
  */
  function EntryArguments(s: Scan, t: SymbolTable, name: string): set<string>
    requires name in t
  {
    var e := t[name];
    if !Scanned(s, e) then {}
    else if Implicit(name) then
      if ShapeUnknown(e) then {}
      else set x | x in RefNames(e.value) && (s == OnfScan ==> x in t && t[x].nodeType != INDEX)
    else if ShapeUnknown(e) || e.value.None? || HasSymbolic(e.value) then {name}
    else {}
  }

  /** The names a user symbol depends on: those in its symbolic shape and value. */
  function EntryDependents(s: Scan, t: SymbolTable, name: string): set<string>
    requires name in t
  {
    var e := t[name];
    if !Scanned(s, e) || Implicit(name) then {} else RefNames(e.shape) + RefNames(e.value)
  }

  ghost predicate IsArgument(s: Scan, t: SymbolTable, x: string) {
    exists name :: name in t && x in EntryArguments(s, t, name)
  }

  ghost predicate IsDependent(s: Scan, t: SymbolTable, x: string) {
    exists name :: name in t && x in EntryDependents(s, t, name)
  }

  /** The names the scan returns: arguments on which no user symbol depends. */
  ghost predicate FunctionArgument(s: Scan, t: SymbolTable, x: string) {
    IsArgument(s, t, x) && !IsDependent(s, t, x)
  }

  /** Some entry of the table makes the scan raise. */
  predicate ScanFails(s: Scan, t: SymbolTable, order: seq<string>)
    requires forall x :: x in order ==> x in t
  {
    exists i :: 0 <= i < |order| && EntryError(s, t, order[i]).Some?
  }

  /** The names of the symbolic elements, collected one element at a time. */
  method CollectNames(elems: seq<Elem>) returns (r: set<string>)
    ensures r == RefNames(Some(elems))
  {
    r := {};
    var k := 0;
    while k < |elems|
      invariant 0 <= k <= |elems|
      invariant forall x :: x in r <==> Ref(x) in elems[..k]
    {
      if elems[k].Ref? {
        r := r + {elems[k].name};
      }
      k := k + 1;
      assert elems[..k] == elems[..k - 1] + [elems[k - 1]];
    }
    assert elems[..k] == elems;
  }

  /**
    The arguments an implicit array's value contributes. In the `onf` copy each
    symbolic element is looked up in the table, so a name that is not a symbol
    raises `KeyError`, and names of index symbols are left out.
  */
  method ImplicitArguments(s: Scan, t: SymbolTable, elems: seq<Elem>) returns (r: Result<set<string>, Exception>)
    ensures r.Err? <==> s == OnfScan && exists x :: Ref(x) in elems && x !in t
    ensures r.Err? ==> r.error == KeyError
    ensures r.Ok? ==> forall x :: x in r.value <==> Ref(x) in elems && (s == OnfScan ==> x in t && t[x].nodeType != INDEX)
  {
    var found := {};
    var k := 0;
    while k < |elems|
      invariant 0 <= k <= |elems|
      invariant s == OnfScan ==> forall x :: Ref(x) in elems[..k] ==> x in t
      invariant forall x :: x in found <==> Ref(x) in elems[..k] && (s == OnfScan ==> x in t && t[x].nodeType != INDEX)
    {
      if elems[k].Ref? {
        if s == OnfScan {
          if elems[k].name !in t {
            return Err(KeyError);
          }
          if t[elems[k].name].nodeType != INDEX {
            found := found + {elems[k].name};
          }
        } else {
          found := found + {elems[k].name};
        }
      }
      k := k + 1;
      assert elems[..k] == elems[..k - 1] + [elems[k - 1]];
    }
    assert elems[..k] == elems;
    return Ok(found);
  }

  /**
    One step of the scan: what one entry raises, or the arguments and
    dependents it adds.
  */
  method ScanEntry(s: Scan, t: SymbolTable, name: string) returns (r: Result<(set<string>, set<string>), Exception>)
    requires name in t
    ensures r.Err? <==> EntryError(s, t, name).Some?
    ensures r.Err? ==> EntryError(s, t, name) == Some(r.error)
    ensures r.Ok? ==> r.value.0 == EntryArguments(s, t, name) && r.value.1 == EntryDependents(s, t, name)
  {
    var e := t[name];
    var arguments, dependents := {}, {};
    if !Scanned(s, e) {
      // index symbols are not function arguments
    } else if StartsWith(name, "_") {
      if e.shape.None? || HasSymbolic(e.shape) {
        return Err(NotImplementedError);
      } else if HasSymbolic(e.value) {
        var found := ImplicitArguments(s, t, e.value.value);
        if found.Err? {
          return Err(found.error);
        }
        arguments := found.value;
      } else if s == OnfScan {
        assert forall x :: x !in RefNames(e.value);
      }
    } else {
      if e.shape.None? {
        arguments := arguments + {name};
      } else if HasSymbolic(e.shape) {
        arguments := arguments + {name};
        var names := CollectNames(e.shape.value);
        dependents := dependents + names;
      }
      if e.value.None? {
        arguments := arguments + {name};
      } else if HasSymbolic(e.value) {
        arguments := arguments + {name};
        var names := CollectNames(e.value.value);
        dependents := dependents + names;
      }
      HasSymbolicIff(e.shape);
      HasSymbolicIff(e.value);
    }
    return Ok((arguments, dependents));
  }

  /**
    The loop of `determine_function_arguments`: the table scanned in its order,
    stopping at the first entry that raises.
  */
  method ScanTable(s: Scan, t: SymbolTable, order: seq<string>) returns (r: Result<(set<string>, set<string>), Exception>)
    requires forall x :: x in order ==> x in t
    ensures r.Err? <==> ScanFails(s, t, order)
    ensures r.Err? ==> exists i :: 0 <= i < |order| && EntryError(s, t, order[i]) == Some(r.error) &&
                                   (forall j :: 0 <= j < i ==> EntryError(s, t, order[j]).None?)
    ensures r.Ok? ==> r.value == (ArgumentsUpTo(s, t, order, |order|), DependentsUpTo(s, t, order, |order|))
  {
    var arguments, dependents := {}, {};
    var k := 0;
    while k < |order|
      invariant 0 <= k <= |order|
      invariant forall j :: 0 <= j < k ==> EntryError(s, t, order[j]).None?
      invariant arguments == ArgumentsUpTo(s, t, order, k)
      invariant dependents == DependentsUpTo(s, t, order, k)
    {
      var step := ScanEntry(s, t, order[k]);
      if step.Err? {
        assert EntryError(s, t, order[k]) == Some(step.error);
        return Err(step.error);
      }
      arguments := arguments + step.value.0;
      dependents := dependents + step.value.1;
      k := k + 1;
    }
    assert !ScanFails(s, t, order);
    return Ok((arguments, dependents));
  }

  /**
    `determine_function_arguments`: the names that are arguments and on which no
    user symbol depends. The scan fails exactly when some entry raises, and then
    with the error of the first such entry in the table's order.
  */
  method DetermineArguments(s: Scan, t: SymbolTable, order: seq<string>) returns (r: Result<set<string>, Exception>)
    requires forall x :: x in order <==> x in t
    ensures r.Err? <==> ScanFails(s, t, order)
    ensures r.Err? ==> exists i :: 0 <= i < |order| && EntryError(s, t, order[i]) == Some(r.error) &&
                                   (forall j :: 0 <= j < i ==> EntryError(s, t, order[j]).None?)
    ensures r.Ok? ==> forall x :: x in r.value <==> FunctionArgument(s, t, x)
  {
    var scanned := ScanTable(s, t, order);
    if scanned.Err? {
      return Err(scanned.error);
    }
    var (arguments, dependents) := scanned.value;
    ScannedAll(s, t, order);
    return Ok(arguments - dependents);
  }

  /** The arguments the first `k` entries of the order contribute. */
  function ArgumentsUpTo(s: Scan, t: SymbolTable, order: seq<string>, k: nat): set<string>
    requires k <= |order| && forall x :: x in order ==> x in t
  {
    if k == 0 then {} else ArgumentsUpTo(s, t, order, k - 1) + EntryArguments(s, t, order[k - 1])
  }

  /** The dependents the first `k` entries of the order contribute. */
  function DependentsUpTo(s: Scan, t: SymbolTable, order: seq<string>, k: nat): set<string>
    requires k <= |order| && forall x :: x in order ==> x in t
  {
    if k == 0 then {} else DependentsUpTo(s, t, order, k - 1) + EntryDependents(s, t, order[k - 1])
  }

  lemma {:induction false} ArgumentsUpToMeaning(s: Scan, t: SymbolTable, order: seq<string>, k: nat, x: string)
    requires k <= |order| && forall y :: y in order ==> y in t
    ensures x in ArgumentsUpTo(s, t, order, k) <==> exists j :: 0 <= j < k && x in EntryArguments(s, t, order[j])
  {
    if k > 0 {
      ArgumentsUpToMeaning(s, t, order, k - 1, x);
    }
  }

  lemma {:induction false} DependentsUpToMeaning(s: Scan, t: SymbolTable, order: seq<string>, k: nat, x: string)
    requires k <= |order| && forall y :: y in order ==> y in t
    ensures x in DependentsUpTo(s, t, order, k) <==> exists j :: 0 <= j < k && x in EntryDependents(s, t, order[j])
  {
    if k > 0 {
      DependentsUpToMeaning(s, t, order, k - 1, x);
    }
  }

  /** Collecting entry by entry over the whole order collects over the whole table. */
  lemma ScannedAll(s: Scan, t: SymbolTable, order: seq<string>)
    requires forall x :: x in order <==> x in t
    ensures forall x :: x in ArgumentsUpTo(s, t, order, |order|) - DependentsUpTo(s, t, order, |order|) <==> FunctionArgument(s, t, x)
  {
    forall x
      ensures x in ArgumentsUpTo(s, t, order, |order|) <==> IsArgument(s, t, x)
      ensures x in DependentsUpTo(s, t, order, |order|) <==> IsDependent(s, t, x)
    {
      ArgumentsUpToMeaning(s, t, order, |order|, x);
      DependentsUpToMeaning(s, t, order, |order|, x);
      if IsArgument(s, t, x) {
        var name :| name in t && x in EntryArguments(s, t, name);
        var j :| 0 <= j < |order| && order[j] == name;
      }
      if IsDependent(s, t, x) {
        var name :| name in t && x in EntryDependents(s, t, name);
        var j :| 0 <= j < |order| && order[j] == name;
      }
    }
  }

  /** In the `onf` copy every argument is a symbol of the table, and never an index symbol. */
  lemma OnfArgumentsAreArrays(t: SymbolTable, x: string)
    requires IsArgument(OnfScan, t, x)
    ensures x in t && t[x].nodeType != INDEX
  {
    var name :| name in t && x in EntryArguments(OnfScan, t, name);
    if !Implicit(name) {
      assert x == name;
    }
  }

  /**
    A user symbol whose shape or value is unknown or symbolic is an argument;
    it is returned unless some user symbol's shape or value names it.
  */
  lemma UnknownUserSymbolIsArgument(s: Scan, t: SymbolTable, x: string)
    requires x in t && !Implicit(x) && Scanned(s, t[x])
    requires ShapeUnknown(t[x]) || t[x].value.None? || HasSymbolic(t[x].value)
    ensures IsArgument(s, t, x)
  {
    assert x in EntryArguments(s, t, x);
  }

  /** In the backend copy, every symbolic element of a well-shaped implicit array's value is an argument. */
  lemma ImplicitElementIsArgument(t: SymbolTable, y: string, x: string)
    requires y in t && Implicit(y) && !ShapeUnknown(t[y])
    requires t[y].value.Some? && Ref(x) in t[y].value.value
    ensures IsArgument(BackendScan, t, x)
  {
    assert x in EntryArguments(BackendScan, t, y);
  }

  /** A name that appears in a user symbol's shape or value is a dependent, so never returned. */
  lemma ReferencedNameIsDependent(s: Scan, t: SymbolTable, y: string, x: string)
    requires y in t && !Implicit(y) && Scanned(s, t[y])
    requires (t[y].shape.Some? && Ref(x) in t[y].shape.value) || (t[y].value.Some? && Ref(x) in t[y].value.value)
    ensures IsDependent(s, t, x)
  {
    assert x in EntryDependents(s, t, y);
  }
}
