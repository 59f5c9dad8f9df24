# python-moa in Dafny

A model of the core of python-moa, a compiler for the Mathematics of Arrays
(MoA, the ψ-calculus). The compiler takes an array expression such as
`<0> psi tran(A + B)`, puts an index vector in front of it, pushes `psi` down
through the operations (ψ-reduction to "denotational normal form", DNF), and
lowers the result to a function with shape checks and one loop per index
("operational normal form", ONF). Around that pipeline sit a row-major dense
array, the abstract syntax tree and its symbol table, shape queries, the
merging of two symbol tables with renaming, a flop counter, a structural
equality checker used by the tests, and `LazyArray`, an expression builder.

The model follows the repository's own structure:

| Dafny file | module | models |
|---|---|---|
| `wrappers.dfy` | `Wrappers` | `Option` and `Result` (a raised exception is `Err`) |
| `errors.dfy` | `Errors` | the Python exceptions the core raises |
| `names.dfy` | `Names` | `str(n)`, generated names `_a{n}` and `_i{n}`, `startswith`, string order and `sorted` |
| `dense_array.dfy` | `DenseArray` | `moa/array.py`, a class over an `array<int>` |
| `moa_ast.dfy` | `MoaAst` | `moa/ast.py` and the node, context and symbol-table helpers the other modules use |
| `shape.dfy` | `Shape` | `moa/shape.py` |
| `reduction.dfy` | `Reduction` | `moa/reduction.py` |
| `dnf.dfy`, `dnf_examples.dfy` | `Dnf`, `DnfExamples` | `moa/dnf.py` and the vectors of its tests |
| `arguments.dfy` | `Arguments` | the argument and index discovery shared by `moa/onf.py`, `moa/backend/backend.py` and `moa/frontend/frontend.py` |
| `onf.dfy` | `Onf` | `moa/onf.py` |
| `backend.dfy` | `Backend` | `moa/backend/backend.py` |
| `frontend.dfy` | `Frontend` | `moa/frontend/frontend.py` |
| `temp.dfy` | `Temp` | `moa/temp.py` |
| `analysis.dfy` | `Analysis` | `moa/analysis.py` |
| `testing.dfy` | `Testing` | `moa/testing.py` |
| `lazy_array.dfy` | `LazyArrays` | `moa/frontend/array.py` |

Conventions used throughout:

- A tree node is one datatype, `Node(symbol, shape, attrib, child)`. It covers
  both generations of nodes in the repository: the tuple nodes
  (`ArrayNode`, `UnaryNode`, `BinaryNode`) and the later `Node`.
- An element of a shape or of a value is `Lit(n)` for a number or `Ref(name)`
  for a symbolic element, which is a scalar array node naming a symbol.
- The symbol table is a `map` from names to `SymbolEntry(nodeType, shape, value)`.
- A Python exception is an `Err` of the `Exception` datatype, with one
  constructor per exception class.
- Generated names are `_a{n}` and `_i{n}`, where `n` is the size of the table
  when the name is made. This is what the tests expect, for example the `_i1`,
  `_i2` and `_a3` of tests/test_dnf.py:15-20.
- Where the repository builds state step by step, the model does too:
  - `DenseArray.Array` and `LazyArrays.LazyArray` are classes whose methods
    update their fields;
  - the loops that fill sets, lists and tables are `while` loops.
- Every such method is proved against a function that states what it computes.
  The properties are proved about those functions.

## Model

| member | source | states |
|---|---|---|
| DenseArray.Zeros | moa/array.py:20-21 | the storage of an array made without values has exactly `n` cells, every one of them 0 |
| DenseArray.ProductSnoc | moa/array.py:11-13 | extending a shape by one extent multiplies the running `total` by that extent, which is the step of the size loop |
| DenseArray.Array.Create | moa/array.py:10-24 | raises `ValueError` exactly when a non-empty value does not have one element per cell of the shape; otherwise the new array's storage holds the values, or zeros when there are none |
| DenseArray.Array.constructor | moa/array.py:19-24 | the fields are the shape, the cells and the format given, in a fresh buffer |
| DenseArray.Array.Dimension | moa/array.py:26-28 | the dimension is the number of extents of the shape |
| DenseArray.OffsetOf | moa/array.py:30-43 | an offset exists exactly when the index has one component per axis and no component reaches its extent; every failure is `IndexError` |
| DenseArray.Array.Offset | moa/array.py:30-43 | the loop from the last axis to the first, accumulating `offset` and `stride`, returns the row-major offset or the `IndexError` of `OffsetOf` |
| DenseArray.RowMajorOffsetBounds | moa/array.py:34-43 | the offset of an in-bounds index lies in `0 .. size - 1` |
| DenseArray.OffsetInBounds | moa/array.py:30-43 | an in-bounds index always has an offset, and it addresses a cell of the storage |
| DenseArray.ProductPositive | moa/array.py:11-13 | a shape whose extents are all positive has a positive size |
| DenseArray.Unravel | moa/array.py:34-43 | the inverse of the row-major offset: one component per axis |
| DenseArray.UnravelOffset | moa/array.py:34-43 | unravelling the offset of an in-bounds index gives the index back |
| DenseArray.OffsetInjective | moa/array.py:34-43 | two in-bounds indices share an offset only when they are equal |
| DenseArray.PyPosition | moa/array.py:46 | Python list indexing: a position is valid from `-len` to `len - 1`, and a negative one counts from the end |
| DenseArray.ReadAfterWrite | moa/array.py:45-49 | a write that succeeds is seen by the next read of the same index |
| DenseArray.WriteFrame | moa/array.py:48-49 | a write at one in-bounds index leaves the cell of every other in-bounds index unchanged |
| DenseArray.ReadErrors | moa/array.py:30-46 | every failed read is an `IndexError`; with storage of the right size, every in-bounds index can be read and an index of the wrong length cannot |
| DenseArray.Array.Get | moa/array.py:45-46 | on an array whose storage has one cell per element of the shape, `a[index]` reads the storage at the offset of the index; an in-bounds index always succeeds, and every failure is `IndexError` |
| DenseArray.Array.Set | moa/array.py:48-49 | `a[index] = x` replaces exactly the cell of the index in place and keeps the shape and the one-cell-per-element invariant; an in-bounds index always succeeds, and a bad index raises `IndexError` and changes nothing |
| DenseArray.RowMajorCells | tests/test_array.py:19-25 | in the 1×2×3 array holding 1..6, the cell `(i, j, k)` holds value `3j + k + 1` |
| DenseArray.RowMajorExample | tests/test_array.py:19-25 | the four reads the test makes return 1, 3, 4 and 6 |
| DenseArray.OutOfRangeExample | tests/test_array.py:27-33 | an index that is too short, or one that runs past an extent, raises `IndexError` |
| Names.NatToString | tests/test_dnf.py:15-20 | Python's `str(n)` for a natural number is a non-empty string of decimal digits |
| Names.ParseNatToString | tests/test_dnf.py:15-20 | reading back the digits of `str(n)` gives `n` |
| Names.NatToStringInjective | tests/test_dnf.py:15-20 | two numbers print the same only when they are equal |
| Names.GeneratedNamesDistinct | tests/test_dnf.py:15-20 | generated array names differ for different table sizes, and so do index names; an array name is never an index name |
| Names.GeneratedNamePrefixes | tests/test_dnf.py:15-20 | a generated array name starts with `_a`, an index name with `_i`, and both start with `_` |
| Names.LexTotal | moa/onf.py:163 | Python's string order is total |
| Names.LexAntisymmetric | moa/onf.py:163 | Python's string order is antisymmetric |
| Names.LexTransitive | moa/onf.py:163 | Python's string order is transitive |
| Names.MinimumExists | moa/onf.py:163 | a non-empty set of names has a least element |
| Names.SortedNames | moa/onf.py:163 | `sorted` of a set of names lists every member exactly once, in strictly ascending order |
| MoaAst.EnumValuesDistinct | moa/ast.py:4-27 | no two members of the node enumeration share a value |
| MoaAst.ArrayNodeFields | moa/ast.py:31-32 | an array leaf keeps the name and inline value it was built with, under the `ARRAY` tag |
| MoaAst.Lits | tests/test_dnf.py:9-10 | a literal shape holds its numbers, in order |
| MoaAst.RefNames | moa/onf.py:139-154 | a name belongs to the set exactly when it is a symbolic element of the shape or value |
| MoaAst.HasSymbolicIff | moa/onf.py:129-134 | a shape or value has a symbolic element exactly when it names some symbol |
| MoaAst.EmptyTableFresh | tests/test_dnf.py:15-20 | in an empty table no generated name is taken |
| MoaAst.AddGeneratedSymbol | tests/test_dnf.py:15-20 | a name generated from the table size is not in the table; adding it grows the table by one and keeps every old entry, and the next generated names are still free |
| MoaAst.ExtendsTransitive | tests/test_dnf.py:15-20 | a table that only grows keeps growing: the relation composes |
| MoaAst.AddGeneratedExtends | tests/test_dnf.py:15-20 | adding under a generated name extends the table |
| MoaAst.AddUserSymbol | tests/frontend/test_array.py:130-142 | adding a symbol whose name does not start with `_` keeps the generated names free, and grows the table only when the name is new |
| MoaAst.ClassificationByValue | moa/ast.py:31-40 | a node is an array exactly when its tag has value 1, unary exactly when the value lies strictly between 100 and 200, and binary exactly when it lies strictly between 200 and 300 |
| MoaAst.ClassificationExclusive | moa/tests/test_ast.py:13-21 | no node is more than one of array, unary operation and binary operation |
| MoaAst.WellShapedOperands | moa/ast.py:45-53 | in a well-shaped tree, arrays are leaves, `transpose` has one operand, `psi` and `+` have two, and every operand is well shaped |
| MoaAst.BuiltWellShaped | moa/ast.py:4-27 | leaves, and operation nodes built over well-shaped operands, are well shaped |
| MoaAst.PostorderNodes | moa/ast.py:45-53 | the nodes in the order the replacement function sees them; there is at least one |
| MoaAst.PostorderVisitOrder | moa/ast.py:45-53 | the replacement function is applied once per node: operands before their node, the left operand before the right, and an array leaf without recursion |
| MoaAst.PostorderUnfold | moa/ast.py:45-53 | a unary node's one operand is replaced first, a binary node's left and then right operand, and the function is then applied to the rebuilt node; any other node goes to the function as it is |
| MoaAst.PostorderRebuildIdentity | moa/ast.py:45-53 | with a function that returns the rebuilt node, the replacement gives back the tree |
| MoaAst.PostorderCounter | moa/ast.py:45-53 | a counter drawn once per call advances by the number of nodes, and the root gets the last number |
| MoaAst.PostorderCounterExample | moa/tests/test_ast.py:24-45 | numbering the test tree in visit order gives `(7, (1, (0,)), (6, (3, (2,)), (5, (4,))))` |
| Shape.ArrayEntry | moa/shape.py:12 | the symbol of an array node is found exactly when the node names a symbol of the table, and it is that symbol's entry |
| Shape.Dimension | moa/shape.py:10-15 | an array's dimension is the length of its shape in the table; an operation's dimension is the length of its own non-empty shape, and any other operation raises `MOAShapeError` |
| Shape.DimensionReadings | moa/shape.py:10-15 | the code as written and the corrected reading agree on arrays; on an operation the code as written raises `NameError` |
| Shape.DimensionOfOperationExample | moa/shape.py:13-14 | the dimension of `transpose(A)` with shape (3, 4) raises `NameError` as written and is 2 once corrected |
| Shape.ScalarVectorByTable | moa/shape.py:18-23 | a node is a scalar exactly when it is an array whose table shape is empty, and a vector exactly when that shape has one extent; the two tests fail together and are never both true |
| Shape.ScalarVectorExamples | tests/test_shape.py:9-54 | `_a1` of shape () is a scalar and not a vector; `A` of shape (5, 1) is neither |
| Shape.ShapeArray | moa/shape.py:87-89 | an array node takes the shape its symbol has in the table, and nothing else about the context changes; a node without a known symbol raises |
| Shape.ShapeArrayIdempotent | moa/shape.py:87-89 | shaping an array twice changes nothing the second time, and the dimension stays the table's |
| Shape.Reverse | moa/shape.py:94 | `s[::-1]`: the same length, with element `k` taken from position `len - 1 - k` |
| Shape.ReverseMembers | moa/shape.py:94 | reversal keeps exactly the same elements |
| Shape.ReverseReverse | moa/shape.py:94 | reversing twice gives the sequence back |
| Shape.ShapeTranspose | moa/shape.py:93-95 | the node's shape becomes its reversal, with the operands and table unchanged; a node without a shape raises `TypeError` |
| Shape.ShapeTransposeInvolution | moa/shape.py:93-95 | shaping a transpose twice restores the context |
| Reduction.CounterNamesDistinct | moa/reduction.py:22-24 | two counter values give the same index name only when they are equal |
| Reduction.CounterNames | moa/reduction.py:22-25 | the names `i{c}`, ..., `i{c + n - 1}`, one per counter value |
| Reduction.CounterNamesSplit | moa/reduction.py:22-25 | the first name, then the names of the rest of the counter |
| Reduction.CounterNameNotLater | moa/reduction.py:22-25 | a name is never drawn again later |
| Reduction.AddBoundsContents | moa/reduction.py:21-25 | the table gains exactly one entry `i{k}` ↦ (0, bound) per dimension of the shape, and keeps every other entry |
| Reduction.IndexRefs | moa/reduction.py:25-28 | the index vector names `i{c}`, ..., `i{c + n - 1}` in order |
| Reduction.IndexVectorValues | moa/reduction.py:27-28 | a literal index vector is a vector with defined values, and it is well shaped |
| Reduction.IndexedContents | moa/reduction.py:16-29 | the result is `psi` of a vector with one fresh index name per dimension over the original tree, with the root's shape; the table gains those names with their bounds, and the counter moves past them |
| Reduction.AddIndexingNode | moa/reduction.py:16-29 | the loop over `zip(counter, shape)` fills the table as `Indexed` says, and raises `TypeError` for a node without a shape |
| Reduction.PsiOverOperands | moa/reduction.py:54 | `psi` over `psi`, `transpose` or `+` in a well-shaped tree has the operands each rule reads |
| Reduction.ReducePsiPsi | moa/reduction.py:61-69 | `w psi (v psi e)` becomes `(v ++ w) psi e`, with a vector of the summed length and the root's shape; it raises `MOAReductionError` when the inner vector has no values |
| Reduction.ReducePsiTranspose | moa/reduction.py:72-77 | `v psi transpose(e)` becomes `reverse(v) psi e`, with the `transpose` removed |
| Reduction.ReducePsiPlus | moa/reduction.py:80-89 | `v psi (a + b)` becomes `(v psi a) + (v psi b)`, with the same index node on both sides and every new node of the root's shape |
| Reduction.Measure | moa/reduction.py:46-89 | a positive size that every rewrite makes smaller |
| Reduction.ReduceReplacement | moa/reduction.py:46-58 | a rewrite is made exactly on `psi` over `psi`, `transpose` or `+`; it raises `MOAReductionError` when the left operand is not a vector with values; a rewrite keeps the tree well shaped and makes it smaller |
| Reduction.PsiPsiDecreases | moa/reduction.py:61-69 | the `psi`∘`psi` rewrite is well shaped and smaller |
| Reduction.PsiTransposeDecreases | moa/reduction.py:72-77 | the `psi`∘`transpose` rewrite is well shaped and smaller |
| Reduction.PsiPlusDecreases | moa/reduction.py:80-89 | the `psi`∘`+` rewrite is well shaped and smaller |
| Reduction.ReduceTree | moa/reduction.py:42 | the reduced tree is well shaped |
| Reduction.ReduceAst | moa/reduction.py:32-43 | indexing with a fresh table and counter, then reducing, gives the table and tree of `ReduceAstSpec` |
| Reduction.PsiPsiPreservesAccess | moa/reduction.py:61-69 | the `psi`∘`psi` rewrite keeps the element the expression denotes at every index |
| Reduction.PsiTransposePreservesAccess | moa/reduction.py:72-77 | the `psi`∘`transpose` rewrite keeps the element the expression denotes |
| Reduction.PsiPlusPreservesAccess | moa/reduction.py:80-89 | the `psi`∘`+` rewrite keeps the element the expression denotes |
| Reduction.ReplacementPreservesAccess | moa/reduction.py:46-58 | every rule rewrites an expression into one that denotes the same elements |
| Reduction.OpaqueAtAnyIndex | moa/reduction.py:46-58 | an operation no rule rewrites denotes the same at every index once its operands do |
| Reduction.ReduceTreeOfArray | moa/reduction.py:54-58 | an array leaf is left as it is |
| Reduction.ReduceTreeKeepsHeader | moa/reduction.py:54-58 | a node no rule rewrites keeps its symbol and shape |
| Reduction.ReduceTreeUnary | moa/reduction.py:54-58 | a unary node no rule rewrites becomes the same node over its reduced operand |
| Reduction.ReduceTreeBinary | moa/reduction.py:54-58 | a binary node no rule rewrites becomes the same node over its reduced operands, left before right |
| Reduction.ReduceTreeKeepsOperations | moa/reduction.py:54-58 | reduction never turns an operation into an array leaf |
| Reduction.ReducedOperandAtAnyIndex | moa/reduction.py:54-58 | a reduced operand that keeps its meaning at the empty index keeps it at every index |
| Reduction.UnaryAccess | moa/reduction.py:72-77 | what a unary node denotes, in terms of what its operand denotes |
| Reduction.BinaryAccess | moa/reduction.py:61-89 | what a binary node denotes, in terms of what its operands denote |
| Reduction.ReduceTreePreservesAccess | moa/reduction.py:42-58 | reducing a whole tree keeps the elements it denotes |
| Reduction.UnaryStepAccess | moa/reduction.py:54-58 | a unary node no rule rewrites keeps its meaning when its operand does |
| Reduction.BinaryStepAccess | moa/reduction.py:54-58 | a binary node no rule rewrites keeps its meaning when its operands do |
| Reduction.BinaryAccessKept | moa/reduction.py:54-58 | replacing the operands of a binary node by operands of the same meaning keeps its meaning |
| Reduction.ReduceAstPreservesAccess | moa/reduction.py:32-43 | the reduced tree denotes the original expression read at the fresh indices `i0`, `i1`, ... |
| Reduction.IndexedTreeReduced | moa/reduction.py:41-42 | the tree that is reduced is the indexed root, `<i0 ...> psi tree`, and its reduction succeeds |
| Reduction.PsiPsiExample | moa/tests/test_reduction.py:9-21 | `<i0> psi (<1 2 3> psi A)` becomes `<1 2 3 i0> psi A` |
| Reduction.PsiTransposeExample | moa/tests/test_reduction.py:24-34 | `<3 2 i0 i1> psi transpose(A)` becomes `<i1 i0 2 3> psi A` |
| Reduction.IntegrationWellShaped | moa/tests/test_reduction.py:56-77 | the test tree and each stage of its reduction are well shaped |
| Reduction.IntegrationIndexed | moa/tests/test_reduction.py:56-77 | indexing `<0> psi tran(A + B)` gives the table `{'i0': (0, 3)}` |
| Reduction.IntegrationRewrites | moa/tests/test_reduction.py:56-77 | the three rewrites the reduction makes, one stage to the next |
| Reduction.IntegrationFixedPoint | moa/tests/test_reduction.py:56-77 | the last stage has nothing left to rewrite |
| Reduction.IntegrationExample | moa/tests/test_reduction.py:56-77 | `<0> psi tran(A + B)` on (3, 4) reduces to `(<i0 0> psi A) + (<i0 0> psi B)` with table `{'i0': (0, 3)}` |
| Dnf.AddIndicesKeepsTable | moa/dnf.py:22-26 | one index symbol is added per bound: the table grows by the number of bounds, keeps every old entry, and the generated names stay free |
| Dnf.AddIndicesRefs | moa/dnf.py:22-26 | the `k`-th index component names `_i{|t| + k}`, the index generated when the table had that size |
| Dnf.AddIndicesEntries | moa/dnf.py:24-25 | each index symbol runs over `range(0, bound, 1)` for its own bound |
| Dnf.IndexExpressionContents | moa/dnf.py:22-31 | indexing raises `TypeError` exactly when the expression has no shape; otherwise the table gains the index symbols and one vector `_a` naming them in order, old entries are kept, and the tree is that vector `psi` the expression, with the expression's shape |
| Dnf.IndexExpressionIndices | moa/dnf.py:22-29 | each component of the new vector names an index symbol that runs over the matching dimension of the expression |
| Dnf.Indexed | moa/dnf.py:12-36 | a root other than `CONDITION` is indexed as a whole; a root `CONDITION` keeps its condition outside the new `psi`, which indexes its second operand; one with fewer than two operands raises `IndexError` |
| Dnf.AddIndexingNode | moa/dnf.py:12-36 | the loop that rebinds the context once per bound computes `Indexed` |
| Dnf.MatchesRule | moa/dnf.py:48-63 | the loop over the operands with early returns decides `Matches` |
| Dnf.MatchesExamples | tests/test_dnf.py:25-60 | `(ARRAY,)` matches `A` and `(PSI,)` does not; `(TRANSPOSE, ((ARRAY,),))` matches `transpose(A)` and `(TRANSPOSE, ((TRANSPOSE,),))` does not |
| Dnf.AsWrittenRules | moa/dnf.py:67-84 | the rule table as written has one rule per operation symbol, in the table's order |
| Dnf.Rules | moa/dnf.py:67-84 | the corrected rule table has one rule per operation symbol, in the table's order |
| Dnf.AsWrittenRulesNeverMatch | moa/dnf.py:67-84 | as written, no rule of the table matches any node, because the operand pattern `((X,))` is the bare head `X` |
| Dnf.RuleMatchesExactly | moa/dnf.py:67-84 | a corrected rule matches exactly a `psi` with two operands whose right operand has the rule's symbol |
| Dnf.RuleOperandsDistinct | moa/dnf.py:67-84 | no two rules of the table are for the same operation |
| Dnf.FirstMatch | moa/dnf.py:86-89 | the first rule that matches, if any: the chosen rule matches, and no earlier rule does |
| Dnf.FindRule | moa/dnf.py:86-89 | the loop over the table stops at the first rule that matches |
| Dnf.Prefix | moa/dnf.py:156 | `v[:d]`: the first `d` components, or all of them when there are fewer |
| Dnf.Suffix | moa/dnf.py:160 | the last `d` components, or all of them when there are fewer |
| Dnf.OuterSplit | moa/dnf.py:153-168 | when the dimensions of the two operands add up to the length of the index, the two parts have those lengths and together give the index back |
| Dnf.OuterSplitAsWrittenScalar | moa/dnf.py:160 | with a scalar right operand, `v[-0:]` is the whole index vector, not the empty one, so the two parts do not give the index back |
| Dnf.Zip | moa/dnf.py:128 | `zip(a, b)` pairs the components up to the shorter length |
| Dnf.Seconds | moa/dnf.py:128 | the second components of the pairs, in order |
| Dnf.InsertByKey | moa/dnf.py:128 | inserting a pair into a sorted list adds exactly one pair |
| Dnf.InsertByKeySorted | moa/dnf.py:128 | inserting a pair into a list sorted by key keeps it sorted |
| Dnf.InsertByKeyPermutes | moa/dnf.py:128 | insertion adds the pair and loses nothing |
| Dnf.InsertByKeySeconds | moa/dnf.py:128 | insertion adds the pair's second component to the second components |
| Dnf.SortByKey | moa/dnf.py:128 | `sorted(..., key=pair[0])` keeps the number of pairs |
| Dnf.SortByKeySorted | moa/dnf.py:128 | the sorted pairs ascend by key |
| Dnf.SortByKeyPermutes | moa/dnf.py:128 | the sorted pairs are a rearrangement of the input |
| Dnf.SortByKeySeconds | moa/dnf.py:128 | the second components of the sorted pairs are a rearrangement of the input's |
| Dnf.Keys | moa/dnf.py:128 | a permutation vector has integer keys exactly when every component is a number, and they are those numbers |
| Dnf.PermuteByKeys | moa/dnf.py:128 | the reordered index has one component per pair of the zip |
| Dnf.PermuteByKeysPermutes | moa/dnf.py:125-132 | the reordered index is a rearrangement of the paired components, sorted by ascending permutation value |
| Dnf.PermuteByKeysExample | tests/test_dnf.py:135-155 | `<3 2 1 1>` permuted by `<4 2 3 1>` is `<1 2 1 3>` |
| Dnf.VectorValues | moa/dnf.py:102 | the values of an array node are found exactly when its symbol is in the table |
| Dnf.ReducePsiAssign | moa/dnf.py:92-96 | `v psi (a assign b)` becomes `(v psi a) assign (v psi b)` with the same index on both sides, and the table is unchanged |
| Dnf.ReducePsiPsiContents | moa/dnf.py:100-111 | succeeds exactly when the inner index is a vector with values and the outer index is found with values. An error of `is_vector` on the inner index comes first; an inner index that is not a vector or has no values raises `MOAReductionError`; then the outer lookup's error, or `TypeError` for an outer index without values. On success it registers the vector `u ++ w` of summed length under a new name, and the tree is that vector `psi` the inner operand |
| Dnf.ReducePsiTranspose | moa/dnf.py:114-122 | the new vector is the reversed index, registered under a new name, and the `transpose` is removed; succeeds exactly when the index is found with values, raising the lookup's error for a missing one and `TypeError` for one without values |
| Dnf.ReducePsiTransposeVContents | moa/dnf.py:125-132 | the new vector is a rearrangement of the index components that have a partner in the permutation, ordered by ascending permutation value when the permutation is numeric, and the `transposev` is removed |
| Dnf.ReducePsiTransposeVOutcome | moa/dnf.py:125-132 | succeeds exactly when the permutation and the index are found with values and, with two or more pairs, every paired permutation component is a number; the permutation's lookup error comes first, then the index's, and every other failure is `TypeError` |
| Dnf.ReducePsiReduceContents | moa/dnf.py:135-146 | a fresh index runs over the first extent of the reduced operand, the new vector is that index followed by the old index, and the root becomes the reduction carrying the index |
| Dnf.ReducePsiReduceOutcome | moa/dnf.py:135-146 | an operand without a shape raises `TypeError` and a scalar one `IndexError`; otherwise, when the index is not named as the fresh index, the rule succeeds exactly when the index is found with values, raising the lookup's error or `TypeError` otherwise; an index held by a table whose generated names are unused is never named so |
| Dnf.ReducePsiOuterSplits | moa/dnf.py:153-168 | the left operand is indexed by the first `dim(left)` components and the right by the last ones, under two new distinct names; together they give back the index when the dimensions add up to its length; the root becomes the elementwise operation |
| Dnf.ReducePsiOuterOutcome | moa/dnf.py:153-168 | raises the error of `dimension` on the left operand, then the index lookup's error or `TypeError` for an index without values; when neither the index nor the right operand carries the left vector's fresh name, it succeeds exactly when both dimensions are defined and the index has values, else raising the right dimension's error; a table whose generated names are unused never lets them carry it |
| Dnf.ReducePsiElementwise | moa/dnf.py:171-191 | `v psi (a op b)` becomes `(v psi a) op (v psi b)` with the root's shape, a scalar operand staying as it is; the table is unchanged, and the rewrite fails exactly when `is_scalar` fails on an operand: an unknown symbol (`KeyError`) or a symbol without a shape (`TypeError`) |
| Dnf.ReplacementAsWrittenIsIdentity | moa/dnf.py:66-89 | as written, `_reduce_replacement` never rewrites anything |
| Dnf.ReplacementSelectsRule | moa/dnf.py:66-89 | with the corrected table, a `psi` over one of the sixteen operations selects that operation's rule; one with too few operands raises `IndexError` |
| Dnf.ReplacementLeavesOthers | moa/dnf.py:86-89 | any other node is left alone, which is the `(None, None)` of line 89 |
| Dnf.AddVectorExtends | moa/dnf.py:105-107 | registering a vector under a generated name only extends the table |
| Dnf.ReducePsiPsiExtends | moa/dnf.py:100-111 | the `psi`∘`psi` rule only extends the table |
| Dnf.ReducePsiTransposeExtends | moa/dnf.py:114-122 | the `psi`∘`transpose` rule only extends the table |
| Dnf.ReducePsiTransposeVExtends | moa/dnf.py:125-132 | the `psi`∘`transposev` rule only extends the table |
| Dnf.ReducePsiReduceExtends | moa/dnf.py:135-146 | the `psi`∘`reduce` rule only extends the table |
| Dnf.ReducePsiOuterExtends | moa/dnf.py:153-168 | the outer-product rule only extends the table |
| Dnf.ReplacementExtendsTable | moa/dnf.py:66-89 | every rule keeps the old entries and adds new ones only under generated names that were free |
| DnfExamples.IndexingExample | tests/test_dnf.py:8-22 | `A` of shape (2, 3) is indexed by `<_i1 _i2>`, recorded as `_a3` |
| DnfExamples.PsiPsiExample | tests/test_dnf.py:63-84 | `<_i0> psi (<1 2 3> psi _a3)` becomes `<1 2 3 _i0> psi _a3`, the new vector recorded as `_a4` |
| DnfExamples.PsiPsiSelected | tests/test_dnf.py:63-84 | the corrected table selects the `psi`∘`psi` rule for that tree |
| DnfExamples.PsiTransposeExample | tests/test_dnf.py:110-132 | `<_i0 _i1 1 0> psi transpose(_a3)` becomes `<0 1 _i1 _i0> psi _a3` |
| DnfExamples.KeysOfLits | moa/dnf.py:128 | a vector of numbers has exactly those numbers as its keys |
| DnfExamples.PsiTransposeVExample | tests/test_dnf.py:135-155 | `<3 2 1 1> psi (<4 2 3 1> transpose _a2)` becomes `<1 2 1 3> psi _a2` |
| DnfExamples.KeysExample | tests/test_dnf.py:135-155 | the permutation `<4 2 3 1>` of the test has the keys 4, 2, 3, 1 |
| DnfExamples.PermuteExample | tests/test_dnf.py:135-155 | reordering `<3 2 1 1>` by the keys `4 2 3 1` gives `<1 2 1 3>` |
| DnfExamples.TransposeVInputs | tests/test_dnf.py:135-155 | the test's tree has the shape the `psi`∘`transposev` rule asks for, its two vectors hold `<4 2 3 1>` and `<3 2 1 1>`, and the next generated name is `_a3` |
| DnfExamples.ReducePsiTransposeVNumeric | moa/dnf.py:125-132 | with two vectors of the same length and a numeric permutation, the new vector is the index reordered by the permutation |
| DnfExamples.PsiOuterExample | tests/test_dnf.py:158-196 | `<_i0 _i1 _i2> psi (_a3 +-outer _a4)` becomes `(<_i0> psi _a3) + (<_i1 _i2> psi _a4)`, recorded as `_a6` and `_a7` |
| DnfExamples.PsiOuterSelected | tests/test_dnf.py:158-196 | the corrected table selects the outer-product rule for `(DOT, PLUS)` |
| DnfExamples.OuterRuleSelected | moa/dnf.py:76-79 | any `psi` over `(DOT, PLUS)` with two operands goes to the outer-product rule |
| DnfExamples.PsiReduceExample | tests/test_dnf.py:251-277 | `<_i0 _i1> psi (+-reduce _a3)` becomes `+-reduce` over `_i4` of `<_i4 _i0 _i1> psi _a3` |
| DnfExamples.PsiElementwiseScalarExample | tests/test_dnf.py:309-333 | in `<1 2 _i0 _i1> psi (_a3 + _a4)` the scalar `_a3` is kept as it is |
| Arguments.CollectNames | moa/onf.py:152-154 | the loop over a symbolic shape or value collects exactly the names of its symbolic elements |
| Arguments.ImplicitArguments | moa/onf.py:135-138 | for an implicit array the symbolic elements of its value are arguments; the `onf` copy looks each one up in the table, raising `KeyError` exactly when one is missing and skipping index symbols, the back-end copy (moa/backend/backend.py:29-32) takes every one |
| Arguments.ScanEntry | moa/onf.py:129-154 | one table entry: skipped when it is an index symbol (in the `onf` copy only), `NotImplementedError` for an implicit array whose shape is unknown or symbolic, otherwise the arguments and dependents it contributes |
| Arguments.ScanTable | moa/onf.py:126-154 | the scan of the whole table in its iteration order fails exactly when some entry fails, with that entry's error; otherwise it returns the union of the entries' arguments and dependents |
| Arguments.DetermineArguments | moa/backend/backend.py:15-49 | raises exactly when some entry raises; otherwise a name is returned exactly when it is an argument and no user symbol depends on it, whatever the iteration order |
| Arguments.ArgumentsUpToMeaning | moa/onf.py:127-154 | a name is collected as an argument by the first `k` entries exactly when one of those entries contributes it |
| Arguments.DependentsUpToMeaning | moa/onf.py:126-154 | a name is collected as a dependent by the first `k` entries exactly when one of those entries contributes it |
| Arguments.ScannedAll | moa/onf.py:155 | arguments minus dependents over the whole iteration order are exactly the function arguments of the table |
| Arguments.OnfArgumentsAreArrays | moa/onf.py:130-138 | in the `onf` copy every argument is a symbol of the table and never an index symbol |
| Arguments.UnknownUserSymbolIsArgument | moa/frontend/frontend.py:25-40 | a user symbol whose shape is unknown, or whose value is unknown or symbolic, is an argument |
| Arguments.ImplicitElementIsArgument | moa/backend/backend.py:26-32 | every symbolic element of the value of an implicit array with a known numeric shape is an argument |
| Arguments.ReferencedNameIsDependent | moa/backend/backend.py:36-48 | a name in a user symbol's symbolic shape or value is a dependent, so it is never returned |
| Onf.Refs | moa/onf.py:101 | the index vector holds one symbolic element per index name, in order |
| Onf.DetermineIndices | moa/onf.py:158-163 | the names are strictly ascending, each once, and a name is listed exactly when it is an index symbol of the table |
| Onf.FoldAndConjuncts | moa/onf.py:66-69 | folding conditions with `AND` from the first keeps every condition, the last one first |
| Onf.JoinConditions | moa/onf.py:78-81 | the loop that joins the conditions builds exactly the fold of `FoldAndConjuncts` |
| Onf.LoopNestStructure | moa/onf.py:111-112 | wrapping a statement in one loop per index gives loops over the indices in reverse order, the first index innermost, around the unchanged statement |
| Onf.WrapLoops | moa/onf.py:111-112 | the loop that wraps the statement builds exactly the nest of `LoopNestStructure` |
| Onf.Positions | moa/onf.py:42-46 | every position listed is below `n` and its shape element is symbolic, or numeric, as asked |
| Onf.PositionsPartition | moa/onf.py:46-64 | every position of a shape is either symbolic or numeric: the two lists together have one entry per extent |
| Onf.PositionsComplete | moa/onf.py:42-46 | every position of the requested kind is listed |
| Onf.LoweredExtends | moa/onf.py:42-64 | what an argument's lowered checks and assignments say stays true when the table grows |
| Onf.LoweredAssignment | moa/onf.py:46-53 | a symbolic extent lowers to `n = <i> psi shape A`, which extends the lowering by one position |
| Onf.LoweredCondition | moa/onf.py:54-64 | a numeric extent lowers to `value == <i> psi shape A`, with `value` holding the number, which extends the lowering by one position |
| Onf.LowerElement | moa/onf.py:43-64 | one shape element lowered: a symbolic one adds one assignment to the symbol it names, a numeric one adds one equality check; a table that held the lowering so far holds it for one more element |
| Onf.LowerShape | moa/onf.py:42-64 | one assignment per symbolic extent and one equality check per numeric extent; on a table whose generated names are unused, the table grows by one symbol per extent and per check and every extent is lowered |
| Onf.ArgumentsLoweredExtends | moa/onf.py:32-64 | what the lowered arguments say stays true when the table grows |
| Onf.StepAssigned | moa/onf.py:46-53 | after one more argument every symbolic extent of the arguments so far is assigned |
| Onf.StepChecked | moa/onf.py:54-64 | after one more argument every numeric extent of the arguments so far is checked |
| Onf.StepAssignsSound | moa/onf.py:48-53 | every assignment reads an extent of one of the arguments so far |
| Onf.StepChecksSound | moa/onf.py:59-64 | every check reads an extent of one of the arguments so far |
| Onf.StepDimensions | moa/onf.py:33-40 | the dimension conditions are `dim A == d`, one per argument, in argument order |
| Onf.ArgumentsLoweredStep | moa/onf.py:32-64 | lowering one more argument keeps every argument so far lowered |
| Onf.LoweredArgument | moa/onf.py:33-64 | the dimension condition and the shape of one more argument, lowered over a grown table, keep every argument so far lowered |
| Onf.LowerArgument | moa/onf.py:33-64 | one argument with a shape adds one dimension condition, equality checks and assignments; a table that held the lowering of the arguments so far holds it for one more |
| Onf.LowerArguments | moa/onf.py:32-64 | raises `TypeError` exactly when an argument has no shape (`len(None)`); otherwise one dimension condition per argument, every check an equality, every assignment an `ASSIGN`, and with unused generated names every argument lowered |
| Onf.DetermineFunctionArguments | moa/onf.py:119-155 | raises exactly when the scan raises, with the error of a failing entry; otherwise the argument names in ascending order, each one a function argument of the table and none an index symbol |
| Onf.ShapeConditionConjuncts | moa/onf.py:77-88 | the shape condition's conjuncts are the numeric-extent checks, last first, followed by those of a root condition's condition |
| Onf.ShapeGuardHolds | moa/onf.py:90-93 | the guard `if not condition: error('arguments have invalid shape')` has the form the model's shape guard states |
| Onf.ChecksInShapeCondition | moa/onf.py:54-64 | every numeric extent of every argument is checked by a conjunct of the shape condition |
| Onf.DimensionGuardHolds | moa/onf.py:66-72 | the guard `if not (dim A == d and ...): error('arguments have invalid dimension')` states one dimension condition per argument |
| Onf.BodyLayout | moa/onf.py:66-114 | the body is an optional dimension guard, the assignments, an optional shape guard, the initialization and the loops, with no guard when conditions are off |
| Onf.AssignmentsInBody | moa/onf.py:74 | every symbolic extent is assigned in the body before the initialization and the loops |
| Onf.IndexVectorRegistered | moa/onf.py:99-101 | the loops built over the indices write the result through exactly one index name, and a table that holds that name as the vector of the indices meets `ResultIndexed` |
| Onf.LoopsRegistered | moa/onf.py:99-112 | the loops built over the indices range over exactly the index symbols of the table and write the result through its registered index vector |
| Onf.ResultSymbolsKeepIndices | moa/onf.py:98-101 | adding the result and the index vector leaves the index symbols of the table as they were |
| Onf.AssembledFunction | moa/onf.py:103-116 | the assembled node is a function over the sorted arguments whose body ends with the result's initialization and the loops over the indices around `result[index] = expression`, with guards exactly as conditions and arguments ask |
| Onf.AssembledTable | moa/onf.py:98-101 | the returned table extends the input, declares the result with the expression's shape, and its index symbols are the loop indices; it holds the index vector the innermost assignment writes through, of shape `(len(indices),)`, with the sorted index symbols as its value; every extent is assigned and the guards are in place |
| Onf.GuardsAssembled | moa/onf.py:66-93 | with conditions the body opens with the dimension guard when there are arguments and holds the shape guard when there is something to check |
| Onf.BuildGuards | moa/onf.py:66-93 | the dimension guard exists exactly when there are arguments and conditions are on; a root `CONDITION` contributes its condition and its operand becomes the expression; the shape guard exists exactly when there is a check or a condition and conditions are on |
| Onf.Assemble | moa/onf.py:95-116 | the node it builds meets `OnfFunction`, and the table meets `OnfTable` when the generated names are unused: the result is declared, the index symbols are the loop indices, and the result's index vector `(len(indices),)` holds the sorted indices |
| Onf.NaiveReduction | moa/onf.py:19-116 | raises when the argument scan raises, `TypeError` when an argument has no shape, `IndexError` for a root `CONDITION` without two operands, and nothing else; otherwise the function in operational normal form that `OnfFunction` and `OnfTable` describe, whose table declares the result and its index vector of the sorted indices |
| Backend.IndexSymbolMissed | moa/backend/backend.py:55 | every index symbol is missed by the test at line 55, which compares the whole entry with `INDEX` |
| Backend.DetermineIndicesAsWritten | moa/backend/backend.py:52-57 | as written, the names are sorted and are those the test selects, so the tuple is always empty |
| Backend.ListSet | moa/backend/backend.py:89 | `tuple(symbols)` lists every member of the set exactly once |
| Backend.BuildFunction | moa/backend/backend.py:63-89 | `IndexError` exactly for a root `CONDITION` without two operands; otherwise a shapeless function node over the arguments, an optional leading condition, and loops over the indices, last outermost, around `result[index] = expression`, with the table extended by the result and the index vector |
| Backend.AddFunctionNodeAsWritten | moa/backend/backend.py:60-89 | as written, raises as the scan and the condition raise; otherwise the arguments are exactly the function arguments of the back-end scan and the loop nest is empty: the result assignment stands bare |
| Backend.AddFunctionNode | moa/backend/backend.py:60-89 | with the corrected index test: raises as the scan and the condition raise; otherwise the arguments are those of the back-end scan and the loops run over the index symbols in ascending order, the last outermost |
| Frontend.ParseStatement | moa/frontend/frontend.py:44-56 | any front end but `moa` raises `ValueError`; with `moa` it raises exactly when the argument scan raises, with `NotImplementedError` |
| Temp.VisitTreeMeaning | moa/temp.py:14-31 | the post-order visit succeeds exactly when no node of the tree has a shape and every array names a symbol of the table, and then collects exactly the symbols the tree uses; it fails with `ValueError` for a shaped node and `KeyError` for a missing symbol |
| Temp.VisitChildrenMeaning | moa/temp.py:14-31 | the visit of the operands from the `k`-th on succeeds exactly when each of them would, and collects what they use |
| Temp.UsedSplits | moa/temp.py:18-30 | the symbols a tree uses are those its root collects plus those its operands use |
| Temp.RenumberedNames | moa/temp.py:36-39 | two generated names renumbered to the same name drew the same counter value |
| Temp.RenumberedIsGenerated | moa/temp.py:36-39 | a renumbered name is again a generated name, beginning with `_` |
| Temp.SymbolMapping | moa/temp.py:33-42 | the counter advances once per generated name; generated index and array names map to fresh `_i{c}` and `_a{c}` drawn from the counter, every other name maps to itself, and no two names map to the same one |
| Temp.NumberedInjective | moa/temp.py:33-42 | distinct counter values give a mapping that sends no two names to the same name |
| Temp.CheckUserSymbols | moa/temp.py:51-54 | passes exactly when every user symbol both trees use has the same entry in both tables; `KeyError` when one table lacks it, `ValueError` when the entries differ |
| Temp.MapElemsMeaning | moa/temp.py:76-92 | renaming a shape or value keeps its length and its numbers in place and renames exactly the names it holds |
| Temp.RenameElems | moa/temp.py:76-83 | the elements renamed one at a time; `KeyError` exactly when the mapping lacks one of the names |
| Temp.RenameEntry | moa/temp.py:74-93 | an entry's shape and value renamed into an array entry; `KeyError` exactly when a name is missing from the mapping |
| Temp.RenameEntries | moa/temp.py:74-93 | every entry of the table renamed, in the table's order; `KeyError` exactly when some entry names a symbol the mapping lacks |
| Temp.StageLookup | moa/temp.py:69-72 | the entry copied under a name's new name is the entry of the old name |
| Temp.StageKeys | moa/temp.py:69-72 | the staged table holds exactly the new names of the mapping |
| Temp.AddEntries | moa/temp.py:69-72 | the selected entries are copied under their new names; `KeyError` exactly when the table lacks a name of the mapping |
| Temp.RenameTreeNames | moa/temp.py:59-65 | the renamed tree uses exactly the new names of the old tree's arrays, and stays without shapes |
| Temp.MappedTrees | moa/temp.py:44-49 | the mappings of the two sides rename every array of their trees and send no two names to the same name |
| Temp.LeftNameNotOnRight | moa/temp.py:44-57 | with a shared counter, the left side's new name for a generated symbol, or for one the right side does not use, is never a new name the right side gives |
| Temp.MergeEntriesAsWritten | moa/temp.py:67-93 | as written, once the names moa/temp.py leaves undefined are supplied: the staged entries of both sides, the right side winning, renamed by the merged mapping; `KeyError` when a name cannot be resolved |
| Temp.MergeEntries | moa/temp.py:67-93 | corrected: each side's staged entries renamed by that side's own mapping, the right side winning; `KeyError` when a name cannot be resolved |
| Temp.DiscoverMappings | moa/temp.py:44-54 | the visit errors of the left tree, then of the right, are passed on; otherwise the two mappings are those of the visited symbols, and the result is an error exactly when the shared user symbols disagree |
| Temp.JoinSymbolTablesAsWritten | moa/temp.py:5-95 | as written, once the names moa/temp.py leaves undefined are supplied: the visit errors are passed on; it succeeds exactly when every step of the join succeeds and then returns both trees and all entries renamed by the merged mapping |
| Temp.JoinSymbolTables | moa/temp.py:5-95 | corrected: the same errors, and on success each side's tree and entries renamed by that side's own mapping |
| Temp.LeftEntryKept | moa/temp.py:67-93 | an entry copied from the left under a name the right side does not give keeps its left entry, renamed by the left mapping |
| Temp.RightEntryKept | moa/temp.py:71-93 | an entry copied from the right keeps its right entry, renamed by the right mapping |
| Temp.MergedEntryFromRight | moa/temp.py:57-93 | as written, once the undefined names are supplied, the entry under a name the right side gives is the right entry, renamed by the merged mapping |
| Temp.MergedTreeRedirect | moa/temp.py:57-65 | as written, once the undefined names are supplied, the merged mapping sends the left tree's array to the right side's new name, and nothing of the left tree to its own left name |
| Temp.JoinedLeftEntries | moa/temp.py:5-95 | in the corrected join every generated array of the left tree, and every one the right tree does not use, is renamed to a name whose joined entry is its own left entry, renamed |
| Temp.JoinedRightEntries | moa/temp.py:5-95 | in the corrected join every array of the right tree names its own right entry, renamed |
| Temp.JoinedSharedUser | moa/temp.py:51-57 | a user symbol both trees use keeps its name, and its joined entry is the one both tables agree on |
| Temp.MergedMappingRedirects | moa/temp.py:57 | as written, once the undefined names are supplied, a generated name both trees use is renamed in the left tree to the right side's new name, so the left tree refers to the right side's entry |
| Temp.MergedMappingCounterexample | moa/temp.py:57-65 | as written, once the undefined names are supplied, two trees that are both the array `_a{k}` join with the left tree renamed to `_a1`, whose entry has the right side's shape `(1,)` |
| Temp.CorrectedJoinExample | moa/temp.py:57-65 | the corrected join of the same trees leaves the left tree as `_a0` with its own shape `(0,)` |
| Analysis.NodeFlops | moa/analysis.py:8-14 | one node's count: `ValueError` when it is not shaped, `IndexError` without symbols, `TypeError` for a symbolic extent (and, as written, for the empty shape of a scalar operation); otherwise the product of the shape for `+ - * /` and 0 for every other node |
| Analysis.AllNodes | moa/analysis.py:20 | the post-order ends with the root |
| Analysis.CombineAssociative | moa/analysis.py:17 | adding up counts, the first error winning, does not depend on grouping |
| Analysis.FlatAppend | moa/analysis.py:17-20 | counting two runs of nodes one after the other is counting each and combining |
| Analysis.FoldIsFlat | moa/analysis.py:16-20 | the post-order fold over the tree equals the left-to-right pass over its post-order nodes |
| Analysis.OperandsAreFlat | moa/analysis.py:17 | the fold over the operands from the `k`-th on equals the pass over their nodes |
| Analysis.FlatErrorFound | moa/analysis.py:7-20 | a pass that raises names a first node that raises that error, every node before it counting |
| Analysis.FlatErrorRaised | moa/analysis.py:7-20 | a first node that raises makes the pass raise its error |
| Analysis.FlatError | moa/analysis.py:7-20 | the pass raises exactly the error of the first node that raises |
| Analysis.FlatSum | moa/analysis.py:11-18 | the pass succeeds exactly when every node can be counted, and then adds up every node's count |
| Analysis.FlopsRaises | moa/analysis.py:6-21 | `metric_flops` raises exactly the error of the first node, in post-order, that cannot be counted |
| Analysis.FlopsSum | moa/analysis.py:6-21 | `metric_flops` succeeds exactly when every node can be counted, and is then the sum over all nodes of the product of the shape of each `+ - * /` node |
| Analysis.UnshapedRaises | moa/analysis.py:8-9 | a tree with a node not yet shaped never gets a count, in either reading |
| Analysis.FlatReadingsAgree | moa/analysis.py:13-14 | away from scalar arithmetic the as-written and the corrected pass agree |
| Analysis.ReadingsAgree | moa/analysis.py:13-14 | on a tree without a scalar `+ - * /` node, `metric_flops` as written and corrected give the same result |
| Analysis.ScalarOperationCounted | moa/analysis.py:13-14 | a scalar `+` over operands that count nothing raises `TypeError` as written, and counts 1 corrected |
| Analysis.LeafFlops | moa/analysis.py:11-18 | a shaped array leaf counts nothing |
| Analysis.FlopsTestExample | tests/test_analysis.py:4-25 | `<0> psi tran(A + B)` on `(10, 100)` counts 1000 before the reduction and 10 after it |
| Testing.FieldDifference | moa/testing.py:11-21 | no field differs exactly when symbol, shape, attributes and arity agree; the field reported is the first that differs, in that order |
| Testing.AstDifferenceNone | moa/testing.py:10-24 | `assert_ast_equal` raises nothing exactly when the two trees are equal |
| Testing.OperandsDifferenceNone | moa/testing.py:23-24 | the operands from the `k`-th on raise nothing exactly when they are equal |
| Testing.AstDifferenceLocated | moa/testing.py:10-24 | a reported difference carries a path below the starting index that leads, in both trees, to two nodes differing in the reported field |
| Testing.OperandsDifferenceLocated | moa/testing.py:23-24 | the same for a difference found among the operands |
| Testing.OperandsBeforeEqual | moa/testing.py:23-24 | the reported difference is the first: every operand left of its path is equal on both sides |
| Testing.FirstDifference | moa/testing.py:10-24 | a difference below the root means the roots agree field by field and every operand left of the path is equal |
| Testing.EntriesDifferenceNone | moa/testing.py:31-33 | nothing is raised over the names exactly when their entries agree; otherwise the name reported is the first whose entries differ |
| Testing.TableDifferenceNone | moa/testing.py:27-33 | `assert_symbol_table_equal` raises nothing exactly when the two tables are equal |
| Testing.TableDifferenceReported | moa/testing.py:27-33 | what is raised names the difference: the names only one side has, or the first name in the left table's order whose entries differ |
| Testing.ContextDifferenceNone | moa/testing.py:5-7 | `assert_context_equal` raises nothing exactly when the contexts are equal; a table mismatch is reported only under equal trees |
| Testing.DifferenceExample | moa/testing.py:10-24 | two trees that differ only in the shape of the first operand of the second operand report a shape difference at path `(1, 0)` |
| LazyArrays.AddNamesEntries | moa/frontend/array.py:33 | registering names adds exactly those names, each as a scalar with unknown value, and keeps every other entry |
| LazyArrays.AddNamesFresh | moa/frontend/array.py:33 | registering user names that do not start with `_` keeps the generated names unused |
| LazyArrays.Elements | moa/frontend/array.py:29-38 | there are no more index elements than items |
| LazyArrays.SliceCountPositive | moa/frontend/array.py:39-40 | slices are recorded exactly when some item is a slice |
| LazyArrays.ScanRaises | moa/frontend/array.py:29-42 | the scan raises exactly on an item of another type or on a name or integer after a slice, and then with `IndexError` |
| LazyArrays.MisplacedShift | moa/frontend/array.py:29-38 | before any slice, a name or integer at the head leaves the question of a misplaced item to the rest |
| LazyArrays.MisplacedAfterSlice | moa/frontend/array.py:31-40 | after a slice, every name or integer that follows is misplaced |
| LazyArrays.ScanCompletes | moa/frontend/array.py:29-42 | without a raise the scan registers the names, collects the index elements in order and counts the slices |
| LazyArrays.IndexedRaises | moa/frontend/array.py:23-52 | indexing raises `IndexError` exactly on a misplaced item, `NameError` (the misspelled `NotImplemenetedError`) exactly when slices remain, and succeeds otherwise |
| LazyArrays.IndexedContext | moa/frontend/array.py:44-49 | with index elements the tree becomes `psi` of a new vector holding them, in order, over the old tree, the names among them registered as scalars; without any the tree is unchanged |
| LazyArrays.IndexedKeepsEntries | moa/frontend/array.py:33-46 | the generated names stay unused and every entry not named by an index survives |
| LazyArrays.ElementNames | moa/frontend/array.py:30-34 | every name among the index elements comes from a name item |
| LazyArrays.TransposedKeepsTree | moa/frontend/array.py:80-93 | the old tree becomes the last operand; without a vector the table is unchanged, with one the vector is stored under a new name; every other entry survives and the generated names stay unused |
| LazyArrays.ListTupleAsWritten | moa/frontend/array.py:63-74 | as written, any name among the elements raises `NameError` (`NodeSymbol` is not imported at line 70); elements without names come back unchanged |
| LazyArrays.SymbolicTransposeVector | moa/frontend/array.py:70 | `transpose(['n', 0])` raises as written; corrected, it registers `n` as a scalar and names a new vector |
| LazyArrays.GuardNeverHolds | moa/frontend/array.py:123 | `operation not in operation` never holds: a string always occurs in itself |
| LazyArrays.ReduceSymbolsAsWritten | moa/frontend/array.py:116-129 | as written, the symbols are found exactly for the four map keys, and any other operation raises `KeyError` at line 127 |
| LazyArrays.ReduceSymbols | moa/frontend/array.py:116-124 | corrected, a reduction exists exactly for `+ - * /`, as `REDUCE` followed by the operation's symbol; any other operation raises `ValueError` |
| LazyArrays.ReduceReadings | moa/frontend/array.py:116-129 | the two readings agree on the four operations and differ only in the exception otherwise |
| LazyArrays.UnknownReduction | moa/frontend/array.py:123-127 | `reduce('%')` raises `KeyError` as written, where `ValueError` is meant |
| LazyArrays.ArrayNameAsWritten | moa/frontend/array.py:18 | as written, an empty name raises `AttributeError` because `self.context` does not exist yet; any other name is kept |
| LazyArrays.ArrayName | moa/frontend/array.py:18 | corrected, the name is never empty: a given name is kept and an empty one is replaced by a generated `_a…` name |
| LazyArrays.EmptyArrayName | moa/frontend/array.py:18 | `LazyArray(shape=(2, 3), name='')` raises as written; corrected, it is the array `_a0` |
| LazyArrays.LazyArray.Named | moa/frontend/array.py:20-21 | the new array is one array node with one entry holding the shape and no value |
| LazyArrays.LazyArray.ListTuple | moa/frontend/array.py:63-74 | corrected: the elements come back as given and every name among them is registered as a scalar |
| LazyArrays.LazyArray.GetItem | moa/frontend/array.py:23-52 | the new context and the outcome are those of `IndexedRaises` and `IndexedContext`, the symbols registered before a raise kept |
| LazyArrays.LazyArray.Transpose | moa/frontend/array.py:80-93 | corrected: the new context is the transposition of `TransposedKeepsTree`, whose vector is read by the corrected `ListTuple`, so a name in the vector is registered where line 70 as written raises `NameError` |
| LazyArrays.LazyArray.T | moa/frontend/array.py:76-78 | `T` is `transpose()` without a vector |
| LazyArrays.LazyArray.Reduce | moa/frontend/array.py:116-129 | corrected: `ValueError` exactly for an operation other than `+ - * /`, with the context unchanged; otherwise the tree under the reduction's symbols and the table unchanged |
| LazyArrays.NewLazyArray | moa/frontend/array.py:10-21 | corrected at line 18 only: `ValueError` without a name and a value, `NameError` for a value, `AttributeError` for a shape with names, as written; otherwise a fresh array over the name with that shape, where an empty name is generated as `_a0` while line 18 as written raises `AttributeError` |
| LazyArrays.IndexIntExample | tests/frontend/test_array.py:116-127 | `A[0]` is `psi` of `_a1 = <0>` over `A` |
| LazyArrays.IndexTupleExample | tests/frontend/test_array.py:177-188 | `A[1, 0]` is `psi` of `_a1 = <1 0>` over `A` |
| LazyArrays.IndexSymbolExample | tests/frontend/test_array.py:130-142 | `A['n']` registers the scalar `n` and is `psi` of `_a2 = <n>` over `A` |
| LazyArrays.TransposeExamples | tests/frontend/test_array.py:61-92 | `A.T` is `transpose` over `A`; `A.transpose([1, 0])` is `transposev` of `_a1 = <1 0>` over `A` |

## Left out

Files and code that are not part of this model:

- docs/_static/mathconf.js and docs/conf.py: a MathJax macro table and a Sphinx configuration. The macros are expanded by MathJax, so the repository holds no behaviour to model.
- moa/frontend/moa.py: the lexer and grammar are declared for the `sly` library, and the tokenising and parsing happen inside it. `Frontend.ParseStatement` takes the parsed symbol table and tree as a parameter.
- moa/frontend/__main__.py: an interactive `input`/`print` loop.
- moa/backend/python.py and moa/backend/numba.py: these build Python `ast` objects and unparse them with `astunparse`, which is foreign code.
- moa/visualize.py and `LazyArray.visualize`/`_repr_svg_`: graphviz rendering.
- moa/compiler.py: glue that chains the stages and holds no logic of its own.
- moa/core.py: a second copy of the node enumeration. Its values are those of `MoaAst.NodeSymbol`.
- benchmarks/, tests/benchmark/ and setup.py: timing against numpy, torch and tensorflow, and packaging.
- The module that defines `Node`, `create_context`, `add_symbol`, `node_traversal` and the `generate_unique_*_name` helpers is not part of this model. `MoaAst` gives these helpers the meaning the tests show. A fresh name is `_a{n}` or `_i{n}`, where `n` is the size of the table.
- Commented-out code: the shape rules at moa/shape.py:98-239, and the operator overloads and `outer` at moa/frontend/array.py:95-194.
- `preorder_replacement` (moa/ast.py:55-56) is an empty stub, yet moa/reduction.py:42 calls it to reduce the indexed tree. `Reduction.ReduceTree` models the rewrite that call is meant to perform. A node is rewritten until no rule applies, and then its operands are reduced, left before right.
- `reduce_to_dnf` (moa/dnf.py:39-45) calls `node_traversal`, which is undefined there. The single step `_reduce_replacement` is modelled, with its rule table and every rule. The whole-tree traversal is not modelled.
- `calculate_shapes` and `_shape_replacement` (moa/shape.py:27-84) also call the undefined `node_traversal`. Only the two live rules, `_shape_array` and `_shape_transpose`, are modelled.
- The `print` at moa/backend/backend.py:83.
- The `fmt` argument of `Array` (moa/array.py:10, 24) is stored and never read. The model stores it too.
- Stale tests. tests/test_onf.py expects the argument order `('B', 'A')`, but moa/onf.py:155 sorts the arguments; the model follows the code. tests/test_ast.py and tests/test_reduction.py call functions and signatures that the modules no longer have, so they are not used. The tests under moa/tests/ are the ones cited.

Modelling choices:

- A symbolic element of a shape or a value is `Ref(name)`. The ARRAY or INDEX tag of the element node is dropped, and so is the element node's own shape. `has_symbolic_elements` and `is_symbolic_element` become "some element is a `Ref`". moa/shape.py defines neither, so the imports of them at moa/onf.py:6-8, moa/backend/backend.py:6-8 and moa/frontend/frontend.py:3 fail as written; the model gives them the meaning their names and uses state.
- The rules of moa/dnf.py are declared to take `(symbol_table, node)`, but `_reduce_replacement` calls them with a context. `Node` is undefined in moa/dnf.py. The model reads every rule as a function of the context and `Node` as the node of `MoaAst`. The rule bodies also call `generate_unique_array_name`, `generate_unique_index_name` and `add_symbol`, which moa/dnf.py:1-5 does not import (moa/dnf.py:105-107, 116-118, 127-129, 136-141, 154-160), so each rule raises `NameError` as written. They call `is_vector`, `dimension` and `is_scalar` with two arguments (moa/dnf.py:102, 155, 159, 177, 184), while moa/shape.py:10, 18 and 22 define them with one context, a `TypeError` as written. The model follows the evident intent: fresh names and symbols as `MoaAst` defines them, and the one-context tests of `Shape`.
- moa/reduction.py:4-8 imports `ArrayNode` and `BinaryNode` from moa/ast.py, which defines neither, so the module fails at import as written; moa/onf.py:2-5 and moa/backend/backend.py:2-5 import their node constructors the same way. moa/reduction.py:55 and 63 also call `is_vector` on a tuple node, while moa/shape.py:22-23 takes a context. `Reduction.HasIndexValues` reads "vector" as the node's own one-extent shape with an inline value, which is what moa/tests/test_reduction.py expects.
- A Python dictionary or set is iterated in an order the model does not fix.
  - Where the order shows in the result, it is a parameter: the `order` of the argument scans, and the order `Backend.ListSet` returns.
  - Where it does not show, it is left open, as in the numbering of `Temp.SymbolMapping`.
  - Every property is proved for all orders.
- `Arguments.DetermineArguments` and `Onf.DetermineFunctionArguments` return the argument names. They do not return the array nodes that carry their shapes; `Onf.ShapeOf` reads a shape from the table.
- Temp assumes that array nodes are leaves, as every tree the compiler builds has them. A renamed array node is the bare `Node(ARRAY, None, name)` of moa/temp.py:61, so any inline value is dropped, as the code drops it.
- moa/backend/backend.py:85 builds `LoopNode` with three of its four fields and no shape. The model gives these loops the shape of the expression, as moa/onf.py does.
- Analysis: a symbolic extent in an arithmetic node's shape cannot be multiplied. The model raises `TypeError` there. In Python, the product or the later sum then combines a node with a number, which raises `TypeError`.
- LazyArrays:
  - an index item is an integer, a string, a slice or anything else;
  - slices are recorded only by their count, because any int or string after one raises;
  - only integers and names are modelled as shape and transpose-vector items.
- `LazyArrays.NewLazyArray`: a symbolic shape runs `_create_array_from_list_tuple`, which reads `self.context` before the constructor sets it. It raises `AttributeError` as written, and the model raises it too. The other use of that helper, `_create_array_from_int_float_string`, is reached only from the commented-out code.
- moa/frontend/array.py:15 and 51 raise the misspelled `NotImplemenetedError`. That name is undefined, so Python raises `NameError`, and the model does the same.
- moa/temp.py imports nothing. `itertools`, `MOANodeTypes`, `Node`, `SymbolNode`, `node_traversal` and `is_symbolic_element` are undefined there, so `join_symbol_tables` as it stands raises `NameError` at line 12 on every call. It also reads the older `node_type`/`symbol_node` fields. The `Temp` module models the join once those names are supplied with their meaning elsewhere in the compiler; every "as written" statement about `Temp` is in that sense.
- Dnf.ReducePsiReduce: registers the reduction index with the range `(0, bound, 1)`, the form moa/dnf.py:25 gives the indices of the indexing step and tests/test_dnf.py:17-18 expects. moa/dnf.py:137 registers `(0, node.right_node.right_node.shape[0])`, without the step; the model does not carry that two-element form.
- Dnf.Indexed: rebuilds a `CONDITION` root with the symbol tuple `(CONDITION,)`. moa/dnf.py:34 passes the bare symbol, which the node type of the model cannot hold; a root rebuilt that way would not pass the `== (CONDITION,)` test of line 18.
- Dnf.ReducePsiTransposeV: a symbolic permutation component raises `TypeError` once two keys are compared. This assumes element nodes do not order among themselves; `Node` is not part of this model, and were it a named tuple, `sorted` at moa/dnf.py:128 would order symbolic keys by their fields without raising.
- DenseArray: extents are natural numbers. `Array.__init__` (moa/array.py:11-21) accepts a negative extent without a check; `Array((2, -1))` then stores no cells and every later read raises `IndexError`. Negative extents are not modelled.
- LazyArrays.LazyArray.GetItem: the caller supplies the index as a sequence of items; the wrapping of a bare index at moa/frontend/array.py:24-25 is left to the caller. A bare index that is not iterable, such as `A[1.5]`, raises `TypeError` in Python at `for i in index`; the closest model input, `[OtherIndex]`, gives `IndexError`.

## Findings

| source | as written | input that shows it | evidently intended | confidence | as-written member | corrected member |
|---|---|---|---|---|---|---|
| moa/dnf.py:67-83 | each operand pattern is `((X,))`, which is the tuple `(X,)`. Its head is then the bare symbol `X`, and no node symbol, always a tuple, equals it. So no rule ever matches and `_reduce_replacement` never rewrites | `<i0> psi transpose(A)`: no rule matches | the pattern `((X,),)`, whose head is the symbol tuple, so that `psi` over `X` selects X's rule | not executed | Dnf.AsWrittenRulesNeverMatch, Dnf.ReplacementAsWrittenIsIdentity | Dnf.RuleMatchesExactly, Dnf.ReplacementSelectsRule |
| moa/analysis.py:14 | `reduce(lambda x,y: x*y, shape)` has no start value, so it raises `TypeError` on the empty shape of a scalar operation | `(<i0> psi A) + (<i0> psi B)` after ψ-reduction, a `+` of shape `()` | a scalar operation counts one flop, the product of the empty shape | not executed | Analysis.ScalarOperationCounted | Analysis.ReadingsAgree, Analysis.FlopsSum |
| moa/backend/backend.py:55 | `symbol_node == MOANodeTypes.INDEX` compares the whole entry with the enum, so it never holds and `determine_indicies` returns `()`. `add_function_node` then builds no loop | a table with `_i0` of type INDEX: `_i0` is not selected | compare the entry's type, as moa/onf.py:161 does | not executed | Backend.IndexSymbolMissed, Backend.DetermineIndicesAsWritten, Backend.AddFunctionNodeAsWritten | Onf.DetermineIndices, Backend.AddFunctionNode |
| moa/temp.py:57 | as written, once the names the file leaves undefined are supplied: one merged mapping `{**left, **right}` renames both trees. A generated name used on both sides is sent to the right side's new name in the left tree too | both trees `_a{k}`, left of shape `(0,)` and right of shape `(1,)`: the joined left tree is `_a1`, of shape `(1,)` | each tree renamed by its own side's mapping | not executed | Temp.MergedMappingRedirects, Temp.MergedMappingCounterexample | Temp.JoinedLeftEntries, Temp.CorrectedJoinExample |
| moa/shape.py:13 | `node` is undefined in `dimension`, so on any node that is not an array it raises `NameError` | `transpose(A)` with shape (3, 4) | `context.ast.shape`: the length of the node's own shape | not executed | Shape.DimensionReadings, Shape.DimensionOfOperationExample | Shape.Dimension |
| moa/frontend/array.py:123 | the guard `operation not in operation` never holds, and an unknown operation raises `KeyError` at line 126 | `reduce('%')` | `operation not in operation_map`, raising the `ValueError` of its message | not executed | LazyArrays.GuardNeverHolds, LazyArrays.UnknownReduction | LazyArrays.ReduceSymbols, LazyArrays.ReduceReadings, LazyArrays.LazyArray.Reduce |
| moa/frontend/array.py:18 | an empty name reads `self.context`, which is not set until line 20, and raises `AttributeError` | `LazyArray(shape=(2, 3), name='')` | a name generated from the empty table the array starts with, `_a0` | not executed | LazyArrays.ArrayNameAsWritten, LazyArrays.EmptyArrayName | LazyArrays.ArrayName, LazyArrays.NewLazyArray |
| moa/dnf.py:160 | `value[-right_dimension:]` with `right_dimension == 0` is `value[0:]`, the whole index vector | `<i0> psi (a outer s)` for a vector `a` and a scalar `s` | the last 0 components, an empty vector, so that the two parts make up the index | not executed | Dnf.OuterSplitAsWrittenScalar | Dnf.OuterSplit, Dnf.ReducePsiOuterSplits |
| moa/frontend/array.py:70 | `NodeSymbol` is not imported, so a string element raises `NameError` | `A.transpose(['n', 0])` | `ast.NodeSymbol.ARRAY`, as line 33 writes it: `n` is registered as a scalar symbol | not executed | LazyArrays.ListTupleAsWritten, LazyArrays.SymbolicTransposeVector | LazyArrays.LazyArray.ListTuple, LazyArrays.LazyArray.Transpose |
