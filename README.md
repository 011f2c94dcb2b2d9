# AVL tree of `AVL_Grafico.cpp`, modelled and verified in Dafny

`AVL_Grafico.cpp` keeps integer keys in a self-balancing binary search tree,
the class `ArbolAVL`, and draws it with OpenGL. Each node (`struct Nodo`)
stores a key (`valor`), a cached height (`altura`) and two child pointers.
The public operations `insertar(val)` and `eliminar(val)` call recursive
private routines. These descend by key order, change the tree at the bottom,
and on the way back up run `equilibrar` on every node of the path.
`equilibrar` recomputes the node's height and fixes a balance factor of ±2
with one rotation (LL, RR) or two rotations (LR, RL). `main` seeds the tree
with 40, 20, 50, 10, 30, 5, 25, 27. A call `eliminar(10)` follows in the
file but is commented out.

This project models that core and proves three things:

- the invariants the class keeps: search-tree order, correct cached heights,
  and every balance factor in -1..1;
- what each operation does to the key set;
- the tree the driver builds.

Modules, one file each:

- `tree.dfy`, `AvlTree`:
  - the node type `Tree` (`Nil` is a null pointer);
  - `obtenerAltura` and `obtenerFactorEquilibrio`;
  - the reference definitions: in-order sequence, key set and true height;
  - the three invariants `IsBST`, `HeightsCorrect` and `Balanced`.
- `rebalance.dfy`, `AvlRebalance`: `actualizarAltura`, the two rotations and
  `equilibrar`.
- `ops.dfy`, `AvlOps`: the `Nodo` constructor, the recursive `insertar`,
  `encontrarMinimo` and `eliminar`.
- `arbol.dfy`, `AvlArbol`: the class `ArbolAVL` with its root field `raiz`, its
  constructor, and the public `insertar` and `eliminar`.
- `height_bound.dfy`, `AvlHeightBound`: the height bound that the balance
  invariant buys.
- `scenario.dfy`, `AvlEscenario`: the driver's key sequence, inserted one
  public call at a time, and the commented-out removal of 10.

Each C++ routine rewires nodes in place and returns the root of the new
subtree. Here each one is a function from the old subtree to the new subtree.
Nodes are owned by exactly one parent, so no sharing is lost. The class keeps
its one mutable field, and its methods reassign it.

## Model

| member | source | states |
|---|---|---|
| AvlTree.Altura | AVL_Grafico.cpp:20-23 | The height of an absent subtree is 0, and only an absent subtree has height 0. |
| AvlTree.FactorEquilibrio | AVL_Grafico.cpp:25-28 | An absent subtree has factor 0. The factor lies between minus the right height and the left height. A positive factor implies a left child, and a negative one a right child. |
| AvlTree.InOrderListsKeys | AVL_Grafico.cpp:7-13 | A key occurs in the in-order sequence exactly when it is stored in the subtree. |
| AvlTree.CachedHeightIsTrueHeight | AVL_Grafico.cpp:9 | When every cached `altura` is 1 + the larger child height, the cached height at the root equals the true height of the shape. |
| AvlTree.BstInOrderIncreasing | AVL_Grafico.cpp:75-85 | In a search tree, the in-order sequence is strictly increasing. |
| AvlTree.InOrderIncreasingBst | AVL_Grafico.cpp:75-85 | A strictly increasing in-order sequence implies search-tree order. |
| AvlTree.BstIffInOrderIncreasing | AVL_Grafico.cpp:75-85 | Search-tree order holds exactly when the in-order sequence is strictly increasing. |
| AvlRebalance.ActualizarAltura | AVL_Grafico.cpp:30-33 | The node keeps its key and both children; only the cached height is recomputed. Height correctness is stated by `ActualizarAlturaCorrige`. |
| AvlRebalance.ActualizarAlturaCorrige | AVL_Grafico.cpp:30-33 | Over children with correct heights, the recomputed node has correct heights. On a node whose height is already correct, the update changes nothing. |
| AvlRebalance.RotarDerecha | AVL_Grafico.cpp:35-44 | Defined only when the left child exists. The result is rooted at the old left child's key, and its right child carries the old root's key. Order, heights and balance are stated by the `RotarDerecha…` lemmas. |
| AvlRebalance.RotarIzquierda | AVL_Grafico.cpp:46-55 | Defined only when the right child exists. The result is rooted at the old right child's key, and its left child carries the old root's key. Order, heights and balance are stated by the `RotarIzquierda…` lemmas. |
| AvlRebalance.RotarDerechaKeepsInOrder | AVL_Grafico.cpp:35-44 | A right rotation keeps the in-order sequence and the key set. |
| AvlRebalance.RotarIzquierdaKeepsInOrder | AVL_Grafico.cpp:46-55 | A left rotation keeps the in-order sequence and the key set. |
| AvlRebalance.RotarDerechaKeepsHeights | AVL_Grafico.cpp:35-44 | Over subtrees with correct cached heights, a right rotation leaves every cached height correct: y is recomputed before x. |
| AvlRebalance.RotarIzquierdaKeepsHeights | AVL_Grafico.cpp:46-55 | Over subtrees with correct cached heights, a left rotation leaves every cached height correct: x is recomputed before y. |
| AvlRebalance.Equilibrar | AVL_Grafico.cpp:57-73 | The result is a node. Order, balance and height are stated by the `Equilibrar…` lemmas. |
| AvlRebalance.EquilibrarKeepsInOrder | AVL_Grafico.cpp:57-73 | Every path of `equilibrar` (no rotation, LL, LR, RR, RL) keeps the in-order sequence and the key set. |
| AvlRebalance.RebalancingKeepsOrder | AVL_Grafico.cpp:35-73 | Each rotation, and `equilibrar`, gives a search tree exactly when its input is one. |
| AvlRebalance.RotarDerechaRestoresAvl | AVL_Grafico.cpp:62-65 | LL case: left child two levels taller and not right-heavy. One right rotation gives an AVL tree as tall as the left child or one level taller. |
| AvlRebalance.RotarIzquierdaRestoresAvl | AVL_Grafico.cpp:67-70 | RR case, mirrored. |
| AvlRebalance.DobleRotacionDerechaRestoresAvl | AVL_Grafico.cpp:62-65 | LR case: left child two levels taller and right-heavy. Its right child exists, and the double rotation gives an AVL tree exactly as tall as the left child. |
| AvlRebalance.DobleRotacionIzquierdaRestoresAvl | AVL_Grafico.cpp:67-70 | RL case, mirrored. |
| AvlRebalance.EquilibrarRestoresAvl | AVL_Grafico.cpp:57-73 | Over AVL children whose heights differ by at most 2, `equilibrar` gives an AVL tree. Its height is between the taller child's height and one more. A node already in balance only has its height recomputed. |
| AvlRebalance.EquilibrarKeepsAvlNode | AVL_Grafico.cpp:57-73 | `equilibrar` leaves an AVL node unchanged. |
| AvlOps.NuevoNodo | AVL_Grafico.cpp:12 | A new node is a leaf of height 1 holding exactly the one key. It is an AVL search tree. |
| AvlOps.Insertar | AVL_Grafico.cpp:75-85 | The result is a node. Keys, order, balance and height are stated by the `Insertar…` lemmas. |
| AvlOps.InsertarKeys | AVL_Grafico.cpp:75-85 | After `insertar(n, val)` the key set is the old key set plus `val`. |
| AvlOps.InsertarKeepsOrder | AVL_Grafico.cpp:75-85 | Inserting into a search tree gives a search tree. |
| AvlOps.InsertarPreservesAvl | AVL_Grafico.cpp:75-85 | Inserting into an AVL tree gives an AVL tree as tall as before or one level taller. |
| AvlOps.InsertarExistingIsIdentity | AVL_Grafico.cpp:80-83 | Inserting a key that the AVL search tree already holds returns the same tree. |
| AvlOps.EncontrarMinimo | AVL_Grafico.cpp:87-90 | Returns a node with no left child whose key is stored and comes first in order. In a search tree that key is the smallest one. |
| AvlOps.EncontrarMinimoEsPrefijo | AVL_Grafico.cpp:87-90 | The returned node is the leftmost subtree of the tree: its in-order sequence is a prefix of the tree's in-order sequence. |
| AvlOps.Eliminar | AVL_Grafico.cpp:92-114 | Removing from the empty tree never yields a node. Keys, order, balance and height are stated by `EncontrarMinimo` and the `Eliminar…` lemmas. |
| AvlOps.EliminarKeepsOrder | AVL_Grafico.cpp:92-114 | Removing from a search tree gives a search tree whose key set is the old one minus `val`. |
| AvlOps.SucesorKeepsOrder | AVL_Grafico.cpp:107-113 | Two-children case: copying the successor's key up and removing it from the right subtree gives a search tree without the node's old key. |
| AvlOps.EliminarPreservesAvl | AVL_Grafico.cpp:92-114 | Removing from an AVL tree gives an AVL tree as tall as before or one level shorter. |
| AvlOps.EliminarAbsentIsIdentity | AVL_Grafico.cpp:94-100 | Removing a key that the AVL tree does not hold returns the same tree. |
| AvlArbol.ArbolAVL.constructor | AVL_Grafico.cpp:168 | A new tree is empty and satisfies the class invariant. |
| AvlArbol.ArbolAVL.Insertar | AVL_Grafico.cpp:170-173 | Keeps the invariant. The root becomes the recursive result, and the key set gains `val`. A present key changes nothing, and the height grows by at most 1. |
| AvlArbol.ArbolAVL.Eliminar | AVL_Grafico.cpp:175-178 | Keeps the invariant, and the key set loses `val`. An absent key changes nothing, and removing the only key empties the tree. The height shrinks by at most 1. |
| AvlArbol.InsertarTodosIsValid | AVL_Grafico.cpp:170-173 | Any sequence of public insertions keeps the invariant. The key set becomes the old one plus the inserted keys. |
| AvlArbol.EliminarTodosEmpties | AVL_Grafico.cpp:175-178 | Removing every stored key, in any order, with absent keys and repeats allowed, ends with the empty tree. |
| AvlHeightBound.AvlHasMinNodos | AVL_Grafico.cpp:57-73 | An AVL tree of height h has at least `MinNodos(h)` nodes. |
| AvlHeightBound.AvlHeightLogarithmic | AVL_Grafico.cpp:57-73 | An AVL tree with n nodes has height h with 2^(h/2) <= n + 1. |
| AvlEscenario.InsertarPorLaIzquierda | AVL_Grafico.cpp:78-79 | When the new left subtree keeps the node in balance, `insertar` only relinks it and recomputes the height. |
| AvlEscenario.InsertarPorLaDerecha | AVL_Grafico.cpp:80-81 | The mirror image for the right subtree. |
| AvlEscenario.Paso1Correcto | AVL_Grafico.cpp:208 | `insertar(40)` into the empty tree gives the leaf 40. |
| AvlEscenario.Paso2Correcto | AVL_Grafico.cpp:209 | `insertar(20)` hangs 20 left of 40. |
| AvlEscenario.Paso3Correcto | AVL_Grafico.cpp:210 | `insertar(50)` hangs 50 right of 40. |
| AvlEscenario.Paso4Correcto | AVL_Grafico.cpp:211 | `insertar(10)` hangs 10 left of 20, and the root's height becomes 3. |
| AvlEscenario.Paso5Correcto | AVL_Grafico.cpp:212 | `insertar(30)` hangs 30 right of 20. |
| AvlEscenario.Paso6Correcto | AVL_Grafico.cpp:213 | `insertar(5)` triggers the LL case at 40, and 20 becomes the root. |
| AvlEscenario.Paso7Correcto | AVL_Grafico.cpp:214 | `insertar(25)` hangs 25 left of 30 with no rotation. |
| AvlEscenario.EntreVeinticincoYTreinta | AVL_Grafico.cpp:215 | Any key strictly between 25 and 30, 27 among them, triggers the LR case at 30 and becomes the root of that subtree. No other node rotates. |
| AvlEscenario.PasoCorrecto | AVL_Grafico.cpp:208-215 | The i-th `insertar` of the driver turns the tree after i - 1 keys into the tree after i keys. |
| AvlEscenario.PasoValido | AVL_Grafico.cpp:208-215 | Every intermediate tree of the driver is an AVL search tree. |
| AvlEscenario.InsertarDeLaSemilla | AVL_Grafico.cpp:208-215 | The i-th public call, applied to the tree after i - 1 keys, leaves the tree after i keys. |
| AvlEscenario.SembrarComoElPrograma | AVL_Grafico.cpp:208-215 | After the eight calls the tree is valid, its root is 20, and its in-order keys are 5, 10, 20, 25, 27, 30, 40, 50. |
| AvlEscenario.RecorridoDelSembrado | AVL_Grafico.cpp:208-215 | The seeded tree has root 20 and that in-order sequence. |
| AvlEscenario.EliminarDiezCorrecto | AVL_Grafico.cpp:218 | Removing 10 from the seeded tree gives the tree rooted at 27. 10 has one child, so 5 takes its place and 20 goes through the RL case. |
| AvlEscenario.RecorridoSinDiez | AVL_Grafico.cpp:218 | That tree has root 27 and in-order keys 5, 20, 25, 27, 30, 40, 50. |
| AvlEscenario.EliminarDiezDelEjemplo | AVL_Grafico.cpp:218 | The public `eliminar(10)` on the seeded tree leaves a valid tree with root 27 and that in-order sequence. |
| AvlEscenario.TresInsercionesCrecientes | AVL_Grafico.cpp:57-73 | Inserting 30 into the tree 10 → 20 triggers the RR case, and 20 becomes the root over 10 and 30. |
| AvlEscenario.DiezEnVacio | AVL_Grafico.cpp:77 | Inserting 10 into the empty tree gives the leaf 10. |
| AvlEscenario.VeinteTrasDiez | AVL_Grafico.cpp:80-81 | Inserting 20 into the leaf 10 hangs 20 right of 10, and the height becomes 2. |
| AvlEscenario.TresCrecientesDesdeVacio | AVL_Grafico.cpp:75-85 | Inserting 10, 20 and 30 in that order into the empty tree gives root 20 over 10 and 30. |

The line `arbol.eliminar(10);` (line 218) is inside a comment, so the program
never removes 10. `EliminarDiezDelEjemplo` shows what that call would do if
it were enabled.

In `equilibrar`, a rotation is only reached when the child it rewires
exists. Dafny checks this as the precondition of each rotation at its call
site, from the cached heights alone. The AVL invariant is not needed for
that.

## Left out

- Drawing (`dibujarArbol`, `dibujar`, lines 116–165 and 180–183), the
  global `arbol`, `mostrar` and `main` (lines 186–224): OpenGL output and the
  GLUT event loop. Only the calls the driver makes to the tree are modelled.
- `delete n` (line 104): memory release. The value model has no heap, so
  the removed node just stops being reachable.
- In-place pointer updates: each routine is modelled as a function from the
  old subtree to the new one. Ownership is exclusive, so aliasing never
  arises. The model does not capture which heap cells are reused.
- `int` width: keys and heights are unbounded integers. The height of a tree
  that fits in memory cannot reach 2^31, and keys are only compared, never
  computed.
- AvlRebalance.ActualizarAltura: its contract only says that key and
  children are unchanged. Height correctness is stated by
  `ActualizarAlturaCorrige`.
- AvlRebalance.RotarDerecha: its contract only states the result's shape and which keys sit at its top two nodes.
  Order, cached heights and balance are stated by the `RotarDerecha…` lemmas.
- AvlRebalance.RotarIzquierda: its contract only states the result's shape and which keys sit at its top two nodes.
  Order, cached heights and balance are stated by the `RotarIzquierda…`
  lemmas.
- AvlRebalance.Equilibrar: its contract only says the result is a node.
  Order, balance and height are stated by the `Equilibrar…` lemmas.
- AvlOps.Insertar: its contract only says the result is a node. Keys, order,
  balance and height are stated by the `Insertar…` lemmas.
- AvlOps.Eliminar: its contract only says that removing from the empty tree
  never yields a node. Keys, order, balance and height are stated by the
  `Eliminar…` lemmas. Keeping these properties out of
  the function contracts keeps evaluation on concrete trees cheap.
- AvlHeightBound.AvlHeightLogarithmic: proves height <= 2·log2(n + 1) + 1,
  weaker than the classical bound of about 1.44·log2(n + 2).
- AvlEscenario step lemmas: each takes the tree it starts from as a parameter
  fixed by its precondition instead of naming the constant tree directly.
