/** The demonstration driver: the fixed key sequence it seeds a new tree
    with, followed one public insertar at a time, the removal of 10 that it
    leaves commented out, and the three-key right-right example.

    Each step lemma takes the tree it starts from as a parameter pinned down
    by its precondition and walks the recursion bottom-up, one subtree per
    assertion, so no step has to evaluate a whole insertion at once and a
    caller chaining the steps meets only the facts each step states. */
module AvlEscenario {
  import opened AvlTree
  import opened AvlOps
  import opened AvlArbol

  /** A leaf holding k, written out as a constructor term so that concrete
      trees stay plain values; it is the node NuevoNodo(k) builds. */
  function Hoja(k: int): Tree
  {
    Node(k, 1, Nil, Nil)
  }

  lemma {:induction false} HojaEsNuevoNodo(k: int)
    ensures Hoja(k) == NuevoNodo(k)
  {
  }

  /** The number of keys the driver inserts. */
  const Siembras := 8

  /** The i-th key the driver inserts (from 1): 40, 20, 50, 10, 30, 5, 25,
      27. */
  function Semilla(i: nat): int
    requires 1 <= i <= Siembras
  {
    match i
    case 1 => 40
    case 2 => 20
    case 3 => 50
    case 4 => 10
    case 5 => 30
    case 6 => 5
    case 7 => 25
    case _ => 27
  }

  /** The tree after the first i keys of the seed have been inserted. */
  function Paso(i: nat): Tree
    requires i <= Siembras
  {
    match i
    case 0 => Nil
    case 1 => Hoja(40)
    case 2 => Node(40, 2, Hoja(20), Nil)
    case 3 => Node(40, 2, Hoja(20), Hoja(50))
    case 4 => Node(40, 3, Node(20, 2, Hoja(10), Nil), Hoja(50))
    case 5 => Node(40, 3, Node(20, 2, Hoja(10), Hoja(30)), Hoja(50))
    case 6 => Node(20, 3, Node(10, 2, Hoja(5), Nil), Node(40, 2, Hoja(30), Hoja(50)))
    case 7 => Node(20, 4, Node(10, 2, Hoja(5), Nil),
                          Node(40, 3, Node(30, 2, Hoja(25), Nil), Hoja(50)))
    case _ => Node(20, 4, Node(10, 2, Hoja(5), Nil),
                          Node(40, 3, Node(27, 2, Hoja(25), Hoja(30)), Hoja(50)))
  }

  /** The seeded tree after eliminar(10). */
  const SinDiez: Tree := Node(27, 3, Node(20, 2, Hoja(5), Hoja(25)), Node(40, 2, Hoja(30), Hoja(50)))

  // ---------------------------------------------------------------------
  // One level of insertar where no rotation is needed

  /** When the new left subtree l' leaves the node within balance,
      insertar only re-links it and recomputes the height. */
  lemma {:induction false} InsertarPorLaIzquierda(t: Tree, val: int, l': Tree)
    requires t.Node? && val < t.key && Insertar(t.left, val) == l'
    requires -1 <= Altura(l') - Altura(t.right) <= 1
    ensures Insertar(t, val) == t.(left := l', height := 1 + Max(Altura(l'), Altura(t.right)))
  {
  }

  lemma {:induction false} InsertarPorLaDerecha(t: Tree, val: int, r': Tree)
    requires t.Node? && t.key < val && Insertar(t.right, val) == r'
    requires -1 <= Altura(t.left) - Altura(r') <= 1
    ensures Insertar(t, val) == t.(right := r', height := 1 + Max(Altura(t.left), Altura(r')))
  {
  }

  // ---------------------------------------------------------------------
  // One insertion of the seed per lemma

  lemma {:induction false} Paso1Correcto(t: Tree)
    requires t == Paso(0)
    ensures Insertar(t, 40) == Paso(1)
  {
  }

  lemma {:induction false} Paso2Correcto(t: Tree)
    requires t == Paso(1)
    ensures Insertar(t, 20) == Paso(2)
  {
    assert Insertar(t.left, 20) == Hoja(20);
  }

  lemma {:induction false} Paso3Correcto(t: Tree)
    requires t == Paso(2)
    ensures Insertar(t, 50) == Paso(3)
  {
    assert Insertar(t.right, 50) == Hoja(50);
  }

  lemma {:induction false} Paso4Correcto(t: Tree)
    requires t == Paso(3)
    ensures Insertar(t, 10) == Paso(4)
  {
    var l := t.left;
    assert Insertar(l.left, 10) == Hoja(10);
    assert Insertar(l, 10) == Node(20, 2, Hoja(10), Nil);
  }

  lemma {:induction false} Paso5Correcto(t: Tree)
    requires t == Paso(4)
    ensures Insertar(t, 30) == Paso(5)
  {
    var l := t.left;
    assert Insertar(l.right, 30) == Hoja(30);
    assert Insertar(l, 30) == Node(20, 2, Hoja(10), Hoja(30));
  }

  /** Inserting 5 makes 40 left-heavy by two with a left-leaning left child
      (LL case): one right rotation puts 20 on top. */
  lemma {:induction false} Paso6Correcto(t: Tree)
    requires t == Paso(5)
    ensures Insertar(t, 5) == Paso(6)
  {
    var l := t.left;
    var ll := l.left;
    assert Insertar(ll.left, 5) == Hoja(5);
    assert Insertar(ll, 5) == Node(10, 2, Hoja(5), Nil);
    assert Insertar(l, 5) == Node(20, 3, Node(10, 2, Hoja(5), Nil), Hoja(30));
  }

  lemma {:induction false} Paso7Correcto(t: Tree)
    requires t == Paso(6)
    ensures Insertar(t, 25) == Paso(7)
  {
    var r := t.right;
    var rl := r.left;
    InsertarPorLaIzquierda(rl, 25, Hoja(25));
    InsertarPorLaIzquierda(r, 25, Node(30, 2, Hoja(25), Nil));
    InsertarPorLaDerecha(t, 25, Node(40, 3, Node(30, 2, Hoja(25), Nil), Hoja(50)));
  }

  /** Any key strictly between 25 and 30 goes right of 25, which leaves 30
      left-heavy by two with a right-heavy left child (LR case): a left
      rotation of 25, then a right rotation of 30, put the new key on top of
      that subtree, and no node above it needs a rotation. */
  lemma {:induction false} EntreVeinticincoYTreinta(t: Tree, v: int)
    requires t == Paso(7) && 25 < v < 30
    ensures Insertar(t, v) == Node(20, 4, Node(10, 2, Hoja(5), Nil),
                                   Node(40, 3, Node(v, 2, Hoja(25), Hoja(30)), Hoja(50)))
  {
    var r := t.right;
    var rl := r.left;
    InsertarPorLaDerecha(rl.left, v, Hoja(v));
    assert Insertar(rl, v) == Node(v, 2, Hoja(25), Hoja(30));
    InsertarPorLaIzquierda(r, v, Node(v, 2, Hoja(25), Hoja(30)));
    InsertarPorLaDerecha(t, v, Node(40, 3, Node(v, 2, Hoja(25), Hoja(30)), Hoja(50)));
  }

  /** Step i of the seed turns Paso(i - 1) into Paso(i). */
  lemma {:induction false} PasoCorrecto(i: nat, t: Tree)
    requires 1 <= i <= Siembras && t == Paso(i - 1)
    ensures Insertar(t, Semilla(i)) == Paso(i)
  {
    match i
    case 1 => Paso1Correcto(t);
    case 2 => Paso2Correcto(t);
    case 3 => Paso3Correcto(t);
    case 4 => Paso4Correcto(t);
    case 5 => Paso5Correcto(t);
    case 6 => Paso6Correcto(t);
    case 7 => Paso7Correcto(t);
    case 8 => EntreVeinticincoYTreinta(t, Semilla(i));
  }

  /** Removing 10, which has one child, hands its place to 5 and leaves 20
      right-heavy by two with a left-heavy right child (RL case): a right
      rotation of 40, then a left rotation of 20, put 27 on top. */
  lemma {:induction false} EliminarDiezCorrecto(t: Tree)
    requires t == Paso(8)
    ensures Eliminar(t, 10) == SinDiez
  {
    assert Eliminar(t.left, 10) == Hoja(5);
  }

  lemma {:induction false} RecorridoDelSembrado(t: Tree)
    requires t == Paso(8)
    ensures t.key == 20 && InOrder(t) == [5, 10, 20, 25, 27, 30, 40, 50]
  {
  }

  lemma {:induction false} RecorridoSinDiez(t: Tree)
    requires t == SinDiez
    ensures t.key == 27 && InOrder(t) == [5, 20, 25, 27, 30, 40, 50]
  {
  }

  // ---------------------------------------------------------------------
  // The driver, through the public operations

  /** Every tree the seed passes through is a valid AVL search tree: it is
      reached from the empty tree by insertar alone. */
  lemma {:induction false} PasoValido(i: nat, t: Tree)
    requires i <= Siembras && t == Paso(i)
    ensures IsAVL(t) && IsBST(t)
  {
    if i > 0 {
      var s := Paso(i - 1);
      PasoValido(i - 1, s);
      PasoCorrecto(i, s);
      InsertarPreservesAvl(s, Semilla(i));
      InsertarKeepsOrder(s, Semilla(i));
    }
  }

  /** arbol.insertar(val) as the i-th call of the driver. */
  method InsertarDeLaSemilla(arbol: ArbolAVL, i: nat, val: int)
    requires 1 <= i <= Siembras && val == Semilla(i) && arbol.raiz == Paso(i - 1)
    modifies arbol
    ensures arbol.raiz == Paso(i)
  {
    PasoValido(i - 1, arbol.raiz);
    ghost var antes := arbol.raiz;
    arbol.Insertar(val);
    PasoCorrecto(i, antes);
  }

  /** A new tree seeded with 40, 20, 50, 10, 30, 5, 25, 27 has root 20 and
      in-order keys 5, 10, 20, 25, 27, 30, 40, 50. */
  method SembrarComoElPrograma() returns (arbol: ArbolAVL)
    ensures fresh(arbol) && arbol.Valid() && arbol.raiz == Paso(8)
    ensures arbol.raiz.key == 20 && InOrder(arbol.raiz) == [5, 10, 20, 25, 27, 30, 40, 50]
  {
    arbol := new ArbolAVL();
    InsertarDeLaSemilla(arbol, 1, 40);
    InsertarDeLaSemilla(arbol, 2, 20);
    InsertarDeLaSemilla(arbol, 3, 50);
    InsertarDeLaSemilla(arbol, 4, 10);
    InsertarDeLaSemilla(arbol, 5, 30);
    InsertarDeLaSemilla(arbol, 6, 5);
    InsertarDeLaSemilla(arbol, 7, 25);
    InsertarDeLaSemilla(arbol, 8, 27);
    PasoValido(8, arbol.raiz);
    RecorridoDelSembrado(arbol.raiz);
  }

  /** Removing 10 from the seeded tree gives root 27 and in-order keys 5, 20,
      25, 27, 30, 40, 50. */
  method EliminarDiezDelEjemplo(arbol: ArbolAVL)
    requires arbol.raiz == Paso(8)
    modifies arbol
    ensures arbol.Valid() && arbol.raiz == SinDiez
    ensures arbol.raiz.key == 27 && InOrder(arbol.raiz) == [5, 20, 25, 27, 30, 40, 50]
  {
    PasoValido(8, arbol.raiz);
    ghost var antes := arbol.raiz;
    arbol.Eliminar(10);
    EliminarDiezCorrecto(antes);
    RecorridoSinDiez(arbol.raiz);
  }

  // ---------------------------------------------------------------------
  // Keys in increasing order

  lemma {:induction false} DiezEnVacio(t: Tree)
    requires t == Nil
    ensures Insertar(t, 10) == Hoja(10)
  {
  }

  lemma {:induction false} VeinteTrasDiez(t: Tree)
    requires t == Hoja(10)
    ensures Insertar(t, 20) == Node(10, 2, Nil, Hoja(20))
  {
    assert Insertar(t.right, 20) == Hoja(20);
  }

  /** After 10 and 20, inserting 30 leaves 10 right-heavy by two with a
      right-leaning right child (RR case); one left rotation gives root 20
      with children 10 and 30. */
  lemma {:induction false} TresInsercionesCrecientes(t: Tree)
    requires t == Node(10, 2, Nil, Hoja(20))
    ensures Insertar(t, 30) == Node(20, 2, Hoja(10), Hoja(30))
  {
    assert Insertar(t.right, 30) == Node(20, 2, Nil, Hoja(30));
  }

  /** Inserting 10, 20 and 30 in that order into an empty tree gives root 20
      over 10 and 30. */
  lemma {:induction false} TresCrecientesDesdeVacio(t: Tree)
    requires t == Nil
    ensures Insertar(Insertar(Insertar(t, 10), 20), 30) == Node(20, 2, Hoja(10), Hoja(30))
  {
    DiezEnVacio(t);
    var t1 := Insertar(t, 10);
    VeinteTrasDiez(t1);
    TresInsercionesCrecientes(Insertar(t1, 20));
  }
}
