/** Height maintenance and rebalancing of ArbolAVL: actualizarAltura, the two
    single rotations and equilibrar. Each C++ routine rewires a node in place
    and returns the root of the resulting subtree; here each one is a function
    from the old subtree to that new subtree. */
module AvlRebalance {
  import opened AvlTree

  /** actualizarAltura: recompute a node's cached height from its children's
      cached heights; nothing else about the node changes. */
  function ActualizarAltura(n: Tree): (r: Tree)
    requires n.Node?
    ensures r.Node? && r.key == n.key && r.left == n.left && r.right == n.right
  {
    n.(height := 1 + Max(Altura(n.left), Altura(n.right)))
  }

  /** Over children whose cached heights are correct, actualizarAltura makes
      the node's own cached height correct, and on a node whose height is
      already correct it changes nothing. */
  lemma {:induction false} ActualizarAlturaCorrige(n: Tree)
    requires n.Node?
    ensures HeightsCorrect(n.left) && HeightsCorrect(n.right) ==> HeightsCorrect(ActualizarAltura(n))
    ensures HeightsCorrect(n) ==> ActualizarAltura(n) == n
  {
  }

  /** rotarDerecha: the left child x of y takes y's place, x's right subtree
      becomes y's left subtree, and y becomes x's right child; y's height is
      recomputed before x's. */
  function RotarDerecha(y: Tree): (x: Tree)
    requires y.Node? && y.left.Node?
    ensures x.Node? && x.right.Node?
    ensures x.key == y.left.key && x.right.key == y.key
  {
    var x := y.left;
    var t := x.right;
    var y' := ActualizarAltura(y.(left := t));
    ActualizarAltura(x.(right := y'))
  }

  /** rotarIzquierda: the mirror image of rotarDerecha. */
  function RotarIzquierda(x: Tree): (y: Tree)
    requires x.Node? && x.right.Node?
    ensures y.Node? && y.left.Node?
    ensures y.key == x.right.key && y.left.key == x.key
  {
    var y := x.right;
    var t := y.left;
    var x' := ActualizarAltura(x.(right := t));
    ActualizarAltura(y.(left := x'))
  }

  /** equilibrar: update the node's height, then repair a left-heavy node
      (LL by one right rotation, LR by a left rotation of the left child
      first) or a right-heavy node (RR, RL mirrored). The rotations are only
      reached when the child they need exists. */
  function Equilibrar(n: Tree): (r: Tree)
    requires n.Node?
    ensures r.Node?
  {
    var n := ActualizarAltura(n);
    var factor := FactorEquilibrio(n);
    if factor > 1 then
      var l := if FactorEquilibrio(n.left) < 0 then RotarIzquierda(n.left) else n.left;
      RotarDerecha(n.(left := l))
    else if factor < -1 then
      var r := if FactorEquilibrio(n.right) > 0 then RotarDerecha(n.right) else n.right;
      RotarIzquierda(n.(right := r))
    else
      n
  }

  /** rotarDerecha keeps the in-order sequence, and so the key set. */
  lemma {:induction false} RotarDerechaKeepsInOrder(y: Tree)
    requires y.Node? && y.left.Node?
    ensures InOrder(RotarDerecha(y)) == InOrder(y) && Keys(RotarDerecha(y)) == Keys(y)
  {
    var x := y.left;
    var y' := ActualizarAltura(y.(left := x.right));
    assert InOrder(y') == InOrder(x.right) + [y.key] + InOrder(y.right);
    assert Keys(y') == Keys(x.right) + {y.key} + Keys(y.right);
    var r := ActualizarAltura(x.(right := y'));
    assert InOrder(r) == InOrder(x.left) + [x.key] + InOrder(y');
    assert Keys(r) == Keys(x.left) + {x.key} + Keys(y');
  }

  /** rotarIzquierda keeps the in-order sequence, and so the key set. */
  lemma {:induction false} RotarIzquierdaKeepsInOrder(x: Tree)
    requires x.Node? && x.right.Node?
    ensures InOrder(RotarIzquierda(x)) == InOrder(x) && Keys(RotarIzquierda(x)) == Keys(x)
  {
    var y := x.right;
    var x' := ActualizarAltura(x.(right := y.left));
    assert InOrder(x') == InOrder(x.left) + [x.key] + InOrder(y.left);
    assert Keys(x') == Keys(x.left) + {x.key} + Keys(y.left);
    var r := ActualizarAltura(y.(left := x'));
    assert InOrder(r) == InOrder(x') + [y.key] + InOrder(y.right);
    assert Keys(r) == Keys(x') + {y.key} + Keys(y.right);
  }

  /** rotarDerecha recomputes the heights of the two nodes it moves, y first
      and x second, so over subtrees with correct cached heights every cached
      height of the result is correct. */
  lemma {:induction false} RotarDerechaKeepsHeights(y: Tree)
    requires y.Node? && y.left.Node? && HeightsCorrect(y.left) && HeightsCorrect(y.right)
    ensures HeightsCorrect(RotarDerecha(y))
  {
    var x := y.left;
    var y' := y.(left := x.right);
    ActualizarAlturaCorrige(y');
    ActualizarAlturaCorrige(x.(right := ActualizarAltura(y')));
  }

  /** rotarIzquierda: the mirror image of RotarDerechaKeepsHeights. */
  lemma {:induction false} RotarIzquierdaKeepsHeights(x: Tree)
    requires x.Node? && x.right.Node? && HeightsCorrect(x.left) && HeightsCorrect(x.right)
    ensures HeightsCorrect(RotarIzquierda(x))
  {
    var y := x.right;
    var x' := x.(right := y.left);
    ActualizarAlturaCorrige(x');
    ActualizarAlturaCorrige(y.(left := ActualizarAltura(x')));
  }

  /** equilibrar keeps the in-order sequence, and so the key set, whichever
      rotations it applies. */
  lemma {:induction false} EquilibrarKeepsInOrder(n: Tree)
    requires n.Node?
    ensures InOrder(Equilibrar(n)) == InOrder(n) && Keys(Equilibrar(n)) == Keys(n)
  {
    var m := ActualizarAltura(n);
    assert InOrder(m) == InOrder(n) && Keys(m) == Keys(n);
    if FactorEquilibrio(m) > 1 {
      var l := m.left;
      if FactorEquilibrio(l) < 0 {
        RotarIzquierdaKeepsInOrder(l);
        l := RotarIzquierda(l);
      }
      RotarDerechaKeepsInOrder(m.(left := l));
    } else if FactorEquilibrio(m) < -1 {
      var r := m.right;
      if FactorEquilibrio(r) > 0 {
        RotarDerechaKeepsInOrder(r);
        r := RotarDerecha(r);
      }
      RotarIzquierdaKeepsInOrder(m.(right := r));
    }
  }

  /** Both rotations, and so equilibrar, keep the search-tree order: they
      keep the in-order sequence, and the order holds exactly when that
      sequence is strictly increasing. */
  lemma {:induction false} RebalancingKeepsOrder(t: Tree)
    requires t.Node?
    ensures t.left.Node? ==> (IsBST(RotarDerecha(t)) <==> IsBST(t))
    ensures t.right.Node? ==> (IsBST(RotarIzquierda(t)) <==> IsBST(t))
    ensures IsBST(Equilibrar(t)) <==> IsBST(t)
  {
    EquilibrarKeepsInOrder(t);
    BstIffInOrderIncreasing(t);
    BstIffInOrderIncreasing(Equilibrar(t));
    if t.left.Node? {
      RotarDerechaKeepsInOrder(t);
      BstIffInOrderIncreasing(RotarDerecha(t));
    }
    if t.right.Node? {
      RotarIzquierdaKeepsInOrder(t);
      BstIffInOrderIncreasing(RotarIzquierda(t));
    }
  }

  // ---------------------------------------------------------------------
  // The four rebalancing cases. In each, y is a node whose left (or right)
  // subtree is two levels taller than the other one, both subtrees being AVL.

  /** LL: one right rotation gives an AVL tree whose height is that of the
      taller subtree or one more. */
  lemma {:induction false} RotarDerechaRestoresAvl(y: Tree)
    requires y.Node? && y.left.Node? && IsAVL(y.left) && IsAVL(y.right)
    requires Altura(y.left) == Altura(y.right) + 2 && FactorEquilibrio(y.left) >= 0
    ensures IsAVL(RotarDerecha(y))
    ensures Altura(y.left) <= Altura(RotarDerecha(y)) <= Altura(y.left) + 1
  {
    var x := y.left;
    assert HeightsCorrect(x.left) && HeightsCorrect(x.right) && Balanced(x.right);
    var y' := ActualizarAltura(y.(left := x.right));
    assert RotarDerecha(y) == ActualizarAltura(x.(right := y'));
  }

  /** RR: the mirror image of LL. */
  lemma {:induction false} RotarIzquierdaRestoresAvl(x: Tree)
    requires x.Node? && x.right.Node? && IsAVL(x.left) && IsAVL(x.right)
    requires Altura(x.right) == Altura(x.left) + 2 && FactorEquilibrio(x.right) <= 0
    ensures IsAVL(RotarIzquierda(x))
    ensures Altura(x.right) <= Altura(RotarIzquierda(x)) <= Altura(x.right) + 1
  {
    var y := x.right;
    assert HeightsCorrect(y.left) && HeightsCorrect(y.right) && Balanced(y.left);
    var x' := ActualizarAltura(x.(right := y.left));
    assert RotarIzquierda(x) == ActualizarAltura(y.(left := x'));
  }

  /** LR: a left rotation of the left child, then a right rotation, gives an
      AVL tree exactly as tall as the taller subtree was. */
  lemma {:induction false} DobleRotacionDerechaRestoresAvl(y: Tree)
    requires y.Node? && y.left.Node? && IsAVL(y.left) && IsAVL(y.right)
    requires Altura(y.left) == Altura(y.right) + 2 && FactorEquilibrio(y.left) < 0
    ensures y.left.right.Node?
    ensures IsAVL(RotarDerecha(y.(left := RotarIzquierda(y.left))))
    ensures Altura(RotarDerecha(y.(left := RotarIzquierda(y.left)))) == Altura(y.left)
  {
    var h: int := Altura(y.right);
    var l := y.left;
    var lr := l.right;
    assert HeightsCorrect(lr) && Balanced(lr);
    assert Altura(lr) == h + 1 && Altura(l.left) == h;
    assert Altura(lr.left) >= h - 1 && Altura(lr.right) >= h - 1;
    var a := ActualizarAltura(l.(right := lr.left));
    var b := ActualizarAltura(y.(left := lr.right));
    assert IsAVL(a) && Altura(a) == h + 1;
    assert IsAVL(b) && Altura(b) == h + 1;
    var l' := RotarIzquierda(l);
    assert l' == ActualizarAltura(lr.(left := a));
    assert RotarDerecha(y.(left := l')) == ActualizarAltura(lr.(left := a, right := b));
  }

  /** RL: the mirror image of LR. */
  lemma {:induction false} DobleRotacionIzquierdaRestoresAvl(x: Tree)
    requires x.Node? && x.right.Node? && IsAVL(x.left) && IsAVL(x.right)
    requires Altura(x.right) == Altura(x.left) + 2 && FactorEquilibrio(x.right) > 0
    ensures x.right.left.Node?
    ensures IsAVL(RotarIzquierda(x.(right := RotarDerecha(x.right))))
    ensures Altura(RotarIzquierda(x.(right := RotarDerecha(x.right)))) == Altura(x.right)
  {
    var h: int := Altura(x.left);
    var r := x.right;
    var rl := r.left;
    assert HeightsCorrect(rl) && Balanced(rl);
    assert Altura(rl) == h + 1 && Altura(r.right) == h;
    assert Altura(rl.left) >= h - 1 && Altura(rl.right) >= h - 1;
    var a := ActualizarAltura(x.(right := rl.left));
    var b := ActualizarAltura(r.(left := rl.right));
    assert IsAVL(a) && Altura(a) == h + 1;
    assert IsAVL(b) && Altura(b) == h + 1;
    var r' := RotarDerecha(r);
    assert r' == ActualizarAltura(rl.(right := b));
    assert RotarIzquierda(x.(right := r')) == ActualizarAltura(rl.(left := a, right := b));
  }

  /** A node whose two subtrees are AVL trees with heights at most 2 apart
      comes out of equilibrar as an AVL tree, at most one level taller than
      its taller subtree and no shorter than it; a node that was already
      balanced is only given its correct height. */
  lemma {:induction false} EquilibrarRestoresAvl(n: Tree)
    requires n.Node? && IsAVL(n.left) && IsAVL(n.right)
    requires -2 <= Altura(n.left) - Altura(n.right) <= 2
    ensures IsAVL(Equilibrar(n))
    ensures Max(Altura(n.left), Altura(n.right)) <= Altura(Equilibrar(n))
                                                 <= 1 + Max(Altura(n.left), Altura(n.right))
    ensures -1 <= Altura(n.left) - Altura(n.right) <= 1 ==> Equilibrar(n) == ActualizarAltura(n)
  {
    var m := ActualizarAltura(n);
    var hl: int, hr: int := Altura(n.left), Altura(n.right);
    if hl - hr > 1 {
      if FactorEquilibrio(n.left) < 0 {
        DobleRotacionDerechaRestoresAvl(m);
      } else {
        RotarDerechaRestoresAvl(m);
      }
    } else if hl - hr < -1 {
      if FactorEquilibrio(n.right) > 0 {
        DobleRotacionIzquierdaRestoresAvl(m);
      } else {
        RotarIzquierdaRestoresAvl(m);
      }
    }
  }

  /** equilibrar leaves an AVL node exactly as it is. */
  lemma {:induction false} EquilibrarKeepsAvlNode(n: Tree)
    requires n.Node? && IsAVL(n)
    ensures Equilibrar(n) == n
  {
  }
}
