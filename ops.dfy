/** The recursive operations of ArbolAVL: node creation, insertar,
    encontrarMinimo and eliminar. Each returns the root of the subtree it was
    given, after the change and after equilibrar has run on every node of the
    path back up. */
module AvlOps {
  import opened AvlTree
  import opened AvlRebalance

  /** The Nodo constructor: a leaf of height 1 holding val. */
  function NuevoNodo(val: int): (r: Tree)
    ensures IsAVL(r) && IsBST(r)
    ensures InOrder(r) == [val] && Keys(r) == {val}
    ensures Altura(r) == 1 && r.left.Nil? && r.right.Nil?
  {
    var r := Node(val, 1, Nil, Nil);
    assert HeightsCorrect(r) && Balanced(r);
    r
  }

  /** insertar(n, val): descend by key order, hang a new leaf at the absent
      slot, and rebalance on the way back; an equal key stops the descent and
      that subtree is returned as it was. */
  function Insertar(n: Tree, val: int): (r: Tree)
    ensures r.Node?
  {
    if n.Nil? then
      NuevoNodo(val)
    else if val < n.key then
      Equilibrar(n.(left := Insertar(n.left, val)))
    else if val > n.key then
      Equilibrar(n.(right := Insertar(n.right, val)))
    else
      n
  }

  /** encontrarMinimo: follow left links to the leftmost node, which holds
      the first key in order and, in a search tree, the smallest one. */
  function EncontrarMinimo(n: Tree): (m: Tree)
    requires n.Node?
    ensures m.Node? && m.left.Nil?
    ensures m.key in Keys(n) && m.key == InOrder(n)[0]
    ensures IsBST(n) ==> forall k :: k in Keys(n) ==> m.key <= k
  {
    if n.left.Node? then EncontrarMinimo(n.left) else n
  }

  /** The node encontrarMinimo returns is a subtree of n, not just a node with
      one of its keys: its in-order sequence, the minimum followed by its
      right subtree, opens the in-order sequence of n. */
  lemma {:induction false} EncontrarMinimoEsPrefijo(n: Tree)
    requires n.Node?
    ensures InOrder(EncontrarMinimo(n)) <= InOrder(n)
  {
    if n.left.Node? {
      EncontrarMinimoEsPrefijo(n.left);
    }
  }

  /** eliminar(n, val): an absent subtree stays absent; a node with at most
      one child is replaced by that child; a node with two children takes the
      key of its in-order successor, which is then removed from the right
      subtree. Every node on the path is rebalanced. */
  function Eliminar(n: Tree, val: int): (r: Tree)
    ensures r.Node? ==> n.Node?
  {
    if n.Nil? then
      Nil
    else if val < n.key then
      Equilibrar(n.(left := Eliminar(n.left, val)))
    else if val > n.key then
      Equilibrar(n.(right := Eliminar(n.right, val)))
    else if n.left.Nil? || n.right.Nil? then
      if n.left.Node? then n.left else n.right
    else
      var minimo := EncontrarMinimo(n.right);
      Equilibrar(n.(key := minimo.key, right := Eliminar(n.right, minimo.key)))
  }

  /** Inserting adds val to the key set and nothing else. */
  lemma {:induction false} InsertarKeys(n: Tree, val: int)
    ensures Keys(Insertar(n, val)) == Keys(n) + {val}
  {
    match n
    case Nil =>
    case Node(k, _, l, r) =>
      if val < k {
        InsertarKeys(l, val);
        EquilibrarKeepsInOrder(n.(left := Insertar(l, val)));
      } else if val > k {
        InsertarKeys(r, val);
        EquilibrarKeepsInOrder(n.(right := Insertar(r, val)));
      }
  }

  /** Inserting into a search tree gives a search tree. */
  lemma {:induction false} InsertarKeepsOrder(n: Tree, val: int)
    requires IsBST(n)
    ensures IsBST(Insertar(n, val))
  {
    match n
    case Nil =>
    case Node(k, _, l, r) =>
      if val < k {
        var l' := Insertar(l, val);
        InsertarKeys(l, val);
        InsertarKeepsOrder(l, val);
        forall x | x in Keys(l') ensures x < k {
          assert x in Keys(l) || x == val;
        }
        RebalancingKeepsOrder(n.(left := l'));
      } else if val > k {
        var r' := Insertar(r, val);
        InsertarKeys(r, val);
        InsertarKeepsOrder(r, val);
        forall x | x in Keys(r') ensures k < x {
          assert x in Keys(r) || x == val;
        }
        RebalancingKeepsOrder(n.(right := r'));
      }
  }

  /** Removing from a search tree gives a search tree holding every old key
      except val. */
  lemma {:induction false} EliminarKeepsOrder(n: Tree, val: int)
    requires IsBST(n)
    ensures IsBST(Eliminar(n, val)) && Keys(Eliminar(n, val)) == Keys(n) - {val}
  {
    match n
    case Nil =>
    case Node(k, _, l, r) =>
      if val < k {
        EliminarKeepsOrder(l, val);
        var n' := n.(left := Eliminar(l, val));
        assert IsBST(n') && Keys(n') == Keys(n) - {val};
        RebalancingKeepsOrder(n');
        EquilibrarKeepsInOrder(n');
      } else if val > k {
        EliminarKeepsOrder(r, val);
        var n' := n.(right := Eliminar(r, val));
        assert IsBST(n') && Keys(n') == Keys(n) - {val};
        RebalancingKeepsOrder(n');
        EquilibrarKeepsInOrder(n');
      } else if l.Nil? || r.Nil? {
        assert val !in Keys(l) && val !in Keys(r);
      } else {
        var m := EncontrarMinimo(r).key;
        EliminarKeepsOrder(r, m);
        SucesorKeepsOrder(n, Eliminar(r, m));
      }
  }

  /** The two-children case of eliminar: the node takes the key m of its
      in-order successor and the right subtree r' that is left after m is
      removed from it; the result is a search tree without the node's old
      key. */
  lemma {:induction false} SucesorKeepsOrder(n: Tree, r': Tree)
    requires IsBST(n) && n.Node? && n.right.Node?
    requires IsBST(r') && Keys(r') == Keys(n.right) - {EncontrarMinimo(n.right).key}
    ensures var n' := Equilibrar(n.(key := EncontrarMinimo(n.right).key, right := r'));
            IsBST(n') && Keys(n') == Keys(n) - {n.key}
  {
    var m := EncontrarMinimo(n.right).key;
    var t := n.(key := m, right := r');
    assert forall x :: x in Keys(n.left) ==> x < m;
    forall x | x in Keys(r') ensures m < x {
      assert x in Keys(n.right) && x != m;
    }
    assert IsBST(t);
    assert Keys(t) == Keys(n) - {n.key};
    RebalancingKeepsOrder(t);
    EquilibrarKeepsInOrder(t);
  }

  // ---------------------------------------------------------------------
  // AVL invariants across insertar and eliminar

  /** Inserting into an AVL tree gives an AVL tree that is as tall as before
      or one level taller. */
  lemma {:induction false} InsertarPreservesAvl(n: Tree, val: int)
    requires IsAVL(n)
    ensures IsAVL(Insertar(n, val))
    ensures Altura(n) <= Altura(Insertar(n, val)) <= Altura(n) + 1
  {
    match n
    case Nil =>
    case Node(k, _, l, r) =>
      if val < k {
        InsertarPreservesAvl(l, val);
        EquilibrarRestoresAvl(n.(left := Insertar(l, val)));
      } else if val > k {
        InsertarPreservesAvl(r, val);
        EquilibrarRestoresAvl(n.(right := Insertar(r, val)));
      }
  }

  /** Inserting a key that an AVL search tree already holds gives back the
      very same tree: same shape, same in-order sequence, same height. */
  lemma {:induction false} InsertarExistingIsIdentity(n: Tree, val: int)
    requires IsAVL(n) && IsBST(n) && val in Keys(n)
    ensures Insertar(n, val) == n
  {
    match n
    case Node(k, _, l, r) =>
      if val < k {
        InsertarExistingIsIdentity(l, val);
        EquilibrarKeepsAvlNode(n);
      } else if val > k {
        InsertarExistingIsIdentity(r, val);
        EquilibrarKeepsAvlNode(n);
      }
  }

  /** Removing from an AVL tree gives an AVL tree that is as tall as before
      or one level shorter. */
  lemma {:induction false} EliminarPreservesAvl(n: Tree, val: int)
    requires IsAVL(n)
    ensures IsAVL(Eliminar(n, val))
    ensures Altura(n) - 1 <= Altura(Eliminar(n, val)) <= Altura(n)
  {
    match n
    case Nil =>
    case Node(k, _, l, r) =>
      if val < k {
        EliminarPreservesAvl(l, val);
        EquilibrarRestoresAvl(n.(left := Eliminar(l, val)));
      } else if val > k {
        EliminarPreservesAvl(r, val);
        EquilibrarRestoresAvl(n.(right := Eliminar(r, val)));
      } else if l.Node? && r.Node? {
        var m := EncontrarMinimo(r).key;
        EliminarPreservesAvl(r, m);
        EquilibrarRestoresAvl(n.(key := m, right := Eliminar(r, m)));
      }
  }

  /** Removing a key that an AVL tree does not hold gives back the very same
      tree. */
  lemma {:induction false} EliminarAbsentIsIdentity(n: Tree, val: int)
    requires IsAVL(n) && val !in Keys(n)
    ensures Eliminar(n, val) == n
  {
    match n
    case Nil =>
    case Node(k, _, l, r) =>
      assert val != k;
      if val < k {
        EliminarAbsentIsIdentity(l, val);
        assert n.(left := Eliminar(l, val)) == n;
        EquilibrarKeepsAvlNode(n);
      } else {
        EliminarAbsentIsIdentity(r, val);
        assert n.(right := Eliminar(r, val)) == n;
        EquilibrarKeepsAvlNode(n);
      }
  }
}
