/** The public face of ArbolAVL: an object holding the root, whose insertar
    and eliminar store the root that the recursive operations return. */
module AvlArbol {
  import opened AvlTree
  import AvlOps

  class ArbolAVL {
    var raiz: Tree

    /** The invariants every public operation starts from and ends in. */
    ghost predicate Valid()
      reads this
    {
      IsAVL(raiz) && IsBST(raiz)
    }

    /** A new tree is empty. */
    constructor ()
      ensures Valid() && raiz == Nil && Keys(raiz) == {}
    {
      raiz := Nil;
    }

    /** insertar(val): the key set gains val, the tree stays a balanced search
        tree with correct heights and grows by at most one level; a key
        already present leaves the tree as it was. */
    method Insertar(val: int)
      requires Valid()
      modifies this
      ensures Valid()
      ensures raiz == AvlOps.Insertar(old(raiz), val)
      ensures Keys(raiz) == old(Keys(raiz)) + {val}
      ensures val in old(Keys(raiz)) ==> raiz == old(raiz)
      ensures old(Altura(raiz)) <= Altura(raiz) <= old(Altura(raiz)) + 1
    {
      AvlOps.InsertarPreservesAvl(raiz, val);
      AvlOps.InsertarKeepsOrder(raiz, val);
      AvlOps.InsertarKeys(raiz, val);
      if val in Keys(raiz) {
        AvlOps.InsertarExistingIsIdentity(raiz, val);
      }
      raiz := AvlOps.Insertar(raiz, val);
    }

    /** eliminar(val): the key set loses val, the tree stays a balanced search
        tree with correct heights and shrinks by at most one level; an absent
        key leaves the tree as it was, and removing the last key empties it. */
    method Eliminar(val: int)
      requires Valid()
      modifies this
      ensures Valid()
      ensures raiz == AvlOps.Eliminar(old(raiz), val)
      ensures Keys(raiz) == old(Keys(raiz)) - {val}
      ensures val !in old(Keys(raiz)) ==> raiz == old(raiz)
      ensures old(Keys(raiz)) == {val} ==> raiz == Nil
      ensures old(Altura(raiz)) - 1 <= Altura(raiz) <= old(Altura(raiz))
    {
      AvlOps.EliminarPreservesAvl(raiz, val);
      AvlOps.EliminarKeepsOrder(raiz, val);
      if val !in Keys(raiz) {
        AvlOps.EliminarAbsentIsIdentity(raiz, val);
      }
      raiz := AvlOps.Eliminar(raiz, val);
    }
  }

  // ---------------------------------------------------------------------
  // Sequences of public calls, as a driver issues them

  /** The tree reached from t by inserting the keys of ks in turn. */
  function InsertarTodos(t: Tree, ks: seq<int>): Tree
    decreases |ks|
  {
    if ks == [] then t else InsertarTodos(AvlOps.Insertar(t, ks[0]), ks[1..])
  }

  /** The tree reached from t by removing the keys of ks in turn. */
  function EliminarTodos(t: Tree, ks: seq<int>): Tree
    decreases |ks|
  {
    if ks == [] then t else EliminarTodos(AvlOps.Eliminar(t, ks[0]), ks[1..])
  }

  /** Any sequence of insertions into a valid tree gives a valid tree whose
      key set is the old one plus the inserted keys. */
  lemma {:induction false} InsertarTodosIsValid(t: Tree, ks: seq<int>)
    requires IsAVL(t) && IsBST(t)
    ensures IsAVL(InsertarTodos(t, ks)) && IsBST(InsertarTodos(t, ks))
    ensures Keys(InsertarTodos(t, ks)) == Keys(t) + set k | k in ks
    decreases |ks|
  {
    if ks != [] {
      AvlOps.InsertarPreservesAvl(t, ks[0]);
      AvlOps.InsertarKeepsOrder(t, ks[0]);
      AvlOps.InsertarKeys(t, ks[0]);
      InsertarTodosIsValid(AvlOps.Insertar(t, ks[0]), ks[1..]);
      assert (set k | k in ks) == {ks[0]} + set k | k in ks[1..];
    }
  }

  /** Removing every key of a valid tree, one at a time and in any order
      (repetitions and absent keys allowed), ends with the empty tree. */
  lemma {:induction false} EliminarTodosEmpties(t: Tree, ks: seq<int>)
    requires IsAVL(t) && IsBST(t)
    requires forall k :: k in Keys(t) ==> k in ks
    ensures EliminarTodos(t, ks) == Nil
    decreases |ks|
  {
    if ks == [] {
      assert Keys(t) == {};
    } else {
      var t' := AvlOps.Eliminar(t, ks[0]);
      AvlOps.EliminarPreservesAvl(t, ks[0]);
      AvlOps.EliminarKeepsOrder(t, ks[0]);
      forall k | k in Keys(t') ensures k in ks[1..] {
        assert k in ks && k != ks[0];
      }
      EliminarTodosEmpties(t', ks[1..]);
    }
  }
}
