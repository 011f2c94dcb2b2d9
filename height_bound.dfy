/** What the balance bound buys: an AVL tree of height h holds at least
    MinNodos(h) nodes, a Fibonacci-like number that at least doubles every two
    levels, so the height is logarithmic in the number of keys. */
module AvlHeightBound {
  import opened AvlTree

  /** The number of nodes in a subtree. */
  function Size(t: Tree): nat
  {
    match t
    case Nil => 0
    case Node(_, _, l, r) => 1 + Size(l) + Size(r)
  }

  /** The fewest nodes an AVL tree of height h can hold. */
  function MinNodos(h: nat): nat
  {
    if h == 0 then 0 else if h == 1 then 1 else 1 + MinNodos(h - 1) + MinNodos(h - 2)
  }

  function Pow2(e: nat): nat
  {
    if e == 0 then 1 else 2 * Pow2(e - 1)
  }

  lemma {:induction false} MinNodosMonotone(a: nat, b: nat)
    requires a <= b
    ensures MinNodos(a) <= MinNodos(b)
    decreases b
  {
    if a < b {
      MinNodosMonotone(a, b - 1);
    }
  }

  /** An AVL tree of cached height h has at least MinNodos(h) nodes. */
  lemma {:induction false} AvlHasMinNodos(t: Tree)
    requires IsAVL(t)
    ensures MinNodos(Altura(t)) <= Size(t)
  {
    match t
    case Nil =>
    case Node(_, h, l, r) =>
      AvlHasMinNodos(l);
      AvlHasMinNodos(r);
      var hl, hr := Altura(l), Altura(r);
      if h >= 2 {
        // the taller child has height h - 1, the other one at least h - 2
        if hl >= hr {
          MinNodosMonotone(h - 2, hr);
        } else {
          MinNodosMonotone(h - 2, hl);
        }
      }
  }

  lemma {:induction false} MinNodosDoubles(h: nat)
    ensures Pow2(h / 2) <= MinNodos(h) + 1
  {
    if h >= 2 {
      MinNodosDoubles(h - 2);
      MinNodosMonotone(h - 2, h - 1);
      assert h / 2 == (h - 2) / 2 + 1;
    }
  }

  /** An AVL tree with n nodes has height at most 2 * log2(n + 1) + 1. */
  lemma {:induction false} AvlHeightLogarithmic(t: Tree)
    requires IsAVL(t)
    ensures Pow2(Altura(t) / 2) <= Size(t) + 1
  {
    AvlHasMinNodos(t);
    MinNodosDoubles(Altura(t));
  }
}
