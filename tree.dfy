/** The node structure of the AVL tree (struct Nodo), the read-only helpers
    obtenerAltura and obtenerFactorEquilibrio, and the invariants that
    ArbolAVL keeps: binary-search-tree order, correct cached heights and the
    AVL balance bound. */
module AvlTree {

  /** A cached height: ArbolAVL only ever stores 1 (the Nodo constructor) or
      1 + the larger child height. */
  type Pos = h: int | 1 <= h witness 1

  /** A subtree. Nil is an absent child (a null pointer); a Node owns its two
      children exclusively and caches the height of the subtree it roots. */
  datatype Tree = Nil | Node(key: int, height: Pos, left: Tree, right: Tree)

  function Max(a: int, b: int): int
  {
    if a < b then b else a
  }

  /** obtenerAltura: the cached height of a subtree, 0 when it is absent. */
  function Altura(t: Tree): (h: nat)
    ensures h == 0 <==> t.Nil?
  {
    if t.Nil? then 0 else t.height
  }

  /** obtenerFactorEquilibrio: left height minus right height, 0 for an
      absent subtree. */
  function FactorEquilibrio(t: Tree): (b: int)
    ensures t.Nil? ==> b == 0
    ensures t.Node? ==> -(Altura(t.right) as int) <= b <= Altura(t.left)
    ensures b > 0 ==> t.Node? && t.left.Node?
    ensures b < 0 ==> t.Node? && t.right.Node?
  {
    if t.Nil? then 0 else Altura(t.left) - Altura(t.right)
  }

  // ---------------------------------------------------------------------
  // Reference definitions: contents, order and true height

  /** The in-order key sequence of a subtree. */
  function InOrder(t: Tree): seq<int>
  {
    match t
    case Nil => []
    case Node(k, _, l, r) => InOrder(l) + [k] + InOrder(r)
  }

  /** The set of keys stored in a subtree. */
  ghost function Keys(t: Tree): set<int>
  {
    match t
    case Nil => {}
    case Node(k, _, l, r) => Keys(l) + {k} + Keys(r)
  }

  /** The true height of a subtree, computed from its shape alone. */
  function Height(t: Tree): nat
  {
    match t
    case Nil => 0
    case Node(_, _, l, r) => 1 + Max(Height(l), Height(r))
  }

  /** Invariant 1: every key of the left subtree is below the node's key and
      every key of the right subtree above it. */
  ghost predicate IsBST(t: Tree)
  {
    match t
    case Nil => true
    case Node(k, _, l, r) =>
      && IsBST(l) && IsBST(r)
      && (forall x :: x in Keys(l) ==> x < k)
      && (forall x :: x in Keys(r) ==> k < x)
  }

  /** Invariant 3: each cached height is 1 + the larger cached child height. */
  ghost predicate HeightsCorrect(t: Tree)
  {
    match t
    case Nil => true
    case Node(_, h, l, r) =>
      h == 1 + Max(Altura(l), Altura(r)) && HeightsCorrect(l) && HeightsCorrect(r)
  }

  /** Invariant 2: the balance factor of every node lies in -1..1. */
  ghost predicate Balanced(t: Tree)
  {
    match t
    case Nil => true
    case Node(_, _, l, r) =>
      -1 <= FactorEquilibrio(t) <= 1 && Balanced(l) && Balanced(r)
  }

  ghost predicate IsAVL(t: Tree)
  {
    HeightsCorrect(t) && Balanced(t)
  }

  ghost predicate StrictlyIncreasing(s: seq<int>)
  {
    forall i, j :: 0 <= i < j < |s| ==> s[i] < s[j]
  }

  // ---------------------------------------------------------------------
  // Lemmas connecting the definitions

  /** The in-order sequence lists exactly the keys of the subtree. */
  lemma {:induction false} InOrderListsKeys(t: Tree)
    ensures forall x :: x in InOrder(t) <==> x in Keys(t)
  {
    match t
    case Nil =>
    case Node(k, _, l, r) =>
      InOrderListsKeys(l);
      InOrderListsKeys(r);
  }

  /** Under invariant 3 the cached height is the true height. */
  lemma {:induction false} CachedHeightIsTrueHeight(t: Tree)
    requires HeightsCorrect(t)
    ensures Altura(t) == Height(t)
  {
    match t
    case Nil =>
    case Node(_, _, l, r) =>
      CachedHeightIsTrueHeight(l);
      CachedHeightIsTrueHeight(r);
  }

  /** Under invariant 1 the in-order traversal is strictly increasing. */
  lemma {:induction false} BstInOrderIncreasing(t: Tree)
    requires IsBST(t)
    ensures StrictlyIncreasing(InOrder(t))
  {
    match t
    case Nil =>
    case Node(k, _, l, r) =>
      BstInOrderIncreasing(l);
      BstInOrderIncreasing(r);
      InOrderListsKeys(l);
      InOrderListsKeys(r);
      var sl, sr := InOrder(l), InOrder(r);
      var s := InOrder(t);
      assert s == sl + [k] + sr;
      forall i, j | 0 <= i < j < |s| ensures s[i] < s[j] {
        if j < |sl| {
          assert s[i] == sl[i] && s[j] == sl[j];
        } else if i > |sl| {
          assert s[i] == sr[i - |sl| - 1] && s[j] == sr[j - |sl| - 1];
        } else {
          // s[i] is k or a key of l, s[j] is k or a key of r
          if i < |sl| {
            assert s[i] == sl[i] && sl[i] in Keys(l);
          }
          if j > |sl| {
            assert s[j] == sr[j - |sl| - 1] && sr[j - |sl| - 1] in Keys(r);
          }
        }
      }
  }

  /** A subtree whose in-order traversal is strictly increasing satisfies
      invariant 1. */
  lemma {:induction false} InOrderIncreasingBst(t: Tree)
    requires StrictlyIncreasing(InOrder(t))
    ensures IsBST(t)
  {
    match t
    case Nil =>
    case Node(k, _, l, r) =>
      var sl, sr := InOrder(l), InOrder(r);
      var s := InOrder(t);
      assert s == sl + [k] + sr;
      forall i, j | 0 <= i < j < |sl| ensures sl[i] < sl[j] {
        assert s[i] == sl[i] && s[j] == sl[j];
      }
      forall i, j | 0 <= i < j < |sr| ensures sr[i] < sr[j] {
        assert s[|sl| + 1 + i] == sr[i] && s[|sl| + 1 + j] == sr[j];
      }
      InOrderIncreasingBst(l);
      InOrderIncreasingBst(r);
      InOrderListsKeys(l);
      InOrderListsKeys(r);
      forall x | x in Keys(l) ensures x < k {
        var i :| 0 <= i < |sl| && sl[i] == x;
        assert s[i] == x && s[|sl|] == k;
      }
      forall x | x in Keys(r) ensures k < x {
        var i :| 0 <= i < |sr| && sr[i] == x;
        assert s[|sl| + 1 + i] == x && s[|sl|] == k;
      }
  }

  /** Invariant 1 holds exactly when the in-order traversal is strictly
      increasing. */
  lemma {:induction false} BstIffInOrderIncreasing(t: Tree)
    ensures IsBST(t) <==> StrictlyIncreasing(InOrder(t))
  {
    if IsBST(t) {
      BstInOrderIncreasing(t);
    }
    if StrictlyIncreasing(InOrder(t)) {
      InOrderIncreasingBst(t);
    }
  }
}
