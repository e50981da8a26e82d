/** The node structure of MyTreeMap and the views used to state contracts
    about it: the key set, the abstract key-value map, the value set, the
    node count, the height and the binary-search-tree ordering invariant. */
module Trees {

  /** A subtree: `Empty` is a null child link, `Node` is MyTreeMap.Node with
      its two links. Keys are integers, standing for any totally ordered,
      non-null key type. */
  datatype Tree<V> = Empty | Node(left: Tree<V>, key: int, value: V, right: Tree<V>)

  /** The detached node `new Node(key, value)`: both links null. */
  function Leaf<V>(k: int, v: V): Tree<V>
  {
    Node(Empty, k, v, Empty)
  }

  /** Node.isLeaf: both links are null. */
  predicate IsLeaf<V>(t: Tree<V>)
    requires t.Node?
  {
    t.left.Empty? && t.right.Empty?
  }

  /** Every key stored in the subtree. */
  function Keys<V>(t: Tree<V>): set<int>
  {
    match t
    case Empty => {}
    case Node(l, k, _, r) => Keys(l) + {k} + Keys(r)
  }

  /** The abstract map a subtree represents. On a search tree every key
      occurs once, so the order of the unions below does not matter there. */
  function Content<V>(t: Tree<V>): map<int, V>
  {
    match t
    case Empty => map[]
    case Node(l, k, v, r) => (Content(l) + Content(r))[k := v]
  }

  /** Every value stored in the subtree, without repetition. */
  function ValueSet<V>(t: Tree<V>): set<V>
  {
    match t
    case Empty => {}
    case Node(l, _, v, r) => ValueSet(l) + {v} + ValueSet(r)
  }

  /** The number of nodes reachable from the subtree's root. */
  function Size<V>(t: Tree<V>): nat
  {
    match t
    case Empty => 0
    case Node(l, _, _, r) => Size(l) + 1 + Size(r)
  }

  function Max(a: int, b: int): int
  {
    if a < b then b else a
  }

  /** heightHelper: 0 for a null link, otherwise one more than the taller child. */
  function Height<V>(t: Tree<V>): nat
  {
    match t
    case Empty => 0
    case Node(l, _, _, r) => Max(Height(l), Height(r)) + 1
  }

  function Pow2(n: nat): nat
  {
    if n == 0 then 1 else 2 * Pow2(n - 1)
  }

  /** The ordering invariant: every key in a left subtree is smaller than
      the node's key and every key in a right subtree is larger. */
  predicate IsBST<V>(t: Tree<V>)
  {
    match t
    case Empty => true
    case Node(l, k, _, r) =>
      && IsBST(l)
      && IsBST(r)
      && (forall x :: x in Keys(l) ==> x < k)
      && (forall x :: x in Keys(r) ==> k < x)
  }

  /** The abstract map has exactly the stored keys as its domain. */
  lemma {:induction false} ContentDomain<V>(t: Tree<V>)
    ensures Content(t).Keys == Keys(t)
  {
    match t
    case Empty =>
    case Node(l, k, v, r) =>
      ContentDomain(l);
      ContentDomain(r);
  }

  /** On a search tree the abstract map agrees with each subtree: the value a
      key has in the whole tree is the one it has in the subtree holding it. */
  lemma ContentOfNode<V>(t: Tree<V>)
    requires t.Node? && IsBST(t)
    ensures forall x :: x in Content(t.left) ==> x in Content(t) && Content(t)[x] == Content(t.left)[x]
    ensures forall x :: x in Content(t.right) ==> x in Content(t) && Content(t)[x] == Content(t.right)[x]
    ensures t.key in Content(t) && Content(t)[t.key] == t.value
  {
    ContentDomain(t.left);
    ContentDomain(t.right);
  }

  /** On a search tree no key is stored twice, so the node count equals the
      number of distinct keys. */
  lemma {:induction false} SizeIsKeyCount<V>(t: Tree<V>)
    requires IsBST(t)
    ensures Size(t) == |Keys(t)|
  {
    match t
    case Empty =>
    case Node(l, k, _, r) =>
      SizeIsKeyCount(l);
      SizeIsKeyCount(r);
      assert k !in Keys(l) && k !in Keys(r);
      assert Keys(l) * Keys(r) == {} by {
        forall x | x in Keys(l) ensures x !in Keys(r) {
          assert x < k;
        }
      }
      assert |Keys(l) + {k}| == |Keys(l)| + 1;
      assert |Keys(l) + {k} + Keys(r)| == |Keys(l) + {k}| + |Keys(r)|;
  }

  /** `y` is the value of some key in `m`. */
  ghost predicate InRange<V>(m: map<int, V>, y: V)
  {
    exists x :: x in m && m[x] == y
  }

  /** On a search tree the set of stored values is exactly the range of the
      abstract map: every stored value belongs to some key, and every key's
      value is stored. */
  lemma {:induction false} ValueSetIsRange<V>(t: Tree<V>)
    requires IsBST(t)
    ensures forall y :: y in ValueSet(t) <==> InRange(Content(t), y)
  {
    match t
    case Empty =>
    case Node(l, k, v, r) =>
      ValueSetIsRange(l);
      ValueSetIsRange(r);
      ContentOfNode(t);
      forall y | y in ValueSet(t) ensures InRange(Content(t), y) {
        if y in ValueSet(l) {
          assert InRange(Content(l), y);
          var x :| x in Content(l) && Content(l)[x] == y;
          assert Content(t)[x] == y;
        } else if y in ValueSet(r) {
          assert InRange(Content(r), y);
          var x :| x in Content(r) && Content(r)[x] == y;
          assert Content(t)[x] == y;
        } else {
          assert Content(t)[k] == y;
        }
      }
      forall y | InRange(Content(t), y) ensures y in ValueSet(t) {
        var x :| x in Content(t) && Content(t)[x] == y;
        if x == k {
        } else if x in Content(r) {
          assert InRange(Content(r), y);
        } else {
          assert InRange(Content(l), y);
        }
      }
  }

  /** The height lies between the logarithm of the node count and the node
      count itself: it is 0 exactly for the empty tree, never exceeds the
      number of nodes, and a tree of height h holds fewer than 2^h nodes. */
  lemma {:induction false} HeightBounds<V>(t: Tree<V>)
    ensures Height(t) == 0 <==> t.Empty?
    ensures Height(t) <= Size(t)
    ensures Size(t) < Pow2(Height(t))
  {
    match t
    case Empty =>
    case Node(l, _, _, r) =>
      HeightBounds(l);
      HeightBounds(r);
      var h := Max(Height(l), Height(r));
      PowMonotone(Height(l), h);
      PowMonotone(Height(r), h);
  }

  lemma {:induction false} PowMonotone(a: nat, b: nat)
    requires a <= b
    ensures Pow2(a) <= Pow2(b)
    decreases b
  {
    if a < b {
      PowMonotone(a, b - 1);
    }
  }
}
