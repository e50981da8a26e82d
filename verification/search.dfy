/** MyTreeMap.findNode: the comparison-guided search for the node holding a
    key (MyTreeMap.java:81-104). */
module Search {
  import opened Outcomes
  import opened Trees

  /** The node the search reaches: compare the target with the current key,
      stop on equality, otherwise go left when smaller and right when larger,
      and report "not found" (None) at a null link. Unlike the source, an
      empty tree is a null link like any other and yields "not found". */
  function Find<V>(t: Tree<V>, k: int): (found: Option<Tree<V>>)
    ensures found.Some? ==> found.value.Node? && found.value.key == k
    ensures found.Some? ==> k in Keys(found.value) && Keys(found.value) <= Keys(t)
    ensures found.Some? ==> Size(found.value) <= Size(t)
  {
    match t
    case Empty => None
    case Node(l, x, _, r) =>
      if k == x then Some(t)
      else if k < x then Find(l, k)
      else Find(r, k)
  }

  /** findNode exactly as written: a null target throws, the root is
      dereferenced without a null check, and the loop descends while the
      target differs from the current key. */
  function FindNodeAsWritten<V>(root: Tree<V>, target: Option<int>): Result<Option<Tree<V>>, Fault>
  {
    if target.None? then Failure(NullKey)
    else if root.Empty? then Failure(NullDereference)
    else Success(Find(root, target.value))
  }

  /** The loop of findNode, iterating over the immutable tree. Its third
      guard (`current.right == null || current.left == null`) is reached only
      when the side the search must take is null, so it always holds and the
      loop never spins: the `assert` in the last branch records this. */
  method FindNode<V>(root: Tree<V>, target: Option<int>) returns (r: Result<Option<Tree<V>>, Fault>)
    ensures target.None? ==> r == Failure(NullKey)
    ensures target.Some? && root.Empty? ==> r == Failure(NullDereference)
    ensures target.Some? && root.Node? ==> r.Success? && r.value == Find(root, target.value)
    ensures r == FindNodeAsWritten(root, target)
  {
    if target.None? {
      return Failure(NullKey);
    }
    var k := target.value;
    if root.Empty? {
      return Failure(NullDereference);
    }
    var current := root;
    while k != current.key
      invariant current.Node?
      invariant Find(current, k) == Find(root, k)
      decreases current
    {
      if k < current.key && current.left.Node? {
        current := current.left;
      } else if k > current.key && current.right.Node? {
        current := current.right;
      } else {
        assert current.right.Empty? || current.left.Empty?;
        return Success(None);
      }
    }
    return Success(Some(current));
  }

  /** On a search tree the search succeeds exactly for the stored keys, and
      the node it reaches carries the key's value in the abstract map. */
  lemma {:induction false} FindCorrect<V>(t: Tree<V>, k: int)
    requires IsBST(t)
    ensures Find(t, k).Some? <==> k in Keys(t)
    ensures Find(t, k).Some? ==> k in Content(t) && Find(t, k).value.value == Content(t)[k]
  {
    match t
    case Empty =>
    case Node(l, x, _, r) =>
      ContentOfNode(t);
      ContentDomain(l);
      ContentDomain(r);
      if k < x {
        FindCorrect(l, k);
        assert k !in Keys(r);
      } else if k > x {
        FindCorrect(r, k);
        assert k !in Keys(l);
      }
  }
}
