/** The two enumerations of MyTreeMap: keySet/addKeys, a recursive in-order
    walk collecting keys into an insertion-ordered set
    (MyTreeMap.java:150-176), and values, an explicit-stack walk collecting
    values into a hash set (MyTreeMap.java:240-253), with containsValue on
    top of it (MyTreeMap.java:120-129). */
module Traversal {
  import opened Trees

  /** No element occurs twice. */
  predicate Distinct(s: seq<int>)
  {
    forall i, j :: 0 <= i < j < |s| ==> s[i] != s[j]
  }

  /** Every element is smaller than the next ones. */
  predicate StrictlyAscending(s: seq<int>)
  {
    forall i, j :: 0 <= i < j < |s| ==> s[i] < s[j]
  }

  /** The standard in-order traversal: left subtree, key, right subtree. */
  function InOrder<V>(t: Tree<V>): (keys: seq<int>)
    ensures |keys| == Size(t)
  {
    match t
    case Empty => []
    case Node(l, k, _, r) => InOrder(l) + [k] + InOrder(r)
  }

  /** LinkedHashSet.add: append the key unless it is already present. */
  function AddKey(s: seq<int>, k: int): (s': seq<int>)
    ensures k in s'
    ensures Distinct(s) ==> Distinct(s')
  {
    if k in s then s else s + [k]
  }

  /** addKeys with its four-way case split: a leaf adds its key; with both
      children, left, key, right; with only a left child, left then key;
      with only a right child, key then right. Like the source it is defined
      on non-null nodes only. */
  function AddKeys<V>(acc: seq<int>, t: Tree<V>): (s: seq<int>)
    requires t.Node?
    ensures acc <= s
    ensures forall x :: x in s <==> x in acc || x in Keys(t)
    ensures Distinct(acc) ==> Distinct(s)
    decreases t
  {
    if IsLeaf(t) then
      AddKey(acc, t.key)
    else if t.left.Node? && t.right.Node? then
      AddKeys(AddKey(AddKeys(acc, t.left), t.key), t.right)
    else if t.left.Node? then
      AddKey(AddKeys(acc, t.left), t.key)
    else
      AddKeys(AddKey(acc, t.key), t.right)
  }

  /** Joining two ascending runs around a separating key gives an ascending
      sequence. */
  lemma AscendingJoin(a: seq<int>, k: int, b: seq<int>)
    requires StrictlyAscending(a) && StrictlyAscending(b)
    requires forall x :: x in a ==> x < k
    requires forall x :: x in b ==> k < x
    ensures StrictlyAscending(a + [k] + b)
  {
    var s := a + [k] + b;
    forall i, j | 0 <= i < j < |s| ensures s[i] < s[j] {
      if j < |a| {
      } else if i < |a| {
        assert s[i] in a;
        if j > |a| {
          assert s[j] == b[j - |a| - 1];
          assert s[j] in b;
        }
      } else if i == |a| {
        assert s[j] == b[j - |a| - 1];
        assert s[j] in b;
      } else {
        assert s[i] == b[i - |a| - 1] && s[j] == b[j - |a| - 1];
      }
    }
  }

  /** On a search tree the in-order traversal lists the keys in strictly
      ascending order. */
  lemma {:induction false} InOrderAscending<V>(t: Tree<V>)
    requires IsBST(t)
    ensures StrictlyAscending(InOrder(t))
  {
    match t
    case Empty =>
    case Node(l, k, _, r) =>
      InOrderAscending(l);
      InOrderAscending(r);
      InOrderKeys(l);
      InOrderKeys(r);
      AscendingJoin(InOrder(l), k, InOrder(r));
  }

  /** None of the collected keys is stored in the subtree. */
  ghost predicate FreshFor<V>(acc: seq<int>, t: Tree<V>)
  {
    forall x :: x in acc ==> x !in Keys(t)
  }

  /** The four-way split of addKeys is the standard in-order traversal: on a
      search tree whose keys are not yet in the collected set, it appends
      exactly the in-order key sequence. */
  lemma {:induction false} AddKeysIsInOrder<V>(acc: seq<int>, t: Tree<V>)
    requires t.Node? && IsBST(t) && FreshFor(acc, t)
    ensures AddKeys(acc, t) == acc + InOrder(t)
    decreases t, 1
  {
    if IsLeaf(t) {
      assert t.key !in acc;
    } else if t.left.Node? && t.right.Node? {
      AddKeysBoth(acc, t);
    } else if t.left.Node? {
      AddKeysLeftOnly(acc, t);
    } else {
      AddKeysRightOnly(acc, t);
    }
  }

  lemma {:induction false} AddKeysLeftOnly<V>(acc: seq<int>, t: Tree<V>)
    requires t.Node? && IsBST(t) && FreshFor(acc, t) && t.left.Node? && t.right.Empty?
    ensures AddKeys(acc, t) == acc + InOrder(t)
    decreases t, 0
  {
    assert FreshFor(acc, t.left);
    AddKeysIsInOrder(acc, t.left);
    assert t.key !in Keys(t.left);
    assert t.key !in acc;
  }

  lemma {:induction false} AddKeysRightOnly<V>(acc: seq<int>, t: Tree<V>)
    requires t.Node? && IsBST(t) && FreshFor(acc, t) && t.left.Empty? && t.right.Node?
    ensures AddKeys(acc, t) == acc + InOrder(t)
    decreases t, 0
  {
    var k, r := t.key, t.right;
    assert k !in acc;
    assert FreshFor(acc + [k], r);
    calc {
      AddKeys(acc, t);
      AddKeys(AddKey(acc, k), r);
      AddKeys(acc + [k], r);
      { AddKeysIsInOrder(acc + [k], r); }
      acc + [k] + InOrder(r);
      acc + InOrder(t);
    }
  }

  lemma {:induction false} AddKeysBoth<V>(acc: seq<int>, t: Tree<V>)
    requires t.Node? && IsBST(t) && FreshFor(acc, t) && t.left.Node? && t.right.Node?
    ensures AddKeys(acc, t) == acc + InOrder(t)
    decreases t, 0
  {
    var l, k, r := t.left, t.key, t.right;
    assert FreshFor(acc, l);
    AddKeysIsInOrder(acc, l);
    assert k !in acc + InOrder(l) by {
      assert k !in Keys(l);
      assert k !in acc;
    }
    assert FreshFor(acc + InOrder(l) + [k], r) by {
      forall x | x in acc + InOrder(l) + [k] ensures x !in Keys(r) {
        if x in acc {
        } else if x in InOrder(l) {
          InOrderKeys(l);
          assert x < k;
        }
      }
    }
    calc {
      AddKeys(acc, t);
      AddKeys(AddKey(AddKeys(acc, l), k), r);
      AddKeys(AddKey(acc + InOrder(l), k), r);
      AddKeys(acc + InOrder(l) + [k], r);
      { AddKeysIsInOrder(acc + InOrder(l) + [k], r); }
      acc + InOrder(l) + [k] + InOrder(r);
      acc + InOrder(t);
    }
  }

  /** The in-order traversal lists exactly the stored keys. */
  lemma {:induction false} InOrderKeys<V>(t: Tree<V>)
    ensures forall x :: x in InOrder(t) <==> x in Keys(t)
  {
    match t
    case Empty =>
    case Node(l, _, _, r) =>
      InOrderKeys(l);
      InOrderKeys(r);
  }

  /** The stack holds subtrees (null links included); the values still to
      collect are those of every subtree on it. */
  function StackValues<V>(stack: seq<Tree<V>>): set<V>
  {
    if stack == [] then {} else ValueSet(stack[0]) + StackValues(stack[1..])
  }

  /** Work left on the stack: a node counts twice its size plus one, which
      popping it and pushing its two children lowers by one, and a null
      entry counts one, which popping it removes. */
  function StackWeight<V>(stack: seq<Tree<V>>): nat
  {
    if stack == [] then 0 else 2 * Size(stack[0]) + 1 + StackWeight(stack[1..])
  }

  /** values(): push the root; pop until the stack is empty, skipping null
      entries, adding each node's value and pushing its left then its right
      child. The result holds every stored value, each once; an empty tree
      pushes only a null entry and yields the empty set. */
  method Values<V>(root: Tree<V>) returns (result: set<V>)
    ensures result == ValueSet(root)
    ensures root.Empty? ==> result == {}
  {
    result := {};
    var stack := [root];
    while stack != []
      invariant result + StackValues(stack) == ValueSet(root)
      decreases StackWeight(stack)
    {
      ghost var before := StackWeight(stack);
      var node := stack[0];
      stack := stack[1..];
      if node.Empty? {
        continue;
      }
      result := result + {node.value};
      var rest := stack;
      stack := [node.left] + stack;
      assert stack[1..] == rest;
      stack := [node.right] + stack;
      assert stack[1..] == [node.left] + rest;
      assert StackWeight(stack) == 2 * Size(node.right) + 1 + 2 * Size(node.left) + 1 + StackWeight(rest);
    }
  }

  /** containsValue: enumerate values() and report whether one of them
      equals the target. Stored values are never null in this model. */
  method ContainsValue<V(==)>(root: Tree<V>, target: V) returns (found: bool)
    ensures found <==> target in ValueSet(root)
  {
    var allValues := Values(root);
    var rest := allValues;
    while rest != {}
      invariant rest <= allValues
      invariant target !in allValues - rest
      decreases rest
    {
      var value :| value in rest;
      if value == target {
        return true;
      }
      rest := rest - {value};
    }
    return false;
  }
}
