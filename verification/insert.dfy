/** The two ways putHelper changes a non-empty tree (MyTreeMap.java:191-221):
    overwrite the value of the node the search finds, or walk the same
    comparison path to a null link and attach a new leaf there. */
module Insert {
  import opened Outcomes
  import opened Trees
  import opened Search

  /** The tree with every value erased: its shape and keys only. */
  function Skeleton<V>(t: Tree<V>): Tree<()>
  {
    match t
    case Empty => Empty
    case Node(l, k, _, r) => Node(Skeleton(l), k, (), Skeleton(r))
  }

  /** `optional.value = value` on the node findNode returned: the node
      reached by the search for `k` gets the new value, and nothing else in
      the tree changes. */
  function SetValue<V>(t: Tree<V>, k: int, v: V): (t': Tree<V>)
    requires Find(t, k).Some?
    ensures Skeleton(t') == Skeleton(t)
    ensures Find(t', k) == Some(Find(t, k).value.(value := v))
    ensures Keys(t') == Keys(t) && Size(t') == Size(t) && Height(t') == Height(t)
  {
    match t
    case Node(l, x, y, r) =>
      if k == x then Node(l, x, v, r)
      else if k < x then Node(SetValue(l, k, v), x, y, r)
      else Node(l, x, y, SetValue(r, k, v))
  }

  /** Writing the old value back undoes an overwrite exactly, on any tree:
      the overwrite touches the value of the found node and nothing else. */
  lemma {:induction false} SetValueRoundTrip<V>(t: Tree<V>, k: int, v: V)
    requires Find(t, k).Some?
    ensures SetValue(SetValue(t, k, v), k, Find(t, k).value.value) == t
  {
    match t
    case Node(l, x, y, r) =>
      if k < x {
        SetValueRoundTrip(l, k, v);
      } else if k > x {
        SetValueRoundTrip(r, k, v);
      }
  }

  /** Removes the leaf the search for `k` ends on; the inverse of AttachLeaf.
      A tree whose search for `k` does not end on a leaf is returned as is. */
  function DetachLeaf<V>(t: Tree<V>, k: int): Tree<V>
  {
    match t
    case Empty => Empty
    case Node(l, x, y, r) =>
      if k == x then (if IsLeaf(t) then Empty else t)
      else if k < x then Node(DetachLeaf(l, k), x, y, r)
      else Node(l, x, y, DetachLeaf(r, k))
  }

  /** The descent loop of putHelper: go left when `k` is smaller and right
      when larger, and at the first null link hang `new Node(k, v)`. The
      source runs it only after findNode reported `k` absent; an equal key on
      the path would make its loop spin, and cannot occur because the loop
      follows the very path findNode took. */
  function AttachLeaf<V>(t: Tree<V>, k: int, v: V): (t': Tree<V>)
    requires Find(t, k).None?
    ensures Find(t', k) == Some(Leaf(k, v))
    ensures DetachLeaf(t', k) == t
    ensures Keys(t') == Keys(t) + {k}
    ensures Size(t') == Size(t) + 1
    ensures Height(t) <= Height(t') <= Height(t) + 1
  {
    match t
    case Empty => Leaf(k, v)
    case Node(l, x, y, r) =>
      if k < x then Node(AttachLeaf(l, k, v), x, y, r)
      else if k > x then Node(l, x, y, AttachLeaf(r, k, v))
      else assert false; t
  }

  /** Updating the left child's map at a key the right child lacks updates
      the node's map at that key. */
  lemma LeftUpdate<V>(cl: map<int, V>, cr: map<int, V>, x: int, y: V, k: int, v: V)
    requires k != x && k !in cr
    ensures (cl[k := v] + cr)[x := y] == (cl + cr)[x := y][k := v]
  {
    var a, b := (cl[k := v] + cr)[x := y], (cl + cr)[x := y][k := v];
    assert a.Keys == b.Keys;
    forall z | z in a ensures a[z] == b[z] {
    }
  }

  /** Updating the right child's map updates the node's map at that key. */
  lemma RightUpdate<V>(cl: map<int, V>, cr: map<int, V>, x: int, y: V, k: int, v: V)
    requires k != x
    ensures (cl + cr[k := v])[x := y] == (cl + cr)[x := y][k := v]
  {
    var a, b := (cl + cr[k := v])[x := y], (cl + cr)[x := y][k := v];
    assert a.Keys == b.Keys;
    forall z | z in a ensures a[z] == b[z] {
    }
  }

  /** Overwriting a stored key keeps the ordering invariant and updates the
      abstract map at that key only. */
  lemma {:induction false} SetValueUpdatesContent<V>(t: Tree<V>, k: int, v: V)
    requires IsBST(t) && Find(t, k).Some?
    ensures IsBST(SetValue(t, k, v))
    ensures Content(SetValue(t, k, v)) == Content(t)[k := v]
  {
    match t
    case Node(l, x, y, r) =>
      if k < x {
        SetValueUpdatesContent(l, k, v);
        ContentDomain(r);
        LeftUpdate(Content(l), Content(r), x, y, k, v);
      } else if k > x {
        SetValueUpdatesContent(r, k, v);
        RightUpdate(Content(l), Content(r), x, y, k, v);
      }
  }

  /** Attaching a new key keeps the ordering invariant and adds exactly that
      key, with its value, to the abstract map. */
  lemma {:induction false} AttachLeafUpdatesContent<V>(t: Tree<V>, k: int, v: V)
    requires IsBST(t) && Find(t, k).None?
    ensures IsBST(AttachLeaf(t, k, v))
    ensures Content(AttachLeaf(t, k, v)) == Content(t)[k := v]
  {
    match t
    case Empty =>
    case Node(l, x, y, r) =>
      if k < x {
        AttachLeafUpdatesContent(l, k, v);
        ContentDomain(r);
        LeftUpdate(Content(l), Content(r), x, y, k, v);
      } else {
        AttachLeafUpdatesContent(r, k, v);
        RightUpdate(Content(l), Content(r), x, y, k, v);
      }
  }
}
