/** MyTreeMap itself: the root link and the entry counter, and the public
    operations built on the search, insertion and traversal modules. Keys
    are `Option<int>` at this boundary so that a null key can be passed and
    rejected as the source rejects it. */
module TreeMap {
  import opened Outcomes
  import opened Trees
  import opened Search
  import opened Insert
  import opened Traversal

  /** The two fields of MyTreeMap: `root` (null when `Empty`) and `size`. */
  datatype TreeMap<V> = TreeMap(root: Tree<V>, size: int)

  /** The invariant every operation keeps: the tree is a search tree and the
      counter equals its node count. */
  ghost predicate Valid<V>(m: TreeMap<V>)
  {
    IsBST(m.root) && m.size == Size(m.root)
  }

  /** The key-value map the object represents. */
  function Abstract<V>(m: TreeMap<V>): map<int, V>
  {
    Content(m.root)
  }

  /** The value of `k` in `a`, or None (Java's null) when `k` is absent. */
  function Lookup<V>(a: map<int, V>, k: int): Option<V>
  {
    if k in a then Some(a[k]) else None
  }

  /** The field initialisers `size = 0` and `root = null`. */
  function New<V>(): (m: TreeMap<V>)
    ensures Valid(m) && Abstract(m) == map[] && m.size == 0
  {
    TreeMap(Empty, 0)
  }

  /** clear(): drop the root and reset the counter. The result is the
      freshly constructed map, whatever the map was before. */
  function Clear<V>(m: TreeMap<V>): (m': TreeMap<V>)
    ensures m' == New()
    ensures Valid(m') && Abstract(m') == map[] && SizeOf(m') == 0
  {
    TreeMap(Empty, 0)
  }

  /** size(): the counter. */
  function SizeOf<V>(m: TreeMap<V>): int
  {
    m.size
  }

  /** isEmpty(): the counter is zero. */
  function IsEmpty<V>(m: TreeMap<V>): bool
  {
    m.size == 0
  }

  /** height(): the height of the tree hanging from the root. */
  function HeightOf<V>(m: TreeMap<V>): nat
  {
    Height(m.root)
  }

  /** containsKey(): whether the search finds a node. A null key throws; an
      empty map answers false where the source dereferences the null root. */
  function ContainsKey<V>(m: TreeMap<V>, key: Option<int>): (r: Result<bool, Fault>)
    ensures key.None? <==> r == Failure(NullKey)
    ensures r.Success? ==> (r.value <==> Find(m.root, key.value).Some?)
  {
    if key.None? then Failure(NullKey)
    else Success(Find(m.root, key.value).Some?)
  }

  /** get(): the value of the node the search finds, or None (null) when it
      finds none. A null key throws. */
  function Get<V>(m: TreeMap<V>, key: Option<int>): (r: Result<Option<V>, Fault>)
    ensures key.None? <==> r == Failure(NullKey)
    ensures r.Success? ==> (r.value.Some? <==> ContainsKey(m, key) == Success(true))
  {
    if key.None? then Failure(NullKey)
    else match Find(m.root, key.value)
      case None => Success(None)
      case Some(node) => Success(Some(node.value))
  }

  /** put(): a null key throws; an empty map gets a new root; otherwise
      putHelper overwrites the value of the node findNode returns, answering
      the old value, or attaches a new leaf, counts it and answers None. */
  function Put<V>(m: TreeMap<V>, key: Option<int>, value: V): (r: Result<(TreeMap<V>, Option<V>), Fault>)
    ensures key.None? <==> r == Failure(NullKey)
    ensures r.Success? ==> Find(r.value.0.root, key.value).Some?
    ensures r.Success? ==> Find(r.value.0.root, key.value).value.value == value
    ensures r.Success? ==> (r.value.1.None? <==> Find(m.root, key.value).None?)
    ensures r.Success? ==> r.value.0.size == m.size + (if r.value.1.None? then 1 else 0)
  {
    if key.None? then Failure(NullKey)
    else if m.root.Empty? then Success((TreeMap(Leaf(key.value, value), m.size + 1), None))
    else Success(PutHelper(m, key.value, value))
  }

  /** putHelper on a non-empty tree. */
  function PutHelper<V>(m: TreeMap<V>, k: int, value: V): (TreeMap<V>, Option<V>)
  {
    match Find(m.root, k)
    case Some(node) => (TreeMap(SetValue(m.root, k, value), m.size), Some(node.value))
    case None => (TreeMap(AttachLeaf(m.root, k, value), m.size + 1), None)
  }

  /** putAll(): put every entry in order. A null key throws after the entries
      before it have been stored: the map reached so far is returned with
      the fault. */
  function PutAll<V>(m: TreeMap<V>, entries: seq<(Option<int>, V)>): (r: (TreeMap<V>, Option<Fault>))
    ensures r.1.None? <==> NoNullKeys(entries)
    ensures r.1.Some? ==> r.1.value == NullKey
    ensures r.1.None? ==> m.size <= r.0.size <= m.size + |entries|
    decreases |entries|
  {
    if entries == [] then (m, None)
    else match Put(m, entries[0].0, entries[0].1)
      case Failure(e) => (m, Some(e))
      case Success((m', _)) =>
        var r := PutAll(m', entries[1..]);
        assert forall i :: 1 <= i < |entries| ==> entries[i] == entries[1..][i - 1];
        r
  }

  /** keySet(): the keys in the order addKeys adds them to the
      insertion-ordered set; an empty map yields no keys. */
  function KeySet<V>(m: TreeMap<V>): seq<int>
  {
    if m.root.Empty? then [] else AddKeys([], m.root)
  }

  /** keySet() as written: addKeys calls isLeaf on a null root. */
  function KeySetAsWritten<V>(m: TreeMap<V>): Result<seq<int>, Fault>
  {
    if m.root.Empty? then Failure(NullDereference) else Success(AddKeys([], m.root))
  }

  /** values(): the distinct stored values. */
  method ValuesOf<V>(m: TreeMap<V>) returns (vs: set<V>)
    ensures m.root.Empty? ==> vs == {}
    ensures Valid(m) ==> forall y :: y in vs <==> InRange(Abstract(m), y)
  {
    vs := Values(m.root);
    if IsBST(m.root) {
      ValueSetIsRange(m.root);
    }
  }

  /** containsValue(): whether some key maps to the target. */
  method ContainsValueOf<V(==)>(m: TreeMap<V>, target: V) returns (found: bool)
    ensures Valid(m) ==> (found <==> InRange(Abstract(m), target))
  {
    found := ContainsValue(m.root, target);
    if IsBST(m.root) {
      ValueSetIsRange(m.root);
    }
  }

  // ---------------------------------------------------------------------
  // Properties of the operations against the abstract map.

  /** The counter equals the number of distinct keys, and isEmpty holds
      exactly when no key is stored. */
  lemma SizeCountsKeys<V>(m: TreeMap<V>)
    requires Valid(m)
    ensures SizeOf(m) == |Abstract(m)|
    ensures IsEmpty(m) <==> Abstract(m) == map[]
  {
    SizeIsKeyCount(m.root);
    ContentDomain(m.root);
    assert |Abstract(m)| == |Abstract(m).Keys|;
    if Abstract(m) != map[] {
      var k :| k in Abstract(m);
      assert k in Abstract(m).Keys;
    }
  }

  /** containsKey and get answer from the abstract map. */
  lemma LookupCorrect<V>(m: TreeMap<V>, k: int)
    requires Valid(m)
    ensures ContainsKey(m, Some(k)) == Success(k in Abstract(m))
    ensures Get(m, Some(k)) == Success(Lookup(Abstract(m), k))
  {
    FindCorrect(m.root, k);
    ContentDomain(m.root);
  }

  /** put keeps the invariant, makes the abstract map `old[k := v]`,
      answers the previous value of `k`, and counts a new key once. An
      existing key keeps the tree's shape; a new key hangs as a leaf whose
      removal gives back the old tree. */
  lemma PutCorrect<V>(m: TreeMap<V>, k: int, v: V)
    requires Valid(m)
    ensures Put(m, Some(k), v).Success?
    ensures var (m', previous) := Put(m, Some(k), v).value;
      && Valid(m')
      && Abstract(m') == Abstract(m)[k := v]
      && previous == Lookup(Abstract(m), k)
      && m'.size == m.size + (if k in Abstract(m) then 0 else 1)
      && (k in Abstract(m) ==> Skeleton(m'.root) == Skeleton(m.root))
      && (k !in Abstract(m) ==> DetachLeaf(m'.root, k) == m.root)
  {
    FindCorrect(m.root, k);
    ContentDomain(m.root);
    if m.root.Empty? {
    } else if k in Abstract(m) {
      SetValueUpdatesContent(m.root, k, v);
    } else {
      AttachLeafUpdatesContent(m.root, k, v);
    }
  }

  /** After put(k, v), get(k) answers v and every other key answers what it
      answered before. */
  lemma GetAfterPut<V>(m: TreeMap<V>, k: int, v: V, other: int)
    requires Valid(m) && other != k
    ensures Put(m, Some(k), v).Success?
    ensures var m' := Put(m, Some(k), v).value.0;
      && Get(m', Some(k)) == Success(Some(v))
      && Get(m', Some(other)) == Get(m, Some(other))
  {
    PutCorrect(m, k, v);
    var m' := Put(m, Some(k), v).value.0;
    LookupCorrect(m, other);
    LookupCorrect(m', k);
    LookupCorrect(m', other);
  }

  /** Re-inserting a stored key answers its previous value and leaves the
      counter unchanged. */
  lemma PutExistingKey<V>(m: TreeMap<V>, k: int, v: V)
    requires Valid(m) && k in Abstract(m)
    ensures Put(m, Some(k), v).Success?
    ensures Put(m, Some(k), v).value.1 == Some(Abstract(m)[k])
    ensures SizeOf(Put(m, Some(k), v).value.0) == SizeOf(m)
  {
    PutCorrect(m, k, v);
  }

  /** keySet lists every stored key once, in strictly ascending order. */
  lemma KeySetSorted<V>(m: TreeMap<V>)
    requires Valid(m)
    ensures KeySet(m) == InOrder(m.root)
    ensures StrictlyAscending(KeySet(m))
    ensures forall x :: x in KeySet(m) <==> x in Abstract(m)
    ensures |KeySet(m)| == SizeOf(m)
  {
    if m.root.Node? {
      AddKeysIsInOrder([], m.root);
    }
    InOrderAscending(m.root);
    InOrderKeys(m.root);
    ContentDomain(m.root);
  }

  /** The height is 0 exactly for the empty map, at most the number of
      entries, and a map of height h holds fewer than 2^h entries. */
  lemma HeightBoundsMap<V>(m: TreeMap<V>)
    requires Valid(m)
    ensures HeightOf(m) == 0 <==> SizeOf(m) == 0
    ensures HeightOf(m) <= SizeOf(m) < Pow2(HeightOf(m))
  {
    HeightBounds(m.root);
  }

  // ---------------------------------------------------------------------
  // Sequences of puts.

  /** No entry has a null key. */
  predicate NoNullKeys<V>(entries: seq<(Option<int>, V)>)
  {
    forall i :: 0 <= i < |entries| ==> entries[i].0.Some?
  }

  /** The keys of the entries. */
  function EntryKeys<V>(entries: seq<(Option<int>, V)>): set<int>
    requires NoNullKeys(entries)
  {
    set i | 0 <= i < |entries| :: entries[i].0.value
  }

  /** The reference meaning of a sequence of puts: map updates in order. */
  function Updates<V>(a: map<int, V>, entries: seq<(Option<int>, V)>): map<int, V>
    requires NoNullKeys(entries)
    decreases |entries|
  {
    if entries == [] then a
    else Updates(a[entries[0].0.value := entries[0].1], entries[1..])
  }

  /** Entry `i` is the last one for its key. */
  ghost predicate LastFor<V>(entries: seq<(Option<int>, V)>, i: int)
    requires 0 <= i < |entries|
  {
    forall j :: i < j < |entries| ==> entries[j].0 != entries[i].0
  }

  /** The updates store exactly the old keys and the entries' keys, and each
      entry key holds the value of the last entry for it. */
  lemma {:induction false} UpdatesFacts<V>(a: map<int, V>, entries: seq<(Option<int>, V)>)
    requires NoNullKeys(entries)
    ensures Updates(a, entries).Keys == a.Keys + EntryKeys(entries)
    ensures forall x :: x in a && x !in EntryKeys(entries) ==> Updates(a, entries)[x] == a[x]
    ensures forall i :: 0 <= i < |entries| && LastFor(entries, i) ==>
      Updates(a, entries)[entries[i].0.value] == entries[i].1
    decreases |entries|
  {
    if entries != [] {
      var rest := entries[1..];
      var a' := a[entries[0].0.value := entries[0].1];
      UpdatesFacts(a', rest);
      assert EntryKeys(entries) == {entries[0].0.value} + EntryKeys(rest) by {
        forall x | x in EntryKeys(entries) ensures x in {entries[0].0.value} + EntryKeys(rest) {
          var i :| 0 <= i < |entries| && entries[i].0.value == x;
          if i > 0 {
            assert rest[i - 1] == entries[i];
          }
        }
        forall x | x in EntryKeys(rest) ensures x in EntryKeys(entries) {
          var i :| 0 <= i < |rest| && rest[i].0.value == x;
          assert entries[i + 1] == rest[i];
        }
      }
      forall i | 0 <= i < |entries| && LastFor(entries, i)
        ensures Updates(a, entries)[entries[i].0.value] == entries[i].1
      {
        assert Updates(a, entries) == Updates(a', rest);
        if i == 0 {
          assert entries[0].0.value !in EntryKeys(rest) by {
            forall j | 0 <= j < |rest| ensures rest[j].0 != entries[0].0 {
              assert rest[j] == entries[j + 1];
            }
          }
          var k0 := entries[0].0.value;
          assert k0 in a' && k0 !in EntryKeys(rest);
          assert Updates(a', rest)[k0] == a'[k0];
        } else {
          assert rest[i - 1] == entries[i];
          assert LastFor(rest, i - 1) by {
            forall j | i - 1 < j < |rest| ensures rest[j].0 != rest[i - 1].0 {
              assert rest[j] == entries[j + 1];
            }
          }
          assert Updates(a', rest)[rest[i - 1].0.value] == rest[i - 1].1;
        }
      }
    }
  }

  /** putAll of entries with non-null keys keeps the invariant and performs
      the map updates in order. */
  lemma {:induction false} PutAllRefines<V>(m: TreeMap<V>, entries: seq<(Option<int>, V)>)
    requires Valid(m) && NoNullKeys(entries)
    ensures PutAll(m, entries).1 == None
    ensures Valid(PutAll(m, entries).0)
    ensures Abstract(PutAll(m, entries).0) == Updates(Abstract(m), entries)
    decreases |entries|
  {
    if entries != [] {
      var k, v := entries[0].0.value, entries[0].1;
      PutCorrect(m, k, v);
      var m' := Put(m, Some(k), v).value.0;
      assert NoNullKeys(entries[1..]) by {
        forall i | 0 <= i < |entries[1..]| ensures entries[1..][i].0.Some? {
          assert entries[1..][i] == entries[i + 1];
        }
      }
      PutAllRefines(m', entries[1..]);
    }
  }

  /** A null key stops putAll: the entries before it stay applied, and the
      map they reached is returned with the fault. */
  lemma {:induction false} PutAllStopsAtNull<V>(m: TreeMap<V>, entries: seq<(Option<int>, V)>, i: nat)
    requires i < |entries| && entries[i].0.None? && NoNullKeys(entries[..i])
    ensures PutAll(m, entries) == (PutAll(m, entries[..i]).0, Some(NullKey))
    decreases i
  {
    if i > 0 {
      assert entries[0] == entries[..i][0];
      var m' := Put(m, entries[0].0, entries[0].1).value.0;
      assert entries[1..][..i - 1] == entries[..i][1..];
      PutAllStopsAtNull(m', entries[1..], i - 1);
    }
  }

  /** Starting from a new map, putAll leaves one entry per distinct key,
      and every key answers the value of its most recent put. */
  lemma PutAllFromNew<V>(entries: seq<(Option<int>, V)>)
    requires NoNullKeys(entries)
    ensures SizeOf(PutAll(New(), entries).0) == |EntryKeys(entries)|
    ensures forall i :: 0 <= i < |entries| && LastFor(entries, i) ==>
      Get(PutAll(New(), entries).0, entries[i].0) == Success(Some(entries[i].1))
  {
    var m := PutAll(New(), entries).0;
    PutAllRefines(New(), entries);
    UpdatesFacts(map[], entries);
    SizeCountsKeys(m);
    assert Abstract(m).Keys == EntryKeys(entries);
    forall i | 0 <= i < |entries| && LastFor(entries, i)
      ensures Get(m, entries[i].0) == Success(Some(entries[i].1))
    {
      LookupCorrect(m, entries[i].0.value);
    }
  }

  // ---------------------------------------------------------------------
  // Concrete scenarios.

  /** The insertions of the source's nine-key demonstration tree. */
  function NineEntries(): seq<(Option<int>, int)>
  {
    [(Some(8), 8), (Some(3), 3), (Some(10), 10), (Some(1), 1), (Some(6), 6),
     (Some(14), 14), (Some(4), 4), (Some(7), 7), (Some(13), 13)]
  }

  /** The tree those insertions build: 8 at the root, 3 and 10 below it,
      1 and 6 below 3, 14 right of 10, 4 and 7 below 6, 13 left of 14. */
  function NineKeyTree(): Tree<int>
  {
    Node(Node(Leaf(1, 1), 3, 3, Node(Leaf(4, 4), 6, 6, Leaf(7, 7))),
         8, 8,
         Node(Empty, 10, 10, Node(Leaf(13, 13), 14, 14, Empty)))
  }

  /** One insertion that returns no previous value advances a bulk insertion
      by one entry. */
  lemma PutAllStep<V>(m: TreeMap<V>, m': TreeMap<V>, entries: seq<(Option<int>, V)>)
    requires entries != [] && Put(m, entries[0].0, entries[0].1) == Success((m', None))
    ensures PutAll(m, entries) == PutAll(m', entries[1..])
  {
  }

  /** The tree after the first 1 of the nine insertions. */
  function NineKeyStage1(): Tree<int>
  {
    Leaf(8, 8)
  }

  /** The tree after the first 2 of the nine insertions. */
  function NineKeyStage2(): Tree<int>
  {
    Node(Leaf(3, 3), 8, 8, Empty)
  }

  /** The tree after the first 3 of the nine insertions. */
  function NineKeyStage3(): Tree<int>
  {
    Node(Leaf(3, 3), 8, 8, Leaf(10, 10))
  }

  /** The tree after the first 4 of the nine insertions. */
  function NineKeyStage4(): Tree<int>
  {
    Node(Node(Leaf(1, 1), 3, 3, Empty), 8, 8, Leaf(10, 10))
  }

  /** The tree after the first 5 of the nine insertions. */
  function NineKeyStage5(): Tree<int>
  {
    Node(Node(Leaf(1, 1), 3, 3, Leaf(6, 6)), 8, 8, Leaf(10, 10))
  }

  /** The tree after the first 6 of the nine insertions. */
  function NineKeyStage6(): Tree<int>
  {
    Node(Node(Leaf(1, 1), 3, 3, Leaf(6, 6)), 8, 8, Node(Empty, 10, 10, Leaf(14, 14)))
  }

  /** The tree after the first 7 of the nine insertions. */
  function NineKeyStage7(): Tree<int>
  {
    Node(Node(Leaf(1, 1), 3, 3, Node(Leaf(4, 4), 6, 6, Empty)), 8, 8, Node(Empty, 10, 10, Leaf(14, 14)))
  }

  /** The tree after the first 8 of the nine insertions. */
  function NineKeyStage8(): Tree<int>
  {
    Node(Node(Leaf(1, 1), 3, 3, Node(Leaf(4, 4), 6, 6, Leaf(7, 7))), 8, 8, Node(Empty, 10, 10, Leaf(14, 14)))
  }

  /** Insertion 1 puts 8 at the root. */
  lemma NineKeyInsert1()
    ensures Put(TreeMap(Empty, 0), Some(8), 8) == Success((TreeMap(NineKeyStage1(), 1), None))
  {
  }

  lemma NineKeyStep1(m: TreeMap<int>, m': TreeMap<int>, e: seq<(Option<int>, int)>)
    requires m == TreeMap(Empty, 0) && m' == TreeMap(NineKeyStage1(), 1)
    requires e != [] && e[0] == (Some(8), 8)
    ensures PutAll(m, e) == PutAll(m', e[1..])
  {
    NineKeyInsert1();
    PutAllStep(m, m', e);
  }

  /** Insertion 2 puts 3 left of 8. */
  lemma NineKeyInsert2()
    ensures Put(TreeMap(NineKeyStage1(), 1), Some(3), 3) == Success((TreeMap(NineKeyStage2(), 2), None))
  {
    assert Find(NineKeyStage1(), 3) == None;
    assert AttachLeaf(NineKeyStage1(), 3, 3) == NineKeyStage2();
  }

  lemma NineKeyStep2(m: TreeMap<int>, m': TreeMap<int>, e: seq<(Option<int>, int)>)
    requires m == TreeMap(NineKeyStage1(), 1) && m' == TreeMap(NineKeyStage2(), 2)
    requires e != [] && e[0] == (Some(3), 3)
    ensures PutAll(m, e) == PutAll(m', e[1..])
  {
    NineKeyInsert2();
    PutAllStep(m, m', e);
  }

  /** Insertion 3 puts 10 right of 8. */
  lemma NineKeyInsert3()
    ensures Put(TreeMap(NineKeyStage2(), 2), Some(10), 10) == Success((TreeMap(NineKeyStage3(), 3), None))
  {
    assert Find(NineKeyStage2(), 10) == None;
    assert AttachLeaf(NineKeyStage2(), 10, 10) == NineKeyStage3();
  }

  lemma NineKeyStep3(m: TreeMap<int>, m': TreeMap<int>, e: seq<(Option<int>, int)>)
    requires m == TreeMap(NineKeyStage2(), 2) && m' == TreeMap(NineKeyStage3(), 3)
    requires e != [] && e[0] == (Some(10), 10)
    ensures PutAll(m, e) == PutAll(m', e[1..])
  {
    NineKeyInsert3();
    PutAllStep(m, m', e);
  }

  /** Insertion 4 puts 1 left of 3. */
  lemma NineKeyInsert4()
    ensures Put(TreeMap(NineKeyStage3(), 3), Some(1), 1) == Success((TreeMap(NineKeyStage4(), 4), None))
  {
    assert Find(Leaf(3, 3), 1) == None && Find(NineKeyStage3(), 1) == None;
    assert AttachLeaf(Leaf(3, 3), 1, 1) == Node(Leaf(1, 1), 3, 3, Empty);
    assert AttachLeaf(NineKeyStage3(), 1, 1) == NineKeyStage4();
  }

  lemma NineKeyStep4(m: TreeMap<int>, m': TreeMap<int>, e: seq<(Option<int>, int)>)
    requires m == TreeMap(NineKeyStage3(), 3) && m' == TreeMap(NineKeyStage4(), 4)
    requires e != [] && e[0] == (Some(1), 1)
    ensures PutAll(m, e) == PutAll(m', e[1..])
  {
    NineKeyInsert4();
    PutAllStep(m, m', e);
  }

  /** Insertion 5 puts 6 right of 3. */
  lemma NineKeyInsert5()
    ensures Put(TreeMap(NineKeyStage4(), 4), Some(6), 6) == Success((TreeMap(NineKeyStage5(), 5), None))
  {
    assert Find(NineKeyStage4(), 6) == None;
    assert AttachLeaf(NineKeyStage4(), 6, 6) == NineKeyStage5();
  }

  lemma NineKeyStep5(m: TreeMap<int>, m': TreeMap<int>, e: seq<(Option<int>, int)>)
    requires m == TreeMap(NineKeyStage4(), 4) && m' == TreeMap(NineKeyStage5(), 5)
    requires e != [] && e[0] == (Some(6), 6)
    ensures PutAll(m, e) == PutAll(m', e[1..])
  {
    NineKeyInsert5();
    PutAllStep(m, m', e);
  }

  /** Insertion 6 puts 14 right of 10. */
  lemma NineKeyInsert6()
    ensures Put(TreeMap(NineKeyStage5(), 5), Some(14), 14) == Success((TreeMap(NineKeyStage6(), 6), None))
  {
    assert Find(NineKeyStage5(), 14) == None;
    assert AttachLeaf(NineKeyStage5(), 14, 14) == NineKeyStage6();
  }

  lemma NineKeyStep6(m: TreeMap<int>, m': TreeMap<int>, e: seq<(Option<int>, int)>)
    requires m == TreeMap(NineKeyStage5(), 5) && m' == TreeMap(NineKeyStage6(), 6)
    requires e != [] && e[0] == (Some(14), 14)
    ensures PutAll(m, e) == PutAll(m', e[1..])
  {
    NineKeyInsert6();
    PutAllStep(m, m', e);
  }

  /** Insertion 7 puts 4 left of 6. */
  lemma NineKeyInsert7()
    ensures Put(TreeMap(NineKeyStage6(), 6), Some(4), 4) == Success((TreeMap(NineKeyStage7(), 7), None))
  {
    assert Find(NineKeyStage6(), 4) == None;
    assert AttachLeaf(NineKeyStage6(), 4, 4) == NineKeyStage7();
  }

  lemma NineKeyStep7(m: TreeMap<int>, m': TreeMap<int>, e: seq<(Option<int>, int)>)
    requires m == TreeMap(NineKeyStage6(), 6) && m' == TreeMap(NineKeyStage7(), 7)
    requires e != [] && e[0] == (Some(4), 4)
    ensures PutAll(m, e) == PutAll(m', e[1..])
  {
    NineKeyInsert7();
    PutAllStep(m, m', e);
  }

  /** Insertion 8 puts 7 right of 6. */
  lemma NineKeyInsert8()
    ensures Put(TreeMap(NineKeyStage7(), 7), Some(7), 7) == Success((TreeMap(NineKeyStage8(), 8), None))
  {
    var six := Node(Leaf(4, 4), 6, 6, Empty);
    assert Find(six, 7) == None && AttachLeaf(six, 7, 7) == Node(Leaf(4, 4), 6, 6, Leaf(7, 7));
    assert Find(NineKeyStage7(), 7) == None;
    assert AttachLeaf(NineKeyStage7(), 7, 7) == NineKeyStage8();
  }

  lemma NineKeyStep8(m: TreeMap<int>, m': TreeMap<int>, e: seq<(Option<int>, int)>)
    requires m == TreeMap(NineKeyStage7(), 7) && m' == TreeMap(NineKeyStage8(), 8)
    requires e != [] && e[0] == (Some(7), 7)
    ensures PutAll(m, e) == PutAll(m', e[1..])
  {
    NineKeyInsert8();
    PutAllStep(m, m', e);
  }

  /** Insertion 9 puts 13 left of 14. */
  lemma NineKeyInsert9()
    ensures Put(TreeMap(NineKeyStage8(), 8), Some(13), 13) == Success((TreeMap(NineKeyTree(), 9), None))
  {
    assert Find(NineKeyStage8(), 13) == None;
    assert AttachLeaf(NineKeyStage8(), 13, 13) == NineKeyTree();
  }

  lemma NineKeyStep9(m: TreeMap<int>, m': TreeMap<int>, e: seq<(Option<int>, int)>)
    requires m == TreeMap(NineKeyStage8(), 8) && m' == TreeMap(NineKeyTree(), 9)
    requires e != [] && e[0] == (Some(13), 13)
    ensures PutAll(m, e) == PutAll(m', e[1..])
  {
    NineKeyInsert9();
    PutAllStep(m, m', e);
  }

  /** Each suffix of the insertion list starts with the expected entry and
      continues with the next suffix. */
  lemma NineEntriesSuffixes()
    ensures NineEntries()[0..] == NineEntries()
    ensures NineEntries()[0..] != [] && NineEntries()[0..][0] == (Some(8), 8)
            && NineEntries()[0..][1..] == NineEntries()[1..]
    ensures NineEntries()[1..] != [] && NineEntries()[1..][0] == (Some(3), 3)
            && NineEntries()[1..][1..] == NineEntries()[2..]
    ensures NineEntries()[2..] != [] && NineEntries()[2..][0] == (Some(10), 10)
            && NineEntries()[2..][1..] == NineEntries()[3..]
    ensures NineEntries()[3..] != [] && NineEntries()[3..][0] == (Some(1), 1)
            && NineEntries()[3..][1..] == NineEntries()[4..]
    ensures NineEntries()[4..] != [] && NineEntries()[4..][0] == (Some(6), 6)
            && NineEntries()[4..][1..] == NineEntries()[5..]
    ensures NineEntries()[5..] != [] && NineEntries()[5..][0] == (Some(14), 14)
            && NineEntries()[5..][1..] == NineEntries()[6..]
    ensures NineEntries()[6..] != [] && NineEntries()[6..][0] == (Some(4), 4)
            && NineEntries()[6..][1..] == NineEntries()[7..]
    ensures NineEntries()[7..] != [] && NineEntries()[7..][0] == (Some(7), 7)
            && NineEntries()[7..][1..] == NineEntries()[8..]
    ensures NineEntries()[8..] != [] && NineEntries()[8..][0] == (Some(13), 13)
            && NineEntries()[8..][1..] == NineEntries()[9..]
  {
  }

  /** Inserting the nine keys in order builds exactly the demonstration
      tree, with the counter at 9 and no fault. */
  lemma NineKeyBuild()
    ensures PutAll(New(), NineEntries()) == (TreeMap(NineKeyTree(), 9), None)
  {
    NineEntriesSuffixes();
    var m0, e0 := TreeMap(Empty, 0), NineEntries()[0..];
    var m1, e1 := TreeMap(NineKeyStage1(), 1), NineEntries()[1..];
    var m2, e2 := TreeMap(NineKeyStage2(), 2), NineEntries()[2..];
    var m3, e3 := TreeMap(NineKeyStage3(), 3), NineEntries()[3..];
    var m4, e4 := TreeMap(NineKeyStage4(), 4), NineEntries()[4..];
    var m5, e5 := TreeMap(NineKeyStage5(), 5), NineEntries()[5..];
    var m6, e6 := TreeMap(NineKeyStage6(), 6), NineEntries()[6..];
    var m7, e7 := TreeMap(NineKeyStage7(), 7), NineEntries()[7..];
    var m8, e8 := TreeMap(NineKeyStage8(), 8), NineEntries()[8..];
    var m9, e9 := TreeMap(NineKeyTree(), 9), NineEntries()[9..];
    NineKeyStep1(m0, m1, e0);
    NineKeyStep2(m1, m2, e1);
    NineKeyStep3(m2, m3, e2);
    NineKeyStep4(m3, m4, e3);
    NineKeyStep5(m4, m5, e4);
    NineKeyStep6(m5, m6, e5);
    NineKeyStep7(m6, m7, e6);
    NineKeyStep8(m7, m8, e7);
    NineKeyStep9(m8, m9, e8);
  }

  /** The demonstration map satisfies the invariant. */
  lemma NineKeyValid()
    ensures Valid(TreeMap(NineKeyTree(), 9))
  {
    var six := Node(Leaf(4, 4), 6, 6, Leaf(7, 7));
    var three := Node(Leaf(1, 1), 3, 3, six);
    var fourteen := Node(Leaf(13, 13), 14, 14, Empty);
    var ten := Node(Empty, 10, 10, fourteen);
    assert Keys(six) == {4, 6, 7} && IsBST(six);
    assert Keys(three) == {1, 3, 4, 6, 7} && IsBST(three);
    assert Keys(fourteen) == {13, 14} && IsBST(fourteen);
    assert Keys(ten) == {10, 13, 14} && IsBST(ten);
  }

  lemma NineKeyInOrder()
    ensures InOrder(NineKeyTree()) == [1, 3, 4, 6, 7, 8, 10, 13, 14]
  {
  }

  /** The demonstration map lists its keys in ascending order and holds
      nine entries. */
  lemma NineKeyShape()
    ensures KeySet(TreeMap(NineKeyTree(), 9)) == [1, 3, 4, 6, 7, 8, 10, 13, 14]
    ensures SizeOf(TreeMap(NineKeyTree(), 9)) == 9
  {
    NineKeyValid();
    KeySetSorted(TreeMap(NineKeyTree(), 9));
    NineKeyInOrder();
  }

  /** The demonstration map has height 4: 8, 3, 6, then 4 or 7. */
  lemma NineKeyHeight()
    ensures HeightOf(TreeMap(NineKeyTree(), 9)) == 4
  {
  }

  /** The demonstration tree after putting 5: a new leaf right of 4. */
  function TenKeyTree(): Tree<int>
  {
    Node(Node(Leaf(1, 1), 3, 3, Node(Node(Empty, 4, 4, Leaf(5, 5)), 6, 6, Leaf(7, 7))),
         8, 8,
         Node(Empty, 10, 10, Node(Leaf(13, 13), 14, 14, Empty)))
  }

  /** On the demonstration map, putting 5 answers None and counts the new
      key. */
  lemma NineKeyPutFive()
    ensures Put(TreeMap(NineKeyTree(), 9), Some(5), 5) == Success((TreeMap(TenKeyTree(), 10), None))
  {
  }

  lemma TenKeyInOrder()
    ensures InOrder(TenKeyTree()) == [1, 3, 4, 5, 6, 7, 8, 10, 13, 14]
  {
  }

  /** After putting 5, keySet places it between 4 and 6. */
  lemma TenKeyShape()
    ensures KeySet(TreeMap(TenKeyTree(), 10)) == [1, 3, 4, 5, 6, 7, 8, 10, 13, 14]
    ensures SizeOf(TreeMap(TenKeyTree(), 10)) == 10
  {
    NineKeyValid();
    NineKeyPutFive();
    PutCorrect(TreeMap(NineKeyTree(), 9), 5, 5);
    KeySetSorted(TreeMap(TenKeyTree(), 10));
    TenKeyInOrder();
  }

  /** Re-putting a key: the first put answers None, the second the first
      value, the last value wins and the map holds one entry. */
  lemma RepeatedKeyScenario()
    ensures Put(New(), Some(1), 1) == Success((TreeMap(Leaf(1, 1), 1), None))
    ensures Put(TreeMap(Leaf(1, 1), 1), Some(1), 2) == Success((TreeMap(Leaf(1, 2), 1), Some(1)))
    ensures Get(TreeMap(Leaf(1, 2), 1), Some(1)) == Success(Some(2))
  {
  }

  /** On a new map the lookups answer "absent" and keySet is empty, where
      the source's findNode and addKeys dereference the null root. */
  lemma EmptyMapLookups<V>(k: int)
    ensures Get(New<V>(), Some(k)) == Success(None)
    ensures ContainsKey(New<V>(), Some(k)) == Success(false)
    ensures KeySet(New<V>()) == []
    ensures FindNodeAsWritten(New<V>().root, Some(k)) == Failure(NullDereference)
    ensures KeySetAsWritten(New<V>()) == Failure(NullDereference)
  {
  }
}
