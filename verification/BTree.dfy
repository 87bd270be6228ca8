/** Searching the HFS+ catalog: a B-tree on disk of any height, read through one node buffer. */
module BTree {
  import opened Prim
  import opened Names

  datatype Key = Key(parent: u32, name: seq<u16>)
  datatype Entry = Entry(key: Key, child: u32)
  datatype Record = Record(key: Key, data: seq<u8>)
  datatype Node = IndexNode(entries: seq<Entry>) | LeafNode(records: seq<Record>)

  const NO_NODE: u32 := 0xffff_ffff

  // ---------------------------------------------------------------- keys

  /** The order of the catalog: by parent, then by name. */
  function KeyOrder(a: Key, b: Key): int {
    if a.parent < b.parent then -1
    else if a.parent > b.parent then 1
    else Lex(Significant(a.name), Significant(b.name))
  }

  /** A 32-bit difference read as a signed number. */
  function Difference(a: u32, b: u32): int { Signed32(a - b) }

  /** The comparison the search goes by. */
  function CompareKeys(a: Key, b: Key): int {
    var d := Difference(a.parent, b.parent);
    if d == 0 then Lex(Significant(a.name), Significant(b.name)) else d
  }

  function Sign(i: int): int { if i < 0 then -1 else if i > 0 then 1 else 0 }

  predicate Near(a: Key, b: Key) { -0x8000_0000 <= a.parent - b.parent < 0x8000_0000 }

  lemma DifferenceValue(a: u32, b: u32)
    ensures Difference(a, b) == a - b +
              (if a - b < -0x8000_0000 then 0x1_0000_0000 else if a - b >= 0x8000_0000 then -0x1_0000_0000 else 0)
  {
  }

  lemma {:induction false} LexIsASign(a: seq<u16>, b: seq<u16>)
    ensures -1 <= Lex(a, b) <= 1
  {
    if a != [] && b != [] { LexIsASign(a[1..], b[1..]); }
  }

  /** The comparison decides the order of two keys exactly when their parents are less than 2^31
      apart; it is never wrong about equality. */
  lemma CompareIsOrder(a: Key, b: Key)
    ensures Sign(CompareKeys(a, b)) == KeyOrder(a, b) <==> Near(a, b)
    ensures CompareKeys(a, b) == 0 <==> KeyOrder(a, b) == 0
  {
    DifferenceValue(a.parent, b.parent);
    LexIsASign(Significant(a.name), Significant(b.name));
  }

  lemma OrderFlip(a: Key, b: Key)
    ensures KeyOrder(b, a) == -KeyOrder(a, b)
  {
    LexFlip(Significant(a.name), Significant(b.name));
  }

  lemma OrderTransitive(a: Key, b: Key, c: Key)
    requires KeyOrder(a, b) <= 0 && KeyOrder(b, c) <= 0
    ensures KeyOrder(a, c) <= 0
    ensures KeyOrder(a, b) < 0 || KeyOrder(b, c) < 0 ==> KeyOrder(a, c) < 0
  {
    if a.parent == b.parent == c.parent {
      LexTransitive(Significant(a.name), Significant(b.name), Significant(c.name));
    }
  }

  /** Keys are the same under the order if they have one parent and names of the same letters. */
  lemma SameKey(a: Key, b: Key)
    ensures KeyOrder(a, b) == 0 <==> a.parent == b.parent && SameLetters(Visible(a.name), Visible(b.name))
  {
    hide Lex, Significant;
    EqualExactly(a.name, b.name);
  }

  method Compare(a: Key, b: Key) returns (r: int)
    ensures r == CompareKeys(a, b)
  {
    r := Difference(a.parent, b.parent);
    if r == 0 { r := CompareNames(a.name, b.name); }
  }

  // ---------------------------------------------------------------- leaves

  ghost predicate SortedLeaf(records: seq<Record>) {
    forall i, j :: 0 <= i < j < |records| ==> KeyOrder(records[i].key, records[j].key) < 0
  }

  /** Where the scan of a leaf ends: at the first record that is not below the key, if equal. */
  function LeafSearch(records: seq<Record>, key: Key, from: nat): Option<nat>
    requires from <= |records|
    decreases |records| - from
  {
    if from == |records| then None
    else
      var c := CompareKeys(key, records[from].key);
      if c == 0 then Some(from) else if c < 0 then None else LeafSearch(records, key, from + 1)
  }

  method SearchLeafNode(records: seq<Record>, key: Key) returns (r: Option<nat>)
    ensures r == LeafSearch(records, key, 0)
  {
    var i := 0;
    while i < |records|
      invariant i <= |records| && LeafSearch(records, key, 0) == LeafSearch(records, key, i)
    {
      var c := Compare(key, records[i].key);
      if c == 0 { return Some(i); }
      if c < 0 { break; }
      i := i + 1;
    }
    return None;
  }

  /** What is found is equal to the key. */
  lemma {:induction false} LeafSound(records: seq<Record>, key: Key, from: nat)
    requires from <= |records| && LeafSearch(records, key, from).Some?
    ensures var k := LeafSearch(records, key, from).value;
            from <= k < |records| && KeyOrder(key, records[k].key) == 0
    decreases |records| - from
  {
    CompareIsOrder(key, records[from].key);
    if CompareKeys(key, records[from].key) > 0 { LeafSound(records, key, from + 1); }
  }

  /** A sorted leaf that holds the key at k gives it up exactly when the first record's parent is
      less than 2^31 below the key's. */
  lemma LeafFindsExactly(records: seq<Record>, key: Key, k: nat)
    requires SortedLeaf(records) && k < |records| && KeyOrder(key, records[k].key) == 0
    ensures LeafSearch(records, key, 0) == Some(k) <==> key.parent - records[0].key.parent < 0x8000_0000
  {
    CompareIsOrder(key, records[0].key);
    if k > 0 {
      OrderFlip(key, records[k].key);
      OrderTransitive(records[0].key, records[k].key, key);
      OrderFlip(records[0].key, key);
    }
    if key.parent - records[0].key.parent < 0x8000_0000 { LeafReaches(records, key, k, 0); }
  }

  lemma {:induction false} LeafReaches(records: seq<Record>, key: Key, k: nat, from: nat)
    requires SortedLeaf(records) && from <= k < |records| && KeyOrder(key, records[k].key) == 0
    requires key.parent - records[from].key.parent < 0x8000_0000
    ensures LeafSearch(records, key, from) == Some(k)
    decreases k - from
  {
    CompareIsOrder(key, records[from].key);
    if from < k {
      OrderFlip(key, records[k].key);
      OrderTransitive(records[from].key, records[k].key, key);
      OrderFlip(records[from].key, key);
      assert KeyOrder(records[from].key, records[from + 1].key) < 0;
      LeafReaches(records, key, k, from + 1);
    }
  }

  /** A present record that is missed: two parents 2^31 apart in one leaf. */
  lemma LeafCanMiss()
    ensures var near, far := Key(2, []), Key(0x8000_0002, []);
            var leaf := [Record(near, []), Record(far, [])];
            SortedLeaf(leaf) && leaf[1].key == far && LeafSearch(leaf, far, 0) == None
  {
    assert CompareKeys(Key(0x8000_0002, []), Key(2, [])) < 0;
  }

  // ---------------------------------------------------------------- trees

  /** The records of the tree of height h under node `id`. */
  ghost function Contents(disk: u32 -> Node, id: u32, h: nat): set<Record>
    decreases h, 0
  {
    match disk(id)
    case LeafNode(records) => set r | r in records
    case IndexNode(entries) => if h == 0 then {} else Below(disk, entries, h - 1)
  }

  /** The records of the trees of height h under the entries of an index node. */
  ghost function Below(disk: u32 -> Node, entries: seq<Entry>, h: nat): set<Record>
    decreases h, 1
  {
    set i, r | 0 <= i < |entries| && r in Contents(disk, entries[i].child, h) :: r
  }

  /** A record under an index node is under one of its children, and the other way round. */
  lemma ChildOf(disk: u32 -> Node, id: u32, h: nat, r: Record) returns (i: nat)
    requires h > 0 && disk(id).IndexNode? && r in Contents(disk, id, h)
    ensures i < |disk(id).entries| && r in Contents(disk, disk(id).entries[i].child, h - 1)
  {
    var entries := disk(id).entries;
    assert Contents(disk, id, h) == Below(disk, entries, h - 1);
    i :| 0 <= i < |entries| && r in Contents(disk, entries[i].child, h - 1);
  }

  lemma InParent(disk: u32 -> Node, id: u32, h: nat, i: nat, r: Record)
    requires h > 0 && disk(id).IndexNode? && i < |disk(id).entries| && r in Contents(disk, disk(id).entries[i].child, h - 1)
    ensures r in Contents(disk, id, h)
  {
    assert Contents(disk, id, h) == Below(disk, disk(id).entries, h - 1);
  }

  ghost predicate SortedEntries(entries: seq<Entry>) {
    forall i, j :: 0 <= i < j < |entries| ==> KeyOrder(entries[i].key, entries[j].key) < 0
  }

  /** The separators part the records: none in subtree i is below separator i, and none in an
      earlier subtree reaches it. Separators equal to the least key of their subtree do so. */
  ghost predicate Parts(disk: u32 -> Node, entries: seq<Entry>, h: nat) {
    && (forall i, r :: 0 <= i < |entries| && r in Contents(disk, entries[i].child, h) ==>
          KeyOrder(entries[i].key, r.key) <= 0)
    && (forall i, j, r :: 0 <= i < j < |entries| && r in Contents(disk, entries[i].child, h) ==>
          KeyOrder(r.key, entries[j].key) < 0)
  }

  /** A well-formed tree of height h. */
  ghost predicate Tree(disk: u32 -> Node, id: u32, h: nat)
    decreases h
  {
    && id != 0 && id != NO_NODE
    && match disk(id)
       case LeafNode(records) => h == 0 && SortedLeaf(records)
       case IndexNode(entries) =>
         && h > 0 && |entries| > 0 && SortedEntries(entries) && Parts(disk, entries, h - 1)
         && forall i :: 0 <= i < |entries| ==> Tree(disk, entries[i].child, h - 1)
  }

  /** Every key the search may meet has a parent less than 2^31 away. */
  ghost predicate AllNear(disk: u32 -> Node, id: u32, h: nat, key: Key)
    decreases h
  {
    match disk(id)
    case LeafNode(records) => forall r :: r in records ==> Near(key, r.key)
    case IndexNode(entries) =>
      h > 0 ==> forall i :: 0 <= i < |entries| ==> Near(key, entries[i].key) && AllNear(disk, entries[i].child, h - 1, key)
  }

  /** `data` is what the catalog holds under the key. */
  ghost predicate Holds(disk: u32 -> Node, root: u32, h: nat, key: Key, r: Record) {
    root != 0 && r in Contents(disk, root, h) && KeyOrder(key, r.key) == 0
  }

  /** The same, told from the characters of the names. */
  ghost predicate HoldsName(disk: u32 -> Node, root: u32, h: nat, key: Key, r: Record) {
    && root != 0 && r in Contents(disk, root, h) && r.key.parent == key.parent
    && SameLetters(Visible(key.name), Visible(r.key.name))
  }

  lemma HoldsByName(disk: u32 -> Node, root: u32, h: nat, key: Key, r: Record)
    ensures Holds(disk, root, h, key, r) <==> HoldsName(disk, root, h, key, r)
  {
    hide KeyOrder, Contents;
    SameKey(key, r.key);
  }

  ghost predicate Lacks(disk: u32 -> Node, root: u32, h: nat, key: Key) {
    forall r :: !Holds(disk, root, h, key, r)
  }

  lemma LacksByName(disk: u32 -> Node, root: u32, h: nat, key: Key)
    ensures Lacks(disk, root, h, key) <==> !exists r :: HoldsName(disk, root, h, key, r)
  {
    hide Holds, HoldsName;
    if r :| Holds(disk, root, h, key, r) { HoldsByName(disk, root, h, key, r); }
    if r :| HoldsName(disk, root, h, key, r) { HoldsByName(disk, root, h, key, r); }
  }

  /** The child whose subtree the key belongs to. */
  predicate Descends(entries: seq<Entry>, key: Key, c: nat) {
    && c < |entries|
    && (c > 0 ==> KeyOrder(key, entries[c].key) >= 0)
    && (c + 1 < |entries| ==> KeyOrder(key, entries[c + 1].key) < 0)
  }

  /** A key that is in the tree is in the subtree it parts to, and in no other. */
  lemma OnlyThere(disk: u32 -> Node, entries: seq<Entry>, h: nat, key: Key, c: nat, i: nat, r: Record)
    requires SortedEntries(entries) && Parts(disk, entries, h) && Descends(entries, key, c)
    requires i < |entries| && r in Contents(disk, entries[i].child, h) && KeyOrder(key, r.key) == 0
    ensures i == c
  {
    hide KeyOrder, Contents;
    OrderFlip(key, r.key);
    if i < c {
      assert KeyOrder(r.key, entries[c].key) < 0;
      OrderTransitive(key, r.key, entries[c].key);
    } else if i > c {
      assert i > c + 1 ==> KeyOrder(entries[c + 1].key, entries[i].key) < 0;
      if i > c + 1 { OrderTransitive(key, entries[c + 1].key, entries[i].key); }
      OrderTransitive(key, entries[i].key, r.key);
    }
  }

  lemma DescentLosesNothing(disk: u32 -> Node, id: u32, h: nat, key: Key, c: nat)
    requires h > 0 && Tree(disk, id, h) && Descends(disk(id).entries, key, c)
    ensures forall r :: Holds(disk, id, h, key, r) <==> Holds(disk, disk(id).entries[c].child, h - 1, key, r)
  {
    hide KeyOrder, Contents;
    var entries := disk(id).entries;
    assert Tree(disk, entries[c].child, h - 1);
    forall r | Holds(disk, id, h, key, r)
      ensures Holds(disk, entries[c].child, h - 1, key, r)
    {
      var i := ChildOf(disk, id, h, r);
      OnlyThere(disk, entries, h - 1, key, c, i, r);
    }
    forall r | Holds(disk, entries[c].child, h - 1, key, r)
      ensures Holds(disk, id, h, key, r)
    {
      InParent(disk, id, h, c, r);
    }
  }

  lemma SameKeySameRecord(a: Record, b: Record, key: Key)
    requires KeyOrder(key, a.key) == 0 && KeyOrder(key, b.key) == 0
    ensures KeyOrder(a.key, b.key) == 0
  {
    OrderFlip(key, a.key);
    OrderTransitive(a.key, key, b.key);
    OrderFlip(key, b.key);
    OrderTransitive(b.key, key, a.key);
    OrderFlip(a.key, b.key);
  }

  /** Two subtrees of an index node share no key. */
  lemma OneSubtree(disk: u32 -> Node, entries: seq<Entry>, h: nat, i: nat, j: nat, a: Record, b: Record)
    requires i < j < |entries| && Parts(disk, entries, h)
    requires a in Contents(disk, entries[i].child, h) && b in Contents(disk, entries[j].child, h)
    ensures KeyOrder(a.key, b.key) < 0
  {
    OrderTransitive(a.key, entries[j].key, b.key);
  }

  lemma OneChild(disk: u32 -> Node, entries: seq<Entry>, h: nat, i: nat, j: nat, a: Record, b: Record)
    requires i < |entries| && j < |entries| && Parts(disk, entries, h) && KeyOrder(a.key, b.key) == 0
    requires a in Contents(disk, entries[i].child, h) && b in Contents(disk, entries[j].child, h)
    ensures i == j
  {
    OrderFlip(a.key, b.key);
    if i < j { OneSubtree(disk, entries, h, i, j, a, b); }
    if j < i { OneSubtree(disk, entries, h, j, i, b, a); }
  }

  lemma OnePlace(records: seq<Record>, a: Record, b: Record)
    requires SortedLeaf(records) && a in records && b in records && KeyOrder(a.key, b.key) == 0
    ensures a == b
  {
    var i :| 0 <= i < |records| && records[i] == a;
    var j :| 0 <= j < |records| && records[j] == b;
    OrderFlip(a.key, b.key);
  }

  lemma SameChild(disk: u32 -> Node, id: u32, h: nat, a: Record, b: Record) returns (child: u32)
    requires h > 0 && Tree(disk, id, h) && KeyOrder(a.key, b.key) == 0
    requires a in Contents(disk, id, h) && b in Contents(disk, id, h)
    ensures Tree(disk, child, h - 1) && a in Contents(disk, child, h - 1) && b in Contents(disk, child, h - 1)
  {
    var i := ChildOf(disk, id, h, a);
    var j := ChildOf(disk, id, h, b);
    OneChild(disk, disk(id).entries, h - 1, i, j, a, b);
    child := disk(id).entries[i].child;
  }

  lemma {:induction false} OneRecord(disk: u32 -> Node, id: u32, h: nat, a: Record, b: Record)
    requires Tree(disk, id, h) && a in Contents(disk, id, h) && b in Contents(disk, id, h) && KeyOrder(a.key, b.key) == 0
    ensures a == b
    decreases h
  {
    if h == 0 {
      OnePlace(disk(id).records, a, b);
    } else {
      var child := SameChild(disk, id, h, a, b);
      OneRecord(disk, child, h - 1, a, b);
    }
  }

  /** A well-formed tree is a map: no two records answer to one key. */
  lemma OneRecordPerKey(disk: u32 -> Node, root: u32, h: nat, key: Key, a: Record, b: Record)
    requires Tree(disk, root, h) && Holds(disk, root, h, key, a) && Holds(disk, root, h, key, b)
    ensures a == b
  {
    SameKeySameRecord(a, b, key);
    OneRecord(disk, root, h, a, b);
  }

  // ---------------------------------------------------------------- index nodes

  /** The child a key belongs to. */
  function TrueChild(entries: seq<Entry>, key: Key): (c: nat)
    requires entries != []
    ensures Descends(entries, key, c)
  {
    var n := |entries| - 1;
    if n == 0 then 0
    else if KeyOrder(key, entries[n].key) >= 0 then n
    else TrueChild(entries[..n], key)
  }

  /** Where the scan of an index node ends: before the first separator it takes to be above the key. */
  function IndexSearch(entries: seq<Entry>, key: Key, from: nat): (c: nat)
    requires from <= |entries| && entries != []
    ensures c < |entries|
    decreases |entries| - from
  {
    if from == |entries| then from - 1
    else if CompareKeys(key, entries[from].key) < 0 then (if from == 0 then 0 else from - 1)
    else IndexSearch(entries, key, from + 1)
  }

  method SearchIndexNode(entries: seq<Entry>, key: Key) returns (next: u32)
    requires forall i :: 0 <= i < |entries| ==> entries[i].child != 0
    ensures next == if entries == [] then 0 else entries[IndexSearch(entries, key, 0)].child
  {
    hide CompareKeys;
    next := 0;
    var i := 0;
    while i < |entries|
      invariant i <= |entries|
      invariant i == 0 ==> next == 0
      invariant i > 0 ==> next == entries[i - 1].child
      invariant entries != [] ==> IndexSearch(entries, key, 0) == IndexSearch(entries, key, i)
    {
      var d := Compare(key, entries[i].key);
      if d < 0 {
        if next == 0 { next := entries[i].child; }
        return;
      }
      next := entries[i].child;
      i := i + 1;
    }
  }

  function Ahead(a: Key, b: Key): int { a.parent - b.parent }

  /** The comparison says "below" for keys that are, less than 2^31 away, and for keys 2^31 or more above. */
  lemma CompareNegative(a: Key, b: Key)
    ensures CompareKeys(a, b) < 0 <==>
            (KeyOrder(a, b) < 0 && Ahead(a, b) >= -0x8000_0000) || Ahead(a, b) >= 0x8000_0000
    ensures KeyOrder(a, b) < 0 ==> Ahead(a, b) <= 0
    ensures KeyOrder(a, b) >= 0 ==> Ahead(a, b) >= 0
  {
    hide Lex, Significant;
    DifferenceValue(a.parent, b.parent);
  }

  lemma ParentsRise(entries: seq<Entry>, key: Key, i: nat, j: nat)
    requires SortedEntries(entries) && i <= j < |entries|
    ensures Ahead(key, entries[j].key) <= Ahead(key, entries[i].key)
  {
    hide Lex, Significant;
    assert i < j ==> KeyOrder(entries[i].key, entries[j].key) < 0;
  }

  lemma {:induction false} ScanPast(entries: seq<Entry>, key: Key, from: nat, end: nat)
    requires from <= end <= |entries| && entries != []
    requires forall i :: from <= i < end ==> CompareKeys(key, entries[i].key) >= 0
    ensures IndexSearch(entries, key, from) == IndexSearch(entries, key, end)
    decreases end - from
  {
    if from < end { ScanPast(entries, key, from + 1, end); }
  }

  /** The scan ends at child c, the one the key belongs to: the first separator is not 2^31 or more
      below the key (unless c is the first child), and the separator that should stop the scan, if
      there is one, is not more than 2^31 above it. */
  predicate Right(entries: seq<Entry>, key: Key, c: nat)
    requires c < |entries|
  {
    var stop := if KeyOrder(key, entries[0].key) < 0 then 0 else c + 1;
    && (c == 0 || Ahead(key, entries[0].key) < 0x8000_0000)
    && (c + 1 == |entries| || stop >= |entries| || Ahead(key, entries[stop].key) >= -0x8000_0000)
  }

  lemma IndexFindsExactly(entries: seq<Entry>, key: Key, c: nat)
    requires SortedEntries(entries) && Descends(entries, key, c)
    ensures IndexSearch(entries, key, 0) == c <==> Right(entries, key, c)
  {
    hide KeyOrder, CompareKeys, SortedEntries;
    CompareNegative(key, entries[0].key);
    if KeyOrder(key, entries[0].key) < 0 {
      NoneBelow(entries, key, c);
    } else if Ahead(key, entries[0].key) < 0x8000_0000 {
      SomeBelow(entries, key, c);
    } else if c + 1 < |entries| {
      CompareNegative(key, entries[c + 1].key);
    }
  }

  lemma NoneBelow(entries: seq<Entry>, key: Key, c: nat)
    requires SortedEntries(entries) && Descends(entries, key, c) && KeyOrder(key, entries[0].key) < 0
    ensures IndexSearch(entries, key, 0) == c <==> Right(entries, key, c)
  {
    hide KeyOrder, CompareKeys;
    if c > 0 {
      assert KeyOrder(entries[0].key, entries[c].key) < 0;
      OrderTransitive(key, entries[0].key, entries[c].key);
    }
    CompareNegative(key, entries[0].key);
    if Ahead(key, entries[0].key) < -0x8000_0000 { WrapsToEnd(entries, key, 0); }
  }

  /** From a separator more than 2^31 above the key on, the scan runs to the last child. */
  lemma WrapsToEnd(entries: seq<Entry>, key: Key, from: nat)
    requires SortedEntries(entries) && from < |entries| && Ahead(key, entries[from].key) < -0x8000_0000
    ensures IndexSearch(entries, key, from) == |entries| - 1
  {
    hide KeyOrder, CompareKeys, SortedEntries;
    forall i | from <= i < |entries|
      ensures CompareKeys(key, entries[i].key) >= 0
    {
      ParentsRise(entries, key, from, i);
      CompareNegative(key, entries[i].key);
    }
    ScanPast(entries, key, from, |entries|);
  }

  lemma SomeBelow(entries: seq<Entry>, key: Key, c: nat)
    requires SortedEntries(entries) && Descends(entries, key, c)
    requires KeyOrder(key, entries[0].key) >= 0 && Ahead(key, entries[0].key) < 0x8000_0000
    ensures IndexSearch(entries, key, 0) == c <==> Right(entries, key, c)
  {
    hide KeyOrder, CompareKeys;
    forall i | 0 <= i < c + 1
      ensures CompareKeys(key, entries[i].key) >= 0
    {
      assert i < c ==> KeyOrder(entries[i].key, entries[c].key) < 0;
      ParentsRise(entries, key, 0, i);
      if i < c { AboveEarlier(entries[i].key, entries[c].key, key); }
      CompareNegative(key, entries[i].key);
    }
    ScanPast(entries, key, 0, c + 1);
    if c + 1 < |entries| {
      CompareNegative(key, entries[c + 1].key);
      if Ahead(key, entries[c + 1].key) < -0x8000_0000 { WrapsToEnd(entries, key, c + 1); }
    }
  }

  lemma AboveEarlier(a: Key, b: Key, key: Key)
    requires KeyOrder(a, b) < 0 && KeyOrder(key, b) >= 0
    ensures KeyOrder(key, a) >= 0
  {
    OrderFlip(key, b);
    OrderTransitive(a, b, key);
    OrderFlip(a, key);
  }

  // ---------------------------------------------------------------- when a search succeeds

  /** On the way from a node to the leaf a key belongs to, every scan goes right. */
  ghost predicate Reaches(disk: u32 -> Node, id: u32, h: nat, key: Key)
    decreases h
  {
    match disk(id)
    case LeafNode(records) => records == [] || Ahead(key, records[0].key) < 0x8000_0000
    case IndexNode(entries) =>
      h > 0 && entries != [] ==>
        var c := TrueChild(entries, key);
        Right(entries, key, c) && Reaches(disk, entries[c].child, h - 1, key)
  }

  /** Parents less than 2^31 away are enough. */
  lemma {:induction false} NearReaches(disk: u32 -> Node, id: u32, h: nat, key: Key)
    requires Tree(disk, id, h) && AllNear(disk, id, h, key)
    ensures Reaches(disk, id, h, key)
    decreases h
  {
    hide KeyOrder;
    if h > 0 {
      var entries := disk(id).entries;
      var c := TrueChild(entries, key);
      NearReaches(disk, entries[c].child, h - 1, key);
    } else {
      var records := disk(id).records;
      assert records != [] ==> records[0] in records;
    }
  }

  lemma LeafAnswers(disk: u32 -> Node, id: u32, key: Key)
    requires Tree(disk, id, 0)
    ensures disk(id).LeafNode?
    ensures var found := LeafSearch(disk(id).records, key, 0);
            && (found.None? ==> !Reaches(disk, id, 0, key) || Lacks(disk, id, 0, key))
            && (found.Some? ==>
                  && found.value < |disk(id).records| && Holds(disk, id, 0, key, disk(id).records[found.value])
                  && Reaches(disk, id, 0, key))
  {
    hide KeyOrder;
    var records := disk(id).records;
    var found := LeafSearch(records, key, 0);
    if found.Some? {
      LeafSound(records, key, 0);
      FoundUnique(records, key, found.value);
    } else if Reaches(disk, id, 0, key) {
      forall r | Holds(disk, id, 0, key, r)
        ensures false
      {
        var k :| 0 <= k < |records| && records[k] == r;
        LeafFindsExactly(records, key, k);
      }
    }
  }

  lemma FoundUnique(records: seq<Record>, key: Key, k: nat)
    requires SortedLeaf(records) && LeafSearch(records, key, 0) == Some(k)
    ensures k < |records| && Ahead(key, records[0].key) < 0x8000_0000
  {
    LeafSound(records, key, 0);
    LeafFindsExactly(records, key, k);
  }

  /** A scan that goes to another child than the key's finds nothing there. */
  lemma NothingElsewhere(disk: u32 -> Node, id: u32, h: nat, key: Key, i: nat)
    requires h > 0 && Tree(disk, id, h) && i < |disk(id).entries| && i != TrueChild(disk(id).entries, key)
    ensures Lacks(disk, disk(id).entries[i].child, h - 1, key)
  {
    hide KeyOrder, Contents;
    var entries, below := disk(id).entries, h - 1;
    forall r | Holds(disk, entries[i].child, below, key, r)
      ensures false
    {
      OnlyThere(disk, entries, h - 1, key, TrueChild(entries, key), i, r);
    }
  }

  lemma LacksAlike(disk: u32 -> Node, id: u32, h: nat, child: u32, below: nat, key: Key)
    requires forall r :: Holds(disk, id, h, key, r) <==> Holds(disk, child, below, key, r)
    ensures Lacks(disk, id, h, key) <==> Lacks(disk, child, below, key)
  {
    hide KeyOrder, Contents;
  }

  /** A node holds the key and the search reaches it, iff that is so of the child it descends to. */
  lemma DescentAnswers(disk: u32 -> Node, id: u32, h: nat, key: Key)
    requires h > 0 && Tree(disk, id, h)
    ensures disk(id).IndexNode? && disk(id).entries != []
    ensures var i := IndexSearch(disk(id).entries, key, 0);
            var next := disk(id).entries[i].child;
            && Tree(disk, next, h - 1)
            && (Found(disk, id, h, key) <==> Found(disk, next, h - 1, key))
            && (Found(disk, id, h, key) ==> forall r :: Holds(disk, id, h, key, r) <==> Holds(disk, next, h - 1, key, r))
  {
    hide KeyOrder, Contents, Right, SortedEntries, Parts;
    var entries := disk(id).entries;
    var i, c := IndexSearch(entries, key, 0), TrueChild(entries, key);
    var child := entries[c].child;
    IndexFindsExactly(entries, key, c);
    DescentLosesNothing(disk, id, h, key, c);
    assert Reaches(disk, id, h, key) <==> i == c && Reaches(disk, child, h - 1, key);
    LacksAlike(disk, id, h, child, h - 1, key);
    if i != c { NothingElsewhere(disk, id, h, key, i); }
  }

  /** The catalog holds the key and every scan on the way to it goes right. */
  ghost predicate Found(disk: u32 -> Node, id: u32, h: nat, key: Key) {
    Reaches(disk, id, h, key) && !Lacks(disk, id, h, key)
  }

  // ---------------------------------------------------------------- the node buffer

  /** The reader of one catalog file. The buffer keeps its node after it is released. */
  class Catalog {
    const disk: u32 -> Node
    const root: u32
    var buffer: Node
    var bufferId: u32
    var inUse: bool

    ghost predicate Valid() reads this { bufferId == NO_NODE || buffer == disk(bufferId) }

    ghost predicate InBuffer(k: nat) reads this { buffer.LeafNode? && k < |buffer.records| }

    constructor (disk: u32 -> Node, root: u32)
      ensures Valid() && !inUse && this.disk == disk && this.root == root
    {
      this.disk, this.root := disk, root;
      buffer, bufferId, inUse := LeafNode([]), NO_NODE, false;
    }

    /** Loads a node unless it is in the buffer already; fails while a node is open. */
    method GetNode(id: u32) returns (ok: bool)
      requires Valid()
      modifies this
      ensures Valid() && inUse
      ensures ok == !old(inUse)
      ensures ok && id != NO_NODE ==> bufferId == id && buffer == disk(id)
      ensures !ok ==> buffer == old(buffer) && bufferId == old(bufferId)
    {
      if inUse { return false; }
      inUse := true;
      if bufferId != id {
        buffer := disk(id);
        bufferId := id;
      }
      return true;
    }

    method ReleaseNode()
      modifies this`inUse
      ensures !inUse
    {
      inUse := false;
    }

    /** Finds the record of a key, as a place in the node that is left in the buffer, exactly when the
        subtree holds it and the scans on the way go right; never opens a node while another is
        open. */
    method SearchNode(id: u32, key: Key, ghost h: nat) returns (found: Option<nat>)
      requires Valid() && !inUse
      requires id == 0 || Tree(disk, id, h)
      modifies this
      ensures Valid() && !inUse
      ensures found.Some? <==> id != 0 && Found(disk, id, h, key)
      ensures found.Some? ==> InBuffer(found.value)
      ensures found.Some? ==> forall r :: Holds(disk, id, h, key, r) <==> r == buffer.records[found.value]
      decreases if id == 0 then 0 else h + 1
    {
      hide Reaches, KeyOrder, Contents, SortedEntries, SortedLeaf, Parts, LeafSearch, IndexSearch;
      var ok := GetNode(id);
      assert ok;
      found := None;
      if id != 0 {
        if buffer.IndexNode? {
          ChildrenNotZero(disk, id, h);
          var next := SearchIndexNode(buffer.entries, key);
          ReleaseNode();
          DescentAnswers(disk, id, h, key);
          found := SearchNode(next, key, h - 1);
          return;
        } else {
          found := SearchLeafNode(buffer.records, key);
          LeafAnswers(disk, id, key);
          if found.Some? {
            ghost var hit := buffer.records[found.value];
            forall r | Holds(disk, id, h, key, r)
              ensures r == hit
            {
              OneRecordPerKey(disk, id, h, key, r, hit);
            }
          }
        }
      }
      ReleaseNode();
    }

    /** A search from the root answers with the one record of the key iff the catalog holds it and the
        scans on the way go right; parents less than 2^31 away are enough for that. */
    method FindKey(key: Key, ghost h: nat) returns (found: Option<nat>)
      requires Valid() && !inUse
      requires root == 0 || Tree(disk, root, h)
      modifies this
      ensures Valid() && !inUse
      ensures found.Some? <==> root != 0 && Found(disk, root, h, key)
      ensures root == 0 || AllNear(disk, root, h, key) ==> (found.Some? <==> exists r :: HoldsName(disk, root, h, key, r))
      ensures found.Some? ==> InBuffer(found.value) && HoldsName(disk, root, h, key, buffer.records[found.value])
    {
      hide Reaches, KeyOrder, Contents, AllNear, Tree, Holds;
      found := SearchNode(root, key, h);
      assert found.Some? ==> Holds(disk, root, h, key, buffer.records[found.value]);
      LacksByName(disk, root, h, key);
      if found.Some? { HoldsByName(disk, root, h, key, buffer.records[found.value]); }
      if root != 0 && AllNear(disk, root, h, key) { NearReaches(disk, root, h, key); }
    }
  }

  lemma ChildrenNotZero(disk: u32 -> Node, id: u32, h: nat)
    requires Tree(disk, id, h) && disk(id).IndexNode?
    ensures h > 0
    ensures forall i :: 0 <= i < |disk(id).entries| ==> disk(id).entries[i].child != 0
  {
    hide SortedEntries, Parts;
    var entries := disk(id).entries;
    assert forall i :: 0 <= i < |entries| ==> Tree(disk, entries[i].child, h - 1);
  }
}
