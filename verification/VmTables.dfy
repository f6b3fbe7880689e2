/** The four levels of shadow page tables as one radix tree, and its reading as a
    flat map from pages to leaf entries. */
module VmTables {
  import opened Bytes
  import opened Wrappers
  import opened PageEntry

  type Entries = s: seq<u64> | |s| == TABLE_ENTRIES witness seq(512, _ => 0)

  datatype Page = Page(phys: u64, entries: Entries)

  /** A table and the indices that lead to it from the root. */
  datatype Table = Table(key: seq<nat>, page: Page)

  function EmptyTable(key: seq<nat>, phys: u64): Table
  {
    Table(key, Page(phys, seq(TABLE_ENTRIES, _ => 0)))
  }

  datatype Space = Space(l4: seq<Table>, l3: seq<Table>, l2: seq<Table>, l1: seq<Table>)

  // ----- Finding tables, by key as when mapping and by address as when walking

  function FindKey(tables: seq<Table>, key: seq<nat>): (i: nat)
    ensures i <= |tables|
    ensures i < |tables| ==> tables[i].key == key
    ensures forall k :: 0 <= k < i ==> tables[k].key != key
  {
    if tables == [] then 0
    else if tables[0].key == key then 0
    else
      var i := FindKey(tables[1..], key);
      assert forall k :: 0 < k < i + 1 ==> tables[k] == tables[1..][k - 1];
      i + 1
  }

  function FindPhys(tables: seq<Table>, phys: u64): (i: nat)
    ensures i <= |tables|
    ensures i < |tables| ==> tables[i].page.phys == phys
    ensures forall k :: 0 <= k < i ==> tables[k].page.phys != phys
  {
    if tables == [] then 0
    else if tables[0].page.phys == phys then 0
    else
      var i := FindPhys(tables[1..], phys);
      assert forall k :: 0 < k < i + 1 ==> tables[k] == tables[1..][k - 1];
      i + 1
  }

  /** The entry an address walk finds: follow the addresses down from `tables[at]`. */
  function Descend(tables: seq<Table>, at: nat, index: nat, below: seq<Table>): (i: nat)
    requires at < |tables| && index < TABLE_ENTRIES
    ensures i <= |below|
  {
    var e := tables[at].page.entries[index];
    if !Present(e) then |below| else FindPhys(below, Address(e))
  }

  function Walk(s: Space, virt: u64): (leaf: Option<u64>)
    requires |s.l4| == 1
  {
    var i3 := Descend(s.l4, 0, L4Index(virt), s.l3);
    if i3 == |s.l3| then None
    else
      var i2 := Descend(s.l3, i3, L3Index(virt), s.l2);
      if i2 == |s.l2| then None
      else
        var i1 := Descend(s.l2, i2, L2Index(virt), s.l1);
        if i1 == |s.l1| then None
        else
          var e := s.l1[i1].page.entries[L1Index(virt)];
          if Present(e) then Some(e) else None
  }

  function Translate(s: Space, virt: u64): (phys: Option<u64>)
    requires |s.l4| == 1
  {
    match Walk(s, virt)
    case None => None
    case Some(e) => Some(Address(e) + virt % PAGE_SIZE)
  }

  // ----- The flat reading

  /** The leaf entry stored under four indices, looked up by key. */
  function Leaf(l1: seq<Table>, indices: seq<nat>): (leaf: Option<u64>)
    requires |indices| == 4 && indices[3] < TABLE_ENTRIES
  {
    var i := FindKey(l1, indices[..3]);
    if i == |l1| then None
    else if Present(l1[i].page.entries[indices[3]]) then Some(l1[i].page.entries[indices[3]])
    else None
  }

  // ----- The invariant of the tree

  /** Keys and addresses are unique, and addresses survive being stored in an entry. */
  ghost predicate Level(tables: seq<Table>, depth: nat)
  {
    && (forall i :: 0 <= i < |tables| ==> |tables[i].key| == depth && Frame(tables[i].page.phys))
    && (forall i, j :: 0 <= i < j < |tables| ==> tables[i].key != tables[j].key)
    && (forall i, j :: 0 <= i < j < |tables| ==> tables[i].page.phys != tables[j].page.phys)
  }

  /** The tables of a level are exactly those the level above points to. */
  ghost predicate Linked(above: seq<Table>, below: seq<Table>)
  {
    && (forall p, x :: 0 <= p < |above| && 0 <= x < TABLE_ENTRIES ==> LinkedAt(above[p], x, below))
    && (forall c :: 0 <= c < |below| ==> HasParent(above, below[c].key))
  }

  ghost predicate LinkedAt(parent: Table, x: nat, below: seq<Table>)
    requires x < TABLE_ENTRIES
  {
    var c := FindKey(below, parent.key + [x]);
    var e := parent.page.entries[x];
    if c == |below| then e == 0 else e == TableEntry(below[c].page.phys)
  }

  ghost predicate HasParent(above: seq<Table>, key: seq<nat>)
  {
    |key| > 0 && key[|key| - 1] < TABLE_ENTRIES && FindKey(above, key[..|key| - 1]) < |above|
  }

  ghost predicate Tree(s: Space)
  {
    && |s.l4| == 1 && s.l4[0].key == []
    && Level(s.l4, 0) && Level(s.l3, 1) && Level(s.l2, 2) && Level(s.l1, 3)
    && Linked(s.l4, s.l3) && Linked(s.l3, s.l2) && Linked(s.l2, s.l1)
  }

  lemma FindKeyIs(tables: seq<Table>, depth: nat, i: nat)
    requires Level(tables, depth) && i < |tables|
    ensures FindKey(tables, tables[i].key) == i
  {
  }

  lemma FindPhysIs(tables: seq<Table>, depth: nat, i: nat)
    requires Level(tables, depth) && i < |tables|
    ensures FindPhys(tables, tables[i].page.phys) == i
  {
  }

  /** One step down by address finds the table that the key names. */
  lemma DescendIsFindKey(above: seq<Table>, at: nat, x: nat, below: seq<Table>, depth: nat)
    requires Linked(above, below) && Level(below, depth) && at < |above| && x < TABLE_ENTRIES
    ensures Descend(above, at, x, below) == FindKey(below, above[at].key + [x])
  {
    hide MakeEntry, Address, Present, FindKey, FindPhys;
    assert LinkedAt(above[at], x, below);
    var c := FindKey(below, above[at].key + [x]);
    if c < |below| {
      var phys := below[c].page.phys;
      EntryParts(phys, true, false, true);
      MaskedIff(phys);
      FindPhysIs(below, depth, c);
    } else {
      assert !Present(0) by { ZeroAbsent(); }
    }
  }

  lemma ZeroAbsent()
    ensures !Present(0)
  {
  }

  lemma ParentOfKey(above: seq<Table>, below: seq<Table>, key: seq<nat>)
    requires Linked(above, below) && |key| > 0 && FindKey(below, key) < |below|
    ensures FindKey(above, key[..|key| - 1]) < |above|
  {
    hide FindKey, LinkedAt;
    var c := FindKey(below, key);
    assert HasParent(above, below[c].key);
  }

  /** Walking by address reads exactly the flat map. */
  lemma WalkIsLeaf(s: Space, virt: u64)
    requires Tree(s)
    ensures Walk(s, virt) == Leaf(s.l1, Indices(virt))
  {
    hide FindKey, FindPhys, Descend, Linked, Level, L4Index, L3Index, L2Index, L1Index, Present;
    var i, j, k := L4Index(virt), L3Index(virt), L2Index(virt);
    var key3, key2, key1 := [i], [i, j], [i, j, k];
    assert key1 == Indices(virt)[..3];
    assert [] + [i] == key3 && key3 + [j] == key2 && key2 + [k] == key1;
    assert key1[..2] == key2 && key2[..1] == key3;
    DescendIsFindKey(s.l4, 0, i, s.l3, 1);
    var i3 := FindKey(s.l3, key3);
    if i3 < |s.l3| {
      DescendIsFindKey(s.l3, i3, j, s.l2, 2);
      var i2 := FindKey(s.l2, key2);
      if i2 < |s.l2| {
        DescendIsFindKey(s.l2, i2, k, s.l1, 3);
      } else if FindKey(s.l1, key1) < |s.l1| {
        ParentOfKey(s.l2, s.l1, key1);
      }
    } else if FindKey(s.l1, key1) < |s.l1| {
      ParentOfKey(s.l2, s.l1, key1);
      ParentOfKey(s.l3, s.l2, key2);
    }
  }

  // ----- Growing the tree

  /** `tables` with slot `x` of table `p` set to `entry`. */
  function WithEntry(tables: seq<Table>, p: nat, x: nat, entry: u64): (r: seq<Table>)
    requires p < |tables| && x < TABLE_ENTRIES
    ensures |r| == |tables|
    ensures forall i :: 0 <= i < |tables| ==> r[i].key == tables[i].key && r[i].page.phys == tables[i].page.phys
    ensures forall i :: 0 <= i < |tables| && i != p ==> r[i] == tables[i]
  {
    tables[p := Table(tables[p].key, Page(tables[p].page.phys, tables[p].page.entries[x := entry]))]
  }

  ghost predicate NewAddress(tables: seq<Table>, phys: u64)
  {
    Frame(phys) && forall i :: 0 <= i < |tables| ==> tables[i].page.phys != phys
  }

  lemma {:induction false} FindKeySame(a: seq<Table>, b: seq<Table>, key: seq<nat>)
    requires |a| == |b| && forall i :: 0 <= i < |a| ==> a[i].key == b[i].key
    ensures FindKey(a, key) == FindKey(b, key)
  {
    if a != [] && a[0].key != key {
      FindKeySame(a[1..], b[1..], key);
    }
  }

  lemma {:induction false} FindKeyAppend(a: seq<Table>, t: Table, key: seq<nat>)
    ensures FindKey(a + [t], key) == if FindKey(a, key) < |a| then FindKey(a, key)
                                    else if t.key == key then |a| else |a| + 1
  {
    if a != [] && a[0].key != key {
      assert (a + [t])[1..] == a[1..] + [t];
      FindKeyAppend(a[1..], t, key);
    }
  }

  lemma EntryKeepsLevel(tables: seq<Table>, p: nat, x: nat, entry: u64, depth: nat)
    requires Level(tables, depth) && p < |tables| && x < TABLE_ENTRIES
    ensures Level(WithEntry(tables, p, x, entry), depth)
  {
    hide WithEntry, Frame;
  }

  /** A level only matters to the one above it through its keys and addresses. */
  lemma EntryKeepsLinkAbove(above: seq<Table>, tables: seq<Table>, p: nat, x: nat, entry: u64)
    requires Linked(above, tables) && p < |tables| && x < TABLE_ENTRIES
    ensures Linked(above, WithEntry(tables, p, x, entry))
  {
    hide WithEntry, FindKey, MakeEntry;
    var after := WithEntry(tables, p, x, entry);
    forall q, y | 0 <= q < |above| && 0 <= y < TABLE_ENTRIES
      ensures LinkedAt(above[q], y, after)
    {
      assert LinkedAt(above[q], y, tables);
      FindKeySame(after, tables, above[q].key + [y]);
    }
    forall c | 0 <= c < |after|
      ensures HasParent(above, after[c].key)
    {
      assert HasParent(above, tables[c].key);
    }
  }

  lemma AppendKeepsLevel(tables: seq<Table>, key: seq<nat>, phys: u64)
    requires Level(tables, |key|) && FindKey(tables, key) == |tables| && NewAddress(tables, phys)
    ensures Level(tables + [EmptyTable(key, phys)], |key|)
  {
    hide FindKey, Frame;
  }

  /** Hanging a new empty table under slot `x` of table `p` keeps the two levels linked. */
  lemma AttachLinked(above: seq<Table>, p: nat, x: nat, below: seq<Table>, phys: u64, depth: nat)
    requires Linked(above, below) && Level(above, depth) && p < |above| && x < TABLE_ENTRIES
    requires FindKey(below, above[p].key + [x]) == |below|
    ensures Linked(WithEntry(above, p, x, TableEntry(phys)), below + [EmptyTable(above[p].key + [x], phys)])
  {
    hide FindKey, MakeEntry, Frame;
    var key := above[p].key + [x];
    var t := EmptyTable(key, phys);
    var after := WithEntry(above, p, x, TableEntry(phys));
    forall q, y | 0 <= q < |after| && 0 <= y < TABLE_ENTRIES
      ensures LinkedAt(after[q], y, below + [t])
    {
      assert LinkedAt(above[q], y, below);
      FindKeyAppend(below, t, above[q].key + [y]);
      if above[q].key + [y] == key {
        assert (above[q].key + [y])[|above[q].key|] == y;
        assert (above[q].key + [y])[..|above[q].key|] == above[q].key;
        assert key[..|above[p].key|] == above[p].key && key[|above[p].key|] == x;
        assert q == p && y == x;
      }
    }
    forall c | 0 <= c < |below + [t]|
      ensures HasParent(after, (below + [t])[c].key)
    {
      if c < |below| {
        var k := below[c].key;
        assert HasParent(above, k);
        FindKeySame(after, above, k[..|k| - 1]);
      } else {
        assert key[..|key| - 1] == above[p].key;
        FindKeySame(after, above, above[p].key);
        FindKeyIs(above, depth, p);
      }
    }
  }

  /** A new table has nothing below it yet. */
  lemma AttachKeepsLinkBelow(tables: seq<Table>, key: seq<nat>, phys: u64, below: seq<Table>)
    requires Linked(tables, below) && FindKey(tables, key) == |tables|
    ensures Linked(tables + [EmptyTable(key, phys)], below)
  {
    hide FindKey, MakeEntry;
    var t := EmptyTable(key, phys);
    forall q, y | 0 <= q < |tables + [t]| && 0 <= y < TABLE_ENTRIES
      ensures LinkedAt((tables + [t])[q], y, below)
    {
      if q < |tables| {
        assert LinkedAt(tables[q], y, below);
      } else {
        assert (key + [y])[..|key|] == key;
        assert FindKey(below, key + [y]) == |below|;
      }
    }
    forall c | 0 <= c < |below|
      ensures HasParent(tables + [t], below[c].key)
    {
      assert HasParent(tables, below[c].key);
      FindKeyAppend(tables, t, below[c].key[..|below[c].key| - 1]);
    }
  }

  // ----- The flat map while the tree grows

  lemma NewTableKeepsLeaves(l1: seq<Table>, key: seq<nat>, phys: u64, indices: seq<nat>)
    requires |indices| == 4 && indices[3] < TABLE_ENTRIES
    ensures Leaf(l1 + [EmptyTable(key, phys)], indices) == Leaf(l1, indices)
  {
    FindKeyAppend(l1, EmptyTable(key, phys), indices[..3]);
    ZeroAbsent();
    hide FindKey, Present;
  }

  /** Writing a leaf changes the flat map at its own indices only. */
  lemma EntryIsLeaf(l1: seq<Table>, p: nat, x: nat, entry: u64, indices: seq<nat>)
    requires Level(l1, 3) && p < |l1| && x < TABLE_ENTRIES && Present(entry)
    requires |indices| == 4 && indices[3] < TABLE_ENTRIES
    ensures Leaf(WithEntry(l1, p, x, entry), indices)
      == if indices == l1[p].key + [x] then Some(entry) else Leaf(l1, indices)
  {
    hide FindKey, Present, Frame;
    var after := WithEntry(l1, p, x, entry);
    FindKeySame(after, l1, indices[..3]);
    FindKeyIs(l1, 3, p);
    assert indices == indices[..3] + [indices[3]];
    if indices[..3] == l1[p].key && indices[3] == x {
      assert indices == l1[p].key + [x];
    } else {
      assert indices != l1[p].key + [x] by {
        assert (l1[p].key + [x])[..3] == l1[p].key && (l1[p].key + [x])[3] == x;
      }
    }
  }
}
