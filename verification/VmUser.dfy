/** User address spaces, built page by page in raw physical memory. */
module VmUser {
  import opened Bytes
  import opened Wrappers
  import opened PageEntry
  import opened VmProgram

  const MAX_OWNED: nat := 128
  /** First physical address the higher-half direct map cannot reach. */
  const DIRECT_LIMIT: nat := 0x8000_0000_0000
  const USER_L4: nat := 64

  type PageBytes = s: seq<byte> | |s| == PAGE_SIZE witness Zeros(4096)
  type Memory = map<u64, PageBytes>

  // ----- Entries in memory

  function EntryAt(m: Memory, table: u64, x: nat): (e: u64)
    requires table in m && x < TABLE_ENTRIES
  {
    U64At(m[table], 8 * x)
  }

  function SetEntry(m: Memory, table: u64, x: nat, e: u64): (r: Memory)
    requires table in m && x < TABLE_ENTRIES
    ensures r.Keys == m.Keys
    ensures forall p :: p in m && p != table ==> r[p] == m[p]
  {
    m[table := Put(m[table], 8 * x, LeU64(e))]
  }

  lemma SetEntryReads(m: Memory, table: u64, x: nat, e: u64, y: nat)
    requires table in m && x < TABLE_ENTRIES && y < TABLE_ENTRIES
    ensures EntryAt(SetEntry(m, table, x, e), table, y) == if y == x then e else EntryAt(m, table, y)
  {
    hide LeU64;
    var page := Put(m[table], 8 * x, LeU64(e));
    if x == y {
      assert page[8 * x..8 * x + 8] == LeU64(e);
      U64RoundTrip(page, 8 * x, e);
    }
  }

  lemma ZeroPageEntries(m: Memory, table: u64, x: nat)
    requires table in m && x < TABLE_ENTRIES && m[table] == Zeros(PAGE_SIZE)
    ensures EntryAt(m, table, x) == 0 && !Present(0)
  {
    hide U64At, Zeros;
    var at := 8 * x;
    ZerosAt(PAGE_SIZE, at);
    ZeroField(m[table], at);
  }

  lemma ZerosAt(n: nat, at: nat)
    requires at + 8 <= n
    ensures |Zeros(n)| == n
    ensures Zeros(n)[at] == 0 && Zeros(n)[at + 1] == 0 && Zeros(n)[at + 2] == 0 && Zeros(n)[at + 3] == 0
    ensures Zeros(n)[at + 4] == 0 && Zeros(n)[at + 5] == 0 && Zeros(n)[at + 6] == 0 && Zeros(n)[at + 7] == 0
  {
  }

  lemma ZeroField(s: seq<byte>, at: nat)
    requires at + 8 <= |s| && s[at] == 0 && s[at + 1] == 0 && s[at + 2] == 0 && s[at + 3] == 0
    requires s[at + 4] == 0 && s[at + 5] == 0 && s[at + 6] == 0 && s[at + 7] == 0
    ensures U64At(s, at) == 0
  {
  }

  // ----- Walking as the processor does in user mode

  function Child(m: Memory, table: u64, x: nat): (c: Option<u64>)
    requires table in m && x < TABLE_ENTRIES
    ensures c.Some? ==> c.value in m
  {
    var e := EntryAt(m, table, x);
    if Present(e) && IsUser(e) && Address(e) in m then Some(Address(e)) else None
  }

  function RawLeaf(m: Memory, root: u64, virt: u64): (e: Option<u64>)
    requires root in m
  {
    var c3 := Child(m, root, L4Index(virt));
    if c3.None? then None
    else
      var c2 := Child(m, c3.value, L3Index(virt));
      if c2.None? then None
      else
        var c1 := Child(m, c2.value, L2Index(virt));
        if c1.None? then None
        else
          var e := EntryAt(m, c1.value, L1Index(virt));
          if Present(e) then Some(e) else None
  }

  /** The byte a user program reads at `virt`. */
  function UserRead(m: Memory, root: u64, virt: u64): (b: Option<byte>)
    requires root in m
  {
    var e := RawLeaf(m, root, virt);
    if e.None? || !IsUser(e.value) || Address(e.value) !in m then None
    else Some(m[Address(e.value)][virt % PAGE_SIZE])
  }

  // ----- The shape of a space under construction

  function SlotOf(level: nat): nat
  {
    if level == 0 then USER_L4 else 0
  }

  function UserTable(phys: u64): u64
  {
    MakeEntry(phys, true, true, true)
  }

  /** `path` is the chain of tables from the root towards the user region; the tables below
      the root hold nothing else, and a last-level table holds exactly `leaves`. */
  ghost predicate Shape(m: Memory, path: seq<u64>, leaves: map<nat, u64>)
  {
    && 1 <= |path| <= 4
    && (forall i :: 0 <= i < |path| ==> path[i] in m && Frame(path[i]))
    && (forall i, j :: 0 <= i < j < |path| ==> path[i] != path[j])
    && (forall i :: 0 <= i < |path| - 1 ==> EntryAt(m, path[i], SlotOf(i)) == UserTable(path[i + 1]))
    && (forall i, x :: 1 <= i < |path| && i < 3 && 0 < x < TABLE_ENTRIES ==> EntryAt(m, path[i], x) == 0)
    && (|path| < 4 ==> leaves == map[] && !Present(EntryAt(m, path[|path| - 1], SlotOf(|path| - 1))))
    && (|path| == 4 ==> forall x :: 0 <= x < TABLE_ENTRIES ==>
          EntryAt(m, path[3], x) == if x in leaves then leaves[x] else 0)
    && (forall x :: x in leaves ==> x < TABLE_ENTRIES && Present(leaves[x]) && IsUser(leaves[x]))
  }

  /** The frames behind the leaves are distinct pages off the table path. */
  ghost predicate Frames(m: Memory, path: seq<u64>, leaves: map<nat, u64>)
  {
    && (forall x :: x in leaves ==> Address(leaves[x]) in m && Address(leaves[x]) !in path)
    && (forall x, y :: x in leaves && y in leaves && x != y ==> Address(leaves[x]) != Address(leaves[y]))
  }

  lemma UserTableParts(phys: u64)
    requires Frame(phys)
    ensures Present(UserTable(phys)) && IsUser(UserTable(phys)) && Address(UserTable(phys)) == phys
  {
    EntryParts(phys, true, true, true);
    MaskedIff(phys);
  }

  /** A finished space is read through its root exactly as its leaves say. */
  lemma ShapeIsWalk(m: Memory, path: seq<u64>, leaves: map<nat, u64>, p: nat, a: u64)
    requires Shape(m, path, leaves) && |path| == 4 && p < USER_PAGES && PageVirt(p) <= a < PageVirt(p) + PAGE_SIZE
    ensures RawLeaf(m, path[0], a) == if p in leaves then Some(leaves[p]) else None
  {
    hide EntryAt, MakeEntry, Present, IsUser, Address, L4Index, L3Index, L2Index, L1Index, Frame;
    UserIndices(p, a);
    UserTableParts(path[1]);
    UserTableParts(path[2]);
    UserTableParts(path[3]);
    assert EntryAt(m, path[0], SlotOf(0)) == UserTable(path[0 + 1]);
    assert EntryAt(m, path[1], SlotOf(1)) == UserTable(path[1 + 1]);
    assert EntryAt(m, path[2], SlotOf(2)) == UserTable(path[2 + 1]);
    assert !Present(0) by { ZeroNotPresent(); }
  }

  /** Under the user entry of the root nothing is mapped but the leaves. */
  lemma OnlyLeaves(m: Memory, path: seq<u64>, leaves: map<nat, u64>, a: u64)
    requires Shape(m, path, leaves) && |path| == 4 && L4Index(a) == USER_L4
    requires path[0] in m && RawLeaf(m, path[0], a).Some?
    ensures L3Index(a) == 0 && L2Index(a) == 0 && L1Index(a) in leaves
  {
    hide EntryAt, MakeEntry, Present, IsUser, Address, L4Index, L3Index, L2Index, L1Index, Frame;
    UserTableParts(path[1]);
    UserTableParts(path[2]);
    UserTableParts(path[3]);
    assert EntryAt(m, path[0], SlotOf(0)) == UserTable(path[0 + 1]);
    assert EntryAt(m, path[1], SlotOf(1)) == UserTable(path[1 + 1]);
    assert EntryAt(m, path[2], SlotOf(2)) == UserTable(path[2 + 1]);
    assert !Present(0) by { ZeroNotPresent(); }
  }

  lemma ZeroNotPresent()
    ensures !Present(0)
  {
  }

  /** Hanging a fresh zeroed table below the end of the path. */
  lemma ExtendShape(m: Memory, path: seq<u64>, child: u64)
    requires Shape(m, path, map[]) && |path| < 4
    requires child in m && child !in path && Frame(child) && m[child] == Zeros(PAGE_SIZE)
    ensures Shape(SetEntry(m, path[|path| - 1], SlotOf(|path| - 1), UserTable(child)), path + [child], map[])
  {
    hide EntryAt, MakeEntry, Present, IsUser, Address, Frame, SetEntry;
    var last := path[|path| - 1];
    var x := SlotOf(|path| - 1);
    var after := SetEntry(m, last, x, UserTable(child));
    SetEntryReads(m, last, x, UserTable(child), x);
    forall i | 0 <= i < |path| - 1
      ensures EntryAt(after, path[i], SlotOf(i)) == UserTable(path[i + 1])
    {
      SameEntry(m, after, path[i], SlotOf(i));
    }
    forall y | 0 <= y < TABLE_ENTRIES
      ensures EntryAt(after, child, y) == 0 && !Present(0)
    {
      SameEntry(m, after, child, y);
      ZeroPageEntries(m, child, y);
    }
    var longer := path + [child];
    forall i, y | 1 <= i < |longer| && i < 3 && 0 < y < TABLE_ENTRIES
      ensures EntryAt(after, longer[i], y) == 0
    {
      if i < |path| - 1 {
        SameEntry(m, after, path[i], y);
      } else if i == |path| - 1 {
        SetEntryReads(m, last, x, UserTable(child), y);
      }
    }
  }

  lemma SameEntry(a: Memory, b: Memory, table: u64, x: nat)
    requires table in a && table in b && a[table] == b[table] && x < TABLE_ENTRIES
    ensures EntryAt(b, table, x) == EntryAt(a, table, x)
  {
  }

  lemma AddLeaf(m: Memory, path: seq<u64>, leaves: map<nat, u64>, p: nat, entry: u64)
    requires Shape(m, path, leaves) && |path| == 4 && p < TABLE_ENTRIES && p !in leaves
    requires Present(entry) && IsUser(entry)
    ensures Shape(SetEntry(m, path[3], p, entry), path, leaves[p := entry])
  {
    hide EntryAt, MakeEntry, Present, IsUser, Address, Frame, SetEntry;
    var after := SetEntry(m, path[3], p, entry);
    forall i | 0 <= i < 3
      ensures EntryAt(after, path[i], SlotOf(i)) == UserTable(path[i + 1])
    {
      SameEntry(m, after, path[i], SlotOf(i));
    }
    forall i, x | 1 <= i < 3 && 0 < x < TABLE_ENTRIES
      ensures EntryAt(after, path[i], x) == 0
    {
      SameEntry(m, after, path[i], x);
    }
    forall x | 0 <= x < TABLE_ENTRIES
      ensures EntryAt(after, path[3], x) == if x in leaves[p := entry] then leaves[p := entry][x] else 0
    {
      SetEntryReads(m, path[3], p, entry, x);
    }
  }

  /** Pages that are neither tables nor frames do not matter to a space. */
  lemma ShapeFrame(a: Memory, b: Memory, path: seq<u64>, leaves: map<nat, u64>)
    requires Shape(a, path, leaves) && forall i :: 0 <= i < |path| ==> path[i] in b && a[path[i]] == b[path[i]]
    ensures Shape(b, path, leaves)
  {
    hide EntryAt, MakeEntry, Present, IsUser, Frame;
    forall i, x | 0 <= i < |path| && 0 <= x < TABLE_ENTRIES
      ensures EntryAt(b, path[i], x) == EntryAt(a, path[i], x)
    {
      SameEntry(a, b, path[i], x);
    }
  }

  // ----- Building and tearing down

  class Ownership {
    var pages: seq<u64>

    constructor ()
      ensures pages == []
    {
      pages := [];
    }

    method Record(phys: u64) returns (r: Outcome<UserError>)
      modifies this
      ensures r.Pass? <==> |old(pages)| < MAX_OWNED
      ensures pages == if r.Pass? then old(pages) + [phys] else old(pages)
      ensures r.Fail? ==> r == Fail(UserPageTrackingCapacity)
    {
      if |pages| >= MAX_OWNED {
        return Fail(UserPageTrackingCapacity);
      }
      pages := pages + [phys];
      r := Pass;
    }
  }

  /** The pool has pages, and the direct map reaches none of them. */
  ghost predicate AllUnreachable(free: set<u64>)
  {
    free != {} && forall p :: p in free ==> p >= DIRECT_LIMIT
  }

  /** Every page of the original pool `f0` is free, owned or lost, and memory
      outside the pool is untouched. */
  ghost predicate AccountOf(m: Memory, free: set<u64>, m0: Memory, f0: set<u64>, owned: seq<u64>, lost: set<u64>)
  {
    && m.Keys == m0.Keys && f0 <= m0.Keys
    && (forall p :: p in m0 && p !in f0 ==> m[p] == m0[p])
    && (forall p :: p in f0 ==> p % PAGE_SIZE == 0)
    && (forall i, j :: 0 <= i < j < |owned| ==> owned[i] != owned[j])
    && (forall i :: 0 <= i < |owned| ==> owned[i] in f0 && owned[i] < DIRECT_LIMIT)
    && |owned| <= MAX_OWNED
    && free <= f0 && lost <= f0 && free !! lost
    && (forall p :: p in owned ==> p !in free && p !in lost)
    && (forall p :: p in f0 ==> p in free || p in owned || p in lost)
    && (forall p :: p in lost ==> p >= DIRECT_LIMIT)
  }

  lemma OwnedWriteKeepsAccount(m: Memory, free: set<u64>, m0: Memory, f0: set<u64>, owned: seq<u64>, page: u64,
                               content: PageBytes)
    requires AccountOf(m, free, m0, f0, owned, {}) && page in owned
    ensures page in m && AccountOf(m[page := content], free, m0, f0, owned, {})
  {
  }

  /** A page taken from the pool may be given back as it is, recorded once it is cleared, or
      lost if the direct map cannot reach it. */
  lemma TakenPage(m: Memory, free: set<u64>, m0: Memory, f0: set<u64>, owned: seq<u64>, page: u64, content: PageBytes)
    requires AccountOf(m, free, m0, f0, owned, {}) && page in free
    ensures page in m && m[page := content].Keys == m.Keys && page !in owned && page % PAGE_SIZE == 0
    ensures free - {page} + {page} == free && AccountOf(m[page := content], free, m0, f0, owned, {})
    ensures page >= DIRECT_LIMIT ==> AccountOf(m, free - {page}, m0, f0, owned, {page})
    ensures page < DIRECT_LIMIT && |owned| < MAX_OWNED ==>
      AccountOf(m[page := content], free - {page}, m0, f0, owned + [page], {})
  {
  }

  /** What the slot towards the user region holds at each level of the path. */
  lemma ShapeTable(m: Memory, path: seq<u64>, leaves: map<nat, u64>, level: nat)
    requires Shape(m, path, leaves) && level < |path|
    ensures path[level] in m
    ensures level < 3 && |path| == level + 1 ==> !Present(EntryAt(m, path[level], SlotOf(level))) && leaves == map[]
    ensures level < 3 && |path| > level + 1 ==>
      var e := EntryAt(m, path[level], SlotOf(level)); Present(e) && IsUser(e) && Address(e) == path[level + 1]
  {
    hide EntryAt, MakeEntry, Present, IsUser, Address, Frame;
    if level < 3 && |path| > level + 1 {
      UserTableParts(path[level + 1]);
    }
  }

  lemma LeafSlot(m: Memory, path: seq<u64>, leaves: map<nat, u64>, p: nat)
    requires Shape(m, path, leaves) && |path| == 4 && p < TABLE_ENTRIES
    ensures path[3] in m && (Present(EntryAt(m, path[3], p)) <==> p in leaves)
  {
    hide EntryAt, MakeEntry, Present, IsUser, Address, Frame;
    ZeroNotPresent();
  }

  lemma ExtendShapeFor(m: Memory, path: seq<u64>, leaves: map<nat, u64>, child: u64)
    requires Shape(m, path, leaves) && |path| < 4
    requires child in m && child !in path && Frame(child) && m[child] == Zeros(PAGE_SIZE)
    ensures leaves == map[] && path[|path| - 1] in m
    ensures Shape(SetEntry(m, path[|path| - 1], SlotOf(|path| - 1), UserTable(child)), path + [child], leaves)
  {
    hide EntryAt, MakeEntry, Present, IsUser, Address, Frame, SetEntry;
    ShapeTable(m, path, leaves, |path| - 1);
    ExtendShape(m, path, child);
  }

  predicate Shortage(e: UserError)
  {
    e in [OutOfPhysicalPages, UserPageTrackingCapacity, DirectMapUnavailable, PageReclamationFailed]
  }

  /** The entries of the root outside the user region are as they were. */
  ghost predicate RootKept(a: Memory, b: Memory, root: u64)
  {
    && root in a && root in b
    && forall x :: 0 <= x < TABLE_ENTRIES && x != USER_L4 ==> EntryAt(b, root, x) == EntryAt(a, root, x)
  }

  lemma RootKeptFurther(a: Memory, b: Memory, c: Memory, root: u64)
    requires RootKept(a, b, root) && RootKept(b, c, root)
    ensures RootKept(a, c, root)
  {
    hide EntryAt;
  }

  lemma RootSame(a: Memory, b: Memory, root: u64)
    requires root in a && root in b && a[root] == b[root]
    ensures RootKept(a, b, root)
  {
  }

  lemma RootSlotWritten(a: Memory, root: u64, e: u64)
    requires root in a
    ensures RootKept(a, SetEntry(a, root, USER_L4, e), root)
  {
    hide EntryAt, SetEntry;
    forall x | 0 <= x < TABLE_ENTRIES && x != USER_L4
      ensures EntryAt(SetEntry(a, root, USER_L4, e), root, x) == EntryAt(a, root, x)
    {
      SetEntryReads(a, root, USER_L4, e, x);
    }
  }

  /** Physical memory and the pool of free pages. */
  /** Pages run out, in the pool or in the record, only before `needed` are owned. */
  ghost predicate ShortOf(error: UserError, owned: nat, free: set<u64>, needed: nat)
  {
    && (error == OutOfPhysicalPages ==> free == {} && owned < needed)
    && (error == UserPageTrackingCapacity ==> MAX_OWNED <= owned < needed)
  }

  /** Giving a page back fails if the table of free extents is full. The page then stays
      `stuck`, and the failure is reported. */
  ghost predicate StuckStep(was: set<u64>, now: set<u64>, error: UserError, returnsWork: bool)
  {
    && was <= now
    && (now != was <==> error == PageReclamationFailed)
    && (returnsWork ==> now == was)
  }

  lemma EntryAddress(phys: u64, writable: bool, executable: bool)
    requires Frame(phys)
    ensures Address(MakeEntry(phys, writable, true, executable)) == phys
  {
    EntryParts(phys, writable, true, executable);
    MaskedIff(phys);
  }

  lemma ShortSooner(e: UserError, owned: nat, free: set<u64>, n: nat, m: nat)
    requires ShortOf(e, owned, free, n) && n <= m
    ensures ShortOf(e, owned, free, m)
  {
  }

  /** What is remembered of the code after the pages up to `p` of a segment. */
  ghost predicate CodeTaken(seg: Segment, code: u64, code': u64, leaves: map<nat, u64>, first: nat, p: nat)
  {
    if code != 0 || !seg.executable || p == first then code' == code
    else first in leaves && (Address(leaves[first]) != 0 ==> code' == Address(leaves[first]))
  }

  lemma CodeNotTaken(seg: Segment, code: u64, leaves: map<nat, u64>, first: nat)
    ensures CodeTaken(seg, code, code, leaves, first, first)
  {
  }

  lemma CodeTakenStep(seg: Segment, code: u64, was: u64, now: u64, before: map<nat, u64>, after: map<nat, u64>,
                      first: nat, p: nat)
    requires CodeTaken(seg, code, was, before, first, p) && first <= p && p in after
    requires forall x :: x in before ==> x in after && after[x] == before[x]
    requires now == if seg.executable && was == 0 then Address(after[p]) else was
    ensures CodeTaken(seg, code, now, after, first, p + 1)
  {
    hide Address;
  }

  /** The owned pages are the tables on the path and the pages entered so far. */
  ghost predicate Counted(owned: nat, tables: nat, leaves: map<nat, u64>, all: set<nat>)
  {
    owned == tables + |leaves| && leaves.Keys <= all
  }

  /** The path has grown from `path` by fresh tables, which are owned on top of `first`. */
  ghost predicate OwnsPath(first: seq<u64>, path: seq<u64>, path': seq<u64>, owned: seq<u64>)
  {
    && path <= path' && owned == first + path'[|path|..]
    && (forall i :: 0 <= i < |path'| ==> path'[i] in owned)
    && (forall i :: |path| <= i < |path'| ==> path'[i] !in first)
  }

  lemma OwnsStart(owned: seq<u64>, path: seq<u64>)
    requires forall i :: 0 <= i < |path| ==> path[i] in owned
    ensures OwnsPath(owned, path, path, owned)
  {
  }

  lemma OwnsIs(first: seq<u64>, path: seq<u64>, path': seq<u64>, owned: seq<u64>)
    requires OwnsPath(first, path, path', owned)
    ensures |path| <= |path'| && path <= path' && |owned| == |first| + |path'| - |path| && first <= owned
    ensures forall i :: 0 <= i < |path'| ==> path'[i] in owned
    ensures forall i :: |path| <= i < |path'| ==> path'[i] !in first
  {
  }

  lemma OwnsFurther(first: seq<u64>, path: seq<u64>, was: seq<u64>, now: seq<u64>, ownedWas: seq<u64>, owned: seq<u64>)
    requires OwnsPath(first, path, was, ownedWas) && was <= now && owned == ownedWas + now[|was|..]
    requires forall i :: |was| <= i < |now| ==> now[i] !in ownedWas
    ensures OwnsPath(first, path, now, owned)
  {
    assert now == was + now[|was|..];
    assert now[|path|..] == was[|path|..] + now[|was|..];
    assert forall x :: x in first ==> x in ownedWas;
    forall i | 0 <= i < |now|
      ensures now[i] in owned
    {
      if i < |was| {
        assert now[i] == was[i];
      } else {
        assert now[i] == now[|was|..][i - |was|];
      }
    }
  }

  ghost predicate SameOffPath(m: Memory, m': Memory, path: seq<u64>)
  {
    m'.Keys == m.Keys && forall q :: q in m' && q !in path ==> m'[q] == m[q]
  }

  lemma SameOffItself(m: Memory, path: seq<u64>)
    ensures SameOffPath(m, m, path)
  {
  }

  lemma SameOffKeys(m: Memory, m': Memory, path: seq<u64>)
    requires SameOffPath(m, m', path)
    ensures m'.Keys == m.Keys && forall q :: q in m' && q !in path ==> m'[q] == m[q]
  {
  }

  lemma NotShort(owned: nat, free: set<u64>, needed: nat)
    ensures ShortOf(UserMappingConflict, owned, free, needed)
  {
  }

  lemma SameOffFurther(a: Memory, b: Memory, c: Memory, was: seq<u64>, now: seq<u64>)
    requires SameOffPath(a, b, was) && SameOffPath(b, c, now) && was <= now
    ensures SameOffPath(a, c, now)
  {
  }

  lemma RoomFor(owned: nat, tables: nat, leaves: map<nat, u64>, p: nat, all: set<nat>)
    requires Counted(owned, tables, leaves, all) && tables <= 4 && p in all && p !in leaves
    ensures owned + 5 - tables <= 4 + |all|
  {
    assert leaves.Keys <= all - {p};
    SubsetSize(leaves.Keys, all - {p});
    assert |leaves.Keys| == |leaves|;
  }

  lemma NoneCounted(all: set<nat>)
    ensures Counted(1, 1, map[], all)
  {
  }

  lemma CountedStep(owned: nat, tables: nat, leaves: map<nat, u64>, leaves': map<nat, u64>, p: nat, all: set<nat>)
    requires Counted(owned, tables, leaves, all) && tables <= 4 && p in all && p !in leaves
    requires leaves'.Keys == leaves.Keys + {p}
    ensures Counted(owned + 5 - tables, 4, leaves', all)
  {
    assert |leaves'| == |leaves'.Keys| && |leaves| == |leaves.Keys|;
  }

  lemma {:induction false} SubsetSize<T>(a: set<T>, b: set<T>)
    requires a <= b
    ensures |a| <= |b|
  {
    if a != {} {
      var x :| x in a;
      SubsetSize(a - {x}, b - {x});
    }
  }

  lemma PoolWithout(free: set<u64>, stuck: set<u64>, phys: u64)
    requires free !! stuck && phys in free
    ensures phys !in stuck && free + stuck - {phys} == free - {phys} + stuck && (free - {phys}) !! stuck
    ensures free - {phys} + {phys} == free && free - {phys} + (stuck + {phys}) == free + stuck
    ensures (free - {phys}) !! (stuck + {phys}) && stuck + {phys} != stuck
  {
  }

  lemma NothingStuck(stuck: set<u64>, returnsWork: bool)
    ensures forall e: UserError :: e != PageReclamationFailed ==> StuckStep(stuck, stuck, e, returnsWork)
  {
  }

  lemma StuckAfter(was: set<u64>, middle: set<u64>, now: set<u64>, e: UserError, returnsWork: bool)
    requires StuckStep(was, middle, e, returnsWork) && StuckStep(middle, now, PageReclamationFailed, returnsWork)
    ensures StuckStep(was, now, PageReclamationFailed, returnsWork)
  {
  }

  lemma StuckFurther(a: set<u64>, b: set<u64>, c: set<u64>, returnsWork: bool)
    requires a == b || StuckStep(a, b, PageReclamationFailed, returnsWork)
    ensures StuckStep(b, c, PageReclamationFailed, returnsWork) ==> StuckStep(a, c, PageReclamationFailed, returnsWork)
  {
  }

  lemma OwnedInMemory(m: Memory, pool: set<u64>, m0: Memory, f0: set<u64>, owned: seq<u64>, lost: set<u64>)
    requires AccountOf(m, pool, m0, f0, owned, lost)
    ensures forall i :: 0 <= i < |owned| ==> owned[i] in m
  {
  }

  lemma AllReturned(m: Memory, pool: set<u64>, m0: Memory, f0: set<u64>, lost: set<u64>)
    requires AccountOf(m, pool, m0, f0, [], lost)
    ensures pool == f0 - lost && m.Keys == m0.Keys && forall p :: p in m0 && p !in f0 ==> m[p] == m0[p]
  {
  }

  class Machine {
    var memory: Memory
    var free: set<u64>
    ghost var stuck: set<u64>
    const kernelRoot: u64
    const returnsWork: bool

    constructor (memory: Memory, free: set<u64>, kernelRoot: u64, returnsWork: bool)
      ensures this.memory == memory && this.free == free && this.stuck == {}
      ensures this.kernelRoot == kernelRoot && this.returnsWork == returnsWork
    {
      this.memory, this.free, this.stuck, this.kernelRoot := memory, free, {}, kernelRoot;
      this.returnsWork := returnsWork;
    }

    /** The pages nobody uses. */
    ghost function Pool(): set<u64>
      reads this`free, this`stuck
    {
      free + stuck
    }

    ghost predicate Account(m0: Memory, f0: set<u64>, owned: seq<u64>, lost: set<u64>)
      reads this
    {
      free !! stuck && AccountOf(memory, Pool(), m0, f0, owned, lost)
    }

    /** Gives back a page of nobody; it may end up stuck. */
    method DeallocatePage(phys: u64) returns (ok: bool)
      requires free !! stuck && phys !in Pool()
      modifies this`free, this`stuck
      ensures free !! stuck && Pool() == old(Pool()) + {phys}
      ensures if ok then stuck == old(stuck) else StuckStep(old(stuck), stuck, PageReclamationFailed, returnsWork)
    {
      var full: bool := *;
      if full && !returnsWork {
        stuck := stuck + {phys};
        return false;
      }
      free := free + {phys};
      return true;
    }

    method AllocatePage() returns (r: Option<u64>)
      modifies this`free
      ensures r.None? <==> old(free) == {}
      ensures r.None? ==> free == old(free)
      ensures r.Some? ==> r.value in old(free) && free == old(free) - {r.value}
    {
      if free == {} {
        return None;
      }
      var p :| p in free;
      free := free - {p};
      r := Some(p);
    }

    /** Takes a page out of the pool and zeroes it. A page that the direct map cannot reach
        is taken and forgotten. */
    method AllocateZeroedPage(ghost owned: seq<u64>, ghost m0: Memory, ghost f0: set<u64>)
      returns (r: Result<u64, UserError>, ghost lost: set<u64>)
      requires Account(m0, f0, owned, {})
      modifies this`memory, this`free
      ensures free !! stuck && memory.Keys == old(memory).Keys
      ensures r.Ok? ==> lost == {} && r.value !in Pool() && r.value !in owned && Frame(r.value)
      ensures r.Ok? ==> AccountOf(memory, Pool() + {r.value}, m0, f0, owned, {})
      ensures r.Ok? && |owned| < MAX_OWNED ==> Account(m0, f0, owned + [r.value], {})
      ensures r.Ok? ==> r.value in memory && memory == old(memory)[r.value := Zeros(PAGE_SIZE)]
      ensures r.Err? ==> Account(m0, f0, owned, lost)
      ensures r.Err? ==> r == Err(if lost == {} then OutOfPhysicalPages else DirectMapUnavailable) && |lost| <= 1
      ensures r == Err(OutOfPhysicalPages) ==> free == {}
      ensures AllUnreachable(old(free)) ==> r == Err(DirectMapUnavailable)
    {
      hide Zeros, AccountOf;
      lost := {};
      ghost var before, pool, freeWas := memory, Pool(), free;
      var page := AllocatePage();
      if page.None? {
        return Err(OutOfPhysicalPages), {};
      }
      var phys := page.value;
      TakenPage(before, pool, m0, f0, owned, phys, Zeros(PAGE_SIZE));
      PoolWithout(freeWas, stuck, phys);
      if phys >= DIRECT_LIMIT {
        return Err(DirectMapUnavailable), {phys};
      }
      memory := memory[phys := Zeros(PAGE_SIZE)];
      r := Ok(phys);
    }

    /** Takes a zeroed page and records it, or gives it back. */
    method AllocateOwnedZeroedPage(own: Ownership, ghost m0: Memory, ghost f0: set<u64>)
      returns (r: Result<u64, UserError>, ghost lost: set<u64>)
      requires Account(m0, f0, own.pages, {})
      modifies this, own
      ensures Account(m0, f0, own.pages, lost) && memory.Keys == old(memory).Keys
      ensures r.Ok? ==> lost == {} && own.pages == old(own.pages) + [r.value] && r.value !in old(own.pages)
      ensures r.Ok? ==> r.value in memory && memory[r.value] == Zeros(PAGE_SIZE) && Frame(r.value)
      ensures r.Ok? ==> forall p :: p in memory && p != r.value ==> memory[p] == old(memory)[p]
      ensures r.Err? ==> own.pages == old(own.pages)
      ensures r.Err? ==> (lost != {} <==> r == Err(DirectMapUnavailable)) && |lost| <= 1 && Shortage(r.error)
      ensures AllUnreachable(old(free)) ==> r == Err(DirectMapUnavailable)
      ensures r.Err? ==> ShortOf(r.error, |own.pages|, free, |own.pages| + 1)
      ensures r.Ok? ==> stuck == old(stuck)
      ensures r.Err? ==> StuckStep(old(stuck), stuck, r.error, returnsWork)
    {
      hide Zeros, AccountOf, Frame, Pool, StuckStep;
      NothingStuck(stuck, returnsWork);
      r, lost := AllocateZeroedPage(own.pages, m0, f0);
      if r.Err? {
        return;
      }
      var recorded := own.Record(r.value);
      if recorded.Fail? {
        var returned := DeallocatePage(r.value);
        return Err(if returned then recorded.error else PageReclamationFailed), {};
      }
    }

    /** Follows the user entry of one table on the path, after creating the table below it if
        there is none. */
    method NextTable(own: Ownership, level: nat, ghost m0: Memory, ghost f0: set<u64>, table: u64,
                     ghost path: seq<u64>, ghost leaves: map<nat, u64>)
      returns (r: Result<u64, UserError>, ghost lost: set<u64>, ghost path': seq<u64>)
      requires level < 3 && level < |path| && table == path[level]
      requires Account(m0, f0, own.pages, {}) && Shape(memory, path, leaves)
      requires forall i :: 0 <= i < |path| ==> path[i] in own.pages
      modifies this, own
      ensures Account(m0, f0, own.pages, lost) && memory.Keys == old(memory).Keys
      ensures r.Err? ==> |lost| <= 1 && (lost != {} <==> r == Err(DirectMapUnavailable)) && Shortage(r.error)
      ensures r.Err? ==> own.pages == old(own.pages) && ShortOf(r.error, |own.pages|, free, |own.pages| + 1)
      ensures r.Err? ==> |path| == level + 1 && StuckStep(old(stuck), stuck, r.error, returnsWork)
      ensures r.Ok? ==> lost == {} && stuck == old(stuck) && Shape(memory, path', leaves)
      ensures r.Ok? ==> path <= path' && level + 1 < |path'| <= 4 && r.value == path'[level + 1]
      ensures r.Ok? ==> |path'| == if |path| == level + 1 then level + 2 else |path|
      ensures r.Ok? ==> own.pages == old(own.pages) + path'[|path|..] && RootKept(old(memory), memory, path[0])
      ensures r.Ok? ==> forall i :: |path| <= i < |path'| ==> path'[i] !in old(own.pages)
      ensures r.Ok? ==> SameOffPath(old(memory), memory, path')
    {
      hide EntryAt, MakeEntry, Present, IsUser, Address, Frame, Shape, AccountOf, Put, Zeros, LeU64, RootKept, Pool,
        StuckStep;
      path', lost := path, {};
      ShapeLength(memory, path, leaves);
      ShapeTable(memory, path, leaves, level);
      var entry := EntryAt(memory, table, SlotOf(level));
      if Present(entry) {
        if !IsUser(entry) {
          return Err(UserRegionConflict), {}, path;
        }
        RootSame(memory, memory, path[0]);
        return Ok(Address(entry)), {}, path;
      }
      ghost var before := memory;
      r, lost := AllocateOwnedZeroedPage(own, m0, f0);
      if r.Err? {
        return;
      }
      ShapeFrame(before, memory, path, leaves);
      ExtendShapeFor(memory, path, leaves, r.value);
      entry := UserTable(r.value);
      OwnedWriteKeepsAccount(memory, Pool(), m0, f0, own.pages, table,
                             Put(memory[table], 8 * SlotOf(level), LeU64(entry)));
      RootSame(before, memory, path[0]);
      RootAfterWrite(memory, path, leaves, level, entry);
      RootKeptFurther(before, memory, SetEntry(memory, table, SlotOf(level), entry), path[0]);
      memory := SetEntry(memory, table, SlotOf(level), entry);
      path' := path + [r.value];
    }

    /** Enters one page of the user region into the tables below the root, creating
        the tables on the way. */
    method RawMapUserPage(root: u64, own: Ownership, p: nat, phys: u64, writable: bool, executable: bool,
                          ghost m0: Memory, ghost f0: set<u64>, ghost path: seq<u64>, ghost leaves: map<nat, u64>)
      returns (r: Outcome<UserError>, ghost lost: set<u64>, ghost path': seq<u64>)
      requires p < USER_PAGES && Frame(phys)
      requires Account(m0, f0, own.pages, {})
      requires Shape(memory, path, leaves) && path[0] == root && (forall i :: 0 <= i < |path| ==> path[i] in own.pages)
      modifies this, own
      ensures Account(m0, f0, own.pages, lost)
      ensures memory.Keys == old(memory).Keys
      ensures r.Fail? ==> |lost| <= 1 && (lost != {} <==> r == Fail(DirectMapUnavailable))
      ensures r.Fail? ==> Shortage(r.error) || (r.error == UserMappingConflict && p in leaves)
      ensures r.Pass? ==>
        lost == {} && p !in leaves && path <= path' && |path'| == 4 && RootKept(old(memory), memory, root)
      ensures r.Pass? ==> Shape(memory, path', leaves[p := MakeEntry(phys, writable, true, executable)])
      ensures r.Pass? ==> old(own.pages) <= own.pages && forall i :: 0 <= i < |path'| ==> path'[i] in own.pages
      ensures r.Pass? ==> forall i :: |path| <= i < |path'| ==> path'[i] !in old(own.pages)
      ensures r.Pass? ==> forall q :: q in memory && q !in path' ==> q in old(memory) && memory[q] == old(memory)[q]
      ensures 1 <= |path| <= 4
      ensures r.Pass? ==> |own.pages| == |old(own.pages)| + 4 - |path|
      ensures r.Fail? ==> ShortOf(r.error, |own.pages|, free, |old(own.pages)| + 4 - |path|)
      ensures r.Pass? ==> stuck == old(stuck)
      ensures r.Fail? ==> StuckStep(old(stuck), stuck, r.error, returnsWork)
    {
      hide EntryAt, MakeEntry, Present, IsUser, Address, Frame, Shape, AccountOf, Put, LeU64, RootKept, Pool, StuckStep,
        Shortage;
      hide OwnsPath, SameOffPath, Account, ShortOf;
      NothingStuck(stuck, returnsWork);
      ShapeLength(memory, path, leaves);
      RootSame(memory, memory, root);
      OwnsStart(own.pages, path);
      SameOffItself(memory, path);
      path', lost := path, {};
      var table := root;
      for level := 0 to 3
        invariant Account(m0, f0, own.pages, {}) && Shape(memory, path', leaves) && stuck == old(stuck)
        invariant lost == {} && RootKept(old(memory), memory, root) && SameOffPath(old(memory), memory, path')
        invariant level + 1 <= |path'| <= 4 && table == path'[level] && path'[0] == root
        invariant OwnsPath(old(own.pages), path, path', own.pages)
      {
        ghost var before, pathWas, ownedWas := memory, path', own.pages;
        OwnsIs(old(own.pages), path, path', own.pages);
        var next;
        next, lost, path' := NextTable(own, level, m0, f0, table, path', leaves);
        if next.Err? {
          ShortSooner(next.error, |own.pages|, free, |own.pages| + 1, |old(own.pages)| + 4 - |path|);
          SameOffKeys(old(memory), before, pathWas);
          return Fail(next.error), lost, path';
        }
        RootKeptFurther(old(memory), before, memory, root);
        OwnsFurther(old(own.pages), path, pathWas, path', ownedWas, own.pages);
        SameOffFurther(old(memory), before, memory, pathWas, path');
        table := next.value;
      }
      OwnsIs(old(own.pages), path, path', own.pages);
      SameOffKeys(old(memory), memory, path');
      LeafSlot(memory, path', leaves, p);
      NotShort(|own.pages|, free, |old(own.pages)| + 4 - |path|);
      if Present(EntryAt(memory, table, p)) {
        return Fail(UserMappingConflict), {}, path';
      }
      ghost var ready := memory;
      EnterLeaf(table, own, p, phys, writable, executable, m0, f0, path', leaves);
      RootKeptFurther(old(memory), ready, memory, root);
      SameOffFurther(old(memory), ready, memory, path', path');
      SameOffKeys(old(memory), memory, path');
      r := Pass;
    }

    /** Writes the entry of one page into the last table. */
    method EnterLeaf(table: u64, own: Ownership, p: nat, phys: u64, writable: bool, executable: bool,
                     ghost m0: Memory, ghost f0: set<u64>, ghost path: seq<u64>, ghost leaves: map<nat, u64>)
      requires p < USER_PAGES && Frame(phys) && Account(m0, f0, own.pages, {})
      requires Shape(memory, path, leaves) && |path| == 4 && table == path[3] && p !in leaves && table in own.pages
      modifies this`memory
      ensures Account(m0, f0, own.pages, {}) && RootKept(old(memory), memory, path[0])
      ensures Shape(memory, path, leaves[p := MakeEntry(phys, writable, true, executable)])
      ensures SameOffPath(old(memory), memory, path)
    {
      hide EntryAt, MakeEntry, Present, IsUser, Address, Frame, Shape, AccountOf, Put, LeU64, RootKept, Pool;
      ShapeLength(memory, path, leaves);
      var entry := MakeEntry(phys, writable, true, executable);
      EntryParts(phys, writable, true, executable);
      AddLeaf(memory, path, leaves, p, entry);
      OwnedWriteKeepsAccount(memory, Pool(), m0, f0, own.pages, table, Put(memory[table], 8 * p, LeU64(entry)));
      ShapeDistinct(memory, path, leaves);
      RootSame(memory, SetEntry(memory, table, p, entry), path[0]);
      memory := SetEntry(memory, table, p, entry);
    }

    /** Allocates, fills and maps one page of a segment. */
    method LoadPage(root: u64, own: Ownership, seg: Segment, p: nat, ghost m0: Memory, ghost f0: set<u64>,
                    ghost path: seq<u64>, ghost leaves: map<nat, u64>)
      returns (r: Outcome<UserError>, phys: u64, ghost lost: set<u64>, ghost path': seq<u64>,
               ghost leaves': map<nat, u64>)
      requires p < USER_PAGES && Account(m0, f0, own.pages, {})
      requires Building(memory, own.pages, path, leaves) && path[0] == root
      modifies this, own
      ensures Account(m0, f0, own.pages, lost)
      ensures r.Fail? ==> |lost| <= 1 && (lost != {} <==> r == Fail(DirectMapUnavailable))
      ensures r.Fail? ==> Shortage(r.error) || (r.error == UserMappingConflict && p in leaves)
      ensures r.Pass? ==> lost == {} && Building(memory, own.pages, path', leaves') && path <= path' && |path'| == 4
      ensures r.Pass? ==> Extends(old(memory), leaves, memory, leaves') && Placed(memory, leaves', seg, p)
      ensures r.Pass? ==> leaves'.Keys == leaves.Keys + {p} && RootKept(old(memory), memory, root)
      ensures r.Pass? ==> p !in leaves && phys == Address(leaves'[p])
      ensures 1 <= |path| <= 4
      ensures r.Pass? ==> |own.pages| == |old(own.pages)| + 5 - |path|
      ensures r.Fail? ==> ShortOf(r.error, |own.pages|, free, |old(own.pages)| + 5 - |path|)
      ensures r.Pass? ==> stuck == old(stuck)
      ensures r.Fail? ==> StuckStep(old(stuck), stuck, r.error, returnsWork)
    {
      hide AccountOf, Building, Placed, Extends, MakeEntry, Frame, Put, Zeros, PageImage, Shape, Address, RootKept;
      path', leaves', lost, phys := path, leaves, {}, 0;
      ghost var before, ownedWas := memory, own.pages;
      BuildingTables(before, ownedWas, path, leaves);
      var page;
      page, lost := FillPage(own, seg, p, m0, f0);
      if page.Err? {
        return Fail(page.error), 0, lost, path', leaves';
      }
      phys := page.value;
      ghost var filled := memory;
      NewPageAside(before, filled, ownedWas, phys, path, leaves);
      RootSame(before, filled, root);
      r, lost, path' := RawMapUserPage(root, own, p, phys, seg.writable, seg.executable, m0, f0, path, leaves);
      if r.Pass? {
        leaves' := leaves[p := MakeEntry(phys, seg.writable, true, seg.executable)];
        PageEntered(before, filled, memory, ownedWas, own.pages, path, path', leaves, leaves', p, phys, seg);
        EntryAddress(phys, seg.writable, seg.executable);
        RootKeptFurther(before, filled, memory, root);
      }
    }

    /** Takes a zeroed page and copies the part of the segment's data that falls on it. */
    method FillPage(own: Ownership, seg: Segment, p: nat, ghost m0: Memory, ghost f0: set<u64>)
      returns (r: Result<u64, UserError>, ghost lost: set<u64>)
      requires p < USER_PAGES && Account(m0, f0, own.pages, {})
      modifies this, own
      ensures Account(m0, f0, own.pages, lost) && memory.Keys == old(memory).Keys
      ensures r.Err? ==> |lost| <= 1 && (lost != {} <==> r == Err(DirectMapUnavailable)) && Shortage(r.error)
      ensures r.Ok? ==> lost == {} && own.pages == old(own.pages) + [r.value] && r.value !in old(own.pages)
      ensures r.Ok? ==> Frame(r.value) && r.value in memory && memory[r.value] == PageImage(seg, PageVirt(p))
      ensures r.Ok? ==> forall q :: q in memory && q != r.value ==> memory[q] == old(memory)[q]
      ensures r.Err? ==> own.pages == old(own.pages) && ShortOf(r.error, |own.pages|, free, |own.pages| + 1)
      ensures r.Ok? ==> stuck == old(stuck)
      ensures r.Err? ==> StuckStep(old(stuck), stuck, r.error, returnsWork)
    {
      hide AccountOf, Put, Zeros, PageImage, Frame;
      r, lost := AllocateOwnedZeroedPage(own, m0, f0);
      if r.Err? {
        return;
      }
      CopyData(own, seg, p, r.value, m0, f0);
    }

    /** Copies the bytes of the segment that fall on the zeroed page. */
    method CopyData(own: Ownership, seg: Segment, p: nat, page: u64, ghost m0: Memory, ghost f0: set<u64>)
      requires p < USER_PAGES && Account(m0, f0, own.pages, {}) && page in own.pages
      requires page in memory && memory[page] == Zeros(PAGE_SIZE)
      modifies this`memory
      ensures Account(m0, f0, own.pages, {})
      ensures memory == old(memory)[page := PageImage(seg, PageVirt(p))]
    {
      hide AccountOf, Put, Zeros, PageImage;
      var pageVirt := PageVirt(p);
      var dataEnd := seg.virtualAddress + |seg.data|;
      var copyStart := if pageVirt > seg.virtualAddress then pageVirt else seg.virtualAddress;
      var copyEnd := if pageVirt + PAGE_SIZE < dataEnd then pageVirt + PAGE_SIZE else dataEnd;
      CopyIsImage(seg, pageVirt);
      if copyStart < copyEnd {
        var content := Put(memory[page], copyStart - pageVirt,
                           seg.data[copyStart - seg.virtualAddress..copyEnd - seg.virtualAddress]);
        OwnedWriteKeepsAccount(memory, Pool(), m0, f0, own.pages, page, content);
        memory := memory[page := content];
      }
    }

    /** Loads a segment page by page. The first page of code is remembered, unless it lies at
        address zero. */
    method LoadSegment(root: u64, own: Ownership, seg: Segment, code: u64, ghost m0: Memory, ghost f0: set<u64>,
                       ghost path: seq<u64>, ghost leaves: map<nat, u64>, ghost all: set<nat>)
      returns (r: Outcome<UserError>, code': u64, ghost lost: set<u64>, ghost path': seq<u64>,
               ghost leaves': map<nat, u64>)
      requires GoodSegment(seg) && Account(m0, f0, own.pages, {})
      requires Building(memory, own.pages, path, leaves) && path[0] == root
      requires Counted(|own.pages|, |path|, leaves, all) && Free(seg, leaves, all)
      modifies this, own
      ensures Account(m0, f0, own.pages, lost)
      ensures r.Fail? ==> |lost| <= 1 && (lost != {} <==> r == Fail(DirectMapUnavailable)) && Shortage(r.error)
      ensures r.Pass? ==> RootKept(old(memory), memory, root)
      ensures r.Pass? ==> lost == {} && Building(memory, own.pages, path', leaves') && path <= path' && |path'| == 4
      ensures r.Pass? ==> Extends(old(memory), leaves, memory, leaves')
      ensures r.Pass? ==> SegmentIn(memory, leaves, leaves', seg, SegmentPages(seg).0, SegmentPages(seg).1)
      ensures r.Pass? ==> Counted(|own.pages|, |path'|, leaves', all)
      ensures r.Fail? ==> ShortOf(r.error, |own.pages|, free, 4 + |all|)
      ensures r.Pass? ==> CodeTaken(seg, code, code', leaves', SegmentPages(seg).0, SegmentPages(seg).1)
      ensures r.Pass? ==> stuck == old(stuck)
      ensures r.Fail? ==> StuckStep(old(stuck), stuck, r.error, returnsWork)
    {
      hide AccountOf, Building, Placed, Extends, GoodSegment, Covers, Address, RootKept, StuckStep, Shortage, ShortOf,
        Account, CodeTaken, InSegment, Counted, SegmentIn, SegmentPages, Underway, Free;
      path', leaves', lost, code' := path, leaves, {}, code;
      BuildingTables(memory, own.pages, path, leaves);
      BuildingRoot(memory, own.pages, path, leaves);
      StartUnderway(memory, |own.pages|, |path|, leaves, seg, code, all, root);
      var (first, last) := SegmentPages(seg);
      var p := first;
      while p < last
        invariant first <= p <= last && lost == {} && stuck == old(stuck)
        invariant Account(m0, f0, own.pages, {}) && Building(memory, own.pages, path', leaves')
        invariant path <= path' && (p > first ==> |path'| == 4)
        invariant Underway(old(memory), leaves, memory, |own.pages|, |path'|, leaves', seg, code, code', p, all, root)
      {
        ghost var before, was, codeWas := memory, leaves', code';
        ghost var count, tables := |own.pages|, |path'|;
        BuildingTables(memory, own.pages, path', leaves');
        UnderwayNext(old(memory), leaves, memory, count, tables, leaves', seg, code, code', p, all, root);
        var phys;
        r, phys, lost, path', leaves' := LoadPage(root, own, seg, p, m0, f0, path', leaves');
        if r.Fail? {
          ShortSooner(r.error, |own.pages|, free, count + 5 - tables, 4 + |all|);
          return;
        }
        if seg.executable && code' == 0 {
          code' := phys;
        }
        UnderwayStep(old(memory), leaves, before, memory, count, tables, was, leaves', seg, code, codeWas, code', p,
                     all, root);
        p := p + 1;
      }
      Arrived(old(memory), leaves, memory, |own.pages|, |path'|, leaves', seg, code, code', all, root);
      r := Pass;
    }

    /** Loads all segments below a root that has nothing in the user region yet. */
    method LoadSegments(root: u64, own: Ownership, ghost entry: u64, segments: seq<Segment>,
                        ghost m0: Memory, ghost f0: set<u64>)
      returns (r: Outcome<UserError>, code: u64, bytes: nat, ghost lost: set<u64>, ghost path: seq<u64>,
               ghost leaves: map<nat, u64>)
      requires GoodProgram(entry, segments) && Account(m0, f0, own.pages, {}) && |own.pages| == 1
      requires Building(memory, own.pages, [root], map[])
      modifies this, own
      ensures Account(m0, f0, own.pages, lost)
      ensures r.Fail? ==> |lost| <= 1 && (lost != {} <==> r == Fail(DirectMapUnavailable)) && Shortage(r.error)
      ensures r.Fail? ==> ShortOf(r.error, |own.pages|, free, 4 + |ProgramPages(segments)|)
      ensures r.Fail? ==> StuckStep(old(stuck), stuck, r.error, returnsWork)
      ensures r.Pass? ==> lost == {} && stuck == old(stuck) && Building(memory, own.pages, path, leaves)
      ensures r.Pass? ==> |path| == 4 && path[0] == root && RootKept(old(memory), memory, root)
      ensures r.Pass? ==> Counted(|own.pages|, 4, leaves, ProgramPages(segments))
      ensures r.Pass? ==> Loaded(memory, leaves, segments, |segments|)
      ensures r.Pass? ==> bytes == DataBytes(segments) && CodeLeaf(leaves, segments, |segments|, code)
    {
      hide AccountOf, Building, Placed, Extends, GoodSegment, Address, RootKept, StuckStep, Pool, ProgramPages,
        Shortage, CodeLeaf, ShortOf, Counted, Account, InSegment, CodeTaken, Loaded, SegmentIn,
        PagesOverlap, EntryIn, Free;
      path, leaves, lost, code, bytes := [root], map[], {}, 0, 0;
      BuildingTables(memory, own.pages, path, leaves);
      assert path[0] == root;
      RootSame(memory, memory, root);
      NoneCounted(ProgramPages(segments));
      NothingLoaded(memory, segments);
      NoCodeYet(leaves, segments);
      assert segments[..0] == [];
      for i := 0 to |segments|
        invariant Account(m0, f0, own.pages, {}) && Building(memory, own.pages, path, leaves) && lost == {}
        invariant stuck == old(stuck) && Counted(|own.pages|, |path|, leaves, ProgramPages(segments))
        invariant |path| >= 1 && path[0] == root && RootKept(old(memory), memory, root) && (i > 0 ==> |path| == 4)
        invariant Loaded(memory, leaves, segments, i)
        invariant bytes == DataBytes(segments[..i]) && CodeLeaf(leaves, segments, i, code)
      {
        ghost var before, was, codeWas := memory, leaves, code;
        Disjoint(entry, segments, i, memory, leaves);
        SegmentIsProgram(segments, i);
        FreeSegment(segments[i], leaves, ProgramPages(segments));
        r, code, lost, path, leaves := LoadSegment(root, own, segments[i], code, m0, f0, path, leaves,
                                                   ProgramPages(segments));
        if r.Fail? {
          return;
        }
        RootKeptFurther(old(memory), before, memory, root);
        ExtendsLeaf(before, was, memory, leaves);
        CodeLeafStep(was, leaves, segments, i, codeWas, code);
        LoadedStep(before, memory, was, leaves, segments, i);
        bytes := bytes + |segments[i].data|;
        assert segments[..i + 1][..i] == segments[..i];
      }
      assert segments[..|segments|] == segments;
      r := Pass;
    }

    /** A new root with a copy of the kernel's entries and nothing in the user region. */
    method CopyKernelRoot(own: Ownership, ghost m0: Memory, ghost f0: set<u64>)
      returns (r: Result<u64, UserError>, ghost lost: set<u64>)
      requires Account(m0, f0, own.pages, {}) && own.pages == []
      requires kernelRoot in m0 && kernelRoot !in f0
      modifies this, own
      ensures Account(m0, f0, own.pages, lost)
      ensures r.Err? ==> |lost| <= 1 && (lost != {} ==> r == Err(DirectMapUnavailable))
      ensures r == Err(DirectMapUnavailable) && kernelRoot < DIRECT_LIMIT ==> lost != {}
      ensures AllUnreachable(old(free)) ==> r == Err(DirectMapUnavailable) && lost != {} && own.pages == []
      ensures r.Err? ==>
        Shortage(r.error) || (r.error == UserRegionConflict && Present(EntryAt(m0, kernelRoot, USER_L4)))
      ensures r.Err? ==> ShortOf(r.error, |own.pages|, free, 1) && StuckStep(old(stuck), stuck, r.error, returnsWork)
      ensures r.Ok? ==> kernelRoot < DIRECT_LIMIT && !Present(EntryAt(m0, kernelRoot, USER_L4)) && stuck == old(stuck)
      ensures r.Ok? ==> lost == {} && own.pages == [r.value] && Building(memory, own.pages, own.pages, map[])
      ensures r.Ok? ==> RootKept(m0[r.value := m0[kernelRoot]], memory, r.value)
    {
      hide AccountOf, Building, RootKept, EntryAt, Present, Zeros, StuckStep, Pool;
      NothingStuck(stuck, returnsWork);
      r, lost := AllocateOwnedZeroedPage(own, m0, f0);
      if r.Err? {
        return;
      }
      var root := r.value;
      if kernelRoot >= DIRECT_LIMIT {
        return Err(DirectMapUnavailable), {};
      }
      KernelRootKept(memory, Pool(), m0, f0, own.pages, kernelRoot);
      OwnedWriteKeepsAccount(memory, Pool(), m0, f0, own.pages, root, memory[kernelRoot]);
      memory := memory[root := memory[kernelRoot]];
      SameEntry2(m0, kernelRoot, memory, root, USER_L4);
      if Present(EntryAt(memory, root, USER_L4)) {
        return Err(UserRegionConflict), {};
      }
      RootSame(m0[root := m0[kernelRoot]], memory, root);
      StartBuilding(memory, own.pages, root);
    }

    /** Fills the tables of a new space; on failure the pages taken so far are still owned. */
    method BuildUserSpace(entry: u64, segments: seq<Segment>, own: Ownership, ghost m0: Memory, ghost f0: set<u64>)
      returns (r: Result<UserAddressSpace, UserError>, ghost lost: set<u64>)
      requires GoodProgram(entry, segments) && Account(m0, f0, own.pages, {}) && own.pages == []
      requires kernelRoot in m0 && kernelRoot !in f0
      modifies this, own
      ensures Account(m0, f0, own.pages, lost)
      ensures r.Err? ==> |lost| <= 1 && (lost != {} ==> r == Err(DirectMapUnavailable))
      ensures r == Err(DirectMapUnavailable) && kernelRoot < DIRECT_LIMIT ==> lost != {}
      ensures AllUnreachable(old(free)) ==> r == Err(DirectMapUnavailable) && lost != {} && own.pages == []
      ensures r.Err? ==>
        Shortage(r.error) || (r.error == UserRegionConflict && Present(EntryAt(m0, kernelRoot, USER_L4)))
      ensures r.Err? ==> ShortOf(r.error, |own.pages|, free, Needed(segments))
      ensures r.Ok? ==> kernelRoot < DIRECT_LIMIT && !Present(EntryAt(m0, kernelRoot, USER_L4))
      ensures r.Ok? ==> lost == {} && r.value.owned == own.pages && r.value.entry == entry && r.value.root in own.pages
      ensures r.Ok? ==> r.value.kernelRoot == kernelRoot && |own.pages| == Needed(segments)
      ensures r.Ok? ==>
        Finished(memory, r.value, segments) && RootKept(m0[r.value.root := m0[kernelRoot]], memory, r.value.root)
      ensures r.Ok? ==> stuck == old(stuck)
      ensures r.Err? ==> StuckStep(old(stuck), stuck, r.error, returnsWork)
    {
      hide AccountOf, Building, Placed, Extends, GoodSegment, Address, RootKept, EntryAt, Present, Zeros, Finished,
        IsUser, IsWritable, IsExecutable, StuckStep, Account, ProgramPages, CodeLeaf, DataBytes, RawLeaf, ProgramPage,
        Shortage, Counted, ShortOf, InSegment, Loaded, ProgramLoaded, PagesOverlap, EntryIn;
      StackIsProgram(segments);
      var rootPage;
      rootPage, lost := CopyKernelRoot(own, m0, f0);
      if rootPage.Err? {
        ShortSooner(rootPage.error, |own.pages|, free, 1, Needed(segments));
        return Err(rootPage.error), lost;
      }
      var root := rootPage.value;
      ghost var started := memory;
      var loaded, codePhys, loadedBytes;
      ghost var path, leaves;
      loaded, codePhys, loadedBytes, lost, path, leaves := LoadSegments(root, own, entry, segments, m0, f0);
      if loaded.Fail? {
        return Err(loaded.error), lost;
      }
      ghost var before := memory;
      r, lost := AddStack(root, own, entry, segments, codePhys, loadedBytes, m0, f0, path, leaves);
      if r.Ok? {
        RootKeptFurther(m0[root := m0[kernelRoot]], started, before, root);
        RootKeptFurther(m0[root := m0[kernelRoot]], before, memory, root);
      }
    }

    /** Maps the stack page and describes the finished space. */
    method AddStack(root: u64, own: Ownership, entry: u64, segments: seq<Segment>, codePhys: u64, loadedBytes: nat,
                    ghost m0: Memory, ghost f0: set<u64>, ghost pathWas: seq<u64>, ghost leavesWas: map<nat, u64>)
      returns (r: Result<UserAddressSpace, UserError>, ghost lost: set<u64>)
      requires GoodProgram(entry, segments) && Account(m0, f0, own.pages, {})
      requires Building(memory, own.pages, pathWas, leavesWas) && |pathWas| == 4 && pathWas[0] == root
      requires Loaded(memory, leavesWas, segments, |segments|)
      requires Counted(|own.pages|, 4, leavesWas, ProgramPages(segments))
      requires loadedBytes == DataBytes(segments) && CodeLeaf(leavesWas, segments, |segments|, codePhys)
      modifies this, own
      ensures Account(m0, f0, own.pages, lost)
      ensures r.Err? ==> |lost| <= 1 && (lost != {} <==> r == Err(DirectMapUnavailable)) && Shortage(r.error)
      ensures r.Err? ==> ShortOf(r.error, |own.pages|, free, Needed(segments))
      ensures r.Err? ==> StuckStep(old(stuck), stuck, r.error, returnsWork)
      ensures r.Ok? ==> lost == {} && stuck == old(stuck) && RootKept(old(memory), memory, root)
      ensures r.Ok? ==> root in own.pages
      ensures r.Ok? ==> r.value.owned == own.pages && r.value.entry == entry && r.value.root == root
      ensures r.Ok? ==> r.value.kernelRoot == kernelRoot && |own.pages| == Needed(segments)
      ensures r.Ok? ==> Finished(memory, r.value, segments)
    {
      hide AccountOf, Building, Placed, Extends, GoodSegment, Address, RootKept, EntryAt, Present, Zeros, Finished,
        IsUser, IsWritable, IsExecutable, StuckStep, Account, ProgramPages, CodeLeaf, DataBytes, RawLeaf, ProgramPage,
        Shortage, Counted, ShortOf, InSegment, Loaded, ProgramLoaded, PagesOverlap, EntryIn, Faithful;
      StackIsProgram(segments);
      BelowStack(entry, segments, memory, leavesWas);
      RoomFor(|own.pages|, 4, leavesWas, STACK_PAGE, ProgramPages(segments));
      ghost var before, count := memory, |own.pages|;
      ghost var path, leaves;
      var mapped, stackPhys;
      mapped, stackPhys, lost, path, leaves :=
        LoadPage(root, own, StackSegment(), STACK_PAGE, m0, f0, pathWas, leavesWas);
      if mapped.Fail? {
        ShortSooner(mapped.error, |own.pages|, free, count + 1, Needed(segments));
        return Err(mapped.error), lost;
      }
      StackLoaded(before, memory, leavesWas, leaves, segments);
      ExtendsLeaf(before, leavesWas, memory, leaves);
      CodeLeafStays(leavesWas, leaves, segments, codePhys);
      CountedStep(count, 4, leavesWas, leaves, STACK_PAGE, ProgramPages(segments));
      AllLoaded(memory, |own.pages|, leaves, segments);
      BuildingTables(memory, own.pages, path, leaves);
      FinishBuilding(memory, own.pages, path, leaves, entry, segments);
      var codeEntry := RawLeaf(memory, root, entry);
      var stackEntry := RawLeaf(memory, root, PageVirt(STACK_PAGE));
      var kernelEntry := EntryAt(memory, root, 0);
      var space := UserAddressSpace(kernelRoot, root, codePhys, stackPhys, entry, USER_STACK_TOP - 16, loadedBytes,
        !IsUser(kernelEntry),
        IsUser(codeEntry.value) && !IsWritable(codeEntry.value) && IsExecutable(codeEntry.value),
        IsUser(stackEntry.value) && IsWritable(stackEntry.value) && !IsExecutable(stackEntry.value),
        own.pages);
      SpaceFinished(memory, own.pages, path, leaves, entry, segments, space);
      r := Ok(space);
    }

    /** Builds the address space of a program, or gives back everything it took. */
    method CreateUserAddressSpace(entry: u64, segments: seq<Segment>) returns (r: Result<UserAddressSpace, UserError>)
      requires kernelRoot in memory && kernelRoot !in Pool() && Pool() <= memory.Keys && free !! stuck
      requires forall p :: p in Pool() ==> p % PAGE_SIZE == 0
      modifies this
      ensures memory.Keys == old(memory).Keys
      ensures forall p :: p in old(memory) && p !in old(Pool()) ==> memory[p] == old(memory)[p]
      ensures r.Ok? ==> GoodProgram(entry, segments) && Finished(memory, r.value, segments)
      ensures r.Ok? ==> r.value.root in old(Pool()) && r.value.entry == entry && r.value.kernelRoot == kernelRoot
      ensures r.Ok? ==> RootKept(old(memory)[r.value.root := old(memory)[kernelRoot]], memory, r.value.root)
      ensures r.Ok? ==> Account(old(memory), old(Pool()), r.value.owned, {}) && stuck == old(stuck)
      ensures r.Ok? ==> |r.value.owned| == Needed(segments) && HasRoom(old(memory), old(free), kernelRoot, segments)
      ensures !GoodProgram(entry, segments) ==>
        && ValidateProgram(entry, segments).Fail? && r == Err(ValidateProgram(entry, segments).error)
        && free == old(free) && stuck == old(stuck) && memory == old(memory)
      ensures GoodProgram(entry, segments) && r.Err? ==>
        && PoolKept(old(free), old(stuck), free, stuck, kernelRoot, r.error, returnsWork)
        && Justified(old(memory), old(free), kernelRoot, segments, r.error)
      ensures GoodProgram(entry, segments) && AllUnreachable(old(free)) ==>
        r == Err(DirectMapUnavailable) && exists p :: p in old(Pool()) && Pool() == old(Pool()) - {p}
    {
      hide Finished, Needed, ShortOf, RootKept, EntryAt, GoodProgram, ValidateProgram, Present, AccountOf, StuckStep,
        Shortage, AllUnreachable, PoolKept, Justified, HasRoom, Pool, Account;
      ValidateMeaning(entry, segments);
      NothingStuck(stuck, returnsWork);
      var valid := ValidateProgram(entry, segments);
      if valid.Fail? {
        return Err(valid.error);
      }
      var own := new Ownership();
      ghost var lost;
      ghost var m0, f0 := memory, Pool();
      OwnsNothing();
      r, lost := BuildUserSpace(entry, segments, own, m0, f0);
      AccountIs(m0, f0, own.pages, lost);
      if r.Err? {
        FailedBuild(memory, free, stuck, m0, old(free), old(stuck), own.pages, lost, kernelRoot, segments, r.error,
                    returnsWork);
        ReclaimJustified(m0, old(free), kernelRoot, segments);
        var error := Restore(own, r.error, m0, f0, lost, old(stuck));
        PoolIs();
        PoolAfter(old(free), old(stuck), free, stuck, lost, kernelRoot, r.error, error, returnsWork);
        r := Err(error);
      } else {
        DoneBuild(memory, free, stuck, m0, old(free), own.pages, kernelRoot, segments);
        FinishedRoot(memory, r.value, segments);
      }
    }

    lemma PoolIs()
      ensures Pool() == free + stuck
    {
    }

    lemma OwnsNothing()
      requires Pool() <= memory.Keys && free !! stuck && forall p :: p in Pool() ==> p % PAGE_SIZE == 0
      ensures Account(memory, Pool(), [], {}) && Pool() == free + stuck
    {
      hide AccountOf;
      AllInPool(memory, Pool());
    }

    lemma AccountIs(m0: Memory, f0: set<u64>, owned: seq<u64>, lost: set<u64>)
      requires Account(m0, f0, owned, lost)
      ensures free !! stuck && AccountOf(memory, free + stuck, m0, f0, owned, lost) && memory.Keys == m0.Keys
      ensures forall p :: p in m0 && p !in f0 ==> memory[p] == m0[p]
      ensures forall p :: p in owned ==> p in f0
    {
    }

    /** Gives back everything a failed build took, and reports a failure of that first. */
    method Restore(own: Ownership, error: UserError, ghost m0: Memory, ghost f0: set<u64>, ghost lost: set<u64>,
                   ghost was: set<u64>)
      returns (r: UserError)
      requires Account(m0, f0, own.pages, lost) && StuckStep(was, stuck, error, returnsWork)
      modifies this
      ensures Pool() == f0 - lost && free !! stuck && memory.Keys == m0.Keys
      ensures forall p :: p in m0 && p !in f0 ==> memory[p] == m0[p]
      ensures r == error || r == PageReclamationFailed
      ensures own.pages == [] ==> r == error
      ensures StuckStep(was, stuck, r, returnsWork)
    {
      hide AccountOf, StuckStep;
      ghost var middle := stuck;
      var reclaimed := Reclaim(own.pages, m0, f0, lost);
      if reclaimed.Fail? {
        StuckAfter(was, middle, stuck, error, returnsWork);
        return reclaimed.error;
      }
      r := error;
    }

    /** Gives back all pages of a space that is not the active one. */
    method DestroyUserAddressSpace(space: UserAddressSpace, currentRoot: u64, ghost m0: Memory, ghost f0: set<u64>)
      returns (r: Outcome<UserError>)
      requires Account(m0, f0, space.owned, {})
      modifies this
      ensures currentRoot == space.root ==> r == Fail(ActiveAddressSpace) && memory == old(memory) && free == old(free)
      ensures currentRoot != space.root ==> Pool() == f0 && (r.Pass? || r == Fail(PageReclamationFailed))
      ensures r.Pass? ==> stuck == old(stuck)
      ensures r.Fail? ==> StuckStep(old(stuck), stuck, r.error, returnsWork)
      ensures memory.Keys == m0.Keys && forall p :: p in m0 && p !in f0 ==> memory[p] == m0[p]
    {
      if currentRoot == space.root {
        return Fail(ActiveAddressSpace);
      }
      r := Reclaim(space.owned, m0, f0, {});
    }

    /** Zeroes the owned pages, last first, and gives them back to the pool. */
    method Reclaim(pages: seq<u64>, ghost m0: Memory, ghost f0: set<u64>, ghost lost: set<u64>)
      returns (r: Outcome<UserError>)
      requires Account(m0, f0, pages, lost)
      modifies this
      ensures Pool() == f0 - lost && free !! stuck && memory.Keys == m0.Keys
      ensures pages == [] ==> r.Pass?
      ensures r.Pass? ==> stuck == old(stuck)
      ensures r.Fail? ==> r.error == PageReclamationFailed && StuckStep(old(stuck), stuck, r.error, returnsWork)
      ensures forall p :: p in m0 && p !in f0 ==> memory[p] == m0[p]
      ensures forall i :: 0 <= i < |pages| ==> memory[pages[i]] == Zeros(PAGE_SIZE)
    {
      hide Zeros, AccountOf, Pool, StuckStep;
      var n := |pages|;
      assert pages[..n] == pages;
      OwnedInMemory(memory, Pool(), m0, f0, pages, lost);
      ghost var keys := memory.Keys;
      var failed := false;
      while n > 0
        invariant 0 <= n <= |pages|
        invariant memory.Keys == keys && Account(m0, f0, pages[..n], lost)
        invariant failed ==> n < |pages|
        invariant !failed ==> stuck == old(stuck)
        invariant failed ==> StuckStep(old(stuck), stuck, PageReclamationFailed, returnsWork)
        invariant forall i :: n <= i < |pages| ==> memory[pages[i]] == Zeros(PAGE_SIZE)
      {
        var phys := pages[n - 1];
        assert phys == pages[..n][n - 1];
        ghost var stuckWas := stuck;
        ReturnPage(memory, Pool(), m0, f0, pages[..n], lost, Zeros(PAGE_SIZE));
        assert pages[..n][..n - 1] == pages[..n - 1];
        memory := memory[phys := Zeros(PAGE_SIZE)];
        var returned := DeallocatePage(phys);
        StuckFurther(old(stuck), stuckWas, stuck, returnsWork);
        if !returned {
          failed := true;
        }
        n := n - 1;
      }
      assert pages[..0] == [];
      AllReturned(memory, Pool(), m0, f0, lost);
      r := if failed then Fail(PageReclamationFailed) else Pass;
    }
  }

  lemma ShapeDistinct(m: Memory, path: seq<u64>, leaves: map<nat, u64>)
    requires Shape(m, path, leaves)
    ensures forall i, j :: 0 <= i < j < |path| ==> path[i] != path[j]
  {
  }

  lemma RootAfterWrite(m: Memory, path: seq<u64>, leaves: map<nat, u64>, level: nat, entry: u64)
    requires Shape(m, path, leaves) && level < |path| && level < 3
    ensures RootKept(m, SetEntry(m, path[level], SlotOf(level), entry), path[0])
  {
    ShapeDistinct(m, path, leaves);
    ShapeLength(m, path, leaves);
    hide Shape, EntryAt, SetEntry, RootKept;
    if level == 0 {
      RootSlotWritten(m, path[0], entry);
    } else {
      RootSame(m, SetEntry(m, path[level], SlotOf(level), entry), path[0]);
    }
  }

  lemma ShapeLength(m: Memory, path: seq<u64>, leaves: map<nat, u64>)
    requires Shape(m, path, leaves)
    ensures 1 <= |path| <= 4 && forall i :: 0 <= i < |path| ==> path[i] in m
  {
  }

  // ----- Facts about a space that grows page by page

  /** A consistent space whose tables and frames are all owned. */
  ghost predicate Building(m: Memory, owned: seq<u64>, path: seq<u64>, leaves: map<nat, u64>)
  {
    && Shape(m, path, leaves) && Frames(m, path, leaves)
    && (forall i :: 0 <= i < |path| ==> path[i] in owned)
    && (forall x :: x in leaves ==> Address(leaves[x]) in owned)
  }

  predicate InSegment(seg: Segment, x: nat)
  {
    x < USER_PAGES && Covers(seg, x)
  }

  /** The page holds the segment's bytes and has the segment's permissions. */
  ghost predicate Placed(m: Memory, leaves: map<nat, u64>, seg: Segment, p: nat)
  {
    && p < USER_PAGES && p in leaves && Address(leaves[p]) in m
    && IsWritable(leaves[p]) == seg.writable && IsExecutable(leaves[p]) == seg.executable
    && m[Address(leaves[p])] == PageImage(seg, PageVirt(p))
  }

  /** Nothing that was mapped before is remapped or changed. */
  ghost predicate Extends(m: Memory, leaves: map<nat, u64>, m': Memory, leaves': map<nat, u64>)
  {
    forall x :: x in leaves ==>
      && x in leaves' && leaves'[x] == leaves[x]
      && Address(leaves[x]) in m && Address(leaves[x]) in m' && m'[Address(leaves[x])] == m[Address(leaves[x])]
  }

  lemma ExtendsLeaf(m: Memory, leaves: map<nat, u64>, m': Memory, leaves': map<nat, u64>)
    requires Extends(m, leaves, m', leaves')
    ensures forall x :: x in leaves ==> x in leaves' && leaves'[x] == leaves[x]
  {
  }

  lemma ExtendsItself(m: Memory, leaves: map<nat, u64>)
    requires forall x :: x in leaves ==> Address(leaves[x]) in m
    ensures Extends(m, leaves, m, leaves)
  {
  }

  lemma ExtendsFurther(m: Memory, l: map<nat, u64>, m1: Memory, l1: map<nat, u64>, m2: Memory, l2: map<nat, u64>)
    requires Extends(m, l, m1, l1) && Extends(m1, l1, m2, l2)
    ensures Extends(m, l, m2, l2)
  {
  }

  lemma PlacedStays(m: Memory, l: map<nat, u64>, m': Memory, l': map<nat, u64>, seg: Segment, p: nat)
    requires Placed(m, l, seg, p) && Extends(m, l, m', l')
    ensures Placed(m', l', seg, p)
  {
    hide Address, PageImage;
  }

  /** The pages of a segment from `first` up to `p` have been entered, and no others. */
  ghost predicate SegmentIn(m: Memory, was: map<nat, u64>, leaves: map<nat, u64>, seg: Segment, first: nat, p: nat)
  {
    && (forall x: nat :: x in leaves <==> x in was || first <= x < p)
    && (forall x: nat :: first <= x < p ==> Placed(m, leaves, seg, x))
  }

  lemma NothingIn(m: Memory, leaves: map<nat, u64>, seg: Segment, first: nat)
    ensures SegmentIn(m, leaves, leaves, seg, first, first)
  {
  }

  lemma SegmentInStep(m: Memory, m': Memory, was: map<nat, u64>, l: map<nat, u64>, l': map<nat, u64>, seg: Segment,
                      first: nat, p: nat)
    requires SegmentIn(m, was, l, seg, first, p) && first <= p && Extends(m, l, m', l')
    requires l'.Keys == l.Keys + {p} && Placed(m', l', seg, p)
    ensures SegmentIn(m', was, l', seg, first, p + 1)
  {
    hide Placed, Extends;
    forall x: nat | first <= x < p
      ensures Placed(m', l', seg, x)
    {
      PlacedStays(m, l, m', l', seg, x);
    }
  }

  /** No page of the segment has been entered, and all of them may be. */
  ghost predicate Free(seg: Segment, leaves: map<nat, u64>, all: set<nat>)
  {
    forall x: nat :: InSegment(seg, x) ==> x !in leaves && x in all
  }

  lemma FreeSegment(seg: Segment, leaves: map<nat, u64>, all: set<nat>)
    requires forall x: nat :: InSegment(seg, x) ==> x !in leaves
    requires forall x: nat :: InSegment(seg, x) ==> x in all
    ensures Free(seg, leaves, all)
  {
    hide InSegment;
  }

  /** The pages of a segment up to `p` have been loaded, starting from `m0` and `l0`. */
  ghost predicate Underway(m0: Memory, l0: map<nat, u64>, m: Memory, owned: nat, tables: nat, leaves: map<nat, u64>,
                           seg: Segment, code: u64, code': u64, p: nat, all: set<nat>, root: u64)
    requires GoodSegment(seg)
  {
    && Free(seg, l0, all)
    && RootKept(m0, m, root) && Extends(m0, l0, m, leaves) && SegmentIn(m, l0, leaves, seg, SegmentPages(seg).0, p)
    && Counted(owned, tables, leaves, all) && CodeTaken(seg, code, code', leaves, SegmentPages(seg).0, p)
  }

  lemma StartUnderway(m: Memory, owned: nat, tables: nat, leaves: map<nat, u64>, seg: Segment, code: u64, all: set<nat>,
                      root: u64)
    requires GoodSegment(seg) && Free(seg, leaves, all) && Counted(owned, tables, leaves, all) && root in m
    requires forall x :: x in leaves ==> Address(leaves[x]) in m
    ensures Underway(m, leaves, m, owned, tables, leaves, seg, code, code, SegmentPages(seg).0, all, root)
  {
    hide GoodSegment, Free, Counted, RootKept, Extends, SegmentIn, CodeTaken, Address;
    var first := SegmentPages(seg).0;
    RootSame(m, m, root);
    ExtendsItself(m, leaves);
    NothingIn(m, leaves, seg, first);
    CodeNotTaken(seg, code, leaves, first);
  }

  lemma UnderwayNext(m0: Memory, l0: map<nat, u64>, m: Memory, owned: nat, tables: nat, leaves: map<nat, u64>,
                     seg: Segment, code: u64, code': u64, p: nat, all: set<nat>, root: u64)
    requires GoodSegment(seg) && SegmentPages(seg).0 <= p < SegmentPages(seg).1 && tables <= 4
    requires Underway(m0, l0, m, owned, tables, leaves, seg, code, code', p, all, root)
    ensures p !in leaves && p in all && p < USER_PAGES && owned + 5 - tables <= 4 + |all|
  {
    hide GoodSegment, Free, Counted, RootKept, Extends, SegmentIn, CodeTaken, SegmentPages;
    NextIsFree(m, l0, leaves, seg, p, all);
    RoomFor(owned, tables, leaves, p, all);
  }

  lemma UnderwayStep(m0: Memory, l0: map<nat, u64>, m: Memory, m': Memory, owned: nat, tables: nat,
                     leaves: map<nat, u64>, leaves': map<nat, u64>, seg: Segment, code: u64, was: u64, now: u64,
                     p: nat, all: set<nat>, root: u64)
    requires GoodSegment(seg) && SegmentPages(seg).0 <= p < SegmentPages(seg).1 && tables <= 4
    requires Underway(m0, l0, m, owned, tables, leaves, seg, code, was, p, all, root)
    requires Extends(m, leaves, m', leaves') && Placed(m', leaves', seg, p) && RootKept(m, m', root)
    requires leaves'.Keys == leaves.Keys + {p}
    requires p in leaves' && now == if seg.executable && was == 0 then Address(leaves'[p]) else was
    ensures Underway(m0, l0, m', owned + 5 - tables, 4, leaves', seg, code, now, p + 1, all, root)
  {
    UnderwayNext(m0, l0, m, owned, tables, leaves, seg, code, was, p, all, root);
    hide GoodSegment, Free, Counted, RootKept, Extends, SegmentIn, CodeTaken, SegmentPages, Placed, Address;
    var first := SegmentPages(seg).0;
    CountedStep(owned, tables, leaves, leaves', p, all);
    ExtendsLeaf(m, leaves, m', leaves');
    CodeTakenStep(seg, code, was, now, leaves, leaves', first, p);
    RootKeptFurther(m0, m, m', root);
    ExtendsFurther(m0, l0, m, leaves, m', leaves');
    SegmentInStep(m, m', l0, leaves, leaves', seg, first, p);
  }

  lemma Arrived(m0: Memory, l0: map<nat, u64>, m: Memory, owned: nat, tables: nat, leaves: map<nat, u64>,
                seg: Segment, code: u64, code': u64, all: set<nat>, root: u64)
    requires GoodSegment(seg)
    requires Underway(m0, l0, m, owned, tables, leaves, seg, code, code', SegmentPages(seg).1, all, root)
    ensures RootKept(m0, m, root) && Extends(m0, l0, m, leaves) && Counted(owned, tables, leaves, all)
    ensures SegmentIn(m, l0, leaves, seg, SegmentPages(seg).0, SegmentPages(seg).1)
    ensures CodeTaken(seg, code, code', leaves, SegmentPages(seg).0, SegmentPages(seg).1)
  {
  }

  lemma NextIsFree(m: Memory, was: map<nat, u64>, leaves: map<nat, u64>, seg: Segment, p: nat, all: set<nat>)
    requires GoodSegment(seg) && SegmentIn(m, was, leaves, seg, SegmentPages(seg).0, p)
    requires SegmentPages(seg).0 <= p < SegmentPages(seg).1
    requires Free(seg, was, all)
    ensures p !in leaves && p in all && p < USER_PAGES
  {
    hide Placed, GoodSegment, InSegment;
    SegmentSpan(seg);
  }

  /** Exactly the pages of the first `n` segments have been entered. */
  ghost predicate Loaded(m: Memory, leaves: map<nat, u64>, segments: seq<Segment>, n: nat)
    requires n <= |segments|
  {
    && (forall x: nat :: x in leaves ==> exists j :: 0 <= j < n && InSegment(segments[j], x))
    && (forall j, x: nat :: 0 <= j < n && InSegment(segments[j], x) ==> Placed(m, leaves, segments[j], x))
  }

  lemma NothingLoaded(m: Memory, segments: seq<Segment>)
    ensures Loaded(m, map[], segments, 0)
  {
  }

  lemma LoadedStep(m: Memory, m': Memory, l: map<nat, u64>, l': map<nat, u64>, segments: seq<Segment>, i: nat)
    requires i < |segments| && GoodSegment(segments[i]) && Loaded(m, l, segments, i) && Extends(m, l, m', l')
    requires SegmentIn(m', l, l', segments[i], SegmentPages(segments[i]).0, SegmentPages(segments[i]).1)
    ensures Loaded(m', l', segments, i + 1)
  {
    hide Placed, Extends, InSegment, GoodSegment;
    SegmentSpan(segments[i]);
    forall j, x: nat | 0 <= j < i && InSegment(segments[j], x)
      ensures Placed(m', l', segments[j], x)
    {
      PlacedStays(m, l, m', l', segments[j], x);
    }
    forall x: nat | x in l'
      ensures exists j :: 0 <= j < i + 1 && InSegment(segments[j], x)
    {
      if x in l {
        var j :| 0 <= j < i && InSegment(segments[j], x);
      }
    }
  }

  /** The stack comes on top of the segments. */
  lemma StackLoaded(m: Memory, m': Memory, l: map<nat, u64>, l': map<nat, u64>, segments: seq<Segment>)
    requires Loaded(m, l, segments, |segments|) && Extends(m, l, m', l') && l'.Keys == l.Keys + {STACK_PAGE}
    ensures ProgramLoaded(m', l', segments)
  {
    hide Placed, Extends, InSegment;
    forall j, x: nat | 0 <= j < |segments| && InSegment(segments[j], x)
      ensures Placed(m', l', segments[j], x)
    {
      PlacedStays(m, l, m', l', segments[j], x);
    }
  }

  ghost predicate ProgramLoaded(m: Memory, leaves: map<nat, u64>, segments: seq<Segment>)
  {
    && (forall x: nat :: x in leaves ==> ProgramPage(segments, x))
    && (forall j, x: nat :: 0 <= j < |segments| && InSegment(segments[j], x) ==> Placed(m, leaves, segments[j], x))
  }

  lemma BuildingTables(m: Memory, owned: seq<u64>, path: seq<u64>, leaves: map<nat, u64>)
    requires Building(m, owned, path, leaves)
    ensures 1 <= |path| <= 4 && forall i :: 0 <= i < |path| ==> path[i] in m && path[i] in owned
  {
    hide Address, EntryAt;
  }

  lemma BuildingRoot(m: Memory, owned: seq<u64>, path: seq<u64>, leaves: map<nat, u64>)
    requires Building(m, owned, path, leaves)
    ensures |path| >= 1 && forall x :: x in leaves ==> Address(leaves[x]) in m
  {
    hide Address, EntryAt;
  }

  /** The page numbers a good segment spans. */
  function SegmentPages(seg: Segment): (r: (nat, nat))
    requires GoodSegment(seg)
    ensures r.0 < r.1 <= STACK_PAGE
    ensures forall x :: 0 <= x < USER_PAGES ==> (Covers(seg, x) <==> r.0 <= x < r.1)
  {
    var first := (PageStart(seg) - USER_CODE_BASE) / PAGE_SIZE;
    var last := (PageEnd(seg) - USER_CODE_BASE) / PAGE_SIZE;
    assert PageStart(seg) == USER_CODE_BASE + first * PAGE_SIZE;
    assert PageEnd(seg) == USER_CODE_BASE + last * PAGE_SIZE;
    (first, last)
  }

  lemma SegmentSpan(seg: Segment)
    requires GoodSegment(seg)
    ensures forall x: nat :: InSegment(seg, x) <==> SegmentPages(seg).0 <= x < SegmentPages(seg).1
  {
    hide Covers, GoodSegment;
  }

  /** Filling a newly owned page disturbs nothing. */
  lemma NewPageAside(m: Memory, m': Memory, owned: seq<u64>, page: u64, path: seq<u64>, leaves: map<nat, u64>)
    requires Building(m, owned, path, leaves) && page !in owned && m'.Keys == m.Keys
    requires forall p :: p in m && p != page ==> m'[p] == m[p]
    ensures Building(m', owned + [page], path, leaves) && Extends(m, leaves, m', leaves)
    ensures Shape(m', path, leaves) && page !in path && forall i :: 0 <= i < |path| ==> path[i] in owned + [page]
    ensures forall x :: x in leaves ==> Address(leaves[x]) != page
  {
    hide Address, EntryAt, MakeEntry, Present, IsUser, Frame;
    ShapeLength(m, path, leaves);
    ShapeFrame(m, m', path, leaves);
  }

  /** Entering the filled page keeps the space consistent and puts the segment's
      bytes behind the new leaf. */
  lemma PageEntered(before: Memory, filled: Memory, after: Memory, ownedWas: seq<u64>, owned: seq<u64>,
                    path: seq<u64>, path': seq<u64>, leaves: map<nat, u64>, leaves': map<nat, u64>,
                    p: nat, page: u64, seg: Segment)
    requires p < USER_PAGES && Frame(page) && page in filled && p !in leaves
    requires Building(filled, ownedWas + [page], path, leaves) && Extends(before, leaves, filled, leaves)
    requires page !in path && forall x :: x in leaves ==> Address(leaves[x]) != page
    requires leaves' == leaves[p := MakeEntry(page, seg.writable, true, seg.executable)]
    requires Shape(after, path', leaves') && path <= path' && ownedWas + [page] <= owned && after.Keys == filled.Keys
    requires forall i :: 0 <= i < |path'| ==> path'[i] in owned
    requires forall i :: |path| <= i < |path'| ==> path'[i] !in ownedWas + [page]
    requires forall q :: q in after && q !in path' ==> after[q] == filled[q]
    requires filled[page] == PageImage(seg, PageVirt(p))
    ensures Building(after, owned, path', leaves') && Extends(before, leaves, after, leaves')
    ensures Placed(after, leaves', seg, p)
  {
    hide Shape, EntryAt, MakeEntry, Present, PageImage;
    EntryParts(page, seg.writable, true, seg.executable);
    MaskedIff(page);
    hide Address, IsUser, IsWritable, IsExecutable, Frame;
    assert Address(leaves'[p]) == page;
    assert page in ownedWas + [page];
    forall x | x in leaves
      ensures Address(leaves[x]) in owned && Address(leaves[x]) !in path'
    {
      var f := Address(leaves[x]);
      assert f in ownedWas + [page] && f !in path;
      OffPath(f, ownedWas + [page], path, path');
    }
    OffPath(page, ownedWas + [page], path, path');
  }

  lemma OffPath(f: u64, owned: seq<u64>, path: seq<u64>, path': seq<u64>)
    requires f in owned && f !in path && path <= path'
    requires forall i :: |path| <= i < |path'| ==> path'[i] !in owned
    ensures f !in path'
  {
  }

  lemma ReturnPage(m: Memory, free: set<u64>, m0: Memory, f0: set<u64>, owned: seq<u64>, lost: set<u64>,
                   zero: PageBytes)
    requires AccountOf(m, free, m0, f0, owned, lost) && |owned| > 0
    ensures forall i :: 0 <= i < |owned| ==> owned[i] in m && owned[i] !in free
    ensures AccountOf(m[owned[|owned| - 1] := zero], free + {owned[|owned| - 1]}, m0, f0, owned[..|owned| - 1], lost)
  {
    var last := |owned| - 1;
    var phys := owned[last];
    forall p | p in f0
      ensures p in free + {phys} || p in owned[..last] || p in lost
    {
      if p in owned && p != phys {
        var k :| 0 <= k < |owned| && owned[k] == p;
        assert owned[..last][k] == p;
      }
    }
  }

  // ----- A finished address space

  datatype UserAddressSpace = UserAddressSpace(
    kernelRoot: u64,
    root: u64,
    codePhys: u64,
    stackPhys: u64,
    entry: u64,
    stackTop: u64,
    codeBytes: nat,
    kernelMappingSupervisorOnly: bool,
    codeUserReadExecute: bool,
    stackUserReadWrite: bool,
    owned: seq<u64>)

  /** How many bytes the segments bring along. */
  ghost function DataBytes(segments: seq<Segment>): nat
  {
    if segments == [] then 0 else DataBytes(segments[..|segments| - 1]) + |segments[|segments| - 1].data|
  }

  /** The pages of the user region that the program uses. */
  ghost function ProgramPages(segments: seq<Segment>): set<nat>
  {
    set x: nat | x < USER_PAGES && ProgramPage(segments, x)
  }

  /** The pages a space takes: the root, three tables below it, and the program's pages. */
  ghost function Needed(segments: seq<Segment>): nat
  {
    4 + |ProgramPages(segments)|
  }

  lemma SegmentIsProgram(segments: seq<Segment>, i: nat)
    requires i < |segments|
    ensures forall x: nat :: InSegment(segments[i], x) ==> x in ProgramPages(segments)
  {
    hide Covers;
  }

  lemma StackIsProgram(segments: seq<Segment>)
    ensures STACK_PAGE in ProgramPages(segments) && |ProgramPages(segments)| >= 1
  {
    assert STACK_PAGE in ProgramPages(segments);
  }

  /** With the stack entered as well, every page of the program is. */
  lemma AllLoaded(m: Memory, owned: nat, leaves: map<nat, u64>, segments: seq<Segment>)
    requires Counted(owned, 4, leaves, ProgramPages(segments)) && STACK_PAGE in leaves
    requires ProgramLoaded(m, leaves, segments)
    ensures owned == Needed(segments)
  {
    hide InSegment;
    forall x | x in ProgramPages(segments)
      ensures x in leaves
    {
      if x != STACK_PAGE {
        var j :| 0 <= j < |segments| && InSegment(segments[j], x);
        assert Placed(m, leaves, segments[j], x);
      }
    }
    assert leaves.Keys == ProgramPages(segments);
    assert |leaves| == |leaves.Keys|;
  }

  ghost predicate FirstCode(segments: seq<Segment>, j: nat)
    requires j < |segments|
  {
    segments[j].executable && forall k :: 0 <= k < j ==> !segments[k].executable
  }

  /** `code` is the frame of the first page of the first executable one of the first `n`
      segments, unless that frame is at address zero. */
  ghost predicate CodeLeaf(leaves: map<nat, u64>, segments: seq<Segment>, n: nat, code: u64)
    requires n <= |segments| && forall j :: 0 <= j < |segments| ==> GoodSegment(segments[j])
  {
    && ((forall j :: 0 <= j < n ==> !segments[j].executable) ==> code == 0)
    && forall j :: 0 <= j < n && FirstCode(segments, j) ==>
         var first := SegmentPages(segments[j]).0;
         first in leaves && (Address(leaves[first]) != 0 ==> code == Address(leaves[first]))
  }

  lemma NoCodeYet(leaves: map<nat, u64>, segments: seq<Segment>)
    requires forall j :: 0 <= j < |segments| ==> GoodSegment(segments[j])
    ensures CodeLeaf(leaves, segments, 0, 0)
  {
  }

  lemma CodeLeafStep(was: map<nat, u64>, leaves: map<nat, u64>, segments: seq<Segment>, i: nat, code: u64, code': u64)
    requires i < |segments| && forall j :: 0 <= j < |segments| ==> GoodSegment(segments[j])
    requires CodeLeaf(was, segments, i, code) && forall x :: x in was ==> x in leaves && leaves[x] == was[x]
    requires CodeTaken(segments[i], code, code', leaves, SegmentPages(segments[i]).0, SegmentPages(segments[i]).1)
    ensures CodeLeaf(leaves, segments, i + 1, code')
  {
    hide Address, SegmentPages, GoodSegment;
  }

  lemma CodeLeafStays(was: map<nat, u64>, leaves: map<nat, u64>, segments: seq<Segment>, code: u64)
    requires forall j :: 0 <= j < |segments| ==> GoodSegment(segments[j])
    requires CodeLeaf(was, segments, |segments|, code) && forall x :: x in was ==> x in leaves && leaves[x] == was[x]
    ensures CodeLeaf(leaves, segments, |segments|, code)
  {
    hide Address, SegmentPages, GoodSegment;
  }

  /** The stack page as a segment: zeroed, writable, not executable. */
  function StackSegment(): Segment
  {
    Segment(USER_PROGRAM_LIMIT, [], PAGE_SIZE, true, false)
  }

  /** The page of address `a` is a user page with these permissions that holds `b` at `a`. */
  ghost predicate Mapped(m: Memory, root: u64, a: u64, writable: bool, executable: bool, b: byte)
    requires root in m
  {
    && RawLeaf(m, root, a).Some?
    && IsUser(RawLeaf(m, root, a).value)
    && IsWritable(RawLeaf(m, root, a).value) == writable
    && IsExecutable(RawLeaf(m, root, a).value) == executable
    && UserRead(m, root, a) == Some(b)
  }

  /** A page of the program: one of a segment's, or the stack. */
  ghost predicate ProgramPage(segments: seq<Segment>, x: nat)
  {
    x == STACK_PAGE || exists j :: 0 <= j < |segments| && InSegment(segments[j], x)
  }

  /** Every byte of the program is where it should be, with its permissions, and nothing else
      is mapped for it. */
  ghost predicate Faithful(m: Memory, root: u64, segments: seq<Segment>)
  {
    && root in m
    && (forall j, a: u64 :: 0 <= j < |segments| && InBytes(segments[j], a) ==>
          Mapped(m, root, a, segments[j].writable, segments[j].executable, ByteAt(segments[j], a)))
    && (forall a: u64 :: USER_PROGRAM_LIMIT <= a < USER_STACK_TOP ==> Mapped(m, root, a, true, false, 0))
    && (forall a: u64 :: USER_CODE_BASE <= a < USER_STACK_TOP && RawLeaf(m, root, a).Some? ==>
          !(IsWritable(RawLeaf(m, root, a).value) && IsExecutable(RawLeaf(m, root, a).value)))
    && (forall a: u64 :: L4Index(a) == USER_L4 && RawLeaf(m, root, a).Some? ==>
          L3Index(a) == 0 && L2Index(a) == 0 && ProgramPage(segments, L1Index(a)))
  }

  /** The stack pointer lies in the stack, on a boundary and with room for two words above. */
  ghost predicate StackReady(m: Memory, space: UserAddressSpace)
    requires space.root in m
  {
    && space.stackTop % 16 == 0 && space.stackTop + 16 == USER_STACK_TOP
    && (forall a: u64 :: USER_PROGRAM_LIMIT <= a < space.stackTop + 16 ==> Mapped(m, space.root, a, true, false, 0))
    && PageFrame(m, space.root, STACK_PAGE) == Some(space.stackPhys)
  }

  /** What a successful build promises: the mappings, and a description that is true of them. */
  ghost predicate Finished(m: Memory, space: UserAddressSpace, segments: seq<Segment>)
  {
    && Faithful(m, space.root, segments)
    && StackReady(m, space)
    && space.codeUserReadExecute && space.stackUserReadWrite
    && (space.kernelMappingSupervisorOnly <==> !IsUser(EntryAt(m, space.root, 0)))
    && space.codeBytes == DataBytes(segments)
    && (forall j :: 0 <= j < |segments| && GoodSegment(segments[j]) && FirstCode(segments, j) ==>
          PageFrame(m, space.root, SegmentPages(segments[j]).0) in {Some(space.codePhys), Some(0)})
  }

  /** The frame behind a page of the user region. */
  ghost function PageFrame(m: Memory, root: u64, p: nat): Option<u64>
    requires root in m && p < USER_PAGES
  {
    var e := RawLeaf(m, root, PageVirt(p));
    if e.None? then None else Some(Address(e.value))
  }

  lemma LeafFrame(m: Memory, owned: seq<u64>, path: seq<u64>, leaves: map<nat, u64>, p: nat)
    requires Building(m, owned, path, leaves) && |path| == 4 && p < USER_PAGES && p in leaves
    ensures path[0] in m && PageFrame(m, path[0], p) == Some(Address(leaves[p]))
  {
    hide RawLeaf, Address, Shape, Frames;
    BuildingTables(m, owned, path, leaves);
    ShapeIsWalk(m, path, leaves, p, PageVirt(p));
  }

  predicate InBytes(seg: Segment, a: u64)
  {
    seg.virtualAddress <= a < seg.virtualAddress + seg.memorySize
  }

  lemma KernelRootKept(m: Memory, free: set<u64>, m0: Memory, f0: set<u64>, owned: seq<u64>, kernelRoot: u64)
    requires AccountOf(m, free, m0, f0, owned, {}) && kernelRoot in m0 && kernelRoot !in f0
    ensures kernelRoot in m && m[kernelRoot] == m0[kernelRoot] && kernelRoot !in owned
  {
  }

  lemma SameEntry2(a: Memory, s: u64, b: Memory, t: u64, x: nat)
    requires s in a && t in b && a[s] == b[t] && x < TABLE_ENTRIES
    ensures EntryAt(a, s, x) == EntryAt(b, t, x)
  {
  }

  lemma StartBuilding(m: Memory, owned: seq<u64>, root: u64)
    requires root in m && root in owned && Frame(root) && !Present(EntryAt(m, root, USER_L4))
    ensures Building(m, owned, [root], map[])
  {
    hide EntryAt, Present, Frame;
  }

  /** Page-disjoint segments never meet in a page number. */
  lemma Disjoint(entry: u64, segments: seq<Segment>, i: nat, m: Memory, leaves: map<nat, u64>)
    requires GoodProgram(entry, segments) && i < |segments| && Loaded(m, leaves, segments, i)
    ensures GoodSegment(segments[i]) && forall x: nat :: InSegment(segments[i], x) ==> x !in leaves
  {
    forall j, x: nat | 0 <= j < i && InSegment(segments[i], x)
      ensures !InSegment(segments[j], x)
    {
      assert !PagesOverlap(segments[i], segments[j]);
    }
  }

  lemma SegmentBelowStack(seg: Segment)
    requires GoodSegment(seg)
    ensures !InSegment(seg, STACK_PAGE)
  {
  }

  lemma BelowStack(entry: u64, segments: seq<Segment>, m: Memory, leaves: map<nat, u64>)
    requires GoodProgram(entry, segments) && Loaded(m, leaves, segments, |segments|)
    ensures STACK_PAGE !in leaves
  {
    hide Placed, InSegment, PagesOverlap, EntryIn, GoodSegment;
    if STACK_PAGE in leaves {
      var j :| 0 <= j < |segments| && InSegment(segments[j], STACK_PAGE);
      SegmentBelowStack(segments[j]);
    }
  }

  /** The page number of an address of the user region. */
  function PageNumber(a: u64): (p: nat)
    requires USER_CODE_BASE <= a < USER_STACK_TOP
    ensures p < USER_PAGES && PageVirt(p) <= a < PageVirt(p) + PAGE_SIZE && a % PAGE_SIZE == a - PageVirt(p)
  {
    (a - USER_CODE_BASE) / PAGE_SIZE
  }

  lemma BytesInPages(seg: Segment, a: u64)
    requires GoodSegment(seg) && InBytes(seg, a)
    ensures USER_CODE_BASE <= a < USER_STACK_TOP && InSegment(seg, PageNumber(a))
  {
  }

  lemma PlacedIsMapped(m: Memory, owned: seq<u64>, path: seq<u64>, leaves: map<nat, u64>, seg: Segment, a: u64)
    requires Building(m, owned, path, leaves) && |path| == 4 && USER_CODE_BASE <= a < USER_STACK_TOP
    requires Placed(m, leaves, seg, PageNumber(a))
    ensures path[0] in m && Mapped(m, path[0], a, seg.writable, seg.executable, ByteAt(seg, a))
  {
    hide RawLeaf, Address, IsUser, IsWritable, IsExecutable, ByteAt, PageNumber, Shape, Frames, PageImage;
    var p := PageNumber(a);
    BuildingTables(m, owned, path, leaves);
    ShapeIsWalk(m, path, leaves, p, a);
    ShapeUser(m, path, leaves, p);
    ImageByte(seg, p, a);
  }

  lemma ImageByte(seg: Segment, p: nat, a: u64)
    requires p < USER_PAGES && PageVirt(p) <= a < PageVirt(p) + PAGE_SIZE && a % PAGE_SIZE == a - PageVirt(p)
    ensures PageImage(seg, PageVirt(p))[a % PAGE_SIZE] == ByteAt(seg, a)
  {
    hide ByteAt;
  }

  lemma ShapeUser(m: Memory, path: seq<u64>, leaves: map<nat, u64>, p: nat)
    requires Shape(m, path, leaves) && p in leaves
    ensures IsUser(leaves[p])
  {
  }

  lemma FinishBuilding(m: Memory, owned: seq<u64>, path: seq<u64>, leaves: map<nat, u64>, entry: u64,
                       segments: seq<Segment>)
    requires Building(m, owned, path, leaves) && |path| == 4 && GoodProgram(entry, segments)
    requires ProgramLoaded(m, leaves, segments) && Placed(m, leaves, StackSegment(), STACK_PAGE)
    ensures path[0] in m && RawLeaf(m, path[0], entry).Some? && RawLeaf(m, path[0], PageVirt(STACK_PAGE)).Some?
  {
    hide Building, Placed, RawLeaf, UserRead, PagesOverlap, InSegment, PageNumber, ByteAt;
    var j :| 0 <= j < |segments| && EntryIn(entry, segments[j]);
    BytesInPages(segments[j], entry);
    PlacedIsMapped(m, owned, path, leaves, segments[j], entry);
    StackPageNumber();
    PlacedIsMapped(m, owned, path, leaves, StackSegment(), PageVirt(STACK_PAGE));
  }

  lemma StackPageNumber()
    ensures forall a: u64 :: USER_PROGRAM_LIMIT <= a < USER_STACK_TOP ==> PageNumber(a) == STACK_PAGE
    ensures PageVirt(STACK_PAGE) == USER_PROGRAM_LIMIT
  {
  }

  lemma SpaceFaithful(m: Memory, owned: seq<u64>, path: seq<u64>, leaves: map<nat, u64>, entry: u64,
                      segments: seq<Segment>)
    requires Building(m, owned, path, leaves) && |path| == 4 && GoodProgram(entry, segments)
    requires ProgramLoaded(m, leaves, segments) && Placed(m, leaves, StackSegment(), STACK_PAGE)
    ensures path[0] in m && Faithful(m, path[0], segments)
  {
    hide Building, Placed, RawLeaf, UserRead, PagesOverlap, InSegment, PageNumber, ByteAt, IsUser, IsWritable,
      IsExecutable;
    BuildingTables(m, owned, path, leaves);
    var root := path[0];
    forall j, a: u64 | 0 <= j < |segments| && InBytes(segments[j], a)
      ensures Mapped(m, root, a, segments[j].writable, segments[j].executable, ByteAt(segments[j], a))
    {
      BytesInPages(segments[j], a);
      PlacedIsMapped(m, owned, path, leaves, segments[j], a);
    }
    StackPageNumber();
    forall a: u64 | USER_PROGRAM_LIMIT <= a < USER_STACK_TOP
      ensures Mapped(m, root, a, true, false, 0)
    {
      PlacedIsMapped(m, owned, path, leaves, StackSegment(), a);
      assert ByteAt(StackSegment(), a) == 0 by { StackIsZero(a); }
    }
    forall a: u64 | USER_CODE_BASE <= a < USER_STACK_TOP && RawLeaf(m, root, a).Some?
      ensures !(IsWritable(RawLeaf(m, root, a).value) && IsExecutable(RawLeaf(m, root, a).value))
    {
      LeafIsKnown(m, owned, path, leaves, a);
      var p := PageNumber(a);
      if p == STACK_PAGE {
        PlacedIsMapped(m, owned, path, leaves, StackSegment(), a);
      } else {
        assert ProgramPage(segments, p);
        var j :| 0 <= j < |segments| && InSegment(segments[j], p);
        PlacedIsMapped(m, owned, path, leaves, segments[j], a);
      }
    }
    forall a: u64 | L4Index(a) == USER_L4 && RawLeaf(m, root, a).Some?
      ensures L3Index(a) == 0 && L2Index(a) == 0 && ProgramPage(segments, L1Index(a))
    {
      BuildingOnlyLeaves(m, owned, path, leaves, a);
    }
  }

  lemma SpaceFinished(m: Memory, owned: seq<u64>, path: seq<u64>, leaves: map<nat, u64>, entry: u64,
                      segments: seq<Segment>, space: UserAddressSpace)
    requires Building(m, owned, path, leaves) && |path| == 4 && GoodProgram(entry, segments)
    requires ProgramLoaded(m, leaves, segments) && Placed(m, leaves, StackSegment(), STACK_PAGE)
    requires path[0] in m && space.root == path[0] && space.stackTop == USER_STACK_TOP - 16
    requires STACK_PAGE in leaves && space.stackPhys == Address(leaves[STACK_PAGE])
    requires space.codeBytes == DataBytes(segments) && CodeLeaf(leaves, segments, |segments|, space.codePhys)
    requires space.kernelMappingSupervisorOnly == !IsUser(EntryAt(m, path[0], 0))
    requires RawLeaf(m, path[0], entry).Some? && RawLeaf(m, path[0], PageVirt(STACK_PAGE)).Some?
    requires var c := RawLeaf(m, path[0], entry).value;
      space.codeUserReadExecute == (IsUser(c) && !IsWritable(c) && IsExecutable(c))
    requires var k := RawLeaf(m, path[0], PageVirt(STACK_PAGE)).value;
      space.stackUserReadWrite == (IsUser(k) && IsWritable(k) && !IsExecutable(k))
    ensures Finished(m, space, segments)
  {
    hide Building, Placed, RawLeaf, UserRead, PagesOverlap, InSegment, PageNumber, ByteAt, IsUser, IsWritable,
      IsExecutable, ProgramLoaded, Address, EntryAt, SegmentPages, PageFrame, DataBytes, ProgramPage, L1Index, L2Index,
      L3Index, L4Index, GoodProgram;
    SpaceFaithful(m, owned, path, leaves, entry, segments);
    StackPageNumber();
    LeafFrame(m, owned, path, leaves, STACK_PAGE);
    forall j | 0 <= j < |segments| && GoodSegment(segments[j]) && FirstCode(segments, j)
      ensures PageFrame(m, space.root, SegmentPages(segments[j]).0) in {Some(space.codePhys), Some(0)}
    {
      LeafFrame(m, owned, path, leaves, SegmentPages(segments[j]).0);
    }
    EntryIsCode(m, path[0], entry, segments);
    assert Mapped(m, space.root, PageVirt(STACK_PAGE), true, false, 0);
  }

  lemma EntryIsCode(m: Memory, root: u64, entry: u64, segments: seq<Segment>)
    requires GoodProgram(entry, segments) && Faithful(m, root, segments) && RawLeaf(m, root, entry).Some?
    ensures var c := RawLeaf(m, root, entry).value; IsUser(c) && !IsWritable(c) && IsExecutable(c)
  {
    hide RawLeaf, UserRead, PagesOverlap, ByteAt, IsUser, IsWritable, IsExecutable, ProgramPage, L1Index, L2Index,
      L3Index, L4Index;
    var j :| 0 <= j < |segments| && EntryIn(entry, segments[j]);
    assert InBytes(segments[j], entry);
    assert Mapped(m, root, entry, segments[j].writable, segments[j].executable, ByteAt(segments[j], entry));
  }

  lemma StackIsZero(a: nat)
    ensures ByteAt(StackSegment(), a) == 0
  {
  }

  lemma BuildingOnlyLeaves(m: Memory, owned: seq<u64>, path: seq<u64>, leaves: map<nat, u64>, a: u64)
    requires Building(m, owned, path, leaves) && |path| == 4 && L4Index(a) == USER_L4
    requires path[0] in m && RawLeaf(m, path[0], a).Some?
    ensures L3Index(a) == 0 && L2Index(a) == 0 && L1Index(a) in leaves
  {
    hide EntryAt, RawLeaf, Address, Present, IsUser;
    OnlyLeaves(m, path, leaves, a);
  }

  lemma LeafIsKnown(m: Memory, owned: seq<u64>, path: seq<u64>, leaves: map<nat, u64>, a: u64)
    requires Building(m, owned, path, leaves) && |path| == 4 && path[0] in m
    requires USER_CODE_BASE <= a < USER_STACK_TOP && RawLeaf(m, path[0], a).Some?
    ensures PageNumber(a) in leaves
  {
    hide EntryAt, RawLeaf, Address, Present, IsUser;
    ShapeIsWalk(m, path, leaves, PageNumber(a), a);
  }

  /** What a program asks of the machine: pages in the pool and in the record, a kernel root
      within reach, and a user region that the kernel leaves alone. */
  ghost predicate HasRoom(m: Memory, free: set<u64>, kernelRoot: u64, segments: seq<Segment>)
  {
    && Needed(segments) <= |free| && Needed(segments) <= MAX_OWNED
    && kernelRoot in m && kernelRoot < DIRECT_LIMIT && !Present(EntryAt(m, kernelRoot, USER_L4))
  }

  ghost function Elements(s: seq<u64>): (e: set<u64>)
    ensures forall x :: x in e <==> x in s
  {
    set x | x in s
  }

  lemma {:induction false} DistinctCount(s: seq<u64>)
    requires forall i, j :: 0 <= i < j < |s| ==> s[i] != s[j]
    ensures |Elements(s)| == |s|
  {
    hide Elements;
    if s == [] {
      assert Elements(s) == {};
    } else {
      var last := |s| - 1;
      DistinctCount(s[..last]);
      assert s == s[..last] + [s[last]];
      assert Elements(s) == Elements(s[..last]) + {s[last]};
      assert s[last] !in s[..last];
    }
  }

  /** The owned pages came out of the pool, and an empty pool means that all of it is owned. */
  lemma PagesTaken(m: Memory, free: set<u64>, stuck: set<u64>, m0: Memory, f0: set<u64>, owned: seq<u64>,
                   lost: set<u64>)
    requires free !! stuck && AccountOf(m, free + stuck, m0, f0, owned, lost)
    ensures |owned| <= MAX_OWNED && |owned| <= |f0 - stuck|
    ensures free == {} && lost == {} ==> |f0 - stuck| <= |owned|
  {
    DistinctCount(owned);
    hide Elements;
    var taken := Elements(owned);
    assert taken <= f0 - stuck;
    SubsetSize(taken, f0 - stuck);
    if free == {} && lost == {} {
      assert f0 - stuck <= taken;
      SubsetSize(f0 - stuck, taken);
    }
  }

  lemma AllInPool(m: Memory, free: set<u64>)
    requires free <= m.Keys && forall p :: p in free ==> p % PAGE_SIZE == 0
    ensures AccountOf(m, free, m, free, [], {})
  {
  }

  lemma AccountFacts(m: Memory, pool: set<u64>, m0: Memory, f0: set<u64>, owned: seq<u64>, lost: set<u64>)
    requires AccountOf(m, pool, m0, f0, owned, lost)
    ensures m.Keys == m0.Keys && (forall p :: p in m0 && p !in f0 ==> m[p] == m0[p])
    ensures (forall p :: p in owned ==> p in f0) && lost <= f0 && (forall p :: p in lost ==> p >= DIRECT_LIMIT)
    ensures pool !! lost
  {
  }

  lemma PoolLess(free: set<u64>, stuck: set<u64>)
    requires free !! stuck
    ensures free + stuck - stuck == free
  {
  }

  /** What a failed build leaves of the pool: everything, unless a page was out of reach or
      could not be given back. */
  ghost predicate PoolKept(freeWas: set<u64>, stuckWas: set<u64>, free: set<u64>, stuck: set<u64>, kernelRoot: u64,
                           error: UserError, returnsWork: bool)
  {
    var pool, now := freeWas + stuckWas, free + stuck;
    && free !! stuck && StuckStep(stuckWas, stuck, error, returnsWork)
    && (now == pool || exists p :: p in pool && p >= DIRECT_LIMIT && now == pool - {p})
    && (error != DirectMapUnavailable && error != PageReclamationFailed ==> free == freeWas)
    && (error == DirectMapUnavailable && now == pool ==> kernelRoot >= DIRECT_LIMIT)
    && (returnsWork && (forall p :: p in pool ==> p < DIRECT_LIMIT) ==> free == freeWas)
  }

  /** Why a good program was refused. */
  ghost predicate Justified(m: Memory, free: set<u64>, kernelRoot: u64, segments: seq<Segment>, error: UserError)
  {
    match error
    case OutOfPhysicalPages => |free| < Needed(segments)
    case UserPageTrackingCapacity => MAX_OWNED < Needed(segments)
    case UserRegionConflict => kernelRoot in m && Present(EntryAt(m, kernelRoot, USER_L4))
    case DirectMapUnavailable => kernelRoot >= DIRECT_LIMIT || exists p :: p in free && p >= DIRECT_LIMIT
    case PageReclamationFailed => true
    case _ => false
  }

  /** With room, everything within reach and pages that can be given back, a good program is
      never refused. */
  lemma NeverRefused(m: Memory, free: set<u64>, stuck: set<u64>, now: set<u64>, kernelRoot: u64, segments: seq<Segment>,
                     error: UserError)
    requires Justified(m, free, kernelRoot, segments, error) && HasRoom(m, free, kernelRoot, segments)
    requires StuckStep(stuck, now, error, true)
    ensures exists p :: p in free && p >= DIRECT_LIMIT
  {
  }

  /** Pages ran out only if there were fewer than the program needs. */
  lemma FailedBuild(m: Memory, free: set<u64>, stuck: set<u64>, m0: Memory, freeWas: set<u64>, stuckWas: set<u64>,
                    owned: seq<u64>, lost: set<u64>, kernelRoot: u64, segments: seq<Segment>, error: UserError,
                    returnsWork: bool)
    requires freeWas !! stuckWas && free !! stuck && AccountOf(m, free + stuck, m0, freeWas + stuckWas, owned, lost)
    requires StuckStep(stuckWas, stuck, error, returnsWork) && ShortOf(error, |owned|, free, Needed(segments))
    requires kernelRoot in m0
    requires Shortage(error) || (error == UserRegionConflict && Present(EntryAt(m0, kernelRoot, USER_L4)))
    requires lost != {} ==> error == DirectMapUnavailable
    requires error == DirectMapUnavailable && kernelRoot < DIRECT_LIMIT ==> lost != {}
    ensures Justified(m0, freeWas, kernelRoot, segments, error)
    ensures lost <= freeWas + stuckWas && forall p :: p in lost ==> p >= DIRECT_LIMIT
  {
    hide Present, EntryAt, Needed, AccountOf;
    AccountFacts(m, free + stuck, m0, freeWas + stuckWas, owned, lost);
    PagesTaken(m, free, stuck, m0, freeWas + stuckWas, owned, lost);
    if error == OutOfPhysicalPages {
      PoolLess(freeWas, stuckWas);
    } else if error == DirectMapUnavailable && kernelRoot < DIRECT_LIMIT {
      var p :| p in lost;
      assert p in freeWas + stuckWas && p !in free + stuck;
    }
  }

  lemma DoneBuild(m: Memory, free: set<u64>, stuck: set<u64>, m0: Memory, freeWas: set<u64>, owned: seq<u64>,
                  kernelRoot: u64, segments: seq<Segment>)
    requires freeWas !! stuck && free !! stuck && AccountOf(m, free + stuck, m0, freeWas + stuck, owned, {})
    requires |owned| == Needed(segments)
    requires kernelRoot in m0 && kernelRoot < DIRECT_LIMIT && !Present(EntryAt(m0, kernelRoot, USER_L4))
    ensures HasRoom(m0, freeWas, kernelRoot, segments)
  {
    hide Present, EntryAt, Needed, AccountOf;
    PagesTaken(m, free, stuck, m0, freeWas + stuck, owned, {});
    PoolLess(freeWas, stuck);
  }

  lemma ReclaimJustified(m: Memory, free: set<u64>, kernelRoot: u64, segments: seq<Segment>)
    ensures Justified(m, free, kernelRoot, segments, PageReclamationFailed)
  {
  }

  lemma PoolAfter(freeWas: set<u64>, stuckWas: set<u64>, free: set<u64>, stuck: set<u64>, lost: set<u64>,
                  kernelRoot: u64, cause: UserError, error: UserError, returnsWork: bool)
    requires freeWas !! stuckWas && free !! stuck && free + stuck == freeWas + stuckWas - lost
    requires |lost| <= 1 && lost <= freeWas + stuckWas && forall p :: p in lost ==> p >= DIRECT_LIMIT
    requires (lost != {} ==> cause == DirectMapUnavailable) && (error == cause || error == PageReclamationFailed)
    requires cause == DirectMapUnavailable && kernelRoot < DIRECT_LIMIT ==> lost != {}
    requires StuckStep(stuckWas, stuck, error, returnsWork)
    ensures PoolKept(freeWas, stuckWas, free, stuck, kernelRoot, error, returnsWork)
    ensures lost != {} ==> exists p :: p in freeWas + stuckWas && free + stuck == freeWas + stuckWas - {p}
  {
    LostOne(freeWas + stuckWas, lost);
    if lost == {} {
      assert free + stuck == freeWas + stuckWas;
      if stuck == stuckWas {
        assert forall x :: x in free <==> x in freeWas;
        assert free == freeWas;
      }
    } else {
      var p :| p in freeWas + stuckWas && lost == {p};
      assert p in lost;
      assert p !in free + stuck;
    }
  }

  lemma LostOne(f0: set<u64>, lost: set<u64>)
    requires |lost| <= 1 && lost <= f0
    ensures lost == {} || exists p :: p in f0 && lost == {p}
  {
    if lost != {} {
      var p :| p in lost;
      assert |lost - {p}| == |lost| - 1;
      assert lost == {p};
    }
  }

  lemma FinishedRoot(m: Memory, space: UserAddressSpace, segments: seq<Segment>)
    requires Finished(m, space, segments)
    ensures space.root in m
  {
  }
}
