/** Changing the tree: insertion, removal, permission changes and the creation of
    missing parent directories, as maps from paths to entries. */
module FsNamespace {
  import opened Bytes
  import opened Wrappers
  import opened FsPath
  import opened FsTree

  // ----- Byte order of names

  predicate Before(a: seq<byte>, b: seq<byte>)
  {
    a == [] || (b != [] && (a[0] < b[0] || (a[0] == b[0] && Before(a[1..], b[1..]))))
  }

  lemma {:induction false} BeforeTotal(a: seq<byte>, b: seq<byte>)
    ensures Before(a, b) || Before(b, a)
  {
    if a != [] && b != [] {
      BeforeTotal(a[1..], b[1..]);
    }
  }

  lemma {:induction false} BeforeTransitive(a: seq<byte>, b: seq<byte>, c: seq<byte>)
    requires Before(a, b) && Before(b, c)
    ensures Before(a, c)
  {
    if a != [] && a[0] == b[0] == c[0] {
      BeforeTransitive(a[1..], b[1..], c[1..]);
    }
  }

  ghost predicate Sorted(entries: seq<Entry>)
  {
    forall i, j :: 0 <= i < j < |entries| ==> Before(entries[i].name, entries[j].name)
  }

  /** Puts `e` behind every entry that is not after it. */
  function Insert(entries: seq<Entry>, e: Entry): (r: seq<Entry>)
    ensures |r| == |entries| + 1
  {
    if entries == [] || Before(entries[|entries| - 1].name, e.name) then entries + [e]
    else Insert(entries[..|entries| - 1], e) + [entries[|entries| - 1]]
  }

  function Sort(entries: seq<Entry>): (r: seq<Entry>)
    ensures |r| == |entries|
  {
    if entries == [] then []
    else Insert(Sort(entries[..|entries| - 1]), entries[|entries| - 1])
  }

  /** `r` is `entries` with `e` put at position `k`. */
  ghost predicate InsertedAt(r: seq<Entry>, entries: seq<Entry>, e: Entry, k: nat)
  {
    && |r| == |entries| + 1 && k <= |entries| && r[k] == e
    && (forall i :: 0 <= i < k ==> r[i] == entries[i])
    && (forall i :: k < i < |r| ==> r[i] == entries[i - 1])
  }

  /** Where the new entry goes. */
  lemma {:induction false} InsertPosition(entries: seq<Entry>, e: Entry) returns (k: nat)
    ensures InsertedAt(Insert(entries, e), entries, e, k)
    ensures k > 0 ==> Before(entries[k - 1].name, e.name)
    ensures k < |entries| ==> !Before(entries[k].name, e.name)
  {
    hide Utf8, Before;
    if entries == [] || Before(entries[|entries| - 1].name, e.name) {
      k := |entries|;
    } else {
      k := InsertPosition(entries[..|entries| - 1], e);
    }
  }

  lemma InsertSorts(entries: seq<Entry>, e: Entry)
    requires Sorted(entries)
    ensures Sorted(Insert(entries, e))
  {
    hide Utf8, Before, Insert;
    var k := InsertPosition(entries, e);
    var r := Insert(entries, e);
    forall i, j | 0 <= i < j < |r|
      ensures Before(r[i].name, r[j].name)
    {
      if i < k && j == k && i < k - 1 {
        BeforeTransitive(entries[i].name, entries[k - 1].name, e.name);
      } else if i == k {
        BeforeTotal(e.name, entries[k].name);
        if j > k + 1 {
          BeforeTransitive(e.name, entries[k].name, entries[j - 1].name);
        }
      }
    }
  }

  lemma InsertMembers(entries: seq<Entry>, e: Entry, x: Entry)
    ensures x in Insert(entries, e) <==> x in entries || x == e
  {
    hide Utf8, Before, Insert;
    var k := InsertPosition(entries, e);
    var r := Insert(entries, e);
    if x in entries {
      var i :| 0 <= i < |entries| && entries[i] == x;
      assert r[if i < k then i else i + 1] == x;
    }
    assert r[k] == e;
  }

  lemma {:induction false} SortMembers(entries: seq<Entry>, x: Entry)
    ensures x in Sort(entries) <==> x in entries
  {
    hide Utf8, Insert;
    if entries != [] {
      var last := |entries| - 1;
      SortMembers(entries[..last], x);
      InsertMembers(Sort(entries[..last]), entries[last], x);
      assert entries == entries[..last] + [entries[last]];
    }
  }

  lemma SortHasAll(entries: seq<Entry>)
    ensures forall x :: x in Sort(entries) <==> x in entries
  {
    hide Utf8, Sort;
    forall x: Entry
      ensures x in Sort(entries) <==> x in entries
    {
      SortMembers(entries, x);
    }
  }

  lemma {:induction false} SortSorts(entries: seq<Entry>)
    ensures Sorted(Sort(entries))
  {
    hide Utf8;
    if entries != [] {
      SortSorts(entries[..|entries| - 1]);
      InsertSorts(Sort(entries[..|entries| - 1]), entries[|entries| - 1]);
    }
  }

  lemma {:induction false} SortKeepsSorted(entries: seq<Entry>)
    requires Sorted(entries)
    ensures Sort(entries) == entries
  {
    hide Utf8, Before;
    if entries != [] {
      var last := |entries| - 1;
      var front := entries[..last];
      SortKeepsSorted(front);
      assert entries == front + [entries[last]];
      assert last > 0 ==> Before(front[|front| - 1].name, entries[last].name);
    }
  }

  // ----- A list of entries as a map

  /** The entries by name; with distinct names every entry is in it. */
  function Tree(entries: seq<Entry>): (t: map<Name, Entry>)
    ensures forall n :: n in t ==> t[n].name == n && t[n] in entries
    ensures forall n :: n in t <==> Contains(entries, n)
  {
    if entries == [] then map[]
    else
      var last := |entries| - 1;
      assert entries == entries[..last] + [entries[last]];
      assert forall n :: Contains(entries, n) <==> Contains(entries[..last], n) || n == entries[last].name by {
        assert forall i :: 0 <= i < last ==> entries[..last][i] == entries[i];
      }
      Tree(entries[..last])[entries[last].name := entries[last]]
  }

  lemma {:induction false} TreeLookup(entries: seq<Entry>, i: nat)
    requires Distinct(entries) && i < |entries|
    ensures entries[i].name in Tree(entries) && Tree(entries)[entries[i].name] == entries[i]
  {
    hide Utf8, Before;
    var last := |entries| - 1;
    if i < last {
      assert entries[..last][i] == entries[i];
      TreeLookup(entries[..last], i);
    }
  }

  /** Rearranging a uniquely named list changes neither its names nor its tree. */
  lemma SameTree(a: seq<Entry>, b: seq<Entry>)
    requires (forall x :: x in a <==> x in b) && Distinct(a) && Distinct(b)
    ensures Tree(a) == Tree(b)
  {
    hide Utf8, Before;
    forall n | n in Tree(a)
      ensures n in Tree(b) && Tree(b)[n] == Tree(a)[n]
    {
      var e := Tree(a)[n];
      assert e in a && e in b;
      var j :| 0 <= j < |b| && b[j] == e;
      TreeLookup(b, j);
    }
    forall n | n in Tree(b)
      ensures n in Tree(a)
    {
      var e := Tree(b)[n];
      assert e in b && e in a;
      var j :| 0 <= j < |a| && a[j] == e;
      TreeLookup(a, j);
    }
  }

  lemma InsertDistinct(entries: seq<Entry>, e: Entry)
    requires Distinct(entries) && !Contains(entries, e.name)
    ensures Distinct(Insert(entries, e))
  {
    hide Utf8, Before, Insert;
    var k := InsertPosition(entries, e);
  }

  lemma SameNames(a: seq<Entry>, b: seq<Entry>, name: seq<byte>)
    requires (forall x :: x in a ==> x in b) && Contains(a, name)
    ensures Contains(b, name)
  {
    hide Utf8;
    var i :| 0 <= i < |a| && a[i].name == name;
    assert a[i] in b;
    var j :| 0 <= j < |b| && b[j] == a[i];
  }

  lemma {:induction false} SortDistinct(entries: seq<Entry>)
    requires Distinct(entries)
    ensures Distinct(Sort(entries))
  {
    hide Utf8, Before;
    if entries != [] {
      var last := |entries| - 1;
      var front := entries[..last];
      SortDistinct(front);
      SortHasAll(front);
      var s := Sort(front);
      assert !Contains(front, entries[last].name);
      if Contains(s, entries[last].name) {
        SameNames(s, front, entries[last].name);
      }
      InsertDistinct(s, entries[last]);
    }
  }

  // ----- Missing parent directories

  function NewDirectory(path: Name, permissions: u16): Entry
  {
    Entry(path, [], Directory, permissions)
  }

  /** Adds the default directory of every proper ancestor of `path` that is not
      required yet, nearest first. */
  function RequireAncestors(required: seq<Entry>, path: Name): (r: seq<Entry>)
    requires ValidPath(path)
    ensures forall i :: 0 <= i < |required| ==> required[i] in r
    decreases |path|
  {
    var parent := Parent(path);
    if parent == ROOT then required
    else
      var more := if Position(required, parent) < |required| then required
                  else required + [NewDirectory(parent, DEFAULT_DIRECTORY_PERMISSIONS)];
      RequireAncestors(more, parent)
  }

  predicate AllPaths(entries: seq<Entry>)
  {
    forall i :: 0 <= i < |entries| ==> ValidPath(entries[i].name)
  }

  function Required(entries: seq<Entry>): seq<Entry>
    requires AllPaths(entries)
  {
    if entries == [] then []
    else RequireAncestors(Required(entries[..|entries| - 1]), entries[|entries| - 1].name)
  }

  function AddMissing(entries: seq<Entry>, required: seq<Entry>): (r: Result<seq<Entry>, FsError>)
    decreases |required|
  {
    if required == [] then Ok(entries)
    else
      var i := Position(entries, required[0].name);
      if i < |entries| then
        if entries[i].kind != Directory then Err(NotDirectory) else AddMissing(entries, required[1..])
      else if |entries| >= MAX_FILES then Err(TooManyFiles)
      else AddMissing(entries + [required[0]], required[1..])
  }

  function Materialize(entries: seq<Entry>): (r: Result<seq<Entry>, FsError>)
  {
    if !AllPaths(entries) then Err(InvalidPath)
    else
      var filled :- AddMissing(entries, Sort(Required(entries)));
      Ok(Sort(filled))
  }

  /** Every entry's parent is the root or a directory of the list. */
  ghost predicate Closed(entries: seq<Entry>)
  {
    && AllPaths(entries)
    && forall i :: 0 <= i < |entries| ==> HasDirectory(entries, Parent(entries[i].name))
  }

  ghost predicate HasDirectory(entries: seq<Entry>, path: Name)
  {
    path == ROOT || exists j :: 0 <= j < |entries| && entries[j].name == path && entries[j].kind == Directory
  }

  ghost predicate AllPresent(entries: seq<Entry>, required: seq<Entry>)
  {
    forall i :: 0 <= i < |required| ==> required[i].name != ROOT && HasDirectory(entries, required[i].name)
  }

  lemma {:induction false} AncestorsPresent(entries: seq<Entry>, required: seq<Entry>, path: Name)
    requires Closed(entries) && AllPresent(entries, required)
    requires ValidPath(path) && HasDirectory(entries, Parent(path))
    ensures AllPresent(entries, RequireAncestors(required, path))
    decreases |path|
  {
    hide ValidPath, Utf8, Position, AllPresent;
    var parent := Parent(path);
    if parent != ROOT {
      var j :| 0 <= j < |entries| && entries[j].name == parent && entries[j].kind == Directory;
      assert HasDirectory(entries, Parent(entries[j].name));
      hide Closed, HasDirectory;
      var added := NewDirectory(parent, DEFAULT_DIRECTORY_PERMISSIONS);
      OneMorePresent(entries, required, added);
      var more := if Position(required, parent) < |required| then required else required + [added];
      AncestorsPresent(entries, more, parent);
    }
  }

  lemma OneMorePresent(entries: seq<Entry>, required: seq<Entry>, added: Entry)
    requires AllPresent(entries, required) && added.name != ROOT && HasDirectory(entries, added.name)
    ensures AllPresent(entries, required + [added])
  {
    hide Utf8, HasDirectory;
  }

  lemma {:induction false} RequiredPresent(entries: seq<Entry>, k: nat)
    requires Closed(entries) && k <= |entries|
    ensures AllPresent(entries, Required(entries[..k]))
  {
    hide ValidPath, Utf8, Parent;
    if k > 0 {
      RequiredPresent(entries, k - 1);
      assert entries[..k][..k - 1] == entries[..k - 1];
      AncestorsPresent(entries, Required(entries[..k - 1]), entries[k - 1].name);
    }
  }

  lemma {:induction false} NothingMissing(entries: seq<Entry>, required: seq<Entry>)
    requires Distinct(entries) && AllPresent(entries, required)
    ensures AddMissing(entries, required) == Ok(entries)
  {
    hide Utf8;
    if required != [] {
      var i := Position(entries, required[0].name);
      assert HasDirectory(entries, required[0].name);
      assert AllPresent(entries, required[1..]);
      NothingMissing(entries, required[1..]);
    }
  }

  lemma SortPresent(entries: seq<Entry>, required: seq<Entry>)
    requires AllPresent(entries, required)
    ensures AllPresent(entries, Sort(required))
  {
    hide Utf8, Before;
    var s := Sort(required);
    SortHasAll(required);
    forall i | 0 <= i < |s|
      ensures s[i].name != ROOT && HasDirectory(entries, s[i].name)
    {
      assert s[i] in s;
      var j :| 0 <= j < |required| && required[j] == s[i];
    }
  }

  /** On a tree that is closed under parents nothing is added. */
  lemma MaterializeClosed(entries: seq<Entry>)
    requires Closed(entries) && Distinct(entries)
    ensures Materialize(entries) == Ok(Sort(entries))
  {
    hide ValidPath, Parent, Utf8;
    RequiredPresent(entries, |entries|);
    assert entries[..|entries|] == entries;
    SortPresent(entries, Required(entries));
    NothingMissing(entries, Sort(Required(entries)));
  }

  // ----- What is added to a tree that is not closed

  /** `a` is a directory on the way from the root to `path`. */
  predicate Ancestor(a: Name, path: Name)
    requires ValidPath(path)
    decreases |path|
  {
    var parent := Parent(path);
    parent != ROOT && (a == parent || Ancestor(a, parent))
  }

  ghost predicate NeededBy(entries: seq<Entry>, e: Entry)
    requires AllPaths(entries)
  {
    && ValidPath(e.name)
    && e == NewDirectory(e.name, DEFAULT_DIRECTORY_PERMISSIONS)
    && exists i :: 0 <= i < |entries| && Ancestor(e.name, entries[i].name)
  }

  /** All required entries but the one called `except` have their parent required too. */
  ghost predicate Chained(required: seq<Entry>, except: seq<byte>)
  {
    && AllPaths(required)
    && forall i :: 0 <= i < |required| && required[i].name != except ==> Wanted(required, Parent(required[i].name))
  }

  ghost predicate Wanted(required: seq<Entry>, path: Name)
  {
    path == ROOT || Contains(required, path)
  }

  lemma MoreWanted(required: seq<Entry>, more: seq<Entry>, path: Name)
    requires Wanted(required, path) && forall i :: 0 <= i < |required| ==> required[i] in more
    ensures Wanted(more, path)
  {
    if path != ROOT {
      var i :| 0 <= i < |required| && required[i].name == path;
      assert required[i] in more;
    }
  }

  lemma {:induction false} RequireChain(required: seq<Entry>, path: Name)
    requires ValidPath(path) && Chained(required, path)
    ensures Chained(RequireAncestors(required, path), ROOT)
    ensures Wanted(RequireAncestors(required, path), Parent(path))
    decreases |path|
  {
    hide ValidPath, Utf8, Before;
    var parent := Parent(path);
    if parent != ROOT {
      var added := NewDirectory(parent, DEFAULT_DIRECTORY_PERMISSIONS);
      var more := if Position(required, parent) < |required| then required else required + [added];
      if more != required {
        assert more[|required|].name == parent;
      }
      assert Wanted(more, parent);
      forall i | 0 <= i < |more| && more[i].name != parent
        ensures Wanted(more, Parent(more[i].name))
      {
        assert more[i] == required[i];
        if more[i].name != path {
          MoreWanted(required, more, Parent(required[i].name));
        }
      }
      RequireChain(more, parent);
      MoreWanted(more, RequireAncestors(more, parent), parent);
    } else {
      forall i | 0 <= i < |required|
        ensures Wanted(required, Parent(required[i].name))
      {
      }
    }
  }

  lemma {:induction false} RequiredNeeded(entries: seq<Entry>, path: Name, required: seq<Entry>, k: nat)
    requires AllPaths(entries) && k < |entries| && ValidPath(path)
    requires entries[k].name == path || Ancestor(path, entries[k].name)
    requires forall i :: 0 <= i < |required| ==> NeededBy(entries, required[i])
    ensures forall i :: 0 <= i < |RequireAncestors(required, path)| ==>
      NeededBy(entries, RequireAncestors(required, path)[i])
    decreases |path|
  {
    hide ValidPath, Utf8;
    var parent := Parent(path);
    if parent != ROOT {
      AncestorStep(path, entries[k].name);
      var added := NewDirectory(parent, DEFAULT_DIRECTORY_PERMISSIONS);
      assert NeededBy(entries, added);
      var more := if Position(required, parent) < |required| then required else required + [added];
      RequiredNeeded(entries, parent, more, k);
    }
  }

  lemma {:induction false} AncestorStep(a: Name, path: Name)
    requires ValidPath(path) && ValidPath(a) && Parent(a) != ROOT && (a == path || Ancestor(a, path))
    ensures Ancestor(Parent(a), path)
    decreases |path|
  {
    hide ValidPath, Utf8;
    if a != path && Parent(path) != a {
      AncestorStep(a, Parent(path));
    }
  }

  /** The required directories are ancestors of entries, together with their own parents. */
  lemma {:induction false} RequiredMeaning(entries: seq<Entry>, k: nat)
    requires AllPaths(entries) && k <= |entries|
    ensures Chained(Required(entries[..k]), ROOT)
    ensures forall i :: 0 <= i < |Required(entries[..k])| ==> NeededBy(entries, Required(entries[..k])[i])
    ensures forall i :: 0 <= i < k ==> Wanted(Required(entries[..k]), Parent(entries[i].name))
  {
    hide ValidPath, Utf8, Ancestor;
    if k > 0 {
      RequiredMeaning(entries, k - 1);
      assert entries[..k][..k - 1] == entries[..k - 1];
      var required := Required(entries[..k - 1]);
      var path := entries[k - 1].name;
      assert Chained(required, path);
      RequireChain(required, path);
      RequiredNeeded(entries, path, required, k - 1);
      forall i | 0 <= i < k - 1
        ensures Wanted(Required(entries[..k]), Parent(entries[i].name))
      {
        MoreWanted(required, Required(entries[..k]), Parent(entries[i].name));
      }
    }
  }

  /** An entry of the same name is there, and is a directory if one is wanted. */
  ghost predicate Covered(entries: seq<Entry>, e: Entry)
  {
    exists j :: 0 <= j < |entries| && entries[j].name == e.name && (entries[j].kind == Directory || e.kind != Directory)
  }

  lemma {:induction false} AddMissingMeaning(entries: seq<Entry>, required: seq<Entry>)
    requires Distinct(entries) && AddMissing(entries, required).Ok?
    ensures var filled := AddMissing(entries, required).value;
      && entries <= filled
      && Distinct(filled)
      && (|filled| <= MAX_FILES || filled == entries)
      && (forall i :: |entries| <= i < |filled| ==> filled[i] in required)
    ensures forall i :: 0 <= i < |required| ==> Covered(AddMissing(entries, required).value, required[i])
    decreases |required|
  {
    hide Utf8;
    if required != [] {
      var i := Position(entries, required[0].name);
      var rest := required[1..];
      assert forall k :: 0 < k < |required| ==> required[k] == rest[k - 1];
      if i < |entries| {
        AddMissingMeaning(entries, rest);
        assert AddMissing(entries, required).value[i] == entries[i];
      } else {
        AddMissingMeaning(entries + [required[0]], rest);
        assert AddMissing(entries, required).value[|entries|] == required[0];
      }
    }
  }

  lemma FilledIsClosed(entries: seq<Entry>, required: seq<Entry>, filled: seq<Entry>)
    requires AllPaths(entries) && entries <= filled
    requires Chained(required, ROOT)
    requires forall i :: 0 <= i < |entries| ==> Wanted(required, Parent(entries[i].name))
    requires forall i :: |entries| <= i < |filled| ==> filled[i] in required
    requires forall i :: 0 <= i < |required| ==> HasDirectory(filled, required[i].name)
    ensures Closed(filled)
  {
    hide ValidPath, Utf8, Parent;
    forall i | 0 <= i < |filled|
      ensures ValidPath(filled[i].name) && HasDirectory(filled, Parent(filled[i].name))
    {
      if i >= |entries| {
        var k :| 0 <= k < |required| && required[k] == filled[i];
        assert required[k].name != ROOT by { RootNotPath(required[k].name); }
      }
      assert Wanted(required, Parent(filled[i].name));
      if Parent(filled[i].name) != ROOT {
        var j :| 0 <= j < |required| && required[j].name == Parent(filled[i].name);
      }
    }
  }

  lemma RootNotPath(p: Name)
    requires ValidPath(p)
    ensures p != ROOT
  {
  }

  lemma SortClosed(entries: seq<Entry>)
    requires Closed(entries)
    ensures Closed(Sort(entries))
  {
    hide ValidPath, Utf8, Parent, Before;
    var s := Sort(entries);
    SortHasAll(entries);
    forall i | 0 <= i < |s|
      ensures ValidPath(s[i].name) && HasDirectory(s, Parent(s[i].name))
    {
      assert s[i] in s;
      var k :| 0 <= k < |entries| && entries[k] == s[i];
      var parent := Parent(s[i].name);
      if parent != ROOT {
        var j :| 0 <= j < |entries| && entries[j].name == parent && entries[j].kind == Directory;
        assert entries[j] in entries;
        var m :| 0 <= m < |s| && s[m] == entries[j];
      }
    }
  }

  /** Materialising keeps every entry, adds only default directories that are
      ancestors of entries, and ends in a sorted, uniquely named, closed tree. */
  lemma MaterializeMeaning(entries: seq<Entry>)
    requires Distinct(entries) && Materialize(entries).Ok?
    ensures var next := Materialize(entries).value;
      && Sorted(next) && Distinct(next) && Closed(next)
      && (|entries| <= MAX_FILES ==> |next| <= MAX_FILES)
      && (forall i :: 0 <= i < |entries| ==> entries[i] in next)
      && (forall i :: 0 <= i < |next| && next[i] !in entries ==> NeededBy(entries, next[i]))
  {
    hide ValidPath, Utf8, Parent, NeededBy, AddMissing, Sorted, Distinct, Closed;
    var filled := AddMissing(entries, Sort(Required(entries))).value;
    FilledMeaning(entries, filled);
    SortSorts(filled);
    SortDistinct(filled);
    SortClosed(filled);
    var next := Sort(filled);
    SortHasAll(filled);
    hide Materialize, Sort;
    forall i | 0 <= i < |entries|
      ensures entries[i] in next
    {
      assert filled[i] in filled;
    }
    forall i | 0 <= i < |next| && next[i] !in entries
      ensures NeededBy(entries, next[i])
    {
      assert next[i] in next;
      var j :| 0 <= j < |filled| && filled[j] == next[i];
    }
  }

  lemma FilledMeaning(entries: seq<Entry>, filled: seq<Entry>)
    requires Distinct(entries) && AllPaths(entries)
    requires AddMissing(entries, Sort(Required(entries))) == Ok(filled)
    ensures Distinct(filled) && Closed(filled) && entries <= filled
    ensures |entries| <= MAX_FILES ==> |filled| <= MAX_FILES
    ensures forall i :: |entries| <= i < |filled| ==> NeededBy(entries, filled[i])
  {
    hide ValidPath, Utf8, Parent, NeededBy, AddMissing, Distinct, Closed, Chained, Wanted, Required, Sort, HasDirectory;
    var base := Required(entries);
    RequiredMeaning(entries, |entries|);
    assert entries[..|entries|] == entries;
    AddMissingMeaning(entries, Sort(base));
    SortHasAll(base);
    FilledFrom(entries, base, Sort(base), filled);
    FilledIsClosed(entries, base, filled);
  }

  lemma FilledFrom(entries: seq<Entry>, base: seq<Entry>, required: seq<Entry>, filled: seq<Entry>)
    requires AllPaths(entries) && forall x :: x in required <==> x in base
    requires forall i :: 0 <= i < |base| ==> NeededBy(entries, base[i])
    requires forall i :: |entries| <= i < |filled| ==> filled[i] in required
    requires forall i :: 0 <= i < |required| ==> Covered(filled, required[i])
    ensures forall i :: 0 <= i < |base| ==> HasDirectory(filled, base[i].name)
    ensures forall i :: |entries| <= i < |filled| ==> filled[i] in base
  {
    hide ValidPath, Utf8, NeededBy;
    forall i | 0 <= i < |base|
      ensures HasDirectory(filled, base[i].name)
    {
      NeededIsDirectory(entries, base[i]);
      assert base[i] in base;
      var j :| 0 <= j < |required| && required[j] == base[i];
    }
  }

  lemma NeededIsDirectory(entries: seq<Entry>, e: Entry)
    requires AllPaths(entries) && NeededBy(entries, e)
    ensures e.kind == Directory
  {
  }

  /** Climbs from every entry to the root and collects the directories on the way. */
  method CollectRequired(entries: seq<Entry>) returns (r: Result<seq<Entry>, FsError>)
    ensures r == if AllPaths(entries) then Ok(Required(entries)) else Err(InvalidPath)
  {
    hide ValidPath, Utf8, Position, RequireAncestors, Parent, CharLength;
    var required: seq<Entry> := [];
    for i := 0 to |entries|
      invariant AllPaths(entries[..i]) && required == Required(entries[..i])
    {
      if !ValidPath(entries[i].name) {
        return Err(InvalidPath);
      }
      assert entries[..i + 1][..i] == entries[..i];
      required := Climb(required, entries[i].name);
    }
    assert entries[..|entries|] == entries;
    r := Ok(required);
  }

  method Climb(found: seq<Entry>, start: Name) returns (required: seq<Entry>)
    requires ValidPath(start)
    ensures required == RequireAncestors(found, start)
  {
    hide ValidPath, Utf8;
    required := found;
    var path := start;
    var parent := Parent(path);
    while parent != ROOT
      invariant ValidPath(path) && parent == Parent(path)
      invariant RequireAncestors(required, path) == RequireAncestors(found, start)
      decreases |path|
    {
      if Position(required, parent) == |required| {
        required := required + [NewDirectory(parent, DEFAULT_DIRECTORY_PERMISSIONS)];
      }
      path := parent;
      parent := Parent(path);
    }
  }

  /** The materialiser as it runs: collect, sort, and add what is missing. */
  method MaterializeMissingParents(entries: seq<Entry>) returns (r: Result<seq<Entry>, FsError>)
    ensures r == Materialize(entries)
  {
    hide ValidPath, Utf8, Sort, Required, AllPaths;
    var required :- CollectRequired(entries);
    var sorted := Sort(required);
    var next := entries;
    assert sorted[0..] == sorted;
    for i := 0 to |sorted|
      invariant AddMissing(next, sorted[i..]) == AddMissing(entries, sorted)
    {
      assert sorted[i..][1..] == sorted[i + 1..];
      var p := Position(next, sorted[i].name);
      if p < |next| {
        if next[p].kind != Directory {
          return Err(NotDirectory);
        }
      } else {
        if |next| >= MAX_FILES {
          return Err(TooManyFiles);
        }
        next := next + [sorted[i]];
      }
    }
    r := Ok(Sort(next));
  }
}
