/** The namespace operations of CodexFS, each as the tree it wants to commit. */
module FsOps {
  import opened Bytes
  import opened Wrappers
  import opened FsPath
  import opened FsTree
  import opened FsNamespace

  /** The invariant of a mounted version-3 tree. */
  ghost predicate TreeOk(files: seq<Entry>)
  {
    Sorted(files) && Distinct(files) && |files| <= MAX_FILES && GoodTree(files)
  }

  // ----- The operations

  function WriteNext(files: seq<Entry>, path: Name, data: seq<byte>, permissions: Option<u16>)
    : (r: Result<seq<Entry>, FsError>)
  {
    if !ValidPath(path) then Err(InvalidPath)
    else
      var parent := EnsureParentDirectory(files, path);
      if parent.Fail? then Err(parent.error)
      else
        var i := Position(files, path);
        if i < |files| then
          if files[i].kind != File then Err(IsDirectory)
          else if !Writable(files[i].permissions) then Err(PermissionDenied)
          else
            var mode := if permissions.Some? then permissions.value else files[i].permissions;
            Materialize(files[i := Entry(path, data, File, mode)])
        else if |files| >= MAX_FILES then Err(TooManyFiles)
        else
          var mode := if permissions.Some? then permissions.value else DEFAULT_FILE_PERMISSIONS;
          Materialize(Sort(files + [Entry(path, data, File, mode)]))
  }

  function InsertDirectory(entries: seq<Entry>, path: Name, permissions: u16): (r: Result<seq<Entry>, FsError>)
  {
    var parent := EnsureParentDirectory(entries, path);
    if parent.Fail? then Err(parent.error)
    else
      var i := Position(entries, path);
      if i < |entries| then
        if entries[i].kind != Directory then Err(NotDirectory)
        else Ok(entries[i := entries[i].(permissions := permissions)])
      else if |entries| >= MAX_FILES then Err(TooManyFiles)
      else Ok(Sort(entries + [NewDirectory(path, permissions)]))
  }

  function CreateDirNext(files: seq<Entry>, path: Name, permissions: u16): (r: Result<seq<Entry>, FsError>)
  {
    if !ValidPath(path) then Err(InvalidPath)
    else if permissions >= PERMISSION_LIMIT then Err(InvalidPermissions)
    else
      var next :- InsertDirectory(files, path, permissions);
      Materialize(next)
  }

  /** Where the component starting at `i` ends, as a path of its own. */
  function UpTo(path: Name, i: nat): (prefix: Name)
    requires i <= |path|
  {
    var j := NextSlash(path, i);
    if j == |path| then path
    else
      Utf8Prefix(path, j);
      path[..j]
  }

  /** Makes sure the directory ending with the component at `i` exists. */
  function CreateComponent(entries: seq<Entry>, path: Name, permissions: u16, i: nat): (r: Result<seq<Entry>, FsError>)
    requires i <= |path|
  {
    var current := UpTo(path, i);
    var mode := if current == path then permissions else DEFAULT_DIRECTORY_PERMISSIONS;
    var p := Position(entries, current);
    if p == |entries| then InsertDirectory(entries, current, mode)
    else if entries[p].kind != Directory then Err(NotDirectory)
    else Ok(entries)
  }

  /** Creates the missing directories of `path` from the component at `i` on. */
  function CreateAllFrom(entries: seq<Entry>, path: Name, permissions: u16, i: nat): (r: Result<seq<Entry>, FsError>)
    requires i <= |path|
    decreases |path| - i
  {
    var next := CreateComponent(entries, path, permissions, i);
    var j := NextSlash(path, i);
    if next.Err? || j == |path| then next else CreateAllFrom(next.value, path, permissions, j + 1)
  }

  function CreateDirAllNext(files: seq<Entry>, path: Name, permissions: u16): (r: Result<seq<Entry>, FsError>)
  {
    if !ValidPath(path) then Err(InvalidPath)
    else if permissions >= PERMISSION_LIMIT then Err(InvalidPermissions)
    else
      var next :- CreateAllFrom(files, path, permissions, 1);
      Materialize(next)
  }

  function SetPermissionsNext(files: seq<Entry>, path: Name, permissions: u16): (r: Result<seq<Entry>, FsError>)
  {
    if !ValidPath(path) then Err(InvalidPath)
    else if permissions >= PERMISSION_LIMIT then Err(InvalidPermissions)
    else
      var i := Position(files, path);
      if i == |files| then Err(NotFound)
      else Materialize(files[i := files[i].(permissions := permissions)])
  }

  function RemoveFileNext(files: seq<Entry>, path: Name): (r: Result<seq<Entry>, FsError>)
  {
    if !ValidPath(path) then Err(InvalidPath)
    else
      var i := Position(files, path);
      if i == |files| then Err(NotFound)
      else if files[i].kind != File then Err(IsDirectory)
      else if !Writable(files[i].permissions) then Err(PermissionDenied)
      else Materialize(files[..i] + files[i + 1..])
  }

  function EnsureNoChild(files: seq<Entry>, path: Name, i: nat): (r: Outcome<FsError>)
    requires i <= |files|
    ensures r.Pass? ==> forall k :: i <= k < |files| ==> ValidPath(files[k].name) && Parent(files[k].name) != path
    decreases |files| - i
  {
    if i == |files| then Pass
    else if !ValidPath(files[i].name) then Fail(InvalidPath)
    else if Parent(files[i].name) == path then Fail(DirectoryNotEmpty)
    else EnsureNoChild(files, path, i + 1)
  }

  function RemoveDirNext(files: seq<Entry>, path: Name): (r: Result<seq<Entry>, FsError>)
  {
    if !ValidPath(path) then Err(InvalidPath)
    else
      var i := Position(files, path);
      if i == |files| then Err(NotFound)
      else if files[i].kind != Directory then Err(NotDirectory)
      else if !Writable(files[i].permissions) then Err(PermissionDenied)
      else
        var empty := EnsureNoChild(files, path, 0);
        if empty.Fail? then Err(empty.error)
        else Materialize(files[..i] + files[i + 1..])
  }

  // ----- Changing one entry of a closed tree

  /** Sorted, uniquely named and closed: nothing for the materialiser to do. */
  ghost predicate Settled(files: seq<Entry>)
  {
    Sorted(files) && Distinct(files) && Closed(files)
  }

  lemma GoodTreeIsSettled(files: seq<Entry>)
    requires TreeOk(files)
    ensures Settled(files)
  {
    hide ValidPath, Utf8, Parent, Before;
    forall i | 0 <= i < |files|
      ensures ValidPath(files[i].name) && HasDirectory(files, Parent(files[i].name))
    {
      assert GoodEntry(files, files[i]);
    }
  }

  lemma SettledStays(files: seq<Entry>)
    requires Settled(files)
    ensures Materialize(files) == Ok(files)
  {
    hide Before, ValidPath, Parent, Materialize;
    MaterializeClosed(files);
    SortKeepsSorted(files);
  }

  lemma ReplaceEntry(files: seq<Entry>, i: nat, e: Entry)
    requires Settled(files) && i < |files| && e.name == files[i].name && e.kind == files[i].kind
    ensures Settled(files[i := e])
    ensures Tree(files[i := e]) == Tree(files)[e.name := e]
  {
    hide Before, ValidPath, Parent, Utf8;
    var next := files[i := e];
    assert forall k :: 0 <= k < |files| ==> next[k].name == files[k].name && next[k].kind == files[k].kind;
    forall k | 0 <= k < |next|
      ensures ValidPath(next[k].name) && HasDirectory(next, Parent(next[k].name))
    {
      SameDirectory(files, next, Parent(files[k].name));
    }
    ReplaceTree(files, i, e);
  }

  lemma SameDirectory(files: seq<Entry>, next: seq<Entry>, path: Name)
    requires HasDirectory(files, path)
    requires forall k :: 0 <= k < |files| ==>
      exists j :: 0 <= j < |next| && next[j].name == files[k].name && next[j].kind == files[k].kind
    ensures HasDirectory(next, path)
  {
    if path != ROOT {
      var k :| 0 <= k < |files| && files[k].name == path && files[k].kind == Directory;
    }
  }

  lemma ReplaceTree(files: seq<Entry>, i: nat, e: Entry)
    requires Distinct(files) && i < |files| && e.name == files[i].name
    ensures Tree(files[i := e]) == Tree(files)[e.name := e]
  {
    hide Tree, Utf8;
    var next := files[i := e];
    assert Distinct(next);
    forall n | n in Tree(files)
      ensures n in Tree(next) && Tree(next)[n] == if n == e.name then e else Tree(files)[n]
    {
      var k :| 0 <= k < |files| && files[k].name == n;
      TreeLookup(files, k);
      TreeLookup(next, k);
    }
    forall n | n in Tree(next)
      ensures n in Tree(files) || n == e.name
    {
      var k :| 0 <= k < |next| && next[k].name == n;
      TreeLookup(files, k);
    }
    TreeLookup(next, i);
  }

  lemma AddEntry(files: seq<Entry>, e: Entry)
    requires Settled(files) && !Contains(files, e.name) && ValidPath(e.name) && HasDirectory(files, Parent(e.name))
    ensures Settled(Sort(files + [e]))
    ensures Tree(Sort(files + [e])) == Tree(files)[e.name := e]
  {
    hide Before, ValidPath, Parent, Utf8, Sort, Tree;
    var wide := files + [e];
    forall k | 0 <= k < |wide|
      ensures ValidPath(wide[k].name) && HasDirectory(wide, Parent(wide[k].name))
    {
      assert HasDirectory(files, Parent(wide[k].name));
      assert forall j :: 0 <= j < |files| ==> wide[j] == files[j];
    }
    assert Distinct(wide);
    SortSorts(wide);
    SortDistinct(wide);
    SortClosed(wide);
    SortHasAll(wide);
    SameTree(Sort(wide), wide);
    TreeAppend(files, e);
  }

  lemma TreeAppend(files: seq<Entry>, e: Entry)
    ensures Tree(files + [e]) == Tree(files)[e.name := e]
  {
    hide Utf8;
    assert (files + [e])[..|files + [e]| - 1] == files;
  }

  lemma RemoveEntry(files: seq<Entry>, i: nat)
    requires Settled(files) && i < |files|
    requires forall k :: 0 <= k < |files| ==> Parent(files[k].name) != files[i].name
    ensures Settled(files[..i] + files[i + 1..])
    ensures Tree(files[..i] + files[i + 1..]) == Tree(files) - {files[i].name}
  {
    hide Closed, Parent, Utf8, Tree, Sorted, Distinct;
    var next := files[..i] + files[i + 1..];
    RemoveKeepsOrder(files, i);
    RemoveClosed(files, i, next);
    RemoveTree(files, i, next);
  }

  lemma RemoveClosed(files: seq<Entry>, i: nat, next: seq<Entry>)
    requires Closed(files) && i < |files| && |next| == |files| - 1
    requires forall k :: 0 <= k < |files| ==> Parent(files[k].name) != files[i].name
    requires forall k :: 0 <= k < i ==> next[k] == files[k]
    requires forall k :: i <= k < |next| ==> next[k] == files[k + 1]
    ensures Closed(next)
  {
    hide ValidPath, Parent, Utf8;
    forall k | 0 <= k < |next|
      ensures ValidPath(next[k].name) && HasDirectory(next, Parent(next[k].name))
    {
      var parent := Parent(files[if k < i then k else k + 1].name);
      if parent != ROOT {
        var j :| 0 <= j < |files| && files[j].name == parent && files[j].kind == Directory;
        if j < i {
          assert next[j] == files[j];
        } else {
          assert next[j - 1] == files[j];
        }
      }
    }
  }

  /** A map with exactly the entries of a uniquely named list is its tree. */
  lemma TreeIs(files: seq<Entry>, t: map<Name, Entry>)
    requires Distinct(files)
    requires forall k :: 0 <= k < |files| ==> files[k].name in t && t[files[k].name] == files[k]
    requires forall n :: n in t ==> Contains(files, n)
    ensures Tree(files) == t
  {
    hide Tree, Utf8;
    forall n | n in Tree(files)
      ensures n in t && Tree(files)[n] == t[n]
    {
      var k :| 0 <= k < |files| && files[k].name == n;
      TreeLookup(files, k);
    }
  }

  lemma RemoveTree(files: seq<Entry>, i: nat, next: seq<Entry>)
    requires Distinct(files) && i < |files| && Distinct(next) && |next| == |files| - 1
    requires forall k :: 0 <= k < i ==> next[k] == files[k]
    requires forall k :: i <= k < |next| ==> next[k] == files[k + 1]
    ensures Tree(next) == Tree(files) - {files[i].name}
  {
    hide Tree, Utf8;
    var gone := files[i].name;
    var t := Tree(files) - {gone};
    forall k | 0 <= k < |next|
      ensures next[k].name in t && t[next[k].name] == next[k]
    {
      TreeLookup(files, if k < i then k else k + 1);
      assert next[k].name != gone;
    }
    forall n | n in t
      ensures Contains(next, n)
    {
      assert n in Tree(files) && n != gone;
      assert Contains(files, n);
      var k :| 0 <= k < |files| && files[k].name == n;
      if k < i {
        assert next[k].name == n;
      } else {
        assert next[k - 1].name == n;
      }
    }
    TreeIs(next, t);
  }

  lemma RemoveKeepsOrder(files: seq<Entry>, i: nat)
    requires Sorted(files) && Distinct(files) && i < |files|
    ensures Sorted(files[..i] + files[i + 1..]) && Distinct(files[..i] + files[i + 1..])
  {
    hide Before, Utf8;
    var next := files[..i] + files[i + 1..];
    forall j, k | 0 <= j < k < |next|
      ensures Before(next[j].name, next[k].name) && next[j].name != next[k].name
    {
      var j0, k0 := if j < i then j else j + 1, if k < i then k else k + 1;
      assert next[j] == files[j0] && next[k] == files[k0];
    }
  }

  // ----- What each operation does to the tree

  lemma PositionContains(files: seq<Entry>, path: Name)
    ensures Position(files, path) == |files| ==> !Contains(files, path)
  {
  }

  lemma ParentDirectoryPresent(files: seq<Entry>, path: Name)
    requires EnsureParentDirectory(files, path).Pass?
    ensures ValidPath(path) && HasDirectory(files, Parent(path))
  {
    hide Parent, ValidPath, Utf8;
  }

  /** A write replaces or adds exactly the named file. */
  lemma WriteMeaning(files: seq<Entry>, path: Name, data: seq<byte>, permissions: Option<u16>)
    requires TreeOk(files) && WriteNext(files, path, data, permissions).Ok?
    ensures Settled(WriteNext(files, path, data, permissions).value)
    ensures path in Tree(files) ==> Tree(files)[path].kind == File && Writable(Tree(files)[path].permissions)
    ensures var mode := if permissions.Some? then permissions.value
                        else if path in Tree(files) then Tree(files)[path].permissions
                        else DEFAULT_FILE_PERMISSIONS;
      Tree(WriteNext(files, path, data, permissions).value) == Tree(files)[path := Entry(path, data, File, mode)]
  {
    hide ValidPath, Parent, Utf8, Materialize, Sort, Tree, TreeOk, Settled, Writable, EnsureParentDirectory, Position;
    GoodTreeIsSettled(files);
    TreeOkDistinct(files);
    var i := Position(files, path);
    if i < |files| {
      var mode := if permissions.Some? then permissions.value else files[i].permissions;
      var e := Entry(path, data, File, mode);
      TreeLookup(files, i);
      ReplaceEntry(files, i, e);
      SettledStays(files[i := e]);
    } else {
      var mode := if permissions.Some? then permissions.value else DEFAULT_FILE_PERMISSIONS;
      var e := Entry(path, data, File, mode);
      PositionContains(files, path);
      ParentDirectoryPresent(files, path);
      AddEntry(files, e);
      SettledStays(Sort(files + [e]));
    }
  }

  lemma TreeOkDistinct(files: seq<Entry>)
    requires TreeOk(files)
    ensures Distinct(files)
  {
  }

  /** Inserting a directory adds it, or gives an existing one new permissions. */
  lemma InsertDirectoryMeaning(files: seq<Entry>, path: Name, permissions: u16)
    requires Settled(files) && InsertDirectory(files, path, permissions).Ok?
    ensures Settled(InsertDirectory(files, path, permissions).value)
    ensures path in Tree(files) ==> Tree(files)[path].kind == Directory
    ensures Tree(InsertDirectory(files, path, permissions).value) == Tree(files)[path :=
      if path in Tree(files) then Tree(files)[path].(permissions := permissions) else NewDirectory(path, permissions)]
  {
    hide ValidPath, Parent, Utf8, Sort, Tree, Sorted, Closed, EnsureParentDirectory, Position;
    var i := Position(files, path);
    if i < |files| {
      TreeLookup(files, i);
      ReplaceEntry(files, i, files[i].(permissions := permissions));
    } else {
      PositionContains(files, path);
      ParentDirectoryPresent(files, path);
      AddEntry(files, NewDirectory(path, permissions));
    }
  }

  lemma CreateDirMeaning(files: seq<Entry>, path: Name, permissions: u16)
    requires TreeOk(files) && CreateDirNext(files, path, permissions).Ok?
    ensures Settled(CreateDirNext(files, path, permissions).value)
    ensures path in Tree(files) ==> Tree(files)[path].kind == Directory
    ensures Tree(CreateDirNext(files, path, permissions).value) == Tree(files)[path :=
      if path in Tree(files) then Tree(files)[path].(permissions := permissions) else NewDirectory(path, permissions)]
  {
    hide ValidPath, InsertDirectory, Materialize, Tree, TreeOk, Settled, Utf8;
    GoodTreeIsSettled(files);
    InsertDirectoryMeaning(files, path, permissions);
    SettledStays(InsertDirectory(files, path, permissions).value);
  }

  lemma SetPermissionsMeaning(files: seq<Entry>, path: Name, permissions: u16)
    requires TreeOk(files) && SetPermissionsNext(files, path, permissions).Ok?
    ensures Settled(SetPermissionsNext(files, path, permissions).value)
    ensures path in Tree(files)
    ensures Tree(SetPermissionsNext(files, path, permissions).value)
      == Tree(files)[path := Tree(files)[path].(permissions := permissions)]
  {
    hide ValidPath, Materialize, Tree, TreeOk, Settled, Utf8, Position;
    GoodTreeIsSettled(files);
    TreeOkDistinct(files);
    var i := Position(files, path);
    var e := files[i].(permissions := permissions);
    TreeLookup(files, i);
    ReplaceEntry(files, i, e);
    SettledStays(files[i := e]);
  }

  /** No entry of a good tree lies below a file. */
  lemma FilesHaveNoChildren(files: seq<Entry>, i: nat)
    requires TreeOk(files) && i < |files| && files[i].kind == File
    ensures forall k :: 0 <= k < |files| ==> ValidPath(files[k].name) && Parent(files[k].name) != files[i].name
  {
    hide ValidPath, Parent, Utf8;
    forall k | 0 <= k < |files|
      ensures ValidPath(files[k].name) && Parent(files[k].name) != files[i].name
    {
      assert GoodEntry(files, files[k]);
      assert GoodEntry(files, files[i]);
      RootNotPath(files[i].name);
    }
  }

  /** Removing takes away exactly the named entry; no parent creation brings it back. */
  lemma RemoveFileMeaning(files: seq<Entry>, path: Name)
    requires TreeOk(files) && RemoveFileNext(files, path).Ok?
    ensures Settled(RemoveFileNext(files, path).value)
    ensures path in Tree(files) && Tree(files)[path].kind == File
    ensures Tree(RemoveFileNext(files, path).value) == Tree(files) - {path}
  {
    hide ValidPath, Materialize, Tree, TreeOk, Settled, Utf8, Parent, Position;
    GoodTreeIsSettled(files);
    TreeOkDistinct(files);
    var i := Position(files, path);
    TreeLookup(files, i);
    FilesHaveNoChildren(files, i);
    RemoveEntry(files, i);
    SettledStays(files[..i] + files[i + 1..]);
  }

  lemma RemoveDirMeaning(files: seq<Entry>, path: Name)
    requires TreeOk(files) && RemoveDirNext(files, path).Ok?
    ensures Settled(RemoveDirNext(files, path).value)
    ensures path in Tree(files) && Tree(files)[path].kind == Directory
    ensures Tree(RemoveDirNext(files, path).value) == Tree(files) - {path}
  {
    hide ValidPath, Materialize, Tree, TreeOk, Settled, Utf8, Parent, Position, EnsureNoChild;
    GoodTreeIsSettled(files);
    TreeOkDistinct(files);
    var i := Position(files, path);
    TreeLookup(files, i);
    RemoveEntry(files, i);
    SettledStays(files[..i] + files[i + 1..]);
  }

  // ----- Creating a directory with all its parents

  lemma {:induction false} PrefixIsAncestor(path: Name, j: nat, prefix: Name)
    requires ValidPath(path) && 0 < j < |path| && path[j] == SLASH && prefix == path[..j]
    ensures Ancestor(prefix, path)
    decreases |path|
  {
    hide Utf8, ValidPath;
    var last := LastSlash(path);
    assert j <= last;
    var parent := Parent(path);
    ParentIs(path, last);
    if j < last {
      assert parent[..j] == path[..j] && parent[j] == path[j];
      PrefixIsAncestor(parent, j, prefix);
    } else {
      assert parent == prefix;
    }
  }

  lemma ParentIs(path: Name, last: nat)
    requires ValidPath(path) && last == LastSlash(path) > 0
    ensures Parent(path) == path[..last] && Parent(path) != ROOT && ValidPath(Parent(path))
  {
    hide Utf8;
    PrefixIsValidPath(path, last);
  }

  /** `next` keeps all of `files` and adds only default directories above `path`
      and `path` itself with the given permissions. */
  ghost predicate GrowsTowards(files: seq<Entry>, next: seq<Entry>, path: Name, permissions: u16)
    requires ValidPath(path)
  {
    && (forall n :: n in Tree(files) ==> n in Tree(next) && Tree(next)[n] == Tree(files)[n])
    && (forall n :: n in Tree(next) && n !in Tree(files) ==>
          || Tree(next)[n] == NewDirectory(path, permissions)
          || (Ancestor(n, path) && Tree(next)[n] == NewDirectory(n, DEFAULT_DIRECTORY_PERMISSIONS)))
  }

  lemma ComponentMeaning(files: seq<Entry>, entries: seq<Entry>, path: Name, permissions: u16, i: nat)
    requires ValidPath(path) && Settled(entries) && 0 < i <= |path|
    requires GrowsTowards(files, entries, path, permissions)
    requires CreateComponent(entries, path, permissions, i).Ok?
    ensures Settled(CreateComponent(entries, path, permissions, i).value)
    ensures GrowsTowards(files, CreateComponent(entries, path, permissions, i).value, path, permissions)
    ensures var t := Tree(CreateComponent(entries, path, permissions, i).value);
      UpTo(path, i) in t && t[UpTo(path, i)].kind == Directory
  {
    hide Utf8, ValidPath, Tree, InsertDirectory, Settled, Position, Ancestor, GrowsTowards;
    var j := NextSlash(path, i);
    var current := UpTo(path, i);
    var mode := if current == path then permissions else DEFAULT_DIRECTORY_PERMISSIONS;
    var p := Position(entries, current);
    if p < |entries| {
      SettledLookup(entries, p);
    } else {
      if j < |path| {
        PrefixIsAncestor(path, j, current);
      }
      PositionContains(entries, current);
      InsertDirectoryMeaning(entries, current, mode);
      GrowStep(files, entries, InsertDirectory(entries, current, mode).value, path, permissions, current, mode);
    }
  }

  lemma {:induction false} CreateAllMeaning(files: seq<Entry>, entries: seq<Entry>, path: Name, permissions: u16,
                                            i: nat)
    requires ValidPath(path) && Settled(entries) && 0 < i <= |path|
    requires GrowsTowards(files, entries, path, permissions)
    requires CreateAllFrom(entries, path, permissions, i).Ok?
    ensures Settled(CreateAllFrom(entries, path, permissions, i).value)
    ensures GrowsTowards(files, CreateAllFrom(entries, path, permissions, i).value, path, permissions)
    ensures path in Tree(CreateAllFrom(entries, path, permissions, i).value)
      && Tree(CreateAllFrom(entries, path, permissions, i).value)[path].kind == Directory
    decreases |path| - i
  {
    hide Utf8, ValidPath, Tree, CreateComponent, Settled, GrowsTowards;
    ComponentMeaning(files, entries, path, permissions, i);
    var j := NextSlash(path, i);
    if j < |path| {
      CreateAllMeaning(files, CreateComponent(entries, path, permissions, i).value, path, permissions, j + 1);
    }
  }

  lemma GrowStep(files: seq<Entry>, entries: seq<Entry>, next: seq<Entry>, path: Name, permissions: u16,
                 current: Name, mode: u16)
    requires ValidPath(path) && GrowsTowards(files, entries, path, permissions)
    requires current !in Tree(entries) && Tree(next) == Tree(entries)[current := NewDirectory(current, mode)]
    requires
      || (current == path && mode == permissions)
      || (Ancestor(current, path) && mode == DEFAULT_DIRECTORY_PERMISSIONS)
    ensures GrowsTowards(files, next, path, permissions)
  {
    hide Tree, Ancestor, ValidPath, Utf8;
  }

  lemma SettledLookup(entries: seq<Entry>, p: nat)
    requires Settled(entries) && p < |entries|
    ensures entries[p].name in Tree(entries) && Tree(entries)[entries[p].name] == entries[p]
  {
    TreeLookup(entries, p);
  }

  lemma CreateDirAllMeaning(files: seq<Entry>, path: Name, permissions: u16)
    requires TreeOk(files) && CreateDirAllNext(files, path, permissions).Ok?
    ensures ValidPath(path)
    ensures Settled(CreateDirAllNext(files, path, permissions).value)
    ensures GrowsTowards(files, CreateDirAllNext(files, path, permissions).value, path, permissions)
    ensures path in Tree(CreateDirAllNext(files, path, permissions).value)
      && Tree(CreateDirAllNext(files, path, permissions).value)[path].kind == Directory
  {
    hide Utf8, Tree, Settled, TreeOk, CreateAllFrom, Materialize, Ancestor;
    GoodTreeIsSettled(files);
    CreateAllMeaning(files, files, path, permissions, 1);
    SettledStays(CreateAllFrom(files, path, permissions, 1).value);
  }
}
