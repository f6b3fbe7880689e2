/** When each namespace operation succeeds and why it is refused, in terms of the tree. */
module FsAccess {
  import opened Bytes
  import opened Wrappers
  import opened FsPath
  import opened FsTree
  import opened FsNamespace
  import opened FsOps

  type Files = map<Name, Entry>

  ghost predicate IsFile(t: Files, path: Name)
  {
    path in t && t[path].kind == File
  }

  ghost predicate IsDirectory(t: Files, path: Name)
  {
    path in t && t[path].kind == Directory
  }

  ghost predicate MayWrite(t: Files, path: Name)
  {
    path in t && Writable(t[path].permissions)
  }

  /** The directory at `path` admits new entries. */
  ghost predicate Open(t: Files, path: Name)
  {
    IsDirectory(t, path) && MayWrite(t, path) && Executable(t[path].permissions)
  }

  /** Entries may be put next to `path`. */
  ghost predicate ParentOpen(t: Files, path: Name)
    requires ValidPath(path)
  {
    Parent(path) == ROOT || Open(t, Parent(path))
  }

  ghost predicate HasChild(t: Files, path: Name)
  {
    exists n :: n in t && ValidPath(n) && Parent(n) == path
  }

  // ----- Lists and trees

  lemma InTree(files: seq<Entry>, path: Name)
    requires Distinct(files)
    ensures var i := Position(files, path);
      && (path in Tree(files) <==> i < |files|)
      && (i < |files| ==> Tree(files)[path] == files[i])
  {
    hide Tree, Utf8;
    var i := Position(files, path);
    if i < |files| {
      TreeLookup(files, i);
    } else {
      PositionContains(files, path);
    }
  }

  /** What the check of the parent directory reports. */
  lemma ParentReport(files: seq<Entry>, path: Name)
    requires Distinct(files) && ValidPath(path)
    ensures var t, r := Tree(files), EnsureParentDirectory(files, path);
      && (r.Pass? <==> ParentOpen(t, path))
      && (r == Fail(ParentMissing) <==> Parent(path) != ROOT && Parent(path) !in t)
      && (r == Fail(NotDirectory) <==> Parent(path) != ROOT && IsFile(t, Parent(path)))
      && (r == Fail(PermissionDenied) <==>
            Parent(path) != ROOT && IsDirectory(t, Parent(path)) && !Open(t, Parent(path)))
      && (r.Fail? ==> r.error in [ParentMissing, NotDirectory, PermissionDenied])
  {
    hide Tree, Utf8, ValidPath, Parent, Writable, Executable;
    if Parent(path) != ROOT {
      InTree(files, Parent(path));
    }
  }

  /** In a good tree the parent of every entry admits entries. */
  lemma EntryParentOpen(files: seq<Entry>, path: Name)
    requires TreeOk(files) && path in Tree(files)
    ensures ValidPath(path) && ParentOpen(Tree(files), path)
  {
    hide Tree, Utf8, ValidPath, Parent, Sorted, Writable, Executable;
    InTree(files, path);
    var e := files[Position(files, path)];
    assert GoodEntry(files, e);
    if Parent(path) != ROOT {
      var j :| 0 <= j < |files| && files[j].name == Parent(path) && files[j].kind == Directory
        && Writable(files[j].permissions) && Executable(files[j].permissions);
      TreeLookup(files, j);
    }
  }

  // ----- Single entries

  /** A write is refused for a bad path, a parent that is missing, no directory or closed, an
      existing directory, a read-only file, or a full tree; and for nothing else. */
  lemma WriteIff(files: seq<Entry>, path: Name, data: seq<byte>, permissions: Option<u16>)
    requires TreeOk(files)
    ensures var t, r := Tree(files), WriteNext(files, path, data, permissions);
      && (r.Ok? <==>
            ValidPath(path) && ParentOpen(t, path)
            && (if path in t then IsFile(t, path) && MayWrite(t, path) else |files| < MAX_FILES))
      && (r == Err(InvalidPath) <==> !ValidPath(path))
      && (r == Err(ParentMissing) <==> ValidPath(path) && Parent(path) != ROOT && Parent(path) !in t)
      && (r == Err(NotDirectory) <==> ValidPath(path) && Parent(path) != ROOT && IsFile(t, Parent(path)))
      && (r == Err(FsError.IsDirectory) <==> ValidPath(path) && IsDirectory(t, path))
      && (r == Err(PermissionDenied) <==>
            || (ValidPath(path) && Parent(path) != ROOT && IsDirectory(t, Parent(path)) && !Open(t, Parent(path)))
            || (IsFile(t, path) && !MayWrite(t, path)))
      && (r == Err(TooManyFiles) <==>
            ValidPath(path) && ParentOpen(t, path) && path !in t && |files| >= MAX_FILES)
  {
    hide ValidPath, Parent, Utf8, Materialize, Sort, Tree, TreeOk, Settled, Writable, Executable, EnsureParentDirectory,
      Position;
    GoodTreeIsSettled(files);
    TreeOkDistinct(files);
    InTree(files, path);
    if path in Tree(files) {
      EntryParentOpen(files, path);
    }
    if ValidPath(path) {
      ParentReport(files, path);
      if EnsureParentDirectory(files, path).Pass? {
        var i := Position(files, path);
        if i == |files| {
          var mode := if permissions.Some? then permissions.value else DEFAULT_FILE_PERMISSIONS;
          AddedStays(files, Entry(path, data, File, mode));
        } else if files[i].kind == File {
          var mode := if permissions.Some? then permissions.value else files[i].permissions;
          ReplacedStays(files, i, Entry(path, data, File, mode));
        }
      }
    }
  }

  lemma ReplacedStays(files: seq<Entry>, i: nat, e: Entry)
    requires Settled(files) && i < |files| && e.name == files[i].name && e.kind == files[i].kind
    ensures Materialize(files[i := e]) == Ok(files[i := e])
  {
    hide Settled, Tree, Materialize, Utf8;
    ReplaceEntry(files, i, e);
    SettledStays(files[i := e]);
  }

  lemma AddedStays(files: seq<Entry>, e: Entry)
    requires Settled(files) && Position(files, e.name) == |files|
    requires EnsureParentDirectory(files, e.name).Pass?
    ensures Materialize(Sort(files + [e])) == Ok(Sort(files + [e]))
  {
    hide Settled, Tree, Materialize, Utf8, Sort, EnsureParentDirectory, ValidPath, Parent;
    PositionContains(files, e.name);
    ParentDirectoryPresent(files, e.name);
    AddEntry(files, e);
    SettledStays(Sort(files + [e]));
  }

  lemma RemovedStays(files: seq<Entry>, i: nat)
    requires Settled(files) && i < |files|
    requires forall k :: 0 <= k < |files| ==> ValidPath(files[k].name) && Parent(files[k].name) != files[i].name
    ensures var next := files[..i] + files[i + 1..]; Materialize(next) == Ok(next)
  {
    hide Settled, Tree, Materialize, Utf8, ValidPath, Parent;
    RemoveEntry(files, i);
    SettledStays(files[..i] + files[i + 1..]);
  }

  lemma SetPermissionsIff(files: seq<Entry>, path: Name, permissions: u16)
    requires TreeOk(files)
    ensures var t, r := Tree(files), SetPermissionsNext(files, path, permissions);
      && (r.Ok? <==> ValidPath(path) && permissions < PERMISSION_LIMIT && path in t)
      && (r == Err(InvalidPath) <==> !ValidPath(path))
      && (r == Err(InvalidPermissions) <==> ValidPath(path) && permissions >= PERMISSION_LIMIT)
      && (r == Err(NotFound) <==> ValidPath(path) && permissions < PERMISSION_LIMIT && path !in t)
  {
    hide ValidPath, Utf8, Materialize, Tree, TreeOk, Settled, Position;
    GoodTreeIsSettled(files);
    TreeOkDistinct(files);
    InTree(files, path);
    var i := Position(files, path);
    if i < |files| {
      ReplacedStays(files, i, files[i].(permissions := permissions));
    }
  }

  /** A file is removed exactly if it is one and may be written. */
  lemma RemoveFileIff(files: seq<Entry>, path: Name)
    requires TreeOk(files)
    ensures var t, r := Tree(files), RemoveFileNext(files, path);
      && (r.Ok? <==> ValidPath(path) && IsFile(t, path) && MayWrite(t, path))
      && (r == Err(InvalidPath) <==> !ValidPath(path))
      && (r == Err(NotFound) <==> ValidPath(path) && path !in t)
      && (r == Err(FsError.IsDirectory) <==> ValidPath(path) && IsDirectory(t, path))
      && (r == Err(PermissionDenied) <==> ValidPath(path) && IsFile(t, path) && !MayWrite(t, path))
  {
    hide ValidPath, Utf8, Materialize, Tree, TreeOk, Settled, Position, Parent, Writable;
    GoodTreeIsSettled(files);
    TreeOkDistinct(files);
    InTree(files, path);
    var i := Position(files, path);
    if i < |files| && files[i].kind == File {
      FilesHaveNoChildren(files, i);
      RemovedStays(files, i);
    }
  }

  lemma {:induction false} NoChildIff(files: seq<Entry>, path: Name, i: nat)
    requires i <= |files| && forall k :: 0 <= k < |files| ==> ValidPath(files[k].name)
    ensures var r := EnsureNoChild(files, path, i);
      && (r.Pass? <==> forall k :: i <= k < |files| ==> Parent(files[k].name) != path)
      && (r.Fail? ==> r == Fail(DirectoryNotEmpty))
    decreases |files| - i
  {
    hide ValidPath, Utf8, Parent;
    if i < |files| {
      NoChildIff(files, path, i + 1);
    }
  }

  lemma ChildInTree(files: seq<Entry>, path: Name)
    requires Distinct(files) && forall k :: 0 <= k < |files| ==> ValidPath(files[k].name)
    ensures HasChild(Tree(files), path) <==> exists k :: 0 <= k < |files| && Parent(files[k].name) == path
  {
    hide ValidPath, Utf8, Parent, Tree;
    if HasChild(Tree(files), path) {
      var n :| n in Tree(files) && ValidPath(n) && Parent(n) == path;
      InTree(files, n);
    }
    if exists k :: 0 <= k < |files| && Parent(files[k].name) == path {
      var k :| 0 <= k < |files| && Parent(files[k].name) == path;
      TreeLookup(files, k);
    }
  }

  lemma TreeOkPaths(files: seq<Entry>)
    requires TreeOk(files)
    ensures forall k :: 0 <= k < |files| ==> ValidPath(files[k].name)
  {
    hide ValidPath, Utf8, Parent, Sorted;
    forall k | 0 <= k < |files|
      ensures ValidPath(files[k].name)
    {
      assert GoodEntry(files, files[k]);
    }
  }

  /** A directory is removed exactly if it is one, may be written and has nothing in it. */
  lemma RemoveDirIff(files: seq<Entry>, path: Name)
    requires TreeOk(files)
    ensures var t, r := Tree(files), RemoveDirNext(files, path);
      && (r.Ok? <==> ValidPath(path) && IsDirectory(t, path) && MayWrite(t, path) && !HasChild(t, path))
      && (r == Err(InvalidPath) <==> !ValidPath(path))
      && (r == Err(NotFound) <==> ValidPath(path) && path !in t)
      && (r == Err(NotDirectory) <==> ValidPath(path) && IsFile(t, path))
      && (r == Err(PermissionDenied) <==> ValidPath(path) && IsDirectory(t, path) && !MayWrite(t, path))
      && (r == Err(DirectoryNotEmpty) <==>
            ValidPath(path) && IsDirectory(t, path) && MayWrite(t, path) && HasChild(t, path))
  {
    hide ValidPath, Utf8, Materialize, Tree, TreeOk, Settled, Position, Parent, Writable, EnsureNoChild, HasChild;
    GoodTreeIsSettled(files);
    TreeOkDistinct(files);
    TreeOkPaths(files);
    InTree(files, path);
    NoChildIff(files, path, 0);
    ChildInTree(files, path);
    var i := Position(files, path);
    if i < |files| && !HasChild(Tree(files), path) {
      RemovedStays(files, i);
    }
  }

  // ----- Directories

  /** Inserting a directory, without the checks of its caller. */
  lemma InsertDirectoryIff(files: seq<Entry>, path: Name, permissions: u16)
    requires Distinct(files) && ValidPath(path)
    ensures var t, r := Tree(files), InsertDirectory(files, path, permissions);
      && (r.Ok? <==> ParentOpen(t, path) && (if path in t then IsDirectory(t, path) else |files| < MAX_FILES))
      && (r == Err(ParentMissing) <==> Parent(path) != ROOT && Parent(path) !in t)
      && (r == Err(NotDirectory) <==>
            (Parent(path) != ROOT && IsFile(t, Parent(path))) || (ParentOpen(t, path) && IsFile(t, path)))
      && (r == Err(PermissionDenied) <==>
            Parent(path) != ROOT && IsDirectory(t, Parent(path)) && !Open(t, Parent(path)))
      && (r == Err(TooManyFiles) <==> ParentOpen(t, path) && path !in t && |files| >= MAX_FILES)
      && (r.Err? ==> r.error in [ParentMissing, NotDirectory, PermissionDenied, TooManyFiles])
  {
    hide ValidPath, Utf8, Tree, Position, Parent, Writable, Executable, Sort, EnsureParentDirectory;
    InTree(files, path);
    ParentReport(files, path);
  }

  lemma CreateDirIff(files: seq<Entry>, path: Name, permissions: u16)
    requires TreeOk(files)
    ensures var t, r := Tree(files), CreateDirNext(files, path, permissions);
      && (r.Ok? <==>
            && ValidPath(path) && permissions < PERMISSION_LIMIT && ParentOpen(t, path)
            && (if path in t then IsDirectory(t, path) else |files| < MAX_FILES))
      && (r == Err(InvalidPath) <==> !ValidPath(path))
      && (r == Err(InvalidPermissions) <==> ValidPath(path) && permissions >= PERMISSION_LIMIT)
      && (ValidPath(path) && permissions < PERMISSION_LIMIT ==>
            && (r == Err(ParentMissing) <==> Parent(path) != ROOT && Parent(path) !in t)
            && (r == Err(NotDirectory) <==> (Parent(path) != ROOT && IsFile(t, Parent(path))) || IsFile(t, path))
            && (r == Err(PermissionDenied) <==>
                  Parent(path) != ROOT && IsDirectory(t, Parent(path)) && !Open(t, Parent(path)))
            && (r == Err(TooManyFiles) <==> ParentOpen(t, path) && path !in t && |files| >= MAX_FILES))
  {
    hide ValidPath, Utf8, Tree, Parent, Writable, Executable, InsertDirectory, TreeOk, Materialize, Settled;
    GoodTreeIsSettled(files);
    TreeOkDistinct(files);
    if path in Tree(files) {
      EntryParentOpen(files, path);
    }
    if ValidPath(path) {
      InsertDirectoryIff(files, path, permissions);
      if InsertDirectory(files, path, permissions).Ok? {
        InsertDirectoryMeaning(files, path, permissions);
        SettledStays(InsertDirectory(files, path, permissions).value);
      }
    }
  }

  // ----- A directory with all its parents

  /** The path and everything above it, up to the root. */
  ghost function Chain(path: Name): (c: set<Name>)
    requires ValidPath(path)
    ensures forall n :: n in c ==> ValidPath(n)
    decreases |path|
  {
    {path} + if Parent(path) == ROOT then {} else Chain(Parent(path))
  }

  /** The part of the chain from the component at `i` on. */
  ghost function Below(path: Name, i: nat): (c: set<Name>)
    requires ValidPath(path) && 0 < i <= |path| && path[i - 1] == SLASH
    ensures forall n :: n in c ==> ValidPath(n) && |n| >= i
    decreases |path| - i
  {
    var j := NextSlash(path, i);
    ComponentIsPath(path, i);
    {UpTo(path, i)} + if j == |path| then {} else Below(path, j + 1)
  }

  lemma UpToIs(path: Name, i: nat)
    requires i <= |path|
    ensures UpTo(path, i) == path[..NextSlash(path, i)]
  {
    hide Utf8, NextSlash;
  }

  lemma UpToIsPath(path: Name, i: nat)
    requires ValidPath(path) && 0 < i <= |path| && path[i - 1] == SLASH
    ensures ValidPath(UpTo(path, i)) && i < |UpTo(path, i)| == NextSlash(path, i)
  {
    hide Utf8, ValidPath, UpTo, NextSlash;
    UpToIs(path, i);
    SlashAfterSlash(path, i);
    var j := NextSlash(path, i);
    if j < |path| {
      PrefixIsValidPath(path, j);
    } else {
      assert path[..j] == path;
    }
  }

  lemma ComponentIsPath(path: Name, i: nat)
    requires ValidPath(path) && 0 < i <= |path| && path[i - 1] == SLASH
    ensures var c := UpTo(path, i);
      && ValidPath(c) && i < |c| == NextSlash(path, i)
      && Parent(c) == if i == 1 then ROOT else path[..i - 1]
    ensures i > 1 ==> ValidPath(path[..i - 1])
  {
    hide Utf8, ValidPath, UpTo, NextSlash, LastSlash;
    UpToIs(path, i);
    UpToIsPath(path, i);
    var c := UpTo(path, i);
    assert c[i - 1] == SLASH && forall k :: i <= k < |c| ==> c[k] == path[k];
    assert LastSlash(c) == i - 1;
    if i > 1 {
      PrefixIsValidPath(path, i - 1);
      assert c[..i - 1] == path[..i - 1];
    }
  }

  /** A valid path has no empty component. */
  lemma SlashAfterSlash(path: Name, i: nat)
    requires ValidPath(path) && 0 < i <= |path| && path[i - 1] == SLASH
    ensures i < |path| && path[i] != SLASH
  {
    hide Utf8;
    if i < |path| && path[i] == SLASH {
      if i > 1 {
        NoEmptyComponent(path, 1, i);
      }
    }
  }

  lemma {:induction false} ChainSplit(path: Name, i: nat)
    requires ValidPath(path) && 0 < i <= |path| && path[i - 1] == SLASH
    ensures ValidPath(UpTo(path, i)) && Chain(path) == Chain(UpTo(path, i)) + Below(path, i)
    decreases |path| - i
  {
    hide Utf8, ValidPath, Parent;
    ComponentIsPath(path, i);
    var j := NextSlash(path, i);
    if j < |path| {
      ComponentIsPath(path, j + 1);
      ChainSplit(path, j + 1);
    }
  }

  /** The component names a missing directory whose parent is there but closed. */
  ghost predicate Blocked(t: Files, n: Name)
    requires ValidPath(n)
  {
    n !in t && Parent(n) != ROOT && IsDirectory(t, Parent(n)) && !Open(t, Parent(n))
  }

  ghost predicate HasFile(t: Files, chain: set<Name>)
  {
    exists n :: n in chain && IsFile(t, n)
  }

  ghost predicate HasBlocked(t: Files, chain: set<Name>)
    requires forall n :: n in chain ==> ValidPath(n)
  {
    exists n :: n in chain && Blocked(t, n)
  }

  /** Why the directories in `chain` cannot all be there in a tree of `count` entries. */
  ghost function Reason(t: Files, chain: set<Name>, count: nat): Option<FsError>
    requires forall n :: n in chain ==> ValidPath(n)
  {
    if HasFile(t, chain) then Some(NotDirectory)
    else if HasBlocked(t, chain) then Some(PermissionDenied)
    else if count + |chain - t.Keys| > MAX_FILES then Some(TooManyFiles)
    else None
  }

  ghost predicate Reports(r: Result<seq<Entry>, FsError>, reason: Option<FsError>)
  {
    if reason.Some? then r == Err(reason.value) else r.Ok?
  }

  /** Nothing lies below a path that is missing. */
  lemma {:induction false} MissingBelow(entries: seq<Entry>, path: Name, i: nat)
    requires ValidPath(path) && 0 < i <= |path| && path[i - 1] == SLASH
    requires Settled(entries) && UpTo(path, i) !in Tree(entries)
    ensures forall n :: n in Below(path, i) ==> n !in Tree(entries)
    decreases |path| - i
  {
    hide Utf8, ValidPath, Parent, Tree, Settled;
    ComponentIsPath(path, i);
    var j := NextSlash(path, i);
    if j < |path| {
      ComponentIsPath(path, j + 1);
      var next := UpTo(path, j + 1);
      if next in Tree(entries) {
        SettledParent(entries, next);
      }
      MissingBelow(entries, path, j + 1);
    }
  }

  lemma SettledParent(entries: seq<Entry>, n: Name)
    requires Settled(entries) && n in Tree(entries)
    ensures ValidPath(n) && (Parent(n) == ROOT || IsDirectory(Tree(entries), Parent(n)))
  {
    hide Utf8, ValidPath, Parent, Tree, Sorted;
    InTree(entries, n);
    var p := Position(entries, n);
    assert HasDirectory(entries, Parent(entries[p].name));
    if Parent(n) != ROOT {
      var j :| 0 <= j < |entries| && entries[j].name == Parent(n) && entries[j].kind == Directory;
      TreeLookup(entries, j);
    }
  }

  /** What one component does, given that its parent is a directory. */
  lemma ComponentIff(entries: seq<Entry>, path: Name, permissions: u16, i: nat)
    requires ValidPath(path) && 0 < i <= |path| && path[i - 1] == SLASH && Settled(entries)
    requires ValidPath(UpTo(path, i))
    requires Parent(UpTo(path, i)) == ROOT || IsDirectory(Tree(entries), Parent(UpTo(path, i)))
    ensures var t, c, r := Tree(entries), UpTo(path, i), CreateComponent(entries, path, permissions, i);
      && (IsFile(t, c) ==> r == Err(NotDirectory))
      && (IsDirectory(t, c) ==> r == Ok(entries))
      && (Blocked(t, c) ==> r == Err(PermissionDenied))
      && (c !in t && !Blocked(t, c) && |entries| >= MAX_FILES ==> r == Err(TooManyFiles))
      && (c !in t && !Blocked(t, c) && |entries| < MAX_FILES ==>
            && r.Ok? && Settled(r.value) && |r.value| == |entries| + 1
            && var mode := if c == path then permissions else DEFAULT_DIRECTORY_PERMISSIONS;
               Tree(r.value) == t[c := NewDirectory(c, mode)])
  {
    hide Utf8, ValidPath, Parent, Tree, Settled, InsertDirectory, Position, Writable, Executable;
    var c := UpTo(path, i);
    var mode := if c == path then permissions else DEFAULT_DIRECTORY_PERMISSIONS;
    SettledDistinct(entries);
    InTree(entries, c);
    InsertDirectoryIff(entries, c, mode);
    if c !in Tree(entries) && InsertDirectory(entries, c, mode).Ok? {
      InsertDirectoryMeaning(entries, c, mode);
      InsertedLength(entries, c, mode);
    }
  }

  lemma SettledDistinct(entries: seq<Entry>)
    requires Settled(entries)
    ensures Distinct(entries)
  {
  }

  lemma InsertedLength(entries: seq<Entry>, c: Name, mode: u16)
    requires Position(entries, c) == |entries| && InsertDirectory(entries, c, mode).Ok?
    ensures |InsertDirectory(entries, c, mode).value| == |entries| + 1
  {
    hide Utf8, ValidPath, Parent, EnsureParentDirectory;
  }

  lemma NextParent(path: Name, i: nat)
    requires ValidPath(path) && 0 < i <= |path| && path[i - 1] == SLASH
    ensures var j := NextSlash(path, i);
      j < |path| ==>
        path[j] == SLASH && ValidPath(UpTo(path, j + 1)) && Parent(UpTo(path, j + 1)) == UpTo(path, i)
  {
    hide Utf8, ValidPath, Parent;
    var j := NextSlash(path, i);
    if j < |path| {
      ComponentIsPath(path, j + 1);
    }
  }

  lemma BelowIs(path: Name, i: nat)
    requires ValidPath(path) && 0 < i <= |path| && path[i - 1] == SLASH
    ensures var j := NextSlash(path, i);
      && i < j && Below(path, i) == {UpTo(path, i)} + if j == |path| then {} else Below(path, j + 1)
  {
    hide Utf8, ValidPath, UpTo;
    ComponentIsPath(path, i);
  }

  lemma {:induction false} BelowParents(path: Name, i: nat)
    requires ValidPath(path) && 0 < i <= |path| && path[i - 1] == SLASH
    ensures forall n :: n in Below(path, i) && n != UpTo(path, i) ==> Parent(n) in Below(path, i)
    decreases |path| - i
  {
    hide Utf8, ValidPath, Parent;
    ComponentIsPath(path, i);
    var j := NextSlash(path, i);
    if j < |path| {
      ComponentIsPath(path, j + 1);
      BelowParents(path, j + 1);
    }
  }

  lemma PassDirectory(t: Files, c: Name, rest: set<Name>, count: nat)
    requires ValidPath(c) && (forall n :: n in rest ==> ValidPath(n)) && IsDirectory(t, c)
    ensures Reason(t, {c} + rest, count) == Reason(t, rest, count)
  {
    hide Utf8, ValidPath, Parent, Open;
    assert {c} + rest - t.Keys == rest - t.Keys;
    assert HasFile(t, {c} + rest) == HasFile(t, rest);
    assert HasBlocked(t, {c} + rest) == HasBlocked(t, rest);
  }

  /** Nothing of the chain is there. */
  ghost predicate AllMissing(t: Files, c: Name, rest: set<Name>)
  {
    && c !in t && c !in rest && ValidPath(c)
    && forall n :: n in rest ==> n !in t && ValidPath(n) && Parent(n) in {c} + rest
  }

  lemma StopAtMissing(t: Files, c: Name, rest: set<Name>, count: nat)
    requires AllMissing(t, c, rest)
    ensures Reason(t, {c} + rest, count) ==
      if Blocked(t, c) then Some(PermissionDenied)
      else if count + 1 + |rest| > MAX_FILES then Some(TooManyFiles)
      else None
  {
    hide Utf8, ValidPath, Parent, Open;
    assert !HasFile(t, {c} + rest);
    assert HasBlocked(t, {c} + rest) == Blocked(t, c) by {
      assert c in {c} + rest;
    }
    assert {c} + rest - t.Keys == {c} + rest;
    assert |{c} + rest| == 1 + |rest|;
  }

  lemma MissingUnder(t: Files, c: Name, rest: set<Name>, count: nat)
    requires AllMissing(t, c, rest)
    ensures Reason(t[c := NewDirectory(c, DEFAULT_DIRECTORY_PERMISSIONS)], rest, count) ==
      if count + |rest| > MAX_FILES then Some(TooManyFiles) else None
  {
    var grown := t[c := NewDirectory(c, DEFAULT_DIRECTORY_PERMISSIONS)];
    DefaultIsOpen(t, c);
    hide Utf8, ValidPath, Parent, Open, NewDirectory;
    assert rest - grown.Keys == rest;
    forall n | n in rest
      ensures !IsFile(grown, n) && !Blocked(grown, n)
    {
    }
  }

  lemma DefaultIsOpen(t: Files, c: Name)
    ensures Open(t[c := NewDirectory(c, DEFAULT_DIRECTORY_PERMISSIONS)], c)
  {
  }

  /** The walk down the path is refused exactly for the reasons of the components it has not
      passed yet. */
  lemma {:induction false} AllFromIff(entries: seq<Entry>, path: Name, permissions: u16, i: nat)
    requires ValidPath(path) && 0 < i <= |path| && path[i - 1] == SLASH
    requires Settled(entries) && |entries| <= MAX_FILES && ValidPath(UpTo(path, i))
    requires Parent(UpTo(path, i)) == ROOT || IsDirectory(Tree(entries), Parent(UpTo(path, i)))
    ensures Reports(CreateAllFrom(entries, path, permissions, i), Reason(Tree(entries), Below(path, i), |entries|))
    decreases |path| - i
  {
    hide Utf8, ValidPath, Parent, Tree, Settled, CreateComponent, Reason, Blocked, Open, AllMissing, UpTo, Below,
      NextSlash;
    var t, c, j := Tree(entries), UpTo(path, i), NextSlash(path, i);
    ComponentIsPath(path, i);
    ComponentIff(entries, path, permissions, i);
    var r := CreateComponent(entries, path, permissions, i);
    var rest := if j == |path| then {} else Below(path, j + 1);
    BelowIs(path, i);
    NextParent(path, i);
    if IsFile(t, c) {
      FileReason(t, c, rest, |entries|);
    } else if IsDirectory(t, c) {
      PassDirectory(t, c, rest, |entries|);
      if j < |path| {
        AllFromIff(entries, path, permissions, j + 1);
      } else {
        NothingRefused(t, |entries|);
      }
    } else {
      ChainMissing(entries, path, i, rest);
      StopAtMissing(t, c, rest, |entries|);
      if r.Ok? && j < |path| {
        AllFromIff(r.value, path, permissions, j + 1);
        MissingUnder(t, c, rest, |entries| + 1);
      }
    }
  }

  lemma FileReason(t: Files, c: Name, rest: set<Name>, count: nat)
    requires ValidPath(c) && (forall n :: n in rest ==> ValidPath(n)) && IsFile(t, c)
    ensures Reason(t, {c} + rest, count) == Some(NotDirectory)
  {
    hide Utf8, ValidPath, Parent, Open;
    assert c in {c} + rest;
  }

  lemma ChainMissing(entries: seq<Entry>, path: Name, i: nat, rest: set<Name>)
    requires ValidPath(path) && 0 < i <= |path| && path[i - 1] == SLASH
    requires Settled(entries) && UpTo(path, i) !in Tree(entries)
    requires var j := NextSlash(path, i);
      rest == if j == |path| then {} else (ComponentIsPath(path, i); Below(path, j + 1))
    ensures AllMissing(Tree(entries), UpTo(path, i), rest)
  {
    hide Utf8, ValidPath, Parent, Tree, Settled;
    ComponentIsPath(path, i);
    MissingBelow(entries, path, i);
    BelowParents(path, i);
    assert Below(path, i) == {UpTo(path, i)} + rest;
  }

  lemma NothingRefused(t: Files, count: nat)
    requires count <= MAX_FILES
    ensures Reason(t, {}, count) == None
  {
    hide Utf8, ValidPath, Parent;
    assert {} - t.Keys == {};
  }

  lemma ChainIsBelow(path: Name)
    requires ValidPath(path)
    ensures path[0] == SLASH && Chain(path) == Below(path, 1)
  {
    assert path[0] == SLASH && |path| > 1;
    hide Utf8, ValidPath, Parent;
    ComponentIsPath(path, 1);
    ChainSplit(path, 1);
    assert Chain(UpTo(path, 1)) == {UpTo(path, 1)};
  }

  lemma TreeOkSmall(files: seq<Entry>)
    requires TreeOk(files)
    ensures |files| <= MAX_FILES
  {
  }

  lemma GrowsItself(files: seq<Entry>, path: Name, permissions: u16)
    requires ValidPath(path)
    ensures GrowsTowards(files, files, path, permissions)
  {
  }

  /** A directory with all its parents can be created exactly if nothing on the way is a file,
      the deepest directory that is there admits entries, and there is room for the rest. */
  lemma CreateDirAllIff(files: seq<Entry>, path: Name, permissions: u16)
    requires TreeOk(files)
    ensures var r := CreateDirAllNext(files, path, permissions);
      if !ValidPath(path) then r == Err(InvalidPath)
      else if permissions >= PERMISSION_LIMIT then r == Err(InvalidPermissions)
      else Reports(r, Reason(Tree(files), Chain(path), |files|))
  {
    hide Utf8, Parent, Tree, Settled, TreeOk, CreateAllFrom, Materialize, Reason, Chain, Below;
    GoodTreeIsSettled(files);
    TreeOkSmall(files);
    if ValidPath(path) && permissions < PERMISSION_LIMIT {
      hide ValidPath;
      ChainIsBelow(path);
      ComponentIsPath(path, 1);
      AllFromIff(files, path, permissions, 1);
      var made := CreateAllFrom(files, path, permissions, 1);
      if made.Ok? {
        GrowsItself(files, path, permissions);
        CreateAllMeaning(files, files, path, permissions, 1);
        SettledStays(made.value);
      }
    }
  }
}
