/** The file tree of CodexFS: a flat list of named entries in which every entry's
    parent is the root or a directory entry of the same list. */
module FsTree {
  import opened Bytes
  import opened Wrappers
  import opened FsPath

  const MAX_FILES: nat := 128
  const PERMISSION_LIMIT: nat := 0x200
  const DEFAULT_FILE_PERMISSIONS: u16 := 0x1a4
  const DEFAULT_DIRECTORY_PERMISSIONS: u16 := 0x1ed

  datatype Kind = File | Directory

  datatype Entry = Entry(name: Name, data: seq<byte>, kind: Kind, permissions: u16)

  datatype FsError =
    | Block
    | FlushUnsupported
    | DeviceTooSmall
    | CorruptSuperblocks
    | CorruptRecord
    | InvalidPath
    | TooManyFiles
    | SnapshotTooLarge
    | ArithmeticOverflow
    | InvalidUtf8
    | VerificationFailed
    | NotFound
    | ParentMissing
    | NotDirectory
    | IsDirectory
    | PermissionDenied
    | DirectoryNotEmpty
    | InvalidPermissions

  // Permission bits, as octal: owner write 0200, owner execute 0100.

  predicate Writable(permissions: u16)
  {
    permissions / 0x80 % 2 == 1
  }

  predicate Executable(permissions: u16)
  {
    permissions / 0x40 % 2 == 1
  }

  /** Position of the first entry called `name`, or the length of the list. */
  function Position(entries: seq<Entry>, name: seq<byte>): (i: nat)
    ensures i <= |entries|
    ensures i < |entries| ==> entries[i].name == name
    ensures forall k :: 0 <= k < i ==> entries[k].name != name
  {
    if entries == [] then 0
    else if entries[0].name == name then 0
    else
      var i := Position(entries[1..], name);
      assert forall k :: 0 < k < i + 1 ==> entries[k] == entries[1..][k - 1];
      i + 1
  }

  ghost predicate Contains(entries: seq<Entry>, name: seq<byte>)
  {
    exists i :: 0 <= i < |entries| && entries[i].name == name
  }

  function EnsureParentDirectory(entries: seq<Entry>, path: Name): (r: Outcome<FsError>)
  {
    if !ValidPath(path) then Fail(InvalidPath)
    else
      var parent := Parent(path);
      if parent == ROOT then Pass
      else
        var i := Position(entries, parent);
        if i == |entries| then Fail(ParentMissing)
        else if entries[i].kind != Directory then Fail(NotDirectory)
        else if !Executable(entries[i].permissions) || !Writable(entries[i].permissions)
        then Fail(PermissionDenied)
        else Pass
  }

  function ValidateEntry(files: seq<Entry>, entry: Entry, requireDirectories: bool): (r: Outcome<FsError>)
  {
    if !ValidPath(entry.name) then Fail(InvalidPath)
    else if entry.permissions >= PERMISSION_LIMIT then Fail(InvalidPermissions)
    else if entry.kind == Directory && entry.data != [] then Fail(CorruptRecord)
    else if entry.kind == Directory && !Executable(entry.permissions) then Fail(PermissionDenied)
    else if requireDirectories then EnsureParentDirectory(files, entry.name)
    else Pass
  }

  /** The first complaint about an entry of `files` from position `i` on. */
  function ValidateFrom(files: seq<Entry>, requireDirectories: bool, i: nat): (r: Outcome<FsError>)
    requires i <= |files|
    ensures r.Pass? <==> forall k :: i <= k < |files| ==> ValidateEntry(files, files[k], requireDirectories).Pass?
    decreases |files| - i
  {
    if i == |files| then Pass
    else
      var r := ValidateEntry(files, files[i], requireDirectories);
      if r.Fail? then r else ValidateFrom(files, requireDirectories, i + 1)
  }

  function ValidateTree(files: seq<Entry>, requireDirectories: bool): (r: Outcome<FsError>)
  {
    ValidateFrom(files, requireDirectories, 0)
  }

  // ----- What a tree promises

  /** The parent of `e` is the root or a writable, searchable directory of `files`. */
  ghost predicate ParentPresent(files: seq<Entry>, e: Entry)
    requires ValidPath(e.name)
  {
    var parent := Parent(e.name);
    parent == ROOT ||
    exists j :: 0 <= j < |files| && files[j].name == parent && files[j].kind == Directory
      && Writable(files[j].permissions) && Executable(files[j].permissions)
  }

  ghost predicate GoodEntry(files: seq<Entry>, e: Entry)
  {
    && ValidPath(e.name)
    && e.permissions < PERMISSION_LIMIT
    && (e.kind == Directory ==> e.data == [] && Executable(e.permissions))
    && ParentPresent(files, e)
  }

  ghost predicate GoodTree(files: seq<Entry>)
  {
    forall i :: 0 <= i < |files| ==> GoodEntry(files, files[i])
  }

  ghost predicate Distinct(files: seq<Entry>)
  {
    forall i, j :: 0 <= i < j < |files| ==> files[i].name != files[j].name
  }

  lemma EnsureParentMeaning(files: seq<Entry>, e: Entry)
    requires Distinct(files) && ValidPath(e.name)
    ensures EnsureParentDirectory(files, e.name).Pass? <==> ParentPresent(files, e)
  {
    hide Utf8, ValidPath, Parent;
    var parent := Parent(e.name);
    var p := Position(files, parent);
    if parent != ROOT && ParentPresent(files, e) {
      var j :| 0 <= j < |files| && files[j].name == parent && files[j].kind == Directory
        && Writable(files[j].permissions) && Executable(files[j].permissions);
      assert p == j;
    }
  }

  /** On uniquely named lists the validator accepts exactly the good trees. */
  lemma ValidateTreeMeaning(files: seq<Entry>)
    requires Distinct(files)
    ensures ValidateTree(files, true).Pass? <==> GoodTree(files)
  {
    hide Utf8, ValidPath, Parent, Executable;
    forall i | 0 <= i < |files|
      ensures ValidateEntry(files, files[i], true).Pass? <==> GoodEntry(files, files[i])
    {
      if ValidPath(files[i].name) {
        EnsureParentMeaning(files, files[i]);
      }
    }
  }
}
