/** Absolute paths of CodexFS: UTF-8 byte strings of non-empty components. */
module FsPath {
  import opened Bytes

  const SLASH: byte := 0x2f
  const DOT: byte := 0x2e
  const MAX_PATH_BYTES: nat := 128

  // ----- UTF-8

  predicate Continuation(b: byte)
  {
    0x80 <= b < 0xc0
  }

  /** Length of the well-formed character that `s` starts with, or 0. */
  function CharLength(s: seq<byte>): (n: nat)
    ensures n <= |s|
    ensures forall i :: 0 < i < n ==> s[i] >= 0x80
    ensures n > 1 ==> s[0] >= 0x80
  {
    if s == [] then 0
    else if s[0] < 0x80 then 1
    else if 0xc2 <= s[0] <= 0xdf then
      if |s| >= 2 && Continuation(s[1]) then 2 else 0
    else if 0xe0 <= s[0] <= 0xef then
      if |s| >= 3 && Continuation(s[1]) && Continuation(s[2])
         && (s[0] == 0xe0 ==> s[1] >= 0xa0) && (s[0] == 0xed ==> s[1] < 0xa0) then 3 else 0
    else if 0xf0 <= s[0] <= 0xf4 then
      if |s| >= 4 && Continuation(s[1]) && Continuation(s[2]) && Continuation(s[3])
         && (s[0] == 0xf0 ==> s[1] >= 0x90) && (s[0] == 0xf4 ==> s[1] < 0x90) then 4 else 0
    else 0
  }

  predicate Utf8(s: seq<byte>)
  {
    s == [] || (CharLength(s) > 0 && Utf8(s[CharLength(s)..]))
  }

  lemma CharLengthPrefix(s: seq<byte>, i: nat)
    requires 0 < CharLength(s) <= i <= |s|
    ensures CharLength(s[..i]) == CharLength(s)
  {
    var t := s[..i];
    assert t[0] == s[0];
    assert |t| > 1 ==> t[1] == s[1];
    assert |t| > 2 ==> t[2] == s[2];
    assert |t| > 3 ==> t[3] == s[3];
  }

  /** Cutting a string in front of an ASCII byte keeps it well formed. */
  lemma {:induction false} Utf8Prefix(s: seq<byte>, i: nat)
    requires Utf8(s) && i < |s| && s[i] < 0x80
    ensures Utf8(s[..i])
  {
    hide CharLength;
    var n := CharLength(s);
    if i >= n {
      var rest := s[n..];
      assert rest[i - n] == s[i];
      Utf8Prefix(rest, i - n);
      assert rest[..i - n] == s[..i][n..];
      CharLengthPrefix(s, i);
    } else {
      assert i == 0;
    }
  }

  type Name = s: seq<byte> | Utf8(s) witness []

  // ----- Paths

  function NextSlash(p: seq<byte>, i: nat): (j: nat)
    requires i <= |p|
    ensures i <= j <= |p|
    ensures j < |p| ==> p[j] == SLASH
    ensures forall k :: i <= k < j ==> p[k] != SLASH
    decreases |p| - i
  {
    if i == |p| || p[i] == SLASH then i else NextSlash(p, i + 1)
  }

  predicate GoodComponent(c: seq<byte>)
  {
    c != [] && c != [DOT] && c != [DOT, DOT]
  }

  /** Every component from position `i` on is non-empty and neither `.` nor `..`. */
  predicate GoodComponents(p: seq<byte>, i: nat)
    requires i <= |p|
    decreases |p| - i
  {
    var j := NextSlash(p, i);
    GoodComponent(p[i..j]) && (j == |p| || GoodComponents(p, j + 1))
  }

  predicate ValidPath(p: seq<byte>)
  {
    && 2 <= |p| <= MAX_PATH_BYTES
    && p[0] == SLASH
    && p[|p| - 1] != SLASH
    && (forall i :: 0 <= i < |p| ==> p[i] >= 0x20)
    && GoodComponents(p, 1)
  }

  function LastSlash(p: seq<byte>): (i: int)
    ensures -1 <= i < |p|
    ensures i >= 0 ==> p[i] == SLASH
    ensures forall k :: i < k < |p| ==> p[k] != SLASH
  {
    if p == [] then -1
    else if p[|p| - 1] == SLASH then |p| - 1
    else LastSlash(p[..|p| - 1])
  }

  const ROOT: seq<byte> := [SLASH]

  lemma RootIsUtf8()
    ensures Utf8(ROOT)
  {
    assert CharLength(ROOT) == 1 && ROOT[1..] == [];
  }

  /** The path of the containing directory; only defined on valid paths, every
      other argument is an invalid-path error at the callers. */
  function Parent(p: Name): (q: Name)
    requires ValidPath(p)
    ensures |q| < |p|
    ensures q == ROOT || ValidPath(q)
    ensures q == ROOT || q < p
  {
    RootIsUtf8();
    var i := LastSlash(p);
    if i == 0 then ROOT else
      Utf8Prefix(p, i);
      PrefixIsValidPath(p, i);
      p[..i]
  }

  lemma {:induction false} GoodComponentsPrefix(p: seq<byte>, i: nat, k: nat)
    requires i <= k < |p| && p[k] == SLASH
    requires GoodComponents(p, i)
    ensures i < k && GoodComponents(p[..k], i)
    decreases |p| - i
  {
    var j := NextSlash(p, i);
    assert j <= k;
    SameNextSlash(p, i, k);
    assert p[..k][i..j] == p[i..j];
    if j < k {
      GoodComponentsPrefix(p, j + 1, k);
    }
  }

  lemma {:induction false} SameNextSlash(p: seq<byte>, i: nat, k: nat)
    requires i <= k < |p| && NextSlash(p, i) <= k
    ensures NextSlash(p[..k], i) == NextSlash(p, i)
    decreases |p| - i
  {
    if i < k && p[i] != SLASH {
      SameNextSlash(p, i + 1, k);
    }
  }

  lemma PrefixIsValidPath(p: seq<byte>, k: nat)
    requires ValidPath(p) && 0 < k < |p| && p[k] == SLASH
    ensures ValidPath(p[..k])
  {
    GoodComponentsPrefix(p, 1, k);
    NoEmptyComponent(p, 1, k);
  }

  lemma {:induction false} NoEmptyComponent(p: seq<byte>, i: nat, k: nat)
    requires i < k < |p| && p[k] == SLASH
    requires GoodComponents(p, i)
    ensures p[k - 1] != SLASH
    decreases |p| - i
  {
    var j := NextSlash(p, i);
    assert j <= k;
    if j < k - 1 {
      NoEmptyComponent(p, j + 1, k);
    }
  }

  // ----- What a valid path is

  /** The names one after the other, each behind a separator. */
  function Joined(names: seq<seq<byte>>): (p: seq<byte>)
  {
    if names == [] then [] else [SLASH] + names[0] + Joined(names[1..])
  }

  /** A name of an entry: not empty, not a dot or two, without separators and control characters. */
  predicate GoodName(c: seq<byte>)
  {
    c != [] && c != [DOT] && c != [DOT, DOT] && forall k :: 0 <= k < |c| ==> c[k] >= 0x20 && c[k] != SLASH
  }

  predicate GoodNames(names: seq<seq<byte>>)
  {
    names != [] && forall k :: 0 <= k < |names| ==> GoodName(names[k])
  }

  lemma {:induction false} Names(p: seq<byte>, i: nat) returns (names: seq<seq<byte>>)
    requires 0 < i <= |p| && p[i - 1] == SLASH && GoodComponents(p, i)
    requires forall k :: 0 <= k < |p| ==> p[k] >= 0x20
    ensures GoodNames(names) && Joined(names) == p[i - 1..]
    decreases |p| - i
  {
    var j := NextSlash(p, i);
    var c := p[i..j];
    assert forall k :: 0 <= k < |c| ==> c[k] == p[i + k];
    if j == |p| {
      names := [c];
      assert names[1..] == [];
      assert [SLASH] + c + [] == p[i - 1..];
    } else {
      var rest := Names(p, j + 1);
      names := [c] + rest;
      assert names[1..] == rest;
      assert p[i - 1..] == [SLASH] + p[i..j] + p[j..];
    }
  }

  lemma {:induction false} NextSlashIs(p: seq<byte>, i: nat, j: nat)
    requires i <= j <= |p| && (j < |p| ==> p[j] == SLASH) && forall k :: i <= k < j ==> p[k] != SLASH
    ensures NextSlash(p, i) == j
    decreases j - i
  {
    if i < j {
      NextSlashIs(p, i + 1, j);
    }
  }

  lemma {:induction false} JoinedShape(names: seq<seq<byte>>)
    requires GoodNames(names)
    ensures var p := Joined(names);
      && |p| >= 2 && p[0] == SLASH && p[|p| - 1] != SLASH
      && forall k :: 0 <= k < |p| ==> p[k] >= 0x20
    decreases |names|
  {
    hide GoodName;
    var c := names[0];
    assert GoodName(c);
    NameShape(c);
    if |names| == 1 {
      assert Joined(names) == [SLASH] + c;
    } else {
      JoinedShape(names[1..]);
    }
  }

  lemma NameShape(c: seq<byte>)
    requires GoodName(c)
    ensures c != [] && GoodComponent(c) && forall k :: 0 <= k < |c| ==> c[k] >= 0x20 && c[k] != SLASH
  {
  }

  lemma FirstName(p: seq<byte>, i: nat, c: seq<byte>, rest: seq<byte>)
    requires 0 < i <= |p| && p[i - 1..] == [SLASH] + c + rest
    ensures i + |c| <= |p| && p[i..i + |c|] == c && p[i + |c|..] == rest
  {
    var q := p[i - 1..];
    assert q[1..1 + |c|] == c && q[1 + |c|..] == rest;
  }

  lemma FirstComponent(p: seq<byte>, i: nat, j: nat)
    requires i <= j <= |p| && GoodName(p[i..j]) && (j < |p| ==> p[j] == SLASH && GoodComponents(p, j + 1))
    ensures GoodComponents(p, i)
  {
    assert forall k :: i <= k < j ==> p[k] == p[i..j][k - i];
    NextSlashIs(p, i, j);
  }

  lemma {:induction false} JoinedComponents(p: seq<byte>, i: nat, names: seq<seq<byte>>)
    requires GoodNames(names) && 0 < i <= |p| && p[i - 1..] == Joined(names)
    ensures GoodComponents(p, i)
    decreases |names|
  {
    hide GoodName, GoodComponents;
    var c, rest := names[0], names[1..];
    assert GoodName(c);
    FirstName(p, i, c, Joined(rest));
    var j := i + |c|;
    if rest != [] {
      JoinedShape(rest);
      assert p[j..][0] == SLASH;
      JoinedComponents(p, j + 1, rest);
    }
    FirstComponent(p, i, j);
  }

  /** The valid paths are exactly the good names joined by separators, up to 128 bytes. */
  lemma ValidPathIff(p: seq<byte>)
    ensures ValidPath(p) <==>
      |p| <= MAX_PATH_BYTES && exists names: seq<seq<byte>> :: GoodNames(names) && p == Joined(names)
  {
    hide GoodNames, Joined, GoodComponents;
    if ValidPath(p) {
      var names := Names(p, 1);
      assert p[0..] == p;
    }
    forall names: seq<seq<byte>> | GoodNames(names) && p == Joined(names) && |p| <= MAX_PATH_BYTES
      ensures ValidPath(p)
    {
      JoinedShape(names);
      assert p[0..] == p;
      JoinedComponents(p, 1, names);
    }
  }
}
