/**
 The file system as an equality oracle: the tree of magic files, path
 resolution with its treatment of slashes and dots, and the theorem that a
 probe opens exactly when two bytes are equal.
 */
module OracleTree {
  import opened Words
  import opened Machine

  type Name = seq<Byte>
  type Path = seq<Name>
  datatype Kind = Dir | File

  /** Everything below the root; the root itself always exists. */
  type Tree = map<Path, Kind>

  const SLASH: Byte := 47
  const DOT: Byte := 46
  const LF: Byte := 10
  const CR: Byte := 13
  const SPACE: Byte := 32
  const X: Byte := 120
  const E: Byte := 101

  const M8: Name := [46, 109, 56]
  const EQ: Name := [101, 113]
  const DIR_X: Name := [120]
  const DIR_N: Name := [110]
  const DIR_R: Name := [114]
  const DIR_S: Name := [115]

  const HELP: Name := [104, 101, 108, 112]
  const EXIT: Name := [101, 120, 105, 116]
  const CD: Name := [99, 100]
  const MFSLS: Name := [109, 102, 115, 108, 115]
  const MFSCAT: Name := [109, 102, 115, 99, 97, 116]
  const BUILTINS: seq<Name> := [HELP, EXIT, CD, MFSLS, MFSCAT]

  const SEPARATOR_FILES: seq<(Name, seq<Name>)> :=
    [(DIR_X, [[LF, X], [CR, X], [SPACE, X]]), (DIR_N, [[LF, X]]), (DIR_R, [[CR, X]]), (DIR_S, [[SPACE, X]])]

  /** Bytes that occur in a builtin's name. */
  predicate Magic(c: Byte) {
    exists k :: 0 <= k < |BUILTINS| && c in BUILTINS[k]
  }

  // ----- paths -----

  function Split(s: seq<Byte>): (r: seq<Name>)
    ensures |r| > 0
  {
    if s == [] then [[]]
    else
      var rest := Split(s[1..]);
      if s[0] == SLASH then [[]] + rest else [[s[0]] + rest[0]] + rest[1..]
  }

  /** The bytes up to the first NUL, as the host reads a path. */
  function CString(s: seq<Byte>): seq<Byte> {
    if s == [] || s[0] == 0 then [] else [s[0]] + CString(s[1..])
  }

  function KindOf(tree: Tree, at: Path): Option<Kind> {
    if at == [] then Some(Dir) else if at in tree then Some(tree[at]) else None
  }

  function Resolve(tree: Tree, at: Path, names: seq<Name>): Option<Path>
    decreases |names|
  {
    if names == [] then Some(at)
    else if KindOf(tree, at) != Some(Dir) then None
    else if names[0] == [] || names[0] == [DOT] then Resolve(tree, at, names[1..])
    else if names[0] == [DOT, DOT] then Resolve(tree, if at == [] then [] else at[..|at| - 1], names[1..])
    else if at + [names[0]] in tree then Resolve(tree, at + [names[0]], names[1..])
    else None
  }

  /** Does opening this path for reading succeed? */
  predicate Opens(tree: Tree, cwd: Path, path: seq<Byte>) {
    var p := CString(path);
    p != [] && Resolve(tree, if p[0] == SLASH then [] else cwd, Split(p)).Some?
  }

  function Rooted(dirs: Path): seq<Byte> {
    if dirs == [] then [] else [SLASH] + dirs[0] + Rooted(dirs[1..])
  }

  /** The probe path: directories, then the byte under test with its suffix. */
  function ProbePath(dirs: Path, b: Byte, suffix: Byte): seq<Byte> {
    Rooted(dirs) + [SLASH] + [b, suffix]
  }

  predicate Plain(name: Name) {
    name != [] && SLASH !in name && 0 !in name && name != [DOT] && name != [DOT, DOT]
  }

  lemma {:induction false} SplitName(name: Name, rest: seq<Byte>)
    requires SLASH !in name
    ensures Split(name + [SLASH] + rest) == [name] + Split(rest)
  {
    var s := name + [SLASH] + rest;
    if name == [] {
      assert s[1..] == rest;
    } else {
      assert s[1..] == name[1..] + [SLASH] + rest;
      SplitName(name[1..], rest);
      assert [name[0]] + name[1..] == name;
    }
  }

  lemma {:induction false} SplitLast(name: Name)
    requires SLASH !in name
    ensures Split(name) == [name]
  {
    if name != [] {
      SplitLast(name[1..]);
      assert [name[0]] + name[1..] == name;
    }
  }

  lemma SplitSlash(rest: seq<Byte>)
    ensures Split([SLASH] + rest) == [[]] + Split(rest)
  {
    assert ([SLASH] + rest)[1..] == rest;
  }

  lemma {:induction false} SplitRooted(dirs: Path, tail: seq<Byte>)
    requires forall k :: 0 <= k < |dirs| ==> Plain(dirs[k])
    ensures Split(Rooted(dirs) + [SLASH] + tail) == [[]] + dirs + Split(tail)
  {
    hide Split;
    if dirs == [] {
      assert Rooted(dirs) + [SLASH] + tail == [SLASH] + tail;
      SplitSlash(tail);
    } else {
      SplitRooted(dirs[1..], tail);
      RootedDirs(dirs, tail);
    }
  }

  /** One directory more in front. */
  lemma RootedDirs(dirs: Path, tail: seq<Byte>)
    requires dirs != [] && SLASH !in dirs[0]
    requires Split(Rooted(dirs[1..]) + [SLASH] + tail) == [[]] + dirs[1..] + Split(tail)
    ensures Split(Rooted(dirs) + [SLASH] + tail) == [[]] + dirs + Split(tail)
  {
    hide Split;
    var inner := Rooted(dirs[1..]) + [SLASH] + tail;
    var rest := inner[1..];
    assert inner[0] == SLASH && inner == [SLASH] + rest;
    SplitSlash(rest);
    SplitName(dirs[0], rest);
    SplitSlash(dirs[0] + [SLASH] + rest);
    RootedGrows(dirs, tail, rest);
    NamesShift(dirs, Split(rest), Split(tail));
  }

  lemma RootedGrows(dirs: Path, tail: seq<Byte>, rest: seq<Byte>)
    requires dirs != [] && Rooted(dirs[1..]) + [SLASH] + tail == [SLASH] + rest
    ensures Rooted(dirs) + [SLASH] + tail == [SLASH] + (dirs[0] + [SLASH] + rest)
  {
    var inner := Rooted(dirs[1..]);
    assert Rooted(dirs) + [SLASH] + tail == [SLASH] + dirs[0] + (inner + [SLASH] + tail);
    assert [SLASH] + dirs[0] + ([SLASH] + rest) == [SLASH] + (dirs[0] + [SLASH] + rest);
  }

  lemma NamesShift(dirs: Path, names: seq<Name>, tail: seq<Name>)
    requires dirs != [] && [[]] + names == [[]] + dirs[1..] + tail
    ensures [[]] + ([dirs[0]] + names) == [[]] + dirs + tail
  {
    assert names == ([[]] + names)[1..] == dirs[1..] + tail;
    assert dirs == [dirs[0]] + dirs[1..];
  }

  lemma {:induction false} CStringPrefix(a: seq<Byte>, b: seq<Byte>)
    requires 0 !in a
    ensures CString(a + b) == a + CString(b)
  {
    if a == [] {
      assert a + b == b;
    } else {
      assert (a + b)[1..] == a[1..] + b;
      CStringPrefix(a[1..], b);
    }
  }

  lemma {:induction false} RootedHasNoNul(dirs: Path)
    requires forall k :: 0 <= k < |dirs| ==> Plain(dirs[k])
    ensures 0 !in Rooted(dirs)
  {
    if dirs != [] {
      RootedHasNoNul(dirs[1..]);
    }
  }

  lemma {:induction false} WalkDown(tree: Tree, at: Path, dirs: Path, rest: seq<Name>)
    requires forall k :: 0 <= k < |dirs| ==> Plain(dirs[k])
    requires KindOf(tree, at) == Some(Dir)
    requires forall k :: 0 < k <= |dirs| ==> at + dirs[..k] in tree && tree[at + dirs[..k]] == Dir
    ensures KindOf(tree, at + dirs) == Some(Dir) && Resolve(tree, at, dirs + rest) == Resolve(tree, at + dirs, rest)
    decreases |dirs|
  {
    if dirs == [] {
      assert dirs + rest == rest && at + dirs == at;
    } else {
      var next := at + [dirs[0]];
      assert dirs[..1] == [dirs[0]];
      forall k | 0 < k <= |dirs[1..]|
        ensures next + dirs[1..][..k] in tree && tree[next + dirs[1..][..k]] == Dir
      {
        assert next + dirs[1..][..k] == at + dirs[..k + 1];
      }
      WalkDown(tree, next, dirs[1..], rest);
      assert (dirs + rest)[1..] == dirs[1..] + rest;
      assert next + dirs[1..] == at + dirs;
    }
  }

  predicate DirChain(tree: Tree, dirs: Path) {
    (forall k :: 0 <= k < |dirs| ==> Plain(dirs[k]))
    && forall k :: 0 < k <= |dirs| ==> dirs[..k] in tree && tree[dirs[..k]] == Dir
  }

  /** The last component of a probe. */
  lemma LastStep(tree: Tree, at: Path, b: Byte, suffix: Byte)
    requires KindOf(tree, at) == Some(Dir) && suffix != SLASH && suffix != DOT
    requires at + [[suffix]] !in tree && at + [[SLASH, suffix]] !in tree
    ensures Resolve(tree, at, Split([b, suffix])).Some? <==> at + [[b, suffix]] in tree
  {
    SplitLast([suffix]);
    if b == SLASH {
      assert [b, suffix] == [] + [SLASH] + [suffix];
      SplitName([], [suffix]);
      assert Split([b, suffix]) == [[], [suffix]];
    } else {
      SplitLast([b, suffix]);
    }
  }

  lemma RootSplit(dirs: Path, tail: seq<Byte>)
    requires forall k :: 0 <= k < |dirs| ==> Plain(dirs[k])
    ensures var p := Rooted(dirs) + [SLASH] + tail;
            p[0] == SLASH && Split(p)[0] == [] && Split(p)[1..] == dirs + Split(tail)
  {
    hide Split, Plain;
    SplitRooted(dirs, tail);
    assert ([[]] + dirs + Split(tail))[1..] == dirs + Split(tail);
  }

  /** Resolving an absolute path below existing directories. */
  lemma OpensBelow(tree: Tree, cwd: Path, dirs: Path, tail: seq<Byte>)
    requires DirChain(tree, dirs) && 0 !in tail
    ensures Opens(tree, cwd, Rooted(dirs) + [SLASH] + tail) <==> Resolve(tree, dirs, Split(tail)).Some?
    ensures KindOf(tree, dirs) == Some(Dir)
  {
    hide Split, Rooted, CString;
    var p := Rooted(dirs) + [SLASH] + tail;
    RootedHasNoNul(dirs);
    CStringWhole(p);
    RootSplit(dirs, tail);
    forall k | 0 < k <= |dirs|
      ensures [] + dirs[..k] in tree && tree[[] + dirs[..k]] == Dir
    {
      assert [] + dirs[..k] == dirs[..k];
    }
    WalkDown(tree, [], dirs, Split(tail));
    assert [] + dirs == dirs;
  }

  lemma CStringWhole(p: seq<Byte>)
    requires 0 !in p
    ensures CString(p) == p
  {
    CStringPrefix(p, []);
    assert p + [] == p;
  }

  /** A probe under existing directories opens exactly when the magic file exists, for every byte but NUL. */
  lemma ProbeFinds(tree: Tree, cwd: Path, dirs: Path, b: Byte, suffix: Byte)
    requires DirChain(tree, dirs) && b != 0 && suffix != 0 && suffix != SLASH && suffix != DOT
    requires dirs + [[suffix]] !in tree && dirs + [[SLASH, suffix]] !in tree
    ensures Opens(tree, cwd, ProbePath(dirs, b, suffix)) <==> dirs + [[b, suffix]] in tree
  {
    hide Opens, Resolve, Split, DirChain;
    OpensBelow(tree, cwd, dirs, [b, suffix]);
    LastStep(tree, dirs, b, suffix);
  }

  /** Why NUL is tested first: it cuts the path at the directory, which always opens. */
  lemma NulProbeOpens(tree: Tree, cwd: Path, dirs: Path, suffix: Byte)
    requires DirChain(tree, dirs)
    ensures Opens(tree, cwd, ProbePath(dirs, 0, suffix))
  {
    hide Resolve, Split;
    RootedHasNoNul(dirs);
    var head := Rooted(dirs) + [SLASH];
    CStringPrefix(head, [0, suffix]);
    CStringWhole(head);
    assert ProbePath(dirs, 0, suffix) == head + [0, suffix];
    assert head + CString([0, suffix]) == head == head + [];
    OpensBelow(tree, cwd, dirs, []);
    EmptyTail(tree, dirs);
  }

  lemma EmptyTail(tree: Tree, at: Path)
    requires KindOf(tree, at) == Some(Dir)
    ensures Resolve(tree, at, Split([])).Some?
  {
    var names: seq<Name> := [[]];
    assert names[1..] == [];
  }

  // ----- the tree -----

  function SeparatorNames(sub: Name): seq<Name> {
    if sub == DIR_X then [[LF, X], [CR, X], [SPACE, X]]
    else if sub == DIR_N then [[LF, X]]
    else if sub == DIR_R then [[CR, X]]
    else if sub == DIR_S then [[SPACE, X]]
    else []
  }

  /** What the shipped tree holds at a path. */
  function OracleKind(p: Path): Option<Kind> {
    if |p| == 0 || p[0] != M8 then None
    else if |p| == 1 then Some(Dir)
    else if |p| == 2 then (if p[1] == EQ || SeparatorNames(p[1]) != [] then Some(Dir) else None)
    else if p[1] == EQ then
      if |p[2]| == 1 && Magic(p[2][0]) then
        if |p| == 3 then Some(Dir) else if |p| == 4 && p[3] == [p[2][0], E] then Some(File) else None
      else None
    else if |p| == 3 && p[2] in SeparatorNames(p[1]) then Some(File)
    else None
  }

  /** Below /.m8 the file system is exactly the oracle tree; elsewhere it is arbitrary. */
  ghost predicate Shipped(tree: Tree) {
    forall p: Path :: p != [] && p[0] == M8 ==>
      match OracleKind(p)
      case None => p !in tree
      case Some(kind) => p in tree && tree[p] == kind
  }

  lemma SeparatorChain(tree: Tree, sub: Name)
    requires Shipped(tree) && SeparatorNames(sub) != []
    ensures DirChain(tree, [M8, sub])
  {
    var dirs := [M8, sub];
    forall k | 0 < k <= |dirs|
      ensures dirs[..k] in tree && tree[dirs[..k]] == Dir
    {
      assert OracleKind(dirs[..k]) == Some(Dir);
    }
  }

  lemma EqualityChain(tree: Tree, c: Byte)
    requires Shipped(tree) && Magic(c)
    ensures DirChain(tree, [M8, EQ, [c]])
  {
    var dirs := [M8, EQ, [c]];
    forall k | 0 < k <= |dirs|
      ensures dirs[..k] in tree && tree[dirs[..k]] == Dir
    {
      assert OracleKind(dirs[..k]) == Some(Dir);
    }
  }

  /** The separator oracle: a probe under x, n, r or s opens exactly for the separators filed there. */
  lemma SeparatorProbe(tree: Tree, cwd: Path, sub: Name, b: Byte)
    requires Shipped(tree) && SeparatorNames(sub) != [] && b != 0
    ensures Opens(tree, cwd, ProbePath([M8, sub], b, X)) <==> [b, X] in SeparatorNames(sub)
  {
    SeparatorChain(tree, sub);
    assert [M8, sub] + [[X]] == [M8, sub, [X]] && [M8, sub] + [[b, X]] == [M8, sub, [b, X]];
    assert [M8, sub] + [[SLASH, X]] == [M8, sub, [SLASH, X]];
    assert OracleKind([M8, sub, [X]]) == None && OracleKind([M8, sub, [SLASH, X]]) == None;
    assert [M8, sub, [b, X]] in tree <==> OracleKind([M8, sub, [b, X]]).Some?;
    ProbeFinds(tree, cwd, [M8, sub], b, X);
  }

  /** The equality oracle: the probe opens exactly when the two bytes are equal. */
  lemma EqualityProbe(tree: Tree, cwd: Path, pattern: Byte, b: Byte)
    requires Shipped(tree) && Magic(pattern) && b != 0
    ensures Opens(tree, cwd, ProbePath([M8, EQ, [pattern]], b, E)) <==> b == pattern
  {
    EqualityChain(tree, pattern);
    var dirs := [M8, EQ, [pattern]];
    assert dirs + [[E]] == [M8, EQ, [pattern], [E]] && dirs + [[b, E]] == [M8, EQ, [pattern], [b, E]];
    assert dirs + [[SLASH, E]] == [M8, EQ, [pattern], [SLASH, E]];
    assert OracleKind([M8, EQ, [pattern], [E]]) == None && OracleKind([M8, EQ, [pattern], [SLASH, E]]) == None;
    assert [M8, EQ, [pattern], [b, E]] in tree <==> OracleKind([M8, EQ, [pattern], [b, E]]).Some?;
    ProbeFinds(tree, cwd, dirs, b, E);
  }

  // ----- in bytes -----

  /** The letters of the five command names. */
  predicate CommandLetter(c: Byte) {
    c in {97, 99, 100, 101, 102, 104, 105, 108, 109, 112, 115, 116, 120}
  }

  lemma MagicLetters(c: Byte)
    ensures Magic(c) <==> CommandLetter(c)
  {
    assert BUILTINS[0] == [104, 101, 108, 112] && BUILTINS[1] == [101, 120, 105, 116] && BUILTINS[2] == [99, 100]
           && BUILTINS[3] == [109, 102, 115, 108, 115] && BUILTINS[4] == [109, 102, 115, 99, 97, 116];
    if CommandLetter(c) {
      LetterOf(c);
    }
  }

  lemma LetterOf(c: Byte)
    requires CommandLetter(c)
    ensures c in [104, 101, 108, 112] || c in [101, 120, 105, 116] || c in [99, 100] || c in [109, 102, 115, 108, 115]
            || c in [109, 102, 115, 99, 97, 116]
  {
  }

  /** The files of the tree: which bytes have a separator file in x, n, r and s, and one file per command letter. */
  predicate MagicFile(p: Path) {
    |p| >= 3 && p[0] == [46, 109, 56]
    && ((|p| == 3 && p[1] == [120] && p[2] in {[10, 120], [13, 120], [32, 120]})
        || (|p| == 3 && p[1] == [110] && p[2] == [10, 120])
        || (|p| == 3 && p[1] == [114] && p[2] == [13, 120])
        || (|p| == 3 && p[1] == [115] && p[2] == [32, 120])
        || (|p| == 4 && p[1] == [101, 113] && |p[2]| == 1 && CommandLetter(p[2][0]) && p[3] == [p[2][0], 101]))
  }

  predicate MagicDir(p: Path) {
    |p| >= 1 && p[0] == [46, 109, 56]
    && (|p| == 1
        || (|p| == 2 && p[1] in {[120], [110], [114], [115], [101, 113]})
        || (|p| == 3 && p[1] == [101, 113] && |p[2]| == 1 && CommandLetter(p[2][0])))
  }

  lemma TreeInBytes(p: Path)
    ensures OracleKind(p) == (if MagicFile(p) then Some(File) else if MagicDir(p) then Some(Dir) else None)
  {
    hide Magic, CommandLetter;
    if |p| >= 3 && |p[2]| == 1 {
      MagicLetters(p[2][0]);
    }
  }

  /** The paths msh opens, byte for byte. */
  lemma ProbeBytes(pattern: Byte, b: Byte)
    ensures ProbePath([M8, DIR_X], b, X) == [47, 46, 109, 56, 47, 120, 47, b, 120]
    ensures ProbePath([M8, DIR_N], b, X) == [47, 46, 109, 56, 47, 110, 47, b, 120]
    ensures ProbePath([M8, DIR_R], b, X) == [47, 46, 109, 56, 47, 114, 47, b, 120]
    ensures ProbePath([M8, DIR_S], b, X) == [47, 46, 109, 56, 47, 115, 47, b, 120]
    ensures ProbePath([M8, EQ, [pattern]], b, E) == [47, 46, 109, 56, 47, 101, 113, 47, pattern, 47, b, 101]
  {
    hide Rooted;
    RootedTwo(M8, DIR_X);
    RootedTwo(M8, DIR_N);
    RootedTwo(M8, DIR_R);
    RootedTwo(M8, DIR_S);
    RootedThree(M8, EQ, [pattern]);
  }

  lemma RootedTwo(a: Name, b: Name)
    ensures Rooted([a, b]) == [SLASH] + a + [SLASH] + b
  {
    assert [a, b][1..] == [b] && [b][1..] == [];
    assert Rooted([b]) == [SLASH] + b + Rooted([]) && Rooted([]) == [];
  }

  lemma RootedThree(a: Name, b: Name, c: Name)
    ensures Rooted([a, b, c]) == [SLASH] + a + [SLASH] + b + [SLASH] + c
  {
    assert [a, b, c][1..] == [b, c];
    RootedTwo(b, c);
  }

  /** Which probes open: LF, CR and space below x, one each below n, r and s, and equal bytes below eq. */
  lemma ProbesInBytes(tree: Tree, cwd: Path, pattern: Byte, b: Byte)
    requires Shipped(tree) && b != 0
    ensures Opens(tree, cwd, [47, 46, 109, 56, 47, 120, 47, b, 120]) <==> b in {10, 13, 32}
    ensures Opens(tree, cwd, [47, 46, 109, 56, 47, 110, 47, b, 120]) <==> b == 10
    ensures Opens(tree, cwd, [47, 46, 109, 56, 47, 114, 47, b, 120]) <==> b == 13
    ensures Opens(tree, cwd, [47, 46, 109, 56, 47, 115, 47, b, 120]) <==> b == 32
    ensures CommandLetter(pattern) ==>
              (Opens(tree, cwd, [47, 46, 109, 56, 47, 101, 113, 47, pattern, 47, b, 101]) <==> b == pattern)
  {
    hide Opens, ProbePath, Shipped, Magic, CommandLetter;
    ProbeBytes(pattern, b);
    MagicLetters(pattern);
    SeparatorProbe(tree, cwd, DIR_X, b);
    SeparatorProbe(tree, cwd, DIR_N, b);
    SeparatorProbe(tree, cwd, DIR_R, b);
    SeparatorProbe(tree, cwd, DIR_S, b);
    if CommandLetter(pattern) {
      EqualityProbe(tree, cwd, pattern, b);
    }
    SeparatorBytes(b);
  }

  lemma SeparatorBytes(b: Byte)
    ensures [b, X] in SeparatorNames(DIR_X) <==> b in {10, 13, 32}
    ensures [b, X] in SeparatorNames(DIR_N) <==> b == 10
    ensures [b, X] in SeparatorNames(DIR_R) <==> b == 13
    ensures [b, X] in SeparatorNames(DIR_S) <==> b == 32
  {
    assert [LF, X][0] == LF && [CR, X][0] == CR && [SPACE, X][0] == SPACE && [b, X][0] == b;
    assert SeparatorNames(DIR_X) == [[LF, X], [CR, X], [SPACE, X]];
    if b == 13 {
      assert SeparatorNames(DIR_X)[1] == [b, X];
    }
    if b == 32 {
      assert SeparatorNames(DIR_X)[2] == [b, X];
    }
  }

  /** A dot stays in the directory, two dots leave it. */
  lemma DotsResolve(tree: Tree, at: Path, rest: seq<Name>)
    requires KindOf(tree, at) == Some(Dir)
    ensures Resolve(tree, at, [[46]] + rest) == Resolve(tree, at, rest)
    ensures Resolve(tree, at, [[46, 46]] + rest) == Resolve(tree, if at == [] then [] else at[..|at| - 1], rest)
    ensures Resolve(tree, at, [[]] + rest) == Resolve(tree, at, rest)
  {
    assert ([[46]] + rest)[1..] == rest && ([[46, 46]] + rest)[1..] == rest && ([[]] + rest)[1..] == rest;
  }

  /** Nothing opens below a file: not another name, not a trailing slash. */
  lemma NothingBelowFiles(tree: Tree, cwd: Path, dirs: Path, name: Name, tail: seq<Byte>)
    requires DirChain(tree, dirs) && 0 !in tail
    requires Plain(name) && dirs + [name] in tree && tree[dirs + [name]] == File
    ensures !Opens(tree, cwd, Rooted(dirs) + [SLASH] + name + [SLASH] + tail)
  {
    hide Split, Rooted, CString, Opens;
    var below := name + [SLASH] + tail;
    assert Rooted(dirs) + [SLASH] + name + [SLASH] + tail == Rooted(dirs) + [SLASH] + below;
    OpensBelow(tree, cwd, dirs, below);
    SplitName(name, tail);
    BelowFile(tree, dirs, name, Split(tail));
  }

  lemma BelowFile(tree: Tree, dirs: Path, name: Name, rest: seq<Name>)
    requires KindOf(tree, dirs) == Some(Dir) && Plain(name) && dirs + [name] in tree && tree[dirs + [name]] == File
    requires rest != []
    ensures Resolve(tree, dirs, [name] + rest).None?
  {
    assert ([name] + rest)[0] == name && ([name] + rest)[1..] == rest;
    assert Resolve(tree, dirs + [name], rest) == None;
  }

  /** A bare name opens what the current directory holds under it. */
  lemma BareNameOpens(tree: Tree, cwd: Path, name: Name)
    requires KindOf(tree, cwd) == Some(Dir) && Plain(name)
    ensures Opens(tree, cwd, name) <==> cwd + [name] in tree
  {
    hide Split, CString;
    CStringWhole(name);
    SplitLast(name);
    assert name[0] in name && [name][1..] == [];
    assert Resolve(tree, cwd + [name], []) == Some(cwd + [name]);
  }

  // ----- building it -----

  /** mkdir -p: existing directories are tolerated, a file in the way is an error. */
  method MakeDirs(before: Tree, path: Path) returns (ok: bool, after: Tree)
    ensures ok <==> forall p :: p in before && p != [] && p <= path ==> before[p] == Dir
    ensures Extends(before, after)
    ensures forall p :: p in after && p !in before ==> p != [] && p <= path && after[p] == Dir
    ensures ok ==> forall p :: p != [] && p <= path ==> p in after && after[p] == Dir
  {
    after := before;
    for k := 0 to |path|
      invariant Extends(before, after)
      invariant forall p :: p in after && p !in before ==> p != [] && p <= path && |p| <= k && after[p] == Dir
      invariant forall p :: p != [] && p <= path && |p| <= k ==> p in after && after[p] == Dir
    {
      var q := path[..k + 1];
      assert forall p :: p <= path && |p| == k + 1 ==> p == q;
      if q !in after {
        after := after[q := Dir];
      } else if after[q] == File {
        assert q in before;
        return false, after;
      }
    }
    ok := true;
  }

  /** An empty file; a directory of that name is an error. */
  method WriteEmpty(before: Tree, path: Path) returns (ok: bool, after: Tree)
    ensures ok <==> (path in before ==> before[path] == File)
    ensures after == if ok then before[path := File] else before
  {
    ok := path in before ==> before[path] == File;
    after := if ok then before[path := File] else before;
  }

  ghost predicate Extends(a: Tree, b: Tree) {
    forall p :: p in a ==> p in b && b[p] == a[p]
  }

  /** Every node of the oracle tree is listed but the two inner directories. */
  predicate Listed(p: Path) {
    OracleKind(p).Some? && p != [M8] && p != [M8, EQ]
  }

  /** The tree so far is the old one plus oracle nodes; what is listed is there. */
  ghost predicate Growing(before: Tree, tree: Tree, made: seq<Path>) {
    Extends(before, tree)
    && (forall p :: p in tree && p !in before ==> OracleKind(p) == Some(tree[p]))
    && (forall p :: p in made ==> Listed(p))
  }

  /** A node in the way: the oracle tree needs another kind there. */
  ghost predicate Conflict(before: Tree) {
    exists p :: p in before && OracleKind(p).Some? && OracleKind(p) != Some(before[p])
  }

  lemma GrowDir(before: Tree, tree: Tree, made: seq<Path>, d: Path, after: Tree)
    requires Growing(before, tree, made) && Listed(d) && OracleKind(d) == Some(Dir) && Extends(tree, after)
    requires forall p :: p in after && p !in tree ==> p != [] && p <= d && after[p] == Dir
    ensures Growing(before, after, made + [d])
  {
    forall p | p in after && p !in before
      ensures OracleKind(p) == Some(after[p])
    {
      if p !in tree {
        PrefixKind(p, d);
      }
    }
  }

  /** Every directory above an oracle directory is one. */
  lemma PrefixKind(p: Path, d: Path)
    requires OracleKind(d) == Some(Dir) && p != [] && p <= d
    ensures OracleKind(p) == Some(Dir)
  {
    assert p == d[..|p|];
  }

  /** A directory that cannot be made: one of the old nodes above it is a file. */
  lemma DirConflict(before: Tree, tree: Tree, made: seq<Path>, d: Path)
    requires Growing(before, tree, made) && OracleKind(d) == Some(Dir)
    requires !(forall p :: p in tree && p != [] && p <= d ==> tree[p] == Dir)
    ensures Conflict(before)
  {
    var p :| p in tree && p != [] && p <= d && tree[p] != Dir;
    PrefixKind(p, d);
    assert p in before && OracleKind(p).Some? && OracleKind(p) != Some(before[p]);
  }

  lemma FileConflict(before: Tree, tree: Tree, made: seq<Path>, f: Path)
    requires Growing(before, tree, made) && OracleKind(f) == Some(File) && f in tree && tree[f] == Dir
    ensures Conflict(before)
  {
    assert f in before && OracleKind(f).Some? && OracleKind(f) != Some(before[f]);
  }

  /** A node of the oracle tree, in place and listed. */
  ghost predicate Made(tree: Tree, made: seq<Path>, p: Path) {
    p in tree && OracleKind(p) == Some(tree[p]) && (Listed(p) ==> p in made)
  }

  /** One separator directory with its files. */
  method MakeSeparator(ghost before: Tree, tree: Tree, made: seq<Path>, ghost k: nat, sub: Name, names: seq<Name>)
    returns (ok: bool, tree': Tree, made': seq<Path>)
    requires k < |SEPARATOR_FILES| && SEPARATOR_FILES[k] == (sub, names)
    requires Growing(before, tree, made)
    ensures ok ==>
              Growing(before, tree', made') && SubMade(tree', made', k, |names|) && Extends(tree, tree')
                && made <= made'
    ensures !ok ==> Conflict(before)
  {
    hide OracleKind, Listed, Growing;
    SubListed(k);
    ok, tree' := MakeDirs(tree, [M8, sub]);
    made' := made;
    if !ok {
      DirConflict(before, tree, made, [M8, sub]);
      return;
    }
    GrowDir(before, tree, made, [M8, sub], tree');
    made' := made + [[M8, sub]];
    assert [M8] <= [M8, sub] && [M8, sub] <= [M8, sub] && [M8, sub] in made';
    InnerDirs();
    for j := 0 to |names|
      invariant ok && Growing(before, tree', made') && Extends(tree, tree') && made <= made'
      invariant SubMade(tree', made', k, j)
    {
      var f := [M8, sub, names[j]];
      ghost var was, list := tree', made';
      ok, tree' := WriteEmpty(tree', f);
      if !ok {
        FileConflict(before, was, made', f);
        return;
      }
      GrowFile(before, was, made', f);
      made' := made' + [f];
      assert f in made';
      SubKept(was, list, tree', made', k, j);
    }
  }

  lemma InnerDirs()
    ensures OracleKind([M8]) == Some(Dir) && !Listed([M8]) && OracleKind([M8, EQ]) == Some(Dir) && !Listed([M8, EQ])
  {
  }

  lemma GrowFile(before: Tree, tree: Tree, made: seq<Path>, f: Path)
    requires Growing(before, tree, made) && OracleKind(f) == Some(File) && (f in tree ==> tree[f] == File)
    ensures Growing(before, tree[f := File], made + [f]) && Extends(tree, tree[f := File])
  {
    InnerDirs();
  }

  /** One equality directory with its file. */
  method MakeEquality(ghost before: Tree, tree: Tree, made: seq<Path>, c: Byte)
    returns (ok: bool, tree': Tree, made': seq<Path>)
    requires Magic(c) && Growing(before, tree, made)
    ensures ok ==> Growing(before, tree', made') && CharMade(tree', made', c) && Extends(tree, tree') && made <= made'
    ensures !ok ==> Conflict(before)
  {
    hide Growing, OracleKind, Listed;
    var d, f := [M8, EQ, [c]], [M8, EQ, [c], [c, E]];
    EqualityListed(c);
    ok, tree' := MakeDirs(tree, d);
    made' := made;
    if !ok {
      DirConflict(before, tree, made, d);
      return;
    }
    GrowDir(before, tree, made, d, tree');
    assert [M8, EQ] <= d && d <= d;
    ghost var was := tree';
    ok, tree' := WriteEmpty(tree', f);
    if !ok {
      FileConflict(before, was, made + [d], f);
      return;
    }
    GrowFile(before, was, made + [d], f);
    InnerDirs();
    made' := made + [d] + [f];
    assert d in made' && f in made';
  }

  lemma EqualityListed(c: Byte)
    requires Magic(c)
    ensures Listed([M8, EQ, [c]]) && OracleKind([M8, EQ, [c]]) == Some(Dir)
            && OracleKind([M8, EQ, [c], [c, E]]) == Some(File)
  {
  }

  /**
   Creates the tree at the root of any file system.  It fails exactly when a
   node of another kind is in the way; otherwise it adds the oracle nodes that
   are missing and nothing else, and the result is the shipped oracle exactly
   when nothing foreign lay below /.m8.
   */
  method MakeTree(before: Tree) returns (ok: bool, tree: Tree, made: seq<Path>)
    ensures ok <==> !Conflict(before)
    ensures ok ==> forall p :: p in made <==> Listed(p)
    ensures ok ==> forall p :: p in tree <==> p in before || OracleKind(p).Some?
    ensures ok ==> forall p :: p in tree ==> tree[p] == if p in before then before[p] else OracleKind(p).value
    ensures ok ==> (Shipped(tree) <==> forall p :: p in before && p != [] && p[0] == M8 ==> OracleKind(p).Some?)
  {
    hide OracleKind, Magic, Extends;
    ok, tree, made := true, before, [];
    StartGrowing(before);
    for i := 0 to |SEPARATOR_FILES|
      invariant ok && Growing(before, tree, made)
      invariant forall k :: 0 <= k < i ==> SubMade(tree, made, k, |SEPARATOR_FILES[k].1|)
    {
      ghost var was, list := tree, made;
      ok, tree, made := MakeSeparator(before, tree, made, i, SEPARATOR_FILES[i].0, SEPARATOR_FILES[i].1);
      if !ok {
        return;
      }
      forall k | 0 <= k < i
        ensures SubMade(tree, made, k, |SEPARATOR_FILES[k].1|)
      {
        SubKept(was, list, tree, made, k, |SEPARATOR_FILES[k].1|);
      }
    }
    for c := 0 to 256
      invariant ok && Growing(before, tree, made)
      invariant forall k :: 0 <= k < |SEPARATOR_FILES| ==> SubMade(tree, made, k, |SEPARATOR_FILES[k].1|)
      invariant forall b: Byte :: b < c && Magic(b) ==> CharMade(tree, made, b)
    {
      if Magic(c) {
        ghost var was, list := tree, made;
        ok, tree, made := MakeEquality(before, tree, made, c);
        if !ok {
          return;
        }
        forall k | 0 <= k < |SEPARATOR_FILES|
          ensures SubMade(tree, made, k, |SEPARATOR_FILES[k].1|)
        {
          SubKept(was, list, tree, made, k, |SEPARATOR_FILES[k].1|);
        }
        forall b: Byte | b < c && Magic(b)
          ensures CharMade(tree, made, b)
        {
          CharKept(was, list, tree, made, b);
        }
      }
    }
    Complete(before, tree, made);
  }

  lemma StartGrowing(before: Tree)
    ensures Growing(before, before, [])
  {
  }

  ghost predicate SubMade(tree: Tree, made: seq<Path>, k: nat, n: nat)
    requires k < |SEPARATOR_FILES| && n <= |SEPARATOR_FILES[k].1|
  {
    Made(tree, made, [M8]) && Made(tree, made, [M8, SEPARATOR_FILES[k].0])
    && forall j :: 0 <= j < n ==> Made(tree, made, [M8, SEPARATOR_FILES[k].0, SEPARATOR_FILES[k].1[j]])
  }

  ghost predicate CharMade(tree: Tree, made: seq<Path>, b: Byte) {
    Made(tree, made, [M8, EQ]) && Made(tree, made, [M8, EQ, [b]]) && Made(tree, made, [M8, EQ, [b], [b, E]])
  }

  lemma MadeKept(tree: Tree, made: seq<Path>, tree': Tree, made': seq<Path>, p: Path)
    requires Made(tree, made, p) && Extends(tree, tree') && made <= made'
    ensures Made(tree', made', p)
  {
    assert forall q :: q in made ==> q in made'[..|made|];
  }

  lemma SubKept(tree: Tree, made: seq<Path>, tree': Tree, made': seq<Path>, k: nat, n: nat)
    requires k < |SEPARATOR_FILES| && n <= |SEPARATOR_FILES[k].1|
    requires SubMade(tree, made, k, n) && Extends(tree, tree') && made <= made'
    ensures SubMade(tree', made', k, n)
  {
    hide Made, Extends;
    var sub := SEPARATOR_FILES[k].0;
    MadeKept(tree, made, tree', made', [M8]);
    MadeKept(tree, made, tree', made', [M8, sub]);
    forall j | 0 <= j < n
      ensures Made(tree', made', [M8, sub, SEPARATOR_FILES[k].1[j]])
    {
      MadeKept(tree, made, tree', made', [M8, sub, SEPARATOR_FILES[k].1[j]]);
    }
  }

  lemma CharKept(tree: Tree, made: seq<Path>, tree': Tree, made': seq<Path>, b: Byte)
    requires CharMade(tree, made, b) && Extends(tree, tree') && made <= made'
    ensures CharMade(tree', made', b)
  {
    hide Made, Extends;
    MadeKept(tree, made, tree', made', [M8, EQ]);
    MadeKept(tree, made, tree', made', [M8, EQ, [b]]);
    MadeKept(tree, made, tree', made', [M8, EQ, [b], [b, E]]);
  }

  lemma SubListed(k: nat)
    requires k < |SEPARATOR_FILES|
    ensures Listed([M8, SEPARATOR_FILES[k].0]) && OracleKind([M8, SEPARATOR_FILES[k].0]) == Some(Dir)
    ensures SeparatorNames(SEPARATOR_FILES[k].0) == SEPARATOR_FILES[k].1
    ensures forall j :: 0 <= j < |SEPARATOR_FILES[k].1| ==>
              OracleKind([M8, SEPARATOR_FILES[k].0, SEPARATOR_FILES[k].1[j]]) == Some(File)
  {
  }

  lemma Complete(before: Tree, tree: Tree, made: seq<Path>)
    requires Growing(before, tree, made)
    requires forall k :: 0 <= k < |SEPARATOR_FILES| ==> SubMade(tree, made, k, |SEPARATOR_FILES[k].1|)
    requires forall b: Byte :: Magic(b) ==> CharMade(tree, made, b)
    ensures !Conflict(before) && (forall p :: p in made <==> Listed(p))
    ensures forall p :: p in tree <==> p in before || OracleKind(p).Some?
    ensures forall p :: p in tree ==> tree[p] == if p in before then before[p] else OracleKind(p).value
    ensures Shipped(tree) <==> forall p :: p in before && p != [] && p[0] == M8 ==> OracleKind(p).Some?
  {
    forall p: Path | OracleKind(p).Some?
      ensures Made(tree, made, p)
    {
      AllMade(tree, made, p);
    }
    hide OracleKind;
    OnlyBelow();
  }

  lemma OnlyBelow()
    ensures forall p :: OracleKind(p).Some? ==> p != [] && p[0] == M8
  {
  }

  lemma AllMade(tree: Tree, made: seq<Path>, p: Path)
    requires forall k :: 0 <= k < |SEPARATOR_FILES| ==> SubMade(tree, made, k, |SEPARATOR_FILES[k].1|)
    requires forall b: Byte :: Magic(b) ==> CharMade(tree, made, b)
    requires OracleKind(p).Some?
    ensures Made(tree, made, p)
  {
    hide Made;
    assert SubMade(tree, made, 0, 3) && SubMade(tree, made, 1, 1) && SubMade(tree, made, 2, 1)
           && SubMade(tree, made, 3, 1);
    assert SEPARATOR_FILES[0].0 == DIR_X && SEPARATOR_FILES[1].0 == DIR_N;
    assert SEPARATOR_FILES[2].0 == DIR_R && SEPARATOR_FILES[3].0 == DIR_S;
    if |p| == 1 {
      assert p == [M8];
    } else if |p| == 2 && p[1] == EQ {
      assert HELP in BUILTINS && Magic(HELP[0]);
      assert p == [M8, EQ];
    } else if |p| == 2 {
      assert p == [M8, p[1]];
    } else if p[1] == EQ {
      assert CharMade(tree, made, p[2][0]) && p[2] == [p[2][0]];
      assert p == [M8, EQ, p[2]] || p == [M8, EQ, p[2], p[3]];
    } else {
      assert p == [M8, p[1], p[2]];
      SubNames(tree, made, p[1], p[2]);
    }
  }

  lemma SubNames(tree: Tree, made: seq<Path>, sub: Name, file: Name)
    requires SubMade(tree, made, 0, 3) && SubMade(tree, made, 1, 1) && SubMade(tree, made, 2, 1)
             && SubMade(tree, made, 3, 1)
    requires file in SeparatorNames(sub)
    ensures Made(tree, made, [M8, sub, file])
  {
    hide Made;
    var k := if sub == DIR_X then 0 else if sub == DIR_N then 1 else if sub == DIR_R then 2 else 3;
    SubListed(k);
    var j :| 0 <= j < |SEPARATOR_FILES[k].1| && SEPARATOR_FILES[k].1[j] == file;
    assert SubMade(tree, made, k, |SEPARATOR_FILES[k].1|);
  }
}
