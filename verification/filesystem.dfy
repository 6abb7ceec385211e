/** The file system as the recursive delete sees it through libuv. */
module FileSystems {
  import opened Basics
  import opened FixedStr

  /** A path is the list of its components. */
  type Path = seq<string>

  datatype Kind = Dir | File | Other

  datatype Dirent = Dirent(name: string, kind: Kind)

  predicate ValidName(n: string) {
    n != [] && NulFree(n) && '/' !in n
  }

  predicate ValidNames(names: Path) {
    forall i | 0 <= i < |names| :: ValidName(names[i])
  }

  /** `k` is `r` or lies below it. */
  predicate Under(k: Path, r: Path) {
    r <= k
  }

  function Parent(k: Path): Path
    requires k != []
  {
    k[..|k| - 1]
  }

  predicate ChildOf(k: Path, d: Path) {
    k != [] && Parent(k) == d
  }

  /** Every entry but the topmost lies in a directory. */
  predicate Closed(tree: map<Path, Kind>) {
    forall k {:trigger Parent(k)} | k != [] && k in tree :: Parent(k) in tree && tree[Parent(k)] == Dir
  }

  predicate HasNoChild(tree: map<Path, Kind>, d: Path) {
    forall k | k in tree :: !ChildOf(k, d)
  }

  // ---- path strings -----------------------------------------------------------------------

  datatype Piece =
    | Only(name: string)
    | Slash(name: string, rest: string)

  function FirstSlash(s: string): (n: nat)
    ensures n <= |s| && forall i | 0 <= i < n :: s[i] != '/'
    ensures n < |s| ==> s[n] == '/'
  {
    if s == [] || s[0] == '/' then 0 else 1 + FirstSlash(s[1..])
  }

  function CutPiece(s: string): (c: Piece)
    ensures '/' !in c.name
    ensures c.Only? ==> s == c.name
    ensures c.Slash? ==> s == c.name + ['/'] + c.rest
  {
    var n := FirstSlash(s);
    if n == |s| then Only(s) else Slash(s[..n], s[n + 1..])
  }

  function Component(name: string): Path {
    if name == [] then [] else [name]
  }

  /** The components a path string names: its pieces between slashes, empty ones left out. */
  function Components(s: string): Path
    decreases |s|
  {
    match CutPiece(s)
    case Only(name) => Component(name)
    case Slash(name, rest) => Component(name) + Components(rest)
  }

  lemma CutPieceAt(name: string, rest: string)
    requires '/' !in name
    ensures CutPiece(name + ['/'] + rest) == Slash(name, rest)
  {
    var s := name + ['/'] + rest;
    assert s[|name|] == '/';
    assert forall i | 0 <= i < |name| :: s[i] == name[i];
    assert s[..|name|] == name && s[|name| + 1..] == rest;
  }

  lemma {:induction false} ComponentsJoin(s: string, t: string)
    ensures Components(s + ['/'] + t) == Components(s) + Components(t)
    decreases |s|
  {
    match CutPiece(s)
    case Only(name) =>
      CutPieceAt(name, t);
    case Slash(name, rest) =>
      ComponentsJoin(rest, t);
      CutPieceAt(name, rest + ['/'] + t);
      JoinSlash(name, rest, t);
  }

  lemma JoinSlash(name: string, rest: string, t: string)
    ensures name + ['/'] + rest + ['/'] + t == name + ['/'] + (rest + ['/'] + t)
  {
  }

  lemma ComponentsOfName(n: string)
    requires ValidName(n)
    ensures Components(n) == [n]
  {
    assert CutPiece(n).Only?;
  }

  /** The string for the directory `names` below `root`, without a slash at its end. */
  function PathString(root: string, names: Path): string {
    if names == [] then root
    else PathString(root, names[..|names| - 1]) + ['/'] + names[|names| - 1]
  }

  /** The string the program builds for a directory. */
  function DirString(root: string, names: Path): string {
    PathString(root, names) + ['/']
  }

  lemma PathStringSnoc(root: string, names: Path, n: string)
    ensures PathString(root, names + [n]) == DirString(root, names) + n
  {
    assert (names + [n])[..|names|] == names;
  }

  lemma AddName(s: string, n: string, above: Path, names: Path)
    requires ValidName(n) && names != [] && n == names[|names| - 1]
    requires Components(s) == above + names[..|names| - 1]
    ensures Components(s + ['/'] + n) == above + names
  {
    ComponentsJoin(s, n);
    ComponentsOfName(n);
    FrontAndLast(above, names);
  }

  lemma {:induction false} PathStringNames(root: string, names: Path)
    requires ValidNames(names)
    ensures Components(PathString(root, names)) == Components(root) + names
    decreases |names|
  {
    if names != [] {
      var front := names[..|names| - 1];
      PathStringNames(root, front);
      AddName(PathString(root, front), names[|names| - 1], Components(root), names);
    }
  }

  /** The strings the program builds name the files and directories they should. */
  lemma StringsName(root: string, names: Path)
    requires ValidNames(names)
    ensures Components(PathString(root, names)) == Components(root) + names
    ensures Components(DirString(root, names)) == Components(root) + names
  {
    PathStringNames(root, names);
    DirStringNames(PathString(root, names));
  }

  lemma DirStringNames(s: string)
    ensures Components(s + ['/']) == Components(s)
  {
    ComponentsJoin(s, []);
    assert s + ['/'] + [] == s + ['/'];
  }

  lemma {:induction false} PathStringNulFree(root: string, names: Path)
    requires NulFree(root) && ValidNames(names)
    ensures NulFree(PathString(root, names)) && NulFree(DirString(root, names))
    decreases |names|
  {
    if names != [] {
      PathStringNulFree(root, names[..|names| - 1]);
    }
  }

  // ---- the calls --------------------------------------------------------------------------

  /** Entries by path, and the directory streams now open. */
  class FileSystem {
    var tree: map<Path, Kind>
    var open: map<nat, Path>

    /** Fails if there is no such directory. */
    method OpenDir(s: string) returns (result: int, h: nat)
      modifies this`open
      ensures result >= 0 <==> Components(s) in tree && tree[Components(s)] == Dir
      ensures result < 0 ==> open == old(open)
      ensures result >= 0 ==> h !in old(open) && open == old(open)[h := Components(s)]
    {
      h := 0;
      if Components(s) !in tree || tree[Components(s)] != Dir {
        return -1, 0;
      }
      while h in open
        invariant h >= 0
        decreases set k | k in open && k >= h
      {
        ghost var left := set k | k in open && k >= h;
        assert (set k | k in open && k >= h + 1) == left - {h} && h in left;
        h := h + 1;
      }
      open := open[h := Components(s)];
      return 0, h;
    }

    /** Any one entry still present, or none if the directory is empty. */
    method ReadDir(h: nat) returns (entry: Option<Dirent>)
      requires h in open
      ensures entry.None? ==> HasNoChild(tree, open[h])
      ensures entry.Some? ==>
                var k := open[h] + [entry.value.name];
                k in tree && tree[k] == entry.value.kind
    {
      if k :| k in tree && ChildOf(k, open[h]) {
        assert k == open[h] + [k[|k| - 1]];
        return Some(Dirent(k[|k| - 1], tree[k]));
      }
      return None;
    }

    method CloseDir(h: nat)
      requires h in open
      modifies this`open
      ensures open == old(open) - {h}
    {
      open := open - {h};
    }

    method Unlink(s: string)
      requires Components(s) in tree && tree[Components(s)] == File
      modifies this`tree
      ensures tree == old(tree) - {Components(s)}
    {
      tree := tree - {Components(s)};
    }

    method RmDir(s: string)
      requires Components(s) in tree && tree[Components(s)] == Dir
      requires HasNoChild(tree, Components(s))
      modifies this`tree
      ensures tree == old(tree) - {Components(s)}
    {
      tree := tree - {Components(s)};
    }
  }
}
