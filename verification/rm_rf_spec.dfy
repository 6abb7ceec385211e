/** What a recursive delete has to do, and how far one has got, stated over trees of paths. */
module RmRfSpec {
  import opened FixedStr
  import opened FileSystems

  /**
   One delete: the string it was started with, the path it names, the file system and the open
   directory streams at that time, the number of stack entries and the size of the path buffer.
   */
  datatype Job = Job(root: string, top: Path, tree0: map<Path, Kind>, open0: map<nat, Path>,
                     depth: nat, room: nat) {
    /** What any file system is: entries lie in directories, and names are names. */
    predicate Sound() {
      && NulFree(root) && top == Components(root) && Closed(tree0)
      && forall k {:trigger ValidBelow(k, |top|)} | k in tree0 && Under(k, top) :: ValidBelow(k, |top|)
    }

    /** Whether there is a directory to delete. */
    predicate HasTop() {
      top in tree0 && tree0[top] == Dir
    }

    /** Every directory has a stack entry and every path string fits in the buffer. */
    predicate Fits() {
      forall k {:trigger DirStr(k)} {:trigger FileStr(k)} | k in tree0 && Under(k, top) ::
        && (tree0[k] == Dir ==> |k| - |top| < depth && |DirStr(k)| < room)
        && (tree0[k] == File ==> |FileStr(k)| < room)
    }

    predicate OnlyDirsAndFiles() {
      forall k | k in tree0 && Under(k, top) :: tree0[k] != Other
    }

    /** The file system once the job is done. */
    function Outside(): map<Path, Kind> {
      map k | k in tree0 && !Under(k, top) :: tree0[k]
    }

    /** Nothing was added or altered, and nothing was removed but files and directories below the top. */
    predicate Partly(tree: map<Path, Kind>) {
      && Closed(tree)
      && (forall k | k in tree :: k in tree0 && tree[k] == tree0[k])
      && (forall k | k in tree0 && (!Under(k, top) || tree0[k] == Other) :: k in tree)
    }

    /** The string the program builds for the directory `k`, and for the file `k`. */
    function DirStr(k: Path): string
      requires Under(k, top)
    {
      DirString(root, k[|top|..])
    }

    function FileStr(k: Path): string
      requires Under(k, top)
    {
      PathString(root, k[|top|..])
    }

    /** The directories on the stack: each lies in the one before, and all are still there. */
    predicate Chain(tree: map<Path, Kind>, level: seq<Path>) {
      && level != [] && level[0] == top
      && (forall i | 0 <= i < |level| :: Under(level[i], top) && |level[i]| == |top| + i)
      && (forall i | 0 <= i < |level| :: level[i] in tree && tree[level[i]] == Dir)
      && (forall i, j | 0 <= i < |level| - 1 && j == i + 1 :: ChildOf(level[j], level[i]))
    }
  }

  predicate ValidBelow(k: Path, n: nat) {
    forall i | n <= i < |k| :: ValidName(k[i])
  }

  function Below(tree: map<Path, Kind>, r: Path): set<Path> {
    set k | k in tree && Under(k, r)
  }

  function DirsBelow(tree: map<Path, Kind>, r: Path): set<Path> {
    set k | k in tree && Under(k, r) && tree[k] == Dir
  }

  /** Two callbacks are spent on each file and five on each directory. */
  function Work(tree: map<Path, Kind>, r: Path): nat {
    2 * |Below(tree, r)| + 3 * |DirsBelow(tree, r)|
  }

  lemma WorkAfter(tree: map<Path, Kind>, r: Path, k: Path)
    requires k in tree && Under(k, r)
    ensures Work(tree - {k}, r) == Work(tree, r) - (if tree[k] == Dir then 5 else 2)
  {
    assert Below(tree - {k}, r) == Below(tree, r) - {k};
    assert k in Below(tree, r);
    if tree[k] == Dir {
      assert DirsBelow(tree - {k}, r) == DirsBelow(tree, r) - {k};
      assert k in DirsBelow(tree, r);
    } else {
      assert DirsBelow(tree - {k}, r) == DirsBelow(tree, r);
    }
  }

  lemma {:induction false} Ancestor(tree: map<Path, Kind>, k: Path, r: Path)
    requires Closed(tree) && k in tree && Under(k, r)
    ensures r in tree
    decreases |k|
  {
    if |k| > |r| {
      Ancestor(tree, Parent(k), r);
    } else {
      assert k == r;
    }
  }

  /** With the top gone, everything below it is gone and nothing else. */
  lemma TopGone(job: Job, tree: map<Path, Kind>)
    requires job.Partly(tree) && job.top !in tree
    ensures tree == job.Outside() && job.OnlyDirsAndFiles()
  {
    forall k | k in tree
      ensures !Under(k, job.top)
    {
      if Under(k, job.top) {
        Ancestor(tree, k, job.top);
      }
    }
  }

  // ---- the directories on the stack -------------------------------------------------------

  function Last(k: Path): string
    requires k != []
  {
    k[|k| - 1]
  }

  lemma ChildName(d: Path, n: string)
    ensures ChildOf(d + [n], d) && Last(d + [n]) == n
  {
    assert Parent(d + [n]) == d;
  }

  /** The strings the directories on the stack are spelled with, each extending the one before. */
  predicate Texts(job: Job, level: seq<Path>, text: seq<string>) {
    && |text| == |level| && text != [] && text[0] == job.root + ['/']
    && (forall i, j | 0 <= i < |text| - 1 && j == i + 1 ::
          level[j] != [] && text[j] == text[i] + Last(level[j]) + ['/'])
  }

  lemma StrNames(job: Job, k: Path)
    requires job.Sound() && k in job.tree0 && Under(k, job.top)
    ensures NulFree(job.DirStr(k)) && NulFree(job.FileStr(k))
    ensures Components(job.DirStr(k)) == Components(job.FileStr(k)) == k
  {
    var names := k[|job.top|..];
    ValidTail(k, |job.top|);
    PathStringNulFree(job.root, names);
    StringsName(job.root, names);
    Rejoin(job.top, k);
  }

  lemma ValidTail(k: Path, n: nat)
    requires n <= |k| && ValidBelow(k, n)
    ensures ValidNames(k[n..])
  {
  }

  lemma Rejoin(top: Path, k: Path)
    requires top <= k
    ensures top + k[|top|..] == k
  {
  }

  lemma ChildStr(job: Job, d: Path, k: Path)
    requires Under(d, job.top) && ChildOf(k, d)
    ensures Under(k, job.top)
    ensures job.FileStr(k) == job.DirStr(d) + Last(k)
    ensures job.DirStr(k) == job.DirStr(d) + Last(k) + ['/']
  {
    PathStringSnoc(job.root, d[|job.top|..], Last(k));
    assert k[|job.top|..] == d[|job.top|..] + [Last(k)];
  }

  lemma {:induction false} TextStr(job: Job, tree: map<Path, Kind>, level: seq<Path>, text: seq<string>, i: nat)
    requires job.Chain(tree, level) && Texts(job, level, text) && i < |level|
    ensures text[i] == job.DirStr(level[i])
  {
    if i == 0 {
      assert job.top[|job.top|..] == [];
    } else {
      TextStr(job, tree, level, text, i - 1);
      ChildStr(job, level[i - 1], level[i]);
    }
  }

  /** Lower entries are spelled by proper prefixes of what higher ones are spelled by. */
  lemma {:induction false} TextsNest(job: Job, level: seq<Path>, text: seq<string>, i: nat, j: nat)
    requires Texts(job, level, text) && i < j < |text|
    ensures text[i] < text[j]
    decreases j
  {
    if i < j - 1 {
      TextsNest(job, level, text, i, j - 1);
    }
  }

  /** The text on top of the stack names the directory there; it fits and has no NUL in it. */
  lemma TopText(job: Job, tree: map<Path, Kind>, level: seq<Path>, text: seq<string>)
    requires job.Sound() && job.Fits() && job.Partly(tree)
    requires job.Chain(tree, level) && Texts(job, level, text)
    ensures NulFree(text[|text| - 1]) && Components(text[|text| - 1]) == level[|level| - 1]
    ensures |text[|text| - 1]| < job.room && |level| <= job.depth
  {
    TextStr(job, tree, level, text, |level| - 1);
    StrNames(job, level[|level| - 1]);
  }

  /** There is room for a directory found in it, on the stack and in the buffer. */
  lemma DirText(job: Job, tree: map<Path, Kind>, level: seq<Path>, text: seq<string>, d: Path, n: string)
    requires job.Sound() && job.Fits() && job.Partly(tree)
    requires job.Chain(tree, level) && Texts(job, level, text)
    requires d == level[|level| - 1] && d + [n] in tree && tree[d + [n]] == Dir
    ensures ChildOf(d + [n], d) && Last(d + [n]) == n
    ensures |text[|text| - 1] + n + ['/']| < job.room && |level| < job.depth
  {
    TextStr(job, tree, level, text, |level| - 1);
    ChildName(d, n);
    ChildStr(job, d, d + [n]);
  }

  /** So does the text of a file in that directory. */
  lemma FileText(job: Job, tree: map<Path, Kind>, level: seq<Path>, text: seq<string>, k: Path)
    requires job.Sound() && job.Fits() && job.Partly(tree)
    requires job.Chain(tree, level) && Texts(job, level, text)
    requires ChildOf(k, level[|level| - 1]) && k in tree && tree[k] == File
    ensures NulFree(text[|text| - 1] + Last(k)) && Components(text[|text| - 1] + Last(k)) == k
    ensures |text[|text| - 1] + Last(k)| < job.room
  {
    TextStr(job, tree, level, text, |level| - 1);
    ChildStr(job, level[|level| - 1], k);
    StrNames(job, k);
  }

  lemma PushText(job: Job, tree: map<Path, Kind>, level: seq<Path>, text: seq<string>, k: Path)
    requires job.Chain(tree, level) && Texts(job, level, text) && k != []
    ensures Texts(job, level + [k], text + [text[|text| - 1] + Last(k) + ['/']])
  {
  }

  lemma PushChain(job: Job, tree: map<Path, Kind>, level: seq<Path>, k: Path)
    requires job.Chain(tree, level) && ChildOf(k, level[|level| - 1]) && k in tree && tree[k] == Dir
    ensures job.Chain(tree, level + [k])
  {
  }

  lemma {:induction false} LevelCount(level: seq<Path>, n: nat)
    requires n <= |level| && forall i, j | 0 <= i < j < |level| :: level[i] != level[j]
    ensures |set i | 0 <= i < n :: level[i]| == n
  {
    if n > 0 {
      LevelCount(level, n - 1);
      assert (set i | 0 <= i < n :: level[i]) == (set i | 0 <= i < n - 1 :: level[i]) + {level[n - 1]};
    }
  }

  /** The open directories are all still there, so there is work for each of them. */
  lemma WorkLeft(job: Job, tree: map<Path, Kind>, level: seq<Path>)
    requires job.Chain(tree, level)
    ensures Work(tree, job.top) >= 5 * |level|
  {
    var dirs := set i | 0 <= i < |level| :: level[i];
    LevelCount(level, |level|);
    SubsetSize(dirs, DirsBelow(tree, job.top));
    SubsetSize(DirsBelow(tree, job.top), Below(tree, job.top));
  }

  lemma {:induction false} SubsetSize<T>(a: set<T>, b: set<T>)
    requires a <= b
    ensures |a| <= |b|
  {
    if a != {} {
      var x :| x in a;
      SubsetSize(a - {x}, b - {x});
    }
  }

  // ---- what one removal keeps -------------------------------------------------------------

  lemma FileGone(job: Job, tree: map<Path, Kind>, level: seq<Path>, k: Path)
    requires job.Partly(tree) && job.Chain(tree, level)
    requires k in tree && tree[k] == File && Under(k, job.top)
    ensures job.Partly(tree - {k}) && job.Chain(tree - {k}, level)
  {
  }

  lemma DirGone(job: Job, tree: map<Path, Kind>, d: Path)
    requires job.Partly(tree) && HasNoChild(tree, d)
    requires d in tree && tree[d] == Dir && Under(d, job.top)
    ensures job.Partly(tree - {d})
  {
    forall k | k != [] && k in tree - {d}
      ensures Parent(k) in tree - {d}
    {
      assert !ChildOf(k, d);
    }
  }

  lemma PopChain(job: Job, tree: map<Path, Kind>, level: seq<Path>)
    requires job.Chain(tree, level) && |level| > 1
    ensures job.Chain(tree - {level[|level| - 1]}, level[..|level| - 1])
  {
  }

  lemma NoWork(job: Job, tree: map<Path, Kind>)
    requires job.Partly(tree) && job.top !in tree
    ensures Work(tree, job.top) == 0
  {
    TopGone(job, tree);
    assert Below(tree, job.top) == {} && DirsBelow(tree, job.top) == {};
  }

  // ---- the stack entries ------------------------------------------------------------------

  /** A stack entry: an open directory stream and the node of its path in the buffer. */
  datatype Entry = Entry(dir: nat, path: nat)

  /** Every entry's node is where the path of its directory ends. */
  predicate EndsAt(text: seq<string>, entries: seq<Entry>) {
    |text| <= |entries| && forall i | 0 <= i < |text| :: entries[i].path == |text[i]|
  }

  /** The entries' nodes cut one buffer at increasing places, each after the path of its directory. */
  predicate Shares(job: Job, level: seq<Path>, entries: seq<Entry>, buff: string) {
    && |level| <= |entries|
    && (forall i, j | 0 <= i < j < |level| :: entries[i].path < entries[j].path)
    && (forall i | 0 <= i < |level| ::
          && Under(level[i], job.top) && entries[i].path < |buff|
          && buff[..entries[i].path] == job.DirStr(level[i]))
  }

  lemma EntriesShare(job: Job, tree: map<Path, Kind>, level: seq<Path>, text: seq<string>,
                     entries: seq<Entry>, buff: string, s: string, rest: string)
    requires job.Chain(tree, level) && Texts(job, level, text) && EndsAt(text, entries)
    requires Spells(buff, s) && s == text[|text| - 1] + rest
    ensures Shares(job, level, entries, buff)
  {
    forall i, j | 0 <= i < j < |level|
      ensures entries[i].path < entries[j].path
    {
      TextsNest(job, level, text, i, j);
    }
    forall i | 0 <= i < |level|
      ensures entries[i].path < |buff| && buff[..entries[i].path] == job.DirStr(level[i])
    {
      if i < |level| - 1 {
        TextsNest(job, level, text, i, |level| - 1);
      }
      TextStr(job, tree, level, text, i);
      SpellsPrefix(buff, s, text[i]);
    }
  }

  /** The first `n` entries hold the streams opened since the job began, each under a new handle. */
  predicate Streams(job: Job, level: seq<Path>, entries: seq<Entry>, streams: seq<map<nat, Path>>, n: nat) {
    && n <= |level| <= |entries| && |streams| == n + 1 && streams[0] == job.open0
    && (forall i | 0 <= i < n :: entries[i].dir !in streams[i])
    && (forall i, j | 0 <= i < n && j == i + 1 :: streams[j] == streams[i][entries[i].dir := level[i]])
  }

  lemma OpenTop(job: Job, level: seq<Path>, text: seq<string>, entries: seq<Entry>,
                streams: seq<map<nat, Path>>, h: nat)
    requires level != [] && Streams(job, level, entries, streams, |level| - 1)
    requires |text| == |level| && EndsAt(text, entries) && h !in streams[|level| - 1]
    ensures var entries' := entries[|level| - 1 := entries[|level| - 1].(dir := h)];
            && EndsAt(text, entries')
            && Streams(job, level, entries',
                       streams + [streams[|level| - 1][h := level[|level| - 1]]], |level|)
  {
  }

  lemma CloseTop(job: Job, level: seq<Path>, entries: seq<Entry>, streams: seq<map<nat, Path>>)
    requires level != [] && Streams(job, level, entries, streams, |level|)
    ensures Streams(job, level, entries, streams[..|level|], |level| - 1)
    ensures streams[|level|] - {entries[|level| - 1].dir} == streams[|level| - 1]
  {
  }

  lemma PushEntry(job: Job, level: seq<Path>, text: seq<string>, entries: seq<Entry>,
                  streams: seq<map<nat, Path>>, k: Path, s: string)
    requires Streams(job, level, entries, streams, |level|) && |level| < |entries|
    requires |text| == |level| && EndsAt(text, entries)
    ensures var entries' := entries[|level| := entries[|level|].(path := |s|)];
            EndsAt(text + [s], entries') && Streams(job, level + [k], entries', streams, |level|)
  {
  }

  lemma PopEntry(job: Job, level: seq<Path>, text: seq<string>, entries: seq<Entry>,
                 streams: seq<map<nat, Path>>)
    requires |level| > 1 && Streams(job, level, entries, streams, |level| - 1)
    requires Texts(job, level, text) && EndsAt(text, entries)
    ensures Texts(job, level[..|level| - 1], text[..|level| - 1])
    ensures EndsAt(text[..|level| - 1], entries)
    ensures Streams(job, level[..|level| - 1], entries, streams, |level| - 1)
  {
  }
}
