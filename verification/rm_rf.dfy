/**
 The callback-driven recursive delete: one libuv request at a time, a bounded stack of open
 directories and a single path buffer that is extended and cut back as the stack grows and shrinks.
 */
module RmRfs {
  import opened Basics
  import opened FixedStr
  import opened FileSystems
  import opened RmRfSpec

  /** The libuv request in flight; path strings are copied when the request is made. */
  datatype Request =
    | Idle
    | OpenDir(path: string)
    | ReadDir(dir: nat)
    | Unlink(path: string)
    | CloseDir(dir: nat)
    | RmDir(path: string)

  datatype Completion = SetValue | SetError

  /** The exact number of callbacks still to come, when none of them fails. */
  function Remaining(tree: map<Path, Kind>, top: Path, p: nat, pending: Request): int {
    var w := Work(tree, top) - 2 * (p + 1);
    match pending
    case Idle => 0
    case OpenDir(_) => w + 1
    case ReadDir(_) => w
    case Unlink(_) => w - 1
    case CloseDir(_) => w - 1
    case RmDir(_) => w - 2
  }

  /** None of the first `n` requests fails. */
  predicate NoneFails(faults: seq<bool>, n: int) {
    forall i | 0 <= i < |faults| && i < n :: !faults[i]
  }

  class RmRf {
    const fs: FileSystem
    const str: PathBuffer
    const dirs: array<Entry>
    const path: nat
    var p: nat
    var pending: Request
    var completions: seq<Completion>

    ghost const job: Job
    /** The paths of the directories on the stack, and how the buffer spelled each when it was on top. */
    ghost var level: seq<Path>
    ghost var text: seq<string>
    /** The file being unlinked. */
    ghost var file: Path
    /** The open directory streams before and after each `opendir` still in effect. */
    ghost var streams: seq<map<nat, Path>>

    ghost predicate Stack()
      reads this, dirs, fs
    {
      && job.Sound() && job.Fits()
      && |level| == p + 1 <= dirs.Length == job.depth && str.buff.Length == job.room
      && job.Partly(fs.tree) && job.Chain(fs.tree, level)
      && Texts(job, level, text) && EndsAt(text, dirs[..])
      && completions == []
    }

    /** The first `n` stack entries hold the open streams. */
    ghost predicate StreamsOpen(n: nat)
      reads this, dirs, fs
    {
      Streams(job, level, dirs[..], streams, n) && fs.open == streams[n]
    }

    /** The buffer holds the path of the directory on top of the stack. */
    ghost predicate AtDir()
      reads this, str.buff
    {
      p < |text| && Spells(str.buff[..], text[p])
    }

    /** The buffer holds the path of `file`, which is in that directory. */
    ghost predicate AtFile()
      reads this, str.buff, fs
    {
      && p < |level| && p < |text| && ChildOf(file, level[p]) && file in fs.tree && fs.tree[file] == File
      && Spells(str.buff[..], text[p] + Last(file))
    }

    /** The root is being opened, but there is no such directory. */
    ghost predicate Hopeless(s: string)
      reads this, fs
    {
      job.Sound() && job.Partly(fs.tree) && completions == [] && s == job.root + ['/']
    }

    ghost predicate Inv()
      reads this, dirs, str.buff, fs
    {
      match pending
      case OpenDir(s) =>
        if job.HasTop() then Stack() && StreamsOpen(p) && AtDir() && s == text[p] else Hopeless(s)
      case ReadDir(h) =>
        Stack() && StreamsOpen(p + 1) && AtDir() && h == dirs[p].dir
      case Unlink(s) =>
        Stack() && StreamsOpen(p + 1) && AtFile() && s == text[p] + Last(file)
      case CloseDir(h) =>
        Stack() && StreamsOpen(p + 1) && AtDir() && h == dirs[p].dir && HasNoChild(fs.tree, level[p])
      case RmDir(s) =>
        Stack() && StreamsOpen(p) && AtDir() && s == text[p] && HasNoChild(fs.tree, level[p])
      case Idle =>
        && job.Partly(fs.tree) && |completions| == 1
        && (completions[0] == SetValue ==> job.top !in fs.tree && fs.open == job.open0)
    }

    /** `node` ends the root string in the buffer; the constructor appends a slash to it. */
    constructor (fs: FileSystem, str: PathBuffer, node: nat, dirs: array<Entry>, ghost root: string)
      requires node < str.buff.Length && node == |root| && Spells(str.buff[..], root)
      modifies str.buff
      ensures this.fs == fs && this.str == str && this.dirs == dirs
      ensures job == Job(root, Components(root), fs.tree, fs.open, dirs.Length, str.buff.Length)
      ensures path < str.buff.Length && completions == [] && pending == Idle
      ensures |root| + 1 < str.buff.Length ==> path == |root| + 1 && Spells(str.buff[..], root + ['/'])
    {
      ghost var buff0 := str.buff[..];
      var n := node;
      if str.End(node) != '/' {
        n := str.Append(node, "/");
        AppendSpells(buff0, str.buff[..], root, "/", n);
      }
      this.fs, this.str, this.dirs, path := fs, str, dirs, n;
      p, pending, completions := 0, Idle, [];
      job := Job(root, Components(root), fs.tree, fs.open, dirs.Length, str.buff.Length);
      level, text, file, streams := [Components(root)], [root + ['/']], [], [fs.open];
    }

    method SetResult(c: Completion)
      modifies this`pending, this`completions
      ensures pending == Idle && completions == old(completions) + [c]
    {
      pending := Idle;
      completions := completions + [c];
    }

    /** Without stack entries, which here stands for a null pointer to them, reports an error. */
    method Start()
      requires pending == Idle && completions == [] && path == |job.root| + 1
      requires fs.tree == job.tree0 && fs.open == job.open0
      requires dirs.Length == job.depth && str.buff.Length == job.room
      requires job.Sound() && (dirs.Length > 0 ==> job.Fits())
      requires Spells(str.buff[..], job.root + ['/'])
      modifies this, dirs
      ensures Inv()
      ensures dirs.Length == 0 ==> pending == Idle && completions == [SetError]
      ensures dirs.Length > 0 ==> pending.OpenDir? && p == 0
    {
      p := 0;
      level, text, streams := [job.top], [job.root + ['/']], [fs.open];
      if dirs.Length == 0 {
        SetResult(SetError);
        return;
      }
      dirs[0] := dirs[0].(path := path);
      SpellsCString(str.buff[..], job.root + ['/']);
      pending := OpenDir(str.Str());
    }

    /** The path string handed to libuv is that of the directory on top of the stack. */
    method CurrentDir() returns (s: string)
      requires Stack() && AtDir()
      ensures s == text[p]
    {
      TopText(job, fs.tree, level, text);
      SpellsCString(str.buff[..], text[p]);
      return str.Str();
    }

    method IncrEntry() returns (ok: bool)
      modifies this`p
      ensures ok <==> old(p) + 1 != dirs.Length
      ensures p == if ok then old(p) + 1 else old(p)
    {
      if p + 1 == dirs.Length {
        return false;
      }
      p := p + 1;
      return true;
    }

    method DecrEntry() returns (ok: bool)
      modifies this`p
      ensures ok <==> old(p) != 0
      ensures p == if ok then old(p) - 1 else old(p)
    {
      if p == 0 {
        return false;
      }
      p := p - 1;
      return true;
    }

    method OnOpendir(result: int, h: nat)
      requires pending.OpenDir? && completions == [] && job.Partly(fs.tree)
      requires result >= 0 ==> Stack() && Streams(job, level, dirs[..], streams, p) && AtDir()
      requires result >= 0 ==> h !in streams[p] && fs.open == streams[p][h := level[p]]
      modifies this, dirs
      ensures Inv()
      ensures result < 0 ==> pending == Idle && completions == [SetError]
      ensures result >= 0 ==> pending.ReadDir? && p == old(p)
    {
      if result < 0 {
        SetResult(SetError);
        return;
      }
      OpenTop(job, level, text, dirs[..], streams, h);
      ghost var entries := dirs[..];
      dirs[p] := dirs[p].(dir := h);
      assert dirs[..] == entries[p := entries[p].(dir := h)];
      streams := streams + [fs.open];
      DoReaddir();
    }

    method DoReaddir()
      requires p < dirs.Length
      modifies this`pending
      ensures pending == ReadDir(dirs[p].dir)
    {
      pending := ReadDir(dirs[p].dir);
    }

    /** A directory is entered, a file unlinked, an empty directory closed; anything else is an error. */
    method OnReaddir(result: int, ent: Dirent)
      requires pending.ReadDir? && Stack() && StreamsOpen(p + 1) && AtDir()
      requires result == 0 ==> HasNoChild(fs.tree, level[p])
      requires result > 0 ==> level[p] + [ent.name] in fs.tree && fs.tree[level[p] + [ent.name]] == ent.kind
      modifies this, dirs, str.buff
      ensures Inv()
      ensures result < 0 ==> pending == Idle && completions == [SetError]
      ensures result == 0 ==> pending.CloseDir? && p == old(p)
      ensures result > 0 && ent.kind == Dir ==> pending.OpenDir? && p == old(p) + 1
      ensures result > 0 && ent.kind == File ==> pending.Unlink? && p == old(p)
      ensures result > 0 && ent.kind == Other ==> pending == Idle && completions == [SetError]
    {
      if result < 0 {
        SetResult(SetError);
        return;
      }
      if result == 0 {
        pending := CloseDir(dirs[p].dir);
        return;
      }
      if ent.kind == Dir {
        EnterDir(ent.name);
      } else if ent.kind == File {
        UnlinkFile(ent.name);
      } else {
        SetResult(SetError);
      }
    }

    method EnterDir(n: string)
      requires Stack() && StreamsOpen(p + 1) && AtDir()
      requires level[p] + [n] in fs.tree && fs.tree[level[p] + [n]] == Dir
      modifies this, dirs, str.buff
      ensures Inv() && pending.OpenDir? && p == old(p) + 1
    {
      DirText(job, fs.tree, level, text, level[p], n);
      var q := AppendName(n);
      q := AppendSlash(n, q);
      Push(level[p] + [n], text[p] + n + ['/'], q);
      var s := CurrentDir();
      pending := OpenDir(s);
    }

    /** Makes the directory `k`, whose path the buffer now holds, the top of the stack. */
    method Push(ghost k: Path, ghost s: string, q: nat)
      requires Stack() && StreamsOpen(p + 1)
      requires ChildOf(k, level[p]) && k in fs.tree && fs.tree[k] == Dir
      requires s == text[p] + Last(k) + ['/'] && q == |s| && |level| < job.depth
      modifies this`p, this`level, this`text, dirs
      ensures Stack() && StreamsOpen(p) && p == old(p) + 1 && text[p] == s
    {
      PushChain(job, fs.tree, level, k);
      PushText(job, fs.tree, level, text, k);
      PushEntry(job, level, text, dirs[..], streams, k, s);
      ghost var entries := dirs[..];
      var ok := IncrEntry();
      dirs[p] := dirs[p].(path := q);
      assert dirs[..] == entries[p := entries[p].(path := q)];
      level, text := level + [k], text + [s];
    }

    method UnlinkFile(n: string)
      requires Stack() && StreamsOpen(p + 1) && AtDir()
      requires level[p] + [n] in fs.tree && fs.tree[level[p] + [n]] == File
      modifies this`pending, this`file, str.buff
      ensures Inv() && pending.Unlink?
    {
      ghost var k := level[p] + [n];
      ChildName(level[p], n);
      var s := SpellFile(n, k);
      file := k;
      pending := Unlink(s);
    }

    method SpellFile(n: string, ghost k: Path) returns (s: string)
      requires Stack() && AtDir() && ChildOf(k, level[p]) && Last(k) == n
      requires k in fs.tree && fs.tree[k] == File
      modifies str.buff
      ensures s == text[p] + n && Spells(str.buff[..], s)
    {
      FileText(job, fs.tree, level, text, k);
      var q := AppendName(n);
      SpellsCString(str.buff[..], text[p] + n);
      s := str.Str();
    }

    method AppendName(n: string) returns (q: nat)
      requires Stack() && AtDir() && |text[p] + n| < job.room
      modifies str.buff
      ensures q == |text[p] + n| && Spells(str.buff[..], text[p] + n)
    {
      ghost var before := str.buff[..];
      q := str.Append(dirs[p].path, n);
      AppendSpells(before, str.buff[..], text[p], n, q);
    }

    method AppendSlash(n: string, end: nat) returns (q: nat)
      requires Stack() && end == |text[p] + n| && end + 1 < job.room
      requires Spells(str.buff[..], text[p] + n)
      modifies str.buff
      ensures q == end + 1 && Spells(str.buff[..], text[p] + n + ['/'])
    {
      ghost var before := str.buff[..];
      q := str.Append(end, "/");
      AppendSpells(before, str.buff[..], text[p] + n, "/", q);
    }

    /** The buffer begins with the path of the directory on top of the stack. */
    ghost predicate Extends()
      reads this, str.buff
    {
      p < |text| && |text[p]| < str.buff.Length && str.buff[..|text[p]|] == text[p]
    }

    /** Cuts the buffer back to the directory on top of the stack and reads its next entry. */
    method BackToDir()
      requires Stack() && StreamsOpen(p + 1) && Extends()
      modifies this`pending, str.buff
      ensures Inv() && pending.ReadDir?
    {
      str.SetEnd(dirs[p].path);
      assert str.buff[..|text[p]|] == text[p];
      DoReaddir();
    }

    method OnUnlink(result: int)
      requires pending.Unlink? && Stack() && StreamsOpen(p + 1) && Extends()
      modifies this, str.buff
      ensures Inv() && p == old(p)
      ensures result < 0 ==> pending == Idle && completions == [SetError]
      ensures result >= 0 ==> pending.ReadDir?
    {
      if result < 0 {
        SetResult(SetError);
        return;
      }
      BackToDir();
    }

    method OnClosedir(result: int)
      requires pending.CloseDir? && Stack() && AtDir() && HasNoChild(fs.tree, level[p])
      requires Streams(job, level, dirs[..], streams, p + 1)
      requires result >= 0 ==> fs.open == streams[p + 1] - {dirs[p].dir}
      modifies this
      ensures Inv() && p == old(p)
      ensures result < 0 ==> pending == Idle && completions == [SetError]
      ensures result >= 0 ==> pending.RmDir?
    {
      if result < 0 {
        SetResult(SetError);
        return;
      }
      CloseTop(job, level, dirs[..], streams);
      streams := streams[..p + 1];
      var s := CurrentDir();
      pending := RmDir(s);
    }

    method OnRmdir(result: int)
      requires pending.RmDir? && completions == []
      requires result < 0 ==> job.Partly(fs.tree)
      requires result >= 0 ==> Removed()
      modifies this, str.buff
      ensures Inv()
      ensures result < 0 ==> pending == Idle && completions == [SetError]
      ensures result >= 0 && old(p) == 0 ==> pending == Idle && completions == [SetValue]
      ensures result >= 0 && old(p) > 0 ==> pending.ReadDir? && p == old(p) - 1
    {
      if result < 0 {
        SetResult(SetError);
        return;
      }
      var e := DecrEntry();
      if !e {
        SetResult(SetValue);
        return;
      }
      PopEntry(job, level, text, dirs[..], streams);
      SpellsPrefix(str.buff[..], text[p + 1], text[p]);
      level, text := level[..p + 1], text[..p + 1];
      BackToDir();
    }

    /** The directory on top of the stack has been removed; what is below it on the stack is intact. */
    ghost predicate Removed()
      reads this, dirs, str.buff, fs
    {
      && job.Sound() && job.Fits() && job.Partly(fs.tree)
      && |level| == p + 1 <= dirs.Length == job.depth && str.buff.Length == job.room
      && Texts(job, level, text) && EndsAt(text, dirs[..]) && StreamsOpen(p) && AtDir()
      && level[0] == job.top && level[p] !in fs.tree
      && (p > 0 ==> job.Chain(fs.tree, level[..p]))
    }

    ghost function Left(): int
      reads this, fs
    {
      if job.HasTop() then Remaining(fs.tree, job.top, p, pending) else 1
    }

    /** Lets the request in flight complete, unless it fails, and runs its callback. */
    method Step(fault: bool)
      requires Inv() && pending != Idle
      modifies this, dirs, str.buff, fs
      ensures Inv()
      ensures fault ==> pending == Idle && completions == [SetError]
      ensures pending != Idle ==> Left() == old(Left()) - 1
      ensures pending == Idle && completions == [SetValue] ==> job.HasTop() && old(Left()) == 1
      ensures pending == Idle && completions == [SetError] ==>
                fault || !job.HasTop() || !job.OnlyDirsAndFiles()
    {
      match pending
      case OpenDir(s) =>
        if fault {
          OnOpendir(-1, 0);
        } else {
          CompleteOpendir(s);
        }
      case ReadDir(h) =>
        if fault {
          OnReaddir(-1, Dirent("", Other));
        } else {
          CompleteReaddir(h);
        }
      case Unlink(s) =>
        if fault {
          SpellsPrefix(str.buff[..], text[p] + Last(file), text[p]);
          OnUnlink(-1);
        } else {
          CompleteUnlink(s);
        }
      case CloseDir(h) =>
        if fault {
          OnClosedir(-1);
        } else {
          CompleteClosedir(h);
        }
      case RmDir(s) =>
        if fault {
          OnRmdir(-1);
        } else {
          CompleteRmdir(s);
        }
    }

    method CompleteOpendir(s: string)
      requires Inv() && pending == OpenDir(s)
      modifies this, dirs, fs`open
      ensures Inv()
      ensures if job.HasTop() then pending.ReadDir? && p == old(p) else pending == Idle && completions == [SetError]
    {
      if job.HasTop() {
        TopText(job, fs.tree, level, text);
      } else {
        DirStringNames(job.root);
      }
      var result, h := fs.OpenDir(s);
      OnOpendir(result, h);
    }

    method CompleteReaddir(h: nat)
      requires Inv() && pending == ReadDir(h)
      modifies this, dirs, str.buff
      ensures Inv()
      ensures pending != Idle ==> Left() == old(Left()) - 1
      ensures pending == Idle ==> completions == [SetError] && !job.OnlyDirsAndFiles()
    {
      var entry := fs.ReadDir(h);
      match entry
      case None => OnReaddir(0, Dirent("", Other));
      case Some(ent) =>
        ghost var k := level[p] + [ent.name];
        assert Under(k, job.top);
        OnReaddir(1, ent);
    }

    method CompleteClosedir(h: nat)
      requires Inv() && pending == CloseDir(h)
      modifies this, fs`open
      ensures Inv() && pending.RmDir? && p == old(p)
    {
      fs.CloseDir(h);
      OnClosedir(0);
    }

    method CompleteUnlink(s: string)
      requires Inv() && pending == Unlink(s)
      modifies this, str.buff, fs
      ensures Inv() && pending.ReadDir? && Left() == old(Left()) - 1
    {
      assert Extends() by {
        SpellsPrefix(str.buff[..], text[p] + Last(file), text[p]);
      }
      RemoveFile(s);
      OnUnlink(0);
    }

    method RemoveFile(s: string)
      requires Stack() && StreamsOpen(p + 1) && AtFile() && s == text[p] + Last(file)
      modifies fs`tree
      ensures Stack() && StreamsOpen(p + 1)
      ensures Work(fs.tree, job.top) == old(Work(fs.tree, job.top)) - 2
    {
      FileText(job, fs.tree, level, text, file);
      WorkAfter(fs.tree, job.top, file);
      FileGone(job, fs.tree, level, file);
      fs.Unlink(s);
    }

    method CompleteRmdir(s: string)
      requires Inv() && pending == RmDir(s)
      modifies this, str.buff, fs
      ensures Inv()
      ensures job.HasTop()
      ensures if old(p) == 0 then completions == [SetValue] && old(Left()) == 1
              else pending.ReadDir? && Left() == old(Left()) - 1
    {
      ghost var k := level[p];
      TopText(job, fs.tree, level, text);
      WorkAfter(fs.tree, job.top, k);
      DirGone(job, fs.tree, k);
      if p > 0 {
        PopChain(job, fs.tree, level);
      }
      fs.RmDir(s);
      if p == 0 {
        NoWork(job, fs.tree);
      }
      OnRmdir(0);
    }

    /** The whole run, to its one completion. `faults` says which of the requests fail. */
    method Run(faults: seq<bool>) returns (steps: nat)
      requires Inv() && pending.OpenDir? && p == 0
      requires fs.tree == job.tree0
      modifies this, dirs, str.buff, fs
      ensures pending == Idle && |completions| == 1
      ensures Deleted(job, fs.tree, fs.open, faults, completions[0], steps)
    {
      steps := 0;
      ghost var total := Left();
      while pending != Idle
        invariant Inv()
        invariant if pending != Idle then steps + Left() == total && NoneFails(faults, steps)
                  else EndsRight(faults, steps, total)
        decreases pending != Idle, Left()
      {
        LeftPositive();
        ghost var left := Left();
        var fault := steps < |faults| && faults[steps];
        Step(fault);
        MoreSteps(faults, steps, fault, total, left);
        steps := steps + 1;
      }
      if completions[0] == SetValue {
        TopGone(job, fs.tree);
      }
    }

    ghost predicate EndsRight(faults: seq<bool>, steps: nat, total: int)
      requires completions != []
      reads this
    {
      if completions[0] == SetValue then job.HasTop() && steps == total && NoneFails(faults, total)
      else !job.HasTop() || !job.OnlyDirsAndFiles() || !NoneFails(faults, total)
    }

    lemma MoreSteps(faults: seq<bool>, steps: nat, fault: bool, total: int, left: int)
      requires NoneFails(faults, steps) && fault == (steps < |faults| && faults[steps])
      requires left > 0 && steps + left == total
      ensures !fault ==> NoneFails(faults, steps + 1)
      ensures fault ==> !NoneFails(faults, total)
      ensures !fault && left == 1 ==> NoneFails(faults, total)
    {
    }

    lemma LeftPositive()
      requires Inv() && pending != Idle
      ensures Left() > 0
    {
      if job.HasTop() {
        WorkLeft(job, fs.tree, level);
      }
    }

    /**
     One buffer serves the whole stack: the nodes of the entries lie at increasing places in it,
     and what is before each node is the path of its directory.
     */
    lemma SharedBuffer()
      requires Inv() && pending != Idle && job.HasTop()
      ensures Shares(job, level, dirs[..], str.buff[..])
    {
      ghost var rest := if pending.Unlink? then Last(file) else [];
      assert text[p] + [] == text[p];
      EntriesShare(job, fs.tree, level, text, dirs[..], str.buff[..], text[p] + rest, rest);
    }

    /**
     While a directory is being opened, read, closed or removed, the C string in the buffer is the
     string for the directory on top of the stack; while a file is being unlinked, it is the file's.
     Read as a path, it names just that.
     */
    lemma BufferNames()
      requires Inv() && pending != Idle && job.HasTop()
      ensures p < |level| && Under(level[p], job.top)
      ensures pending.Unlink? ==> ChildOf(file, level[p]) && Under(file, job.top)
      ensures str.Str() == if pending.Unlink? then job.FileStr(file) else job.DirStr(level[p])
      ensures Components(str.Str()) == if pending.Unlink? then file else level[p]
    {
      if pending.Unlink? {
        FileNamed();
      } else {
        DirNamed();
      }
    }

    lemma FileNamed()
      requires Stack() && AtFile()
      ensures Under(file, job.top) && str.Str() == job.FileStr(file) && Components(str.Str()) == file
    {
      FileText(job, fs.tree, level, text, file);
      SpellsCString(str.buff[..], text[p] + Last(file));
      TextStr(job, fs.tree, level, text, p);
      ChildStr(job, level[p], file);
    }

    lemma DirNamed()
      requires Stack() && AtDir()
      ensures str.Str() == job.DirStr(level[p]) && Components(str.Str()) == level[p]
    {
      TopText(job, fs.tree, level, text);
      SpellsCString(str.buff[..], text[p]);
      TextStr(job, fs.tree, level, text, p);
    }
  }

  ghost function JobOf(fs: FileSystem, buff: array<char>, root: string, dirs: array<Entry>): Job
    reads fs
  {
    Job(root, Components(root), fs.tree, fs.open, dirs.Length, buff.Length)
  }

  /**
   The outcome of a delete. Nothing outside the directory has been touched. The result is
   `set_value` exactly when there are a stack and a directory, it holds only directories and files,
   and none of the requests it takes fails; then the directory with everything below it is gone, no
   stream is left open, and the number of callbacks was the number of files twice and the number
   of directories five times, less one.
   */
  ghost predicate Deleted(job: Job, tree: map<Path, Kind>, open: map<nat, Path>, faults: seq<bool>,
                          result: Completion, steps: nat) {
    var callbacks := Work(job.tree0, job.top) - 1;
    && job.Partly(tree)
    && (result == SetValue ==> tree == job.Outside() && open == job.open0 && steps == callbacks)
    && (result == SetValue <==>
        job.depth > 0 && job.HasTop() && job.OnlyDirsAndFiles() && NoneFails(faults, callbacks))
  }

  /**
   Deletes the directory `root` and everything below it, with the buffers a caller provides. The
   tree must fit: a stack entry per directory level, and room for every path with its NUL. Without
   stack entries the delete is refused at once.
   */
  method DeleteTree(fs: FileSystem, buff: array<char>, root: string, dirs: array<Entry>, faults: seq<bool>)
    returns (result: Completion, steps: nat)
    requires |root| + 1 < buff.Length
    requires JobOf(fs, buff, root, dirs).Sound()
    requires dirs.Length > 0 ==> JobOf(fs, buff, root, dirs).Fits()
    modifies fs, buff, dirs
    ensures Deleted(old(JobOf(fs, buff, root, dirs)), fs.tree, fs.open, faults, result, steps)
  {
    var str := new PathBuffer(buff);
    var node := str.Append(0, root);
    assert Spells(buff[..], root);
    var rm := new RmRf(fs, str, node, dirs, root);
    rm.Start();
    steps := 0;
    if dirs.Length > 0 {
      steps := rm.Run(faults);
    }
    result := rm.completions[0];
  }
}
