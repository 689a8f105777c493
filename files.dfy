/** The filesystem the generator reads, as a value: every file with its
    text and the two timestamps `fs.statSync` reports, and the directories
    that exist. What the generator writes is a list of actions. */
module Files {
  import opened Wrappers

  /** One file: its text, `birthtimeMs` and `mtimeMs` in whole
      milliseconds. */
  datatype FileInfo = FileInfo(text: string, birthtime: nat, mtime: nat)

  datatype FileSystem = FileSystem(files: map<string, FileInfo>, dirs: set<string>)

  /** `fs.existsSync(path)`. */
  predicate Exists(fs: FileSystem, path: string)
  {
    path in fs.files || path in fs.dirs
  }

  /** One effect on the output directory, in the order the run makes it:
      `fs.mkdirSync`, `fs.copyFileSync`, `fs.writeFileSync`. */
  datatype Action =
    | MakeDir(path: string)
    | CopyFile(source: string, target: string)
    | WriteFile(path: string, contents: string)

  /** The paths written with `writeFileSync`, in order. */
  function WrittenPaths(actions: seq<Action>): seq<string>
  {
    if actions == [] then []
    else
      var last := actions[|actions| - 1];
      WrittenPaths(actions[..|actions| - 1]) + (if last.WriteFile? then [last.path] else [])
  }

  /** The text the last `writeFileSync` to `path` left there, if any. */
  function LastWrite(actions: seq<Action>, path: string): (r: Option<string>)
  {
    if actions == [] then None
    else
      var last := actions[|actions| - 1];
      if last.WriteFile? && last.path == path then Some(last.contents)
      else LastWrite(actions[..|actions| - 1], path)
  }

  /** A path is among the written ones exactly when some write left text
      there. */
  lemma {:induction false} WrittenIffLastWrite(actions: seq<Action>, path: string)
    ensures path in WrittenPaths(actions) <==> LastWrite(actions, path).Some?
  {
    if actions != [] {
      WrittenIffLastWrite(actions[..|actions| - 1], path);
    }
  }

  lemma {:induction false} WrittenPathsAppend(a: seq<Action>, b: seq<Action>)
    ensures WrittenPaths(a + b) == WrittenPaths(a) + WrittenPaths(b)
    decreases |b|
  {
    if b == [] {
      assert a + b == a;
    } else {
      assert (a + b)[..|a + b| - 1] == a + b[..|b| - 1];
      WrittenPathsAppend(a, b[..|b| - 1]);
    }
  }

  lemma {:induction false} LastWriteAppend(a: seq<Action>, b: seq<Action>, path: string)
    ensures LastWrite(a + b, path) == if LastWrite(b, path).Some? then LastWrite(b, path) else LastWrite(a, path)
    decreases |b|
  {
    if b == [] {
      assert a + b == a;
    } else {
      assert (a + b)[..|a + b| - 1] == a + b[..|b| - 1];
      LastWriteAppend(a, b[..|b| - 1], path);
    }
  }
}
