/** `recursively_find_all_files`: expands the paths named on the command
    line into the list of files to search. The filesystem is a parameter:
    each path's metadata, and for a directory the entries its walk yields,
    in walk order. */
module Finder {
  import opened Common

  /** One item of a directory walk: an entry (its full path, its base name,
      whether it is a regular file), or an error reading the directory. */
  datatype WalkEntry = Entry(path: string, fileName: string, isFile: bool) | WalkFailure

  /** What the metadata lookup of a path reports. */
  datatype Metadata =
    | NoMetadata
    | RegularFile
    | Directory(walk: seq<WalkEntry>)
    | OtherKind

  type FileSystem = string -> Metadata

  /** A base name that starts with a dot. */
  predicate Hidden(name: string)
  {
    |name| > 0 && name[0] == '.'
  }

  function MetadataError(path: string): string
  {
    "Error: could not get metadata for: " + path
  }

  function WalkError(dir: string): string
  {
    "Error: could not read directory " + dir
  }

  /** A walk entry the finder keeps: a regular file whose base name is not hidden. */
  predicate Kept(e: WalkEntry)
  {
    e.Entry? && e.isFile && !Hidden(e.fileName)
  }

  /** Results of two consecutive stages: the first error wins, otherwise the lists are concatenated. */
  function Combine(a: Result<seq<string>>, b: Result<seq<string>>): Result<seq<string>>
  {
    if a.Err? then a else if b.Err? then b else Ok(a.value + b.value)
  }

  lemma CombineAssociative(a: Result<seq<string>>, b: Result<seq<string>>, c: Result<seq<string>>)
    ensures Combine(Combine(a, b), c) == Combine(a, Combine(b, c))
  {
    if a.Ok? && b.Ok? && c.Ok? {
      assert (a.value + b.value) + c.value == a.value + (b.value + c.value);
    }
  }

  /** What one walk item contributes. */
  function EntryFiles(dir: string, e: WalkEntry): Result<seq<string>>
  {
    match e
    case WalkFailure => Err(WalkError(dir))
    case Entry(path, _, _) => if Kept(e) then Ok([path]) else Ok([])
  }

  /** The files found by walking `dir`, whose walk yields `entries`. */
  function WalkFiles(dir: string, entries: seq<WalkEntry>): Result<seq<string>>
  {
    if entries == [] then Ok([])
    else Combine(WalkFiles(dir, entries[..|entries| - 1]), EntryFiles(dir, entries[|entries| - 1]))
  }

  /** What one named path contributes. */
  function PathFiles(path: string, fs: FileSystem): Result<seq<string>>
  {
    match fs(path)
    case NoMetadata => Err(MetadataError(path))
    case RegularFile => Ok([path])
    case Directory(walk) => WalkFiles(path, walk)
    case OtherKind => Ok([])
  }

  /** The files found for all the named paths, in order. */
  function FindAll(paths: seq<string>, fs: FileSystem): Result<seq<string>>
  {
    if paths == [] then Ok([])
    else Combine(FindAll(paths[..|paths| - 1], fs), PathFiles(paths[|paths| - 1], fs))
  }

  /** The finder, as the source runs it: a loop over the named paths that
      pushes onto one list and returns at the first error. */
  method RecursivelyFindAllFiles(directories: seq<string>, fs: FileSystem) returns (r: Result<seq<string>>)
    ensures r == FindAll(directories, fs)
  {
    var filePaths: seq<string> := [];
    for i := 0 to |directories|
      invariant FindAll(directories[..i], fs) == Ok(filePaths)
    {
      var directory := directories[i];
      FindAllStep(directories, i, fs);
      match fs(directory) {
        case NoMetadata =>
          r := Err(MetadataError(directory));
          FindAllStops(directories, i + 1, fs);
          return;
        case RegularFile =>
          filePaths := filePaths + [directory];
        case Directory(walk) =>
          var walked := PushWalkedFiles(directory, walk, filePaths);
          if walked.Err? {
            r := walked;
            FindAllStops(directories, i + 1, fs);
            return;
          }
          filePaths := walked.value;
        case OtherKind =>
          assert filePaths + [] == filePaths;
      }
    }
    assert directories[..|directories|] == directories;
    r := Ok(filePaths);
  }

  /** The inner loop of the finder: walks `directory` and pushes each kept
      file entry onto `filePaths`, stopping at the first walk error. */
  method PushWalkedFiles(directory: string, walk: seq<WalkEntry>, filePaths: seq<string>)
    returns (r: Result<seq<string>>)
    ensures r == Combine(Ok(filePaths), WalkFiles(directory, walk))
  {
    var pushed := filePaths;
    var j := 0;
    assert pushed[|filePaths|..] == [] && walk[..0] == [];
    while j < |walk|
      invariant j <= |walk| && |filePaths| <= |pushed| && pushed[..|filePaths|] == filePaths
      invariant WalkFiles(directory, walk[..j]) == Ok(pushed[|filePaths|..])
    {
      WalkFilesStep(directory, walk, j);
      ghost var found := pushed[|filePaths|..];
      match walk[j] {
        case Entry(path, fileName, isFile) =>
          if isFile && !(|fileName| > 0 && fileName[0] == '.') {
            pushed := pushed + [path];
            assert pushed[|filePaths|..] == found + [path];
          } else {
            assert found + [] == found;
          }
        case WalkFailure =>
          r := Err(WalkError(directory));
          WalkFilesStops(directory, walk, j + 1);
          return;
      }
      j := j + 1;
    }
    assert walk[..j] == walk;
    assert pushed == filePaths + pushed[|filePaths|..];
    r := Ok(pushed);
  }

  lemma FindAllStep(paths: seq<string>, i: nat, fs: FileSystem)
    requires i < |paths|
    ensures FindAll(paths[..i + 1], fs) == Combine(FindAll(paths[..i], fs), PathFiles(paths[i], fs))
  {
    assert paths[..i + 1][..i] == paths[..i];
  }

  lemma WalkFilesStep(dir: string, walk: seq<WalkEntry>, j: nat)
    requires j < |walk|
    ensures WalkFiles(dir, walk[..j + 1]) == Combine(WalkFiles(dir, walk[..j]), EntryFiles(dir, walk[j]))
  {
    assert walk[..j + 1][..j] == walk[..j];
  }

  /** Splitting the named paths splits the result. */
  lemma {:induction false} FindAllAppend(a: seq<string>, b: seq<string>, fs: FileSystem)
    ensures FindAll(a + b, fs) == Combine(FindAll(a, fs), FindAll(b, fs))
    decreases |b|
  {
    if b == [] {
      assert a + b == a;
      if FindAll(a, fs).Ok? {
        assert FindAll(a, fs).value + [] == FindAll(a, fs).value;
      }
    } else {
      var b' := b[..|b| - 1];
      assert (a + b)[..|a + b| - 1] == a + b';
      assert (a + b)[|a + b| - 1] == b[|b| - 1];
      FindAllAppend(a, b', fs);
      CombineAssociative(FindAll(a, fs), FindAll(b', fs), PathFiles(b[|b| - 1], fs));
    }
  }

  lemma {:induction false} WalkFilesAppend(dir: string, a: seq<WalkEntry>, b: seq<WalkEntry>)
    ensures WalkFiles(dir, a + b) == Combine(WalkFiles(dir, a), WalkFiles(dir, b))
    decreases |b|
  {
    if b == [] {
      assert a + b == a;
      if WalkFiles(dir, a).Ok? {
        assert WalkFiles(dir, a).value + [] == WalkFiles(dir, a).value;
      }
    } else {
      var b' := b[..|b| - 1];
      assert (a + b)[..|a + b| - 1] == a + b';
      assert (a + b)[|a + b| - 1] == b[|b| - 1];
      WalkFilesAppend(dir, a, b');
      CombineAssociative(WalkFiles(dir, a), WalkFiles(dir, b'), EntryFiles(dir, b[|b| - 1]));
    }
  }

  /** Once a prefix of the paths fails, nothing after it changes the result. */
  lemma FindAllStops(paths: seq<string>, n: nat, fs: FileSystem)
    requires n <= |paths| && FindAll(paths[..n], fs).Err?
    ensures FindAll(paths, fs) == FindAll(paths[..n], fs)
  {
    assert paths == paths[..n] + paths[n..];
    FindAllAppend(paths[..n], paths[n..], fs);
  }

  lemma WalkFilesStops(dir: string, walk: seq<WalkEntry>, n: nat)
    requires n <= |walk| && WalkFiles(dir, walk[..n]).Err?
    ensures WalkFiles(dir, walk) == WalkFiles(dir, walk[..n])
  {
    assert walk == walk[..n] + walk[n..];
    WalkFilesAppend(dir, walk[..n], walk[n..]);
  }

  /** A named path whose lookup and walk succeed. */
  predicate PathOk(fs: FileSystem, p: string)
  {
    match fs(p)
    case NoMetadata => false
    case Directory(walk) => WalkFailure !in walk
    case _ => true
  }

  /** `f` is among the files that naming `p` contributes: `p` itself when it
      is a regular file, or a kept file entry of its walk when it is a directory. */
  predicate Provides(fs: FileSystem, p: string, f: string)
  {
    match fs(p)
    case RegularFile => f == p
    case Directory(walk) => exists e :: e in walk && Kept(e) && e.path == f
    case _ => false
  }

  /** A walk fails exactly when it yields an error, and then with the walk error. */
  lemma {:induction false} WalkFilesOutcome(dir: string, walk: seq<WalkEntry>)
    ensures WalkFiles(dir, walk).Ok? <==> WalkFailure !in walk
    ensures WalkFiles(dir, walk).Err? ==> WalkFiles(dir, walk) == Err(WalkError(dir))
    ensures WalkFiles(dir, walk).Ok? ==>
              forall f :: f in WalkFiles(dir, walk).value <==> exists e :: e in walk && Kept(e) && e.path == f
  {
    if walk != [] {
      var init := walk[..|walk| - 1];
      var last := walk[|walk| - 1];
      assert walk == init + [last];
      WalkFilesOutcome(dir, init);
      if WalkFiles(dir, walk).Ok? {
        forall f
          ensures f in WalkFiles(dir, walk).value <==> exists e :: e in walk && Kept(e) && e.path == f
        {
          if f in WalkFiles(dir, init).value {
            var e :| e in init && Kept(e) && e.path == f;
            assert e in walk;
          }
          if exists e :: e in walk && Kept(e) && e.path == f {
            var e :| e in walk && Kept(e) && e.path == f;
            if e != last {
              assert e in init;
            }
          }
        }
      }
    }
  }

  /** What one named path contributes, in terms of its metadata. */
  lemma PathFilesOutcome(fs: FileSystem, p: string)
    ensures PathFiles(p, fs).Ok? <==> PathOk(fs, p)
    ensures PathFiles(p, fs).Ok? ==> forall f :: f in PathFiles(p, fs).value <==> Provides(fs, p, f)
  {
    match fs(p) {
      case Directory(walk) => WalkFilesOutcome(p, walk);
      case _ =>
    }
  }

  /** The finder succeeds exactly when every named path can be looked up and
      walked; on success it returns exactly the files the paths provide. */
  lemma {:induction false} FindAllOutcome(paths: seq<string>, fs: FileSystem)
    ensures FindAll(paths, fs).Ok? <==> forall p :: p in paths ==> PathOk(fs, p)
    ensures FindAll(paths, fs).Ok? ==>
              forall f :: f in FindAll(paths, fs).value <==> exists p :: p in paths && Provides(fs, p, f)
  {
    if paths != [] {
      var init := paths[..|paths| - 1];
      var last := paths[|paths| - 1];
      assert paths == init + [last];
      assert forall p :: p in paths <==> p in init || p == last;
      FindAllOutcome(init, fs);
      PathFilesOutcome(fs, last);
      if FindAll(paths, fs).Ok? {
        forall f
          ensures f in FindAll(paths, fs).value <==> exists p :: p in paths && Provides(fs, p, f)
        {
          if f in FindAll(init, fs).value {
            var p :| p in init && Provides(fs, p, f);
            assert p in paths;
          }
          if exists p :: p in paths && Provides(fs, p, f) {
            var p :| p in paths && Provides(fs, p, f);
            if p != last {
              assert p in init;
            }
          }
        }
      }
    }
  }

  /** The finder fails with the error of the first path that cannot be
      looked up or walked; no later path is examined. */
  lemma FindAllFirstError(paths: seq<string>, fs: FileSystem, k: nat)
    requires k < |paths| && !PathOk(fs, paths[k])
    requires forall i :: 0 <= i < k ==> PathOk(fs, paths[i])
    ensures fs(paths[k]).NoMetadata? ==> FindAll(paths, fs) == Err(MetadataError(paths[k]))
    ensures fs(paths[k]).Directory? ==> FindAll(paths, fs) == Err(WalkError(paths[k]))
  {
    FindAllOutcome(paths[..k], fs);
    FindAllStep(paths, k, fs);
    match fs(paths[k]) {
      case Directory(walk) => WalkFilesOutcome(paths[k], walk);
      case _ =>
    }
    FindAllStops(paths, k + 1, fs);
  }

  /** A path named directly is kept as given, even when its name is hidden,
      and naming it twice lists it twice: the result is a list, not a set. */
  lemma NamedFileKeptTwice(fs: FileSystem, p: string)
    requires fs(p) == RegularFile
    ensures FindAll([p, p], fs) == Ok([p, p])
  {
    assert [p][..0] == [] && [p, p][..1] == [p];
    assert FindAll([p], fs) == Ok([] + [p]);
    assert [] + [p] == [p] && [p] + [p] == [p, p] && [p, p][1] == p;
  }

  /** A file reached both through its directory and by its own name is
      listed twice. */
  lemma FileInNamedDirectoryTwice(fs: FileSystem, dir: string, p: string, name: string)
    requires !Hidden(name)
    requires fs(dir) == Directory([Entry(p, name, true)]) && fs(p) == RegularFile
    ensures FindAll([dir, p], fs) == Ok([p, p])
  {
    var walk := [Entry(p, name, true)];
    assert walk[..0] == [] && [dir][..0] == [] && [dir, p][..1] == [dir];
    assert WalkFiles(dir, walk) == Ok([] + [p]);
    assert [] + [p] == [p];
    assert FindAll([dir], fs) == Ok([] + [p]);
    assert [p] + [p] == [p, p] && [dir, p][1] == p;
  }

  /** A directory walk yielding `a.txt` and `.hidden` contributes only `a.txt`. */
  lemma HiddenEntrySkipped(fs: FileSystem, dir: string, a: string, h: string)
    requires fs(dir) == Directory([Entry(a, "a.txt", true), Entry(h, ".hidden", true)])
    ensures FindAll([dir], fs) == Ok([a])
  {
    var walk := [Entry(a, "a.txt", true), Entry(h, ".hidden", true)];
    assert walk[..1][..0] == [] && walk[..1] == [walk[0]] && [dir][..0] == [];
    assert [] + [a] == [a] && [a] + [] == [a];
    assert WalkFiles(dir, walk[..1]) == Ok([a]);
    assert Hidden(".hidden");
    assert WalkFiles(dir, walk) == Ok([a]);
    assert FindAll([dir], fs) == Ok([] + [a]);
  }

  /** Only an entry's own base name is tested: a walk does not prune a
      hidden directory, so a file inside `.git` is kept, while the `.git`
      directory entry itself, not being a file, contributes nothing. */
  lemma HiddenDirectoryNotPruned(fs: FileSystem, dir: string, g: string, c: string)
    requires fs(dir) == Directory([Entry(g, ".git", false), Entry(c, "config", true)])
    ensures FindAll([dir], fs) == Ok([c])
  {
    var walk := [Entry(g, ".git", false), Entry(c, "config", true)];
    assert walk[..1][..0] == [] && walk[..1] == [walk[0]] && [dir][..0] == [];
    var none: seq<string> := [];
    assert [] + [c] == [c] && none + none == none;
    assert EntryFiles(dir, walk[0]) == Ok(none);
    assert WalkFiles(dir, walk[..1]) == Ok(none);
    assert !Hidden("config");
    assert WalkFiles(dir, walk) == Ok([c]);
    assert FindAll([dir], fs) == Ok([] + [c]);
  }
}
