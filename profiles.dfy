/**
 * Cascading discovery of gitconf configuration files (src/profiles.rs).
 *
 * For a working directory `cur` the candidate levels are `cur/.git`, then
 * every directory the ancestor walk yields from `cur` (ending at `/etc`),
 * each with `.gitconf/current` (the active configuration) or
 * `.gitconf/profiles` (the profiles one may switch to) appended. They are
 * visited in reverse, farthest first, so that closer levels win.
 *
 * The filesystem is a map from absolute paths to nodes; a node may be
 * unreadable. TOML parsing of a file's text is a parameter `parse`.
 */
module Profiles {
  import opened Wrappers
  import opened Pth
  import opened Cfg

  datatype Node = Dir(readable: bool) | File(readable: bool, content: string)

  type Fs = map<Path, Node>

  /** Parses the text of a configuration file (`toml::from_str`). */
  type Parser = string -> Option<PartialConfig>

  /** Names of the entries directly inside `d`. */
  function Entries(fs: Fs, d: Path): set<string>
  {
    set q | q in fs && |q| == |d| + 1 && q[..|d|] == d :: q[|d|]
  }

  /** `fs::read_dir(d)`: fails unless `d` is a readable directory. */
  function ReadDir(fs: Fs, d: Path): Option<set<string>>
  {
    if d in fs && fs[d] == Dir(true) then Some(Entries(fs, d)) else None
  }

  /** `fs::read_to_string(f)`: fails unless `f` is a readable file. */
  function ReadFile(fs: Fs, f: Path): Option<string>
  {
    if f in fs && fs[f].File? && fs[f].readable then Some(fs[f].content) else None
  }

  /** Reading `f` and parsing its text. */
  function Load(fs: Fs, parse: Parser, f: Path): Option<PartialConfig>
  {
    match ReadFile(fs, f)
    case None => None
    case Some(text) => parse(text)
  }

  /** `prepend(v, s)`: `s`, then the elements of `v`. */
  function Prepend<T>(v: seq<T>, s: T): (r: seq<T>)
    ensures |r| == |v| + 1 && r[0] == s && r[1..] == v
  {
    [s] + v
  }

  /** Every path with `.gitconf/<leaf>` appended. */
  function Suffixed(paths: seq<Path>, leaf: string): (r: seq<Path>)
    ensures |r| == |paths|
    ensures forall i :: 0 <= i < |paths| ==> r[i] == paths[i] + [".gitconf", leaf]
  {
    if paths == [] then [] else [paths[0] + [".gitconf", leaf]] + Suffixed(paths[1..], leaf)
  }

  /** The loop that pushes `.gitconf` and `<leaf>` onto every candidate, last to first. */
  method SuffixAll(paths: seq<Path>, leaf: string) returns (r: seq<Path>)
    ensures r == Suffixed(paths, leaf)
  {
    r := paths;
    var i := |r|;
    while i > 0
      invariant 0 <= i <= |r| == |paths|
      invariant forall k :: 0 <= k < i ==> r[k] == paths[k]
      invariant forall k :: i <= k < |r| ==> r[k] == paths[k] + [".gitconf", leaf]
    {
      i := i - 1;
      r := r[i := r[i] + [".gitconf", leaf]];
    }
  }

  /** The candidate directories for `cur`, closest first. */
  function Levels(cur: Path, leaf: string): seq<Path>
  {
    Suffixed(Prepend(Ancestors(cur), cur + [".git"]), leaf)
  }

  function Reverse<T>(s: seq<T>): (r: seq<T>)
    ensures |r| == |s|
    ensures forall i :: 0 <= i < |s| ==> r[i] == s[|s| - 1 - i]
  {
    if s == [] then [] else Reverse(s[1..]) + [s[0]]
  }

  /** Visiting one more candidate from the back. */
  lemma ReverseStep<T>(s: seq<T>, i: nat)
    requires i < |s|
    ensures Reverse(s[i..]) == Reverse(s[i + 1..]) + [s[i]]
  {
    assert s[i..][1..] == s[i + 1..];
  }

  /**
   * Visit order: the `/etc` level first, then outwards-in, the level of
   * `cur` second to last (`/etc` again when `cur` is the root) and
   * `cur/.git` last.
   */
  lemma VisitOrder(cur: Path, leaf: string)
    ensures var v := Reverse(Levels(cur, leaf));
      && |v| >= 2
      && v[0] == Etc + [".gitconf", leaf]
      && v[|v| - 2] == Shown(cur) + [".gitconf", leaf]
      && v[|v| - 1] == cur + [".git", ".gitconf", leaf]
  {
    AncestorsEnds(cur);
    var a := Prepend(Ancestors(cur), cur + [".git"]);
    assert a[|a| - 1] == Ancestors(cur)[|Ancestors(cur)| - 1];
    assert a[1] == Ancestors(cur)[0];
    assert (cur + [".git"]) + [".gitconf", leaf] == cur + [".git", ".gitconf", leaf];
  }

  // ------------------------------------------------------------ current config

  /** A level's contribution: the file and the document it parses to. */
  datatype Found = Found(file: Path, doc: PartialConfig)

  /** A set with one element has no other. */
  lemma SingletonUnique(names: set<string>, n: string, m: string)
    requires |names| == 1 && n in names && m in names
    ensures n == m
  {
    var rest := names - {n};
    assert |rest| == 0;
    assert m !in rest;
  }

  /**
   * What a `current` directory contributes: only when it is readable, holds
   * exactly one entry, and that entry reads and parses.
   */
  ghost function LevelFound(fs: Fs, parse: Parser, dir: Path): Option<Found>
  {
    match ReadDir(fs, dir)
    case None => None
    case Some(names) =>
      if |names| != 1 then None
      else
        var n :| n in names;
        match Load(fs, parse, dir + [n])
        case None => None
        case Some(doc) => Some(Found(dir + [n], doc))
  }

  /** A level contributes exactly when it is a readable directory whose only entry loads. */
  lemma LevelFoundMeaning(fs: Fs, parse: Parser, dir: Path, n: string, doc: PartialConfig)
    ensures LevelFound(fs, parse, dir) == Some(Found(dir + [n], doc))
        <==> ReadDir(fs, dir) == Some({n}) && Load(fs, parse, dir + [n]) == Some(doc)
  {
    if ReadDir(fs, dir) == Some({n}) {
      assert |{n}| == 1;
    }
    if LevelFound(fs, parse, dir) == Some(Found(dir + [n], doc)) {
      var names := ReadDir(fs, dir).value;
      assert n in names;
      forall m | m in names ensures m == n {
        SingletonUnique(names, m, n);
      }
      assert names == {n};
    }
  }

  /** The contributions of the visited levels, in visit order. */
  ghost function FoundAll(fs: Fs, parse: Parser, dirs: seq<Path>): seq<Found>
  {
    if dirs == [] then []
    else
      FoundAll(fs, parse, dirs[..|dirs| - 1])
      + (match LevelFound(fs, parse, dirs[|dirs| - 1]) case None => [] case Some(x) => [x])
  }

  function Docs(found: seq<Found>): (r: seq<PartialConfig>)
    ensures |r| == |found| && forall i :: 0 <= i < |found| ==> r[i] == found[i].doc
  {
    seq(|found|, i requires 0 <= i < |found| => found[i].doc)
  }

  function LastFile(found: seq<Found>): Option<Path>
  {
    if found == [] then None else Some(found[|found| - 1].file)
  }

  lemma DocsSnoc(found: seq<Found>, x: Found)
    ensures Docs(found + [x]) == Docs(found) + [x.doc]
  {
    assert (found + [x])[..|found|] == found;
  }

  lemma FoundAllSnoc(fs: Fs, parse: Parser, dirs: seq<Path>, d: Path)
    ensures FoundAll(fs, parse, dirs + [d])
         == FoundAll(fs, parse, dirs) + (match LevelFound(fs, parse, d) case None => [] case Some(x) => [x])
  {
    assert (dirs + [d])[..|dirs|] == dirs;
  }

  /** Visiting one more `current` candidate adds its contribution, if any, to the merged documents. */
  lemma CurrentStep(fs: Fs, parse: Parser, pathes: seq<Path>, i: nat, level: Option<Found>)
    requires i < |pathes| && level == LevelFound(fs, parse, pathes[i])
    ensures var before := FoundAll(fs, parse, Reverse(pathes[i + 1..]));
      var after := FoundAll(fs, parse, Reverse(pathes[i..]));
      && (level.None? ==> after == before)
      && (level.Some? ==>
            && LastFile(after) == Some(level.value.file)
            && MergeAll(Unset, Docs(after)) == Overlay(MergeAll(Unset, Docs(before)), level.value.doc))
  {
    var before := FoundAll(fs, parse, Reverse(pathes[i + 1..]));
    ReverseStep(pathes, i);
    FoundAllSnoc(fs, parse, Reverse(pathes[i + 1..]), pathes[i]);
    if level.Some? {
      var docs := Docs(before);
      DocsSnoc(before, level.value);
      assert (docs + [level.value.doc])[..|docs|] == docs;
    } else {
      assert before + [] == before;
    }
  }

  /** The body of the `current` loop for one candidate: read it, and its only entry if there is just one. */
  method ReadCurrent(fs: Fs, parse: Parser, path: Path) returns (r: Option<Found>)
    ensures r == LevelFound(fs, parse, path)
  {
    var dir := ReadDir(fs, path);
    if dir.None? {
      return None;
    }
    var files := dir.value;
    if |files| != 1 {
      return None;
    }
    var n :| n in files;
    assert files == {n} by {
      forall m | m in files ensures m == n {
        SingletonUnique(files, m, n);
      }
    }
    var text := ReadFile(fs, path + [n]);
    if text.None? {
      LevelFoundMeaning(fs, parse, path, n, Unset);
      return None;
    }
    var curConf := parse(text.value);
    if curConf.None? {
      LevelFoundMeaning(fs, parse, path, n, Unset);
      return None;
    }
    LevelFoundMeaning(fs, parse, path, n, curConf.value);
    r := Some(Found(path + [n], curConf.value));
  }

  /**
   * `get_current_config_for_path`: the documents of the contributing levels
   * merged in visit order into `OptionConfig::new()`, completed with
   * defaults, and the file of the last contributing level.
   */
  method GetCurrentConfigForPath(fs: Fs, parse: Parser, cur: Path) returns (c: Config, configPath: Option<Path>)
    ensures var found := FoundAll(fs, parse, Reverse(Levels(cur, "current")));
      c == ToConfig(MergeAll(Unset, Docs(found))) && configPath == LastFile(found)
  {
    configPath := None;
    var opt := new OptionConfig.New();
    var pathes := Collect(cur);
    pathes := Prepend(pathes, cur + [".git"]);
    pathes := SuffixAll(pathes, "current");
    var i := |pathes|;
    assert pathes[i..] == [];
    while i > 0
      invariant 0 <= i <= |pathes|
      invariant var found := FoundAll(fs, parse, Reverse(pathes[i..]));
        opt.Value() == MergeAll(Unset, Docs(found)) && configPath == LastFile(found)
    {
      i := i - 1;
      var level := ReadCurrent(fs, parse, pathes[i]);
      CurrentStep(fs, parse, pathes, i, level);
      if level.Some? {
        configPath := Some(level.value.file);
        opt.Merge(level.value.doc);
      }
    }
    c := ToConfig(opt.Value());
  }

  /** A strict level discards every farther one. */
  lemma StrictLevelDiscardsFarther(found: seq<Found>, i: nat)
    requires i < |found| && found[i].doc.strict == Some(true)
    ensures MergeAll(Unset, Docs(found)) == MergeAll(found[i].doc, Docs(found)[i + 1..])
  {
    MergeAllAfterStrict(Unset, Docs(found), i);
  }

  /** A switch takes its value from the closest level that sets it, unless a closer strict level resets it. */
  lemma ClosestFlagWins(found: seq<Found>, f: Flag, j: nat)
    requires j < |found| && Get(found[j].doc, f).Some?
    requires forall k :: j < k < |found| ==> Get(found[k].doc, f).None? && found[k].doc.strict != Some(true)
    ensures IsOn(ToConfig(MergeAll(Unset, Docs(found))), f) == Get(found[j].doc, f).value
  {
    LatestFlagWins(Unset, Docs(found), f, j);
    ToConfigFields(MergeAll(Unset, Docs(found)));
  }

  /**
   * A `current` document inside `cur/.git` is visited last, so it wins: its
   * file is the one reported and every switch it sets keeps its value.
   */
  lemma RepositoryLevelWins(fs: Fs, parse: Parser, cur: Path, f: Flag, x: Found)
    requires LevelFound(fs, parse, cur + [".git", ".gitconf", "current"]) == Some(x)
    requires Get(x.doc, f).Some?
    ensures var found := FoundAll(fs, parse, Reverse(Levels(cur, "current")));
      && LastFile(found) == Some(x.file)
      && IsOn(ToConfig(MergeAll(Unset, Docs(found))), f) == Get(x.doc, f).value
  {
    var v := Reverse(Levels(cur, "current"));
    VisitOrder(cur, "current");
    var n := |v| - 1;
    assert v == v[..n] + [v[n]];
    FoundAllSnoc(fs, parse, v[..n], v[n]);
    var found := FoundAll(fs, parse, v);
    assert found[|found| - 1] == x;
    ClosestFlagWins(found, f, |found| - 1);
  }

  // --------------------------------------------------------------- profiles

  /** What a `profiles` directory offers: every entry that reads and parses, by name. */
  function LevelProfiles(fs: Fs, parse: Parser, dir: Path): map<string, Path>
  {
    match ReadDir(fs, dir)
    case None => map[]
    case Some(names) => Loaded(fs, parse, dir, names)
  }

  /** Maps laid over one another in order, a later one overwriting a key of an earlier one. */
  function Stack<K, V>(ms: seq<map<K, V>>): map<K, V>
  {
    if ms == [] then map[] else Stack(ms[..|ms| - 1]) + ms[|ms| - 1]
  }

  /** A key is in the stack exactly when some layer has it. */
  lemma {:induction false} StackHasKey<K, V>(ms: seq<map<K, V>>, k: K)
    ensures k in Stack(ms) <==> exists i :: 0 <= i < |ms| && k in ms[i]
    decreases |ms|
  {
    if ms != [] {
      var n := |ms| - 1;
      var front := ms[..n];
      StackHasKey(front, k);
      if k in Stack(ms) && k !in ms[n] {
        var i :| 0 <= i < n && k in front[i];
        assert front[i] == ms[i];
      }
      if exists i :: 0 <= i < |ms| && k in ms[i] {
        var i :| 0 <= i < |ms| && k in ms[i];
        if i < n {
          assert front[i] == ms[i];
        }
      }
    }
  }

  /** A key's value in the stack comes from the last layer that has it, layer `i`. */
  lemma {:induction false} StackLastWins<K, V>(ms: seq<map<K, V>>, k: K) returns (i: nat)
    requires k in Stack(ms)
    ensures i < |ms| && k in ms[i] && Stack(ms)[k] == ms[i][k]
    ensures forall j :: i < j < |ms| ==> k !in ms[j]
    decreases |ms|
  {
    var n := |ms| - 1;
    var front := ms[..n];
    if k in ms[n] {
      i := n;
    } else {
      i := StackLastWins(front, k);
      assert front[i] == ms[i];
      forall j | i < j < |ms| ensures k !in ms[j] {
        if j < n {
          assert front[j] == ms[j];
        }
      }
    }
  }

  /** What each visited level offers, in visit order. */
  function Offers(fs: Fs, parse: Parser, dirs: seq<Path>): (r: seq<map<string, Path>>)
    ensures |r| == |dirs| && forall i :: 0 <= i < |dirs| ==> r[i] == LevelProfiles(fs, parse, dirs[i])
  {
    seq(|dirs|, i requires 0 <= i < |dirs| => LevelProfiles(fs, parse, dirs[i]))
  }

  /** The profiles of the visited levels, a closer level overwriting a name of a farther one. */
  function ProfilesOver(fs: Fs, parse: Parser, dirs: seq<Path>): map<string, Path>
  {
    Stack(Offers(fs, parse, dirs))
  }

  lemma ProfilesOverSnoc(fs: Fs, parse: Parser, dirs: seq<Path>, d: Path)
    ensures ProfilesOver(fs, parse, dirs + [d]) == ProfilesOver(fs, parse, dirs) + LevelProfiles(fs, parse, d)
  {
    var ms := Offers(fs, parse, dirs + [d]);
    assert ms[..|dirs|] == Offers(fs, parse, dirs);
  }

  /** The entries of one directory that load, among the names in `done`. */
  function Loaded(fs: Fs, parse: Parser, dir: Path, done: set<string>): map<string, Path>
  {
    map n | n in done && Load(fs, parse, dir + [n]).Some? :: dir + [n]
  }

  /** A candidate that loads joins the profiles under its name. */
  lemma LoadedAdd(fs: Fs, parse: Parser, dir: Path, done: set<string>, n: string, start: map<string, Path>)
    requires Load(fs, parse, dir + [n]).Some?
    ensures start + Loaded(fs, parse, dir, done + {n}) == (start + Loaded(fs, parse, dir, done))[n := dir + [n]]
  {
  }

  /** A candidate that does not load is skipped. */
  lemma LoadedSkip(fs: Fs, parse: Parser, dir: Path, done: set<string>, n: string)
    requires Load(fs, parse, dir + [n]).None?
    ensures Loaded(fs, parse, dir, done + {n}) == Loaded(fs, parse, dir, done)
  {
  }

  /** Reading a candidate file and parsing it; a failure of either gives `None`. */
  method ReadAndParse(fs: Fs, parse: Parser, f: Path) returns (conf: Option<PartialConfig>)
    ensures conf == Load(fs, parse, f)
  {
    var text := ReadFile(fs, f);
    if text.None? {
      return None;
    }
    conf := parse(text.value);
  }

  /** The loop over the entries `names` of directory `dir`: each that reads and parses is added by name. */
  method LoadEntries(fs: Fs, parse: Parser, dir: Path, names: set<string>, start: map<string, Path>)
    returns (profiles: map<string, Path>)
    ensures profiles == start + Loaded(fs, parse, dir, names)
  {
    profiles := start;
    var todo := names;
    ghost var done: set<string> := {};
    while todo != {}
      invariant done + todo == names
      invariant profiles == start + Loaded(fs, parse, dir, done)
      decreases |todo|
    {
      var n :| n in todo;
      ghost var before := done;
      done := done + {n};
      todo := todo - {n};
      var conf := ReadAndParse(fs, parse, dir + [n]);
      if conf.None? {
        LoadedSkip(fs, parse, dir, before, n);
        continue;
      }
      LoadedAdd(fs, parse, dir, before, n, start);
      profiles := profiles[n := dir + [n]];
    }
    assert done == names;
  }

  /** The body of the `profiles` loop for one candidate: an unreadable directory adds nothing. */
  method ReadProfiles(fs: Fs, parse: Parser, path: Path, start: map<string, Path>) returns (profiles: map<string, Path>)
    ensures profiles == start + LevelProfiles(fs, parse, path)
  {
    var dir := ReadDir(fs, path);
    if dir.None? {
      return start;
    }
    profiles := LoadEntries(fs, parse, path, dir.value, start);
  }

  /** `get_profiles_for_path`. */
  method GetProfilesForPath(fs: Fs, parse: Parser, cur: Path) returns (profiles: map<string, Path>)
    ensures profiles == ProfilesOver(fs, parse, Reverse(Levels(cur, "profiles")))
  {
    profiles := map[];
    var pathes := Collect(cur);
    pathes := Prepend(pathes, cur + [".git"]);
    pathes := SuffixAll(pathes, "profiles");
    var i := |pathes|;
    assert pathes[i..] == [];
    while i > 0
      invariant 0 <= i <= |pathes|
      invariant profiles == ProfilesOver(fs, parse, Reverse(pathes[i..]))
    {
      i := i - 1;
      ReverseStep(pathes, i);
      ProfilesOverSnoc(fs, parse, Reverse(pathes[i + 1..]), pathes[i]);
      profiles := ReadProfiles(fs, parse, pathes[i], profiles);
    }
  }

  /**
   * A name is a profile exactly when some visited level has an entry of that
   * name that reads and parses.
   */
  lemma ProfilesFromSomeLevel(fs: Fs, parse: Parser, dirs: seq<Path>, n: string)
    ensures n in ProfilesOver(fs, parse, dirs) <==> exists i :: 0 <= i < |dirs| && n in LevelProfiles(fs, parse, dirs[i])
  {
    var ms := Offers(fs, parse, dirs);
    StackHasKey(ms, n);
    if exists i :: 0 <= i < |ms| && n in ms[i] {
      var i :| 0 <= i < |ms| && n in ms[i];
      assert n in LevelProfiles(fs, parse, dirs[i]);
    }
    if exists i :: 0 <= i < |dirs| && n in LevelProfiles(fs, parse, dirs[i]) {
      var i :| 0 <= i < |dirs| && n in LevelProfiles(fs, parse, dirs[i]);
      assert n in ms[i];
    }
  }

  /**
   * A profile maps to its entry in the last (closest) level that offers the
   * name, so a closer file that fails to load does not displace a farther one
   * that loads.
   */
  lemma ProfilesClosestWins(fs: Fs, parse: Parser, dirs: seq<Path>, n: string)
    requires n in ProfilesOver(fs, parse, dirs)
    ensures exists i ::
      && 0 <= i < |dirs|
      && ReadDir(fs, dirs[i]).Some? && n in ReadDir(fs, dirs[i]).value && Load(fs, parse, dirs[i] + [n]).Some?
      && ProfilesOver(fs, parse, dirs)[n] == dirs[i] + [n]
      && forall j :: i < j < |dirs| ==> n !in LevelProfiles(fs, parse, dirs[j])
  {
    var ms := Offers(fs, parse, dirs);
    var i := StackLastWins(ms, n);
    assert ms[i] == LevelProfiles(fs, parse, dirs[i]);
    forall j | i < j < |dirs| ensures n !in LevelProfiles(fs, parse, dirs[j]) {
      assert ms[j] == LevelProfiles(fs, parse, dirs[j]);
    }
  }

  // -------------------------------------------------------------- set_profile

  /** The last component (`file_name`). */
  function Name(p: Path): string
    requires p != Root
  {
    p[|p| - 1]
  }

  /** Every node but the root sits in a directory. */
  predicate WellFormed(fs: Fs)
  {
    forall q :: q in fs && q != Root ==> Parent(q) in fs && fs[Parent(q)].Dir?
  }

  /** The file system without `p` and everything below it. */
  function Prune(fs: Fs, p: Path): Fs
  {
    map q | q in fs && !(p <= q) :: fs[q]
  }

  /** `remove_dir_all` can list every directory below `p`. */
  predicate TreeListable(fs: Fs, p: Path)
  {
    forall q :: q in fs && p <= q && fs[q].Dir? ==> fs[q].readable
  }

  function Prefixes(p: Path): set<Path>
  {
    set k | 0 <= k <= |p| :: p[..k]
  }

  /** `create_dir_all` can create `p`: nothing on the way is a file. */
  predicate NoFileOnTheWay(fs: Fs, p: Path)
  {
    forall q :: q in Prefixes(p) && q in fs ==> fs[q].Dir?
  }

  /** The file system after `create_dir_all(p)`. */
  function CreateDirs(fs: Fs, p: Path): Fs
  {
    fs + map q | q in Prefixes(p) && q !in fs :: Dir(true)
  }

  /** `fs::copy(src, dst)` can run: `src` is a readable file, `dst`'s directory exists and `dst` is no directory. */
  predicate CanCopy(fs: Fs, src: Path, dst: Path)
  {
    && ReadFile(fs, src).Some?
    && dst != Root && Parent(dst) in fs && fs[Parent(dst)].Dir?
    && !(dst in fs && fs[dst].Dir?)
  }

  /** The file system the `set_profile` calls act on. */
  class Disk {
    var fs: Fs

    constructor (fs: Fs)
      ensures this.fs == fs
    {
      this.fs := fs;
    }

    /** `fs::remove_dir_all(p)`. */
    method RemoveDirAll(p: Path) returns (ok: bool)
      modifies this
      ensures ok == TreeListable(old(fs), p)
      ensures fs == if ok then Prune(old(fs), p) else old(fs)
    {
      ok := TreeListable(fs, p);
      if ok {
        fs := Prune(fs, p);
      }
    }

    /** `fs::remove_file(p)`. */
    method RemoveFile(p: Path) returns (ok: bool)
      modifies this
      ensures ok == (p in old(fs) && old(fs)[p].File?)
      ensures fs == if ok then old(fs) - {p} else old(fs)
    {
      ok := p in fs && fs[p].File?;
      if ok {
        fs := fs - {p};
      }
    }

    /** `fs::create_dir_all(p)`. */
    method CreateDirAll(p: Path) returns (ok: bool)
      modifies this
      ensures ok == NoFileOnTheWay(old(fs), p)
      ensures fs == if ok then CreateDirs(old(fs), p) else old(fs)
    {
      ok := NoFileOnTheWay(fs, p);
      if ok {
        fs := CreateDirs(fs, p);
      }
    }

    /** `fs::copy(src, dst)`: the copy is readable, as the source was. */
    method Copy(src: Path, dst: Path) returns (ok: bool)
      modifies this
      ensures ok == CanCopy(old(fs), src, dst)
      ensures fs == if ok then old(fs)[dst := File(true, ReadFile(old(fs), src).value)] else old(fs)
    {
      ok := CanCopy(fs, src, dst);
      if ok {
        fs := fs[dst := File(true, ReadFile(fs, src).value)];
      }
    }
  }

  /** Where `set_profile` installs a profile for `dst`: inside `dst/.git` when that exists. */
  function Slot(fs: Fs, dst: Path): Path
  {
    if dst + [".git"] in fs then dst + [".git", ".gitconf", "current"] else dst + [".gitconf", "current"]
  }

  /** The file system once an old slot is removed. */
  function Cleared(fs: Fs, slot: Path): Fs
  {
    if slot !in fs then fs
    else if fs[slot].Dir? then Prune(fs, slot)
    else fs - {slot}
  }

  /** The removal of an old slot can run. */
  predicate CanClear(fs: Fs, slot: Path)
  {
    slot in fs && fs[slot].Dir? ==> TreeListable(fs, slot)
  }

  /** Every step of `set_profile` can run. */
  predicate CanInstall(fs: Fs, src: Path, slot: Path)
  {
    && src != Root
    && CanClear(fs, slot)
    && NoFileOnTheWay(Cleared(fs, slot), slot)
    && CanCopy(CreateDirs(Cleared(fs, slot), slot), src, slot + [Name(src)])
  }

  /** The file system after a successful `set_profile`. */
  function Installed(fs: Fs, src: Path, slot: Path): Fs
    requires src != Root && CanCopy(CreateDirs(Cleared(fs, slot), slot), src, slot + [Name(src)])
  {
    var made := CreateDirs(Cleared(fs, slot), slot);
    made[slot + [Name(src)] := File(true, ReadFile(made, src).value)]
  }

  /**
   * `set_profile(src, dst)`: pick the slot, remove whatever is there,
   * recreate it as a directory and copy `src` into it under its own name.
   * Each failing step returns false at once.
   */
  method SetProfile(disk: Disk, src: Path, dst: Path) returns (ok: bool)
    requires src != Root
    modifies disk
    ensures var slot := Slot(old(disk.fs), dst);
      var cleared := Cleared(old(disk.fs), slot);
      var made := CreateDirs(cleared, slot);
      && (ok <==> CanInstall(old(disk.fs), src, slot))
      && (ok ==> disk.fs == Installed(old(disk.fs), src, slot))
      && (!ok ==> disk.fs == old(disk.fs) || disk.fs == cleared || disk.fs == made)
  {
    var slot: Path;
    if dst + [".git"] in disk.fs {
      slot := dst + [".git", ".gitconf", "current"];
    } else {
      slot := dst + [".gitconf", "current"];
    }
    if slot in disk.fs {
      if disk.fs[slot].Dir? {
        ok := disk.RemoveDirAll(slot);
        if !ok {
          return;
        }
      } else {
        ok := disk.RemoveFile(slot);
        if !ok {
          return;
        }
      }
    }
    ok := disk.CreateDirAll(slot);
    if !ok {
      return;
    }
    ok := disk.Copy(src, slot + [Name(src)]);
  }

  /** Only the slot, its missing ancestors and the new file change. */
  lemma InstalledFrame(fs: Fs, src: Path, slot: Path)
    requires src != Root && CanCopy(CreateDirs(Cleared(fs, slot), slot), src, slot + [Name(src)])
    ensures forall q :: q in fs && !(slot <= q) ==> q in Installed(fs, src, slot) && Installed(fs, src, slot)[q] == fs[q]
    ensures forall q :: q in Installed(fs, src, slot) && q !in fs ==> q in Prefixes(slot) || slot <= q
  {
    var made := CreateDirs(Cleared(fs, slot), slot);
    forall q | q in fs && !(slot <= q)
      ensures q in Installed(fs, src, slot) && Installed(fs, src, slot)[q] == fs[q]
    {
      assert q in Cleared(fs, slot) && Cleared(fs, slot)[q] == fs[q];
      assert q != slot + [Name(src)];
    }
  }

  /** In a well-formed file system a file has nothing below it. */
  lemma NothingBelowAFile(fs: Fs, f: Path, q: Path)
    requires WellFormed(fs) && f in fs && fs[f].File? && q in fs && f <= q
    ensures q == f
    decreases |q|
  {
    if q != f {
      assert |q| > |f|;
      assert f <= Parent(q);
      NothingBelowAFile(fs, f, Parent(q));
    }
  }

  /** Removing the slot leaves nothing at or below it. */
  lemma NothingLeftBelow(fs: Fs, slot: Path)
    requires WellFormed(fs)
    ensures forall q :: q in Cleared(fs, slot) ==> !(slot <= q)
  {
    forall q | q in Cleared(fs, slot) ensures !(slot <= q) {
      if slot <= q {
        if slot !in fs {
          assert q[..|slot|] == slot;
          AncestorsPresent(fs, q, |slot|);
          assert false;
        } else if fs[slot].File? {
          NothingBelowAFile(fs, slot, q);
          assert false;
        }
      }
    }
  }

  /** After a successful install the slot is a readable directory holding only the new file. */
  lemma InstalledSlot(fs: Fs, src: Path, slot: Path)
    requires WellFormed(fs)
    requires src != Root && CanCopy(CreateDirs(Cleared(fs, slot), slot), src, slot + [Name(src)])
    ensures ReadDir(Installed(fs, src, slot), slot) == Some({Name(src)})
    ensures ReadFile(Installed(fs, src, slot), slot + [Name(src)]) == ReadFile(fs, src)
  {
    var cleared := Cleared(fs, slot);
    var made := CreateDirs(cleared, slot);
    var out := Installed(fs, src, slot);
    var file := slot + [Name(src)];
    assert slot !in cleared;
    assert slot == slot[..|slot|];
    assert slot in Prefixes(slot);
    assert out[slot] == Dir(true);
    NothingLeftBelow(fs, slot);
    forall x | x in Entries(out, slot) ensures x == Name(src) {
      var q :| q in out && |q| == |slot| + 1 && q[..|slot|] == slot && q[|slot|] == x;
      assert slot <= q;
      if q != file {
        assert false;
      }
    }
    assert file in out && file[..|slot|] == slot;
    assert Name(src) in Entries(out, slot);
    assert Entries(out, slot) == {Name(src)};
    assert slot != file && slot in out;
  }

  /**
   * The profile just installed is what discovery reads from that level: its
   * only entry, the copy, loads to whatever the source file loads to.
   */
  lemma InstalledIsCurrent(fs: Fs, parse: Parser, src: Path, slot: Path)
    requires WellFormed(fs)
    requires src != Root && CanCopy(CreateDirs(Cleared(fs, slot), slot), src, slot + [Name(src)])
    ensures var doc := Load(CreateDirs(Cleared(fs, slot), slot), parse, src);
      LevelFound(Installed(fs, src, slot), parse, slot)
        == if doc.Some? then Some(Found(slot + [Name(src)], doc.value)) else None
  {
    InstalledSlot(fs, src, slot);
    var out := Installed(fs, src, slot);
    var doc := Load(CreateDirs(Cleared(fs, slot), slot), parse, src);
    assert Load(out, parse, slot + [Name(src)]) == doc;
    if doc.Some? {
      LevelFoundMeaning(out, parse, slot, Name(src), doc.value);
    } else {
      assert |{Name(src)}| == 1;
    }
  }

  /** A path in a well-formed file system has all its ancestors there. */
  lemma {:induction false} AncestorsPresent(fs: Fs, q: Path, k: nat)
    requires WellFormed(fs) && q in fs && k <= |q|
    ensures q[..k] in fs
    decreases |q| - k
  {
    if k < |q| {
      AncestorsPresent(fs, Parent(q), k);
      assert Parent(q)[..k] == q[..k];
    } else {
      assert q[..k] == q;
    }
  }

  /**
   * Setting a profile for a directory other than the root and then looking up
   * the current configuration from it finds the installed file, and its
   * document is the last one merged.
   */
  lemma SetThenGet(fs: Fs, parse: Parser, src: Path, dst: Path)
    requires WellFormed(fs) && dst != Root
    requires var slot := Slot(fs, dst);
      src != Root && CanCopy(CreateDirs(Cleared(fs, slot), slot), src, slot + [Name(src)])
    requires Load(CreateDirs(Cleared(fs, Slot(fs, dst)), Slot(fs, dst)), parse, src).Some?
    ensures var slot := Slot(fs, dst);
      var found := FoundAll(Installed(fs, src, slot), parse, Reverse(Levels(dst, "current")));
      && LastFile(found) == Some(slot + [Name(src)])
      && Docs(found)[|found| - 1] == Load(CreateDirs(Cleared(fs, slot), slot), parse, src).value
  {
    var slot := Slot(fs, dst);
    var out := Installed(fs, src, slot);
    var v := Reverse(Levels(dst, "current"));
    VisitOrder(dst, "current");
    InstalledIsCurrent(fs, parse, src, slot);
    var n := |v| - 1;
    var gitLevel := dst + [".git", ".gitconf", "current"];
    var plainLevel := dst + [".gitconf", "current"];
    assert v[n] == gitLevel;
    assert v[n - 1] == plainLevel;
    assert v == v[..n] + [v[n]];
    FoundAllSnoc(out, parse, v[..n], v[n]);
    if slot != gitLevel {
      GitLevelAbsent(fs, src, dst);
      assert LevelFound(out, parse, gitLevel) == None;
      var m := n - 1;
      assert v[..n] == v[..n][..m] + [v[m]];
      FoundAllSnoc(out, parse, v[..n][..m], v[m]);
    }
  }

  /** Without `dst/.git` the slot is `dst/.gitconf/current`, and installing there creates no `dst/.git/.gitconf/current`. */
  lemma GitLevelAbsent(fs: Fs, src: Path, dst: Path)
    requires WellFormed(fs) && dst != Root
    requires var slot := Slot(fs, dst);
      src != Root && CanCopy(CreateDirs(Cleared(fs, slot), slot), src, slot + [Name(src)])
    requires Slot(fs, dst) != dst + [".git", ".gitconf", "current"]
    ensures dst + [".git", ".gitconf", "current"] !in Installed(fs, src, Slot(fs, dst))
  {
    var slot := Slot(fs, dst);
    var gitLevel := dst + [".git", ".gitconf", "current"];
    assert dst + [".git"] !in fs;
    assert gitLevel[..|dst| + 1] == dst + [".git"];
    assert gitLevel !in fs by {
      if gitLevel in fs {
        AncestorsPresent(fs, gitLevel, |dst| + 1);
        assert false;
      }
    }
    assert gitLevel[|dst|] == ".git" && slot[|dst|] == ".gitconf";
    InstalledFrame(fs, src, slot);
    if gitLevel in Installed(fs, src, slot) {
      assert false;
    }
  }

  /** Installing never creates `dst/.git`, so a second install picks the same slot. */
  lemma InstalledKeepsSlot(fs: Fs, src: Path, dst: Path)
    requires WellFormed(fs) && CanInstall(fs, src, Slot(fs, dst))
    ensures Slot(Installed(fs, src, Slot(fs, dst)), dst) == Slot(fs, dst)
  {
    var slot := Slot(fs, dst);
    var git := dst + [".git"];
    if git !in fs {
      InstalledFrame(fs, src, slot);
      assert git[|dst|] == ".git" && slot[|dst|] == ".gitconf";
      if git in Installed(fs, src, slot) {
        assert false;
      }
    }
  }

  /**
   * Activating the same profile twice is activating it once: the second run
   * can run and leaves the file system as the first left it, the slot holding
   * only the copy.
   */
  lemma SetProfileIdempotent(fs: Fs, src: Path, dst: Path)
    requires WellFormed(fs) && CanInstall(fs, src, Slot(fs, dst))
    ensures var once := Installed(fs, src, Slot(fs, dst));
      && Slot(once, dst) == Slot(fs, dst)
      && CanInstall(once, src, Slot(fs, dst))
      && Installed(once, src, Slot(fs, dst)) == once
  {
    var slot := Slot(fs, dst);
    var made := CreateDirs(Cleared(fs, slot), slot);
    var once := Installed(fs, src, slot);
    InstalledKeepsSlot(fs, src, dst);
    InstalledSlotListable(fs, src, slot);
    InstalledPrunes(fs, src, slot);
    RecreatedSlot(fs, slot);
    assert src in made && !(slot <= src);
  }

  /** After an install the slot is a readable directory whose only entry is the copy. */
  lemma InstalledSlotListable(fs: Fs, src: Path, slot: Path)
    requires WellFormed(fs) && CanInstall(fs, src, slot)
    ensures slot in Installed(fs, src, slot) && Installed(fs, src, slot)[slot] == Dir(true)
    ensures TreeListable(Installed(fs, src, slot), slot)
  {
    var once := Installed(fs, src, slot);
    var file := slot + [Name(src)];
    InstalledSlot(fs, src, slot);
    NothingLeftBelow(fs, slot);
    forall q | q in once && slot <= q && once[q].Dir? ensures once[q].readable {
      if q != file && q != slot {
        assert false;
      }
    }
  }

  /** Removing the slot again takes away exactly what the install added below it. */
  lemma InstalledPrunes(fs: Fs, src: Path, slot: Path)
    requires WellFormed(fs) && CanInstall(fs, src, slot)
    ensures Prune(Installed(fs, src, slot), slot) == Prune(CreateDirs(Cleared(fs, slot), slot), slot)
  {
  }

  /** Removing the freshly made slot and making it again gives back the same file system. */
  lemma RecreatedSlot(fs: Fs, slot: Path)
    requires WellFormed(fs)
    ensures var made := CreateDirs(Cleared(fs, slot), slot);
      CreateDirs(Prune(made, slot), slot) == made
  {
    var cleared := Cleared(fs, slot);
    var made := CreateDirs(cleared, slot);
    var pruned := Prune(made, slot);
    var again := CreateDirs(pruned, slot);
    NothingLeftBelow(fs, slot);
    assert slot in Prefixes(slot) by {
      assert slot[..|slot|] == slot;
    }
    assert slot !in cleared && slot in made && made[slot] == Dir(true);
    forall q | q in made
      ensures q in again && again[q] == made[q]
    {
      if slot <= q {
        if q !in cleared {
          var k :| 0 <= k <= |slot| && q == slot[..k];
        }
        assert q == slot;
      } else {
        assert q in pruned;
      }
    }
    forall q | q in again
      ensures q in made
    {
    }
    assert again.Keys == made.Keys;
  }

  /**
   * For the root itself the slot is `/.gitconf/current` (when there is no
   * `/.git`), a directory the lookup from the root never visits.
   */
  lemma RootSlotNotVisited(fs: Fs)
    requires [".git"] !in fs
    ensures Slot(fs, Root) !in Levels(Root, "current")
  {
    TestRoot();
    var l := Levels(Root, "current");
    assert |l| == 2;
    assert l[0] == [".git", ".gitconf", "current"];
    assert l[1] == ["etc", ".gitconf", "current"];
    assert Root + [".git"] == [".git"];
    assert Root + [".gitconf", "current"] == [".gitconf", "current"];
    assert Slot(fs, Root) == [".gitconf", "current"];
  }
}
