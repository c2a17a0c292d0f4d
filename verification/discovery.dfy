/** `get_modules_in_dir`: every source file below the root becomes a
    `Module` under its dotted name, the first file to claim a name keeping
    it. The directory walk is the input: one entry per directory visited,
    in the walk's order, with the directory's path and its file names. */
module Discovery {
  import opened Text
  import opened Naming
  import opened Modules

  /** One directory the walk visits: its path and the names of its files. */
  datatype WalkEntry = WalkEntry(top: string, files: seq<string>)

  /** A module the walk yields: its dotted name, its file and the directory
      holding the file. */
  datatype Candidate = Candidate(name: string, file: string, path: string)

  /** A directory passed over because its path looks like a virtual
      environment. */
  predicate Skipped(top: string, ignoreVenv: bool) {
    ignoreVenv && (Contains(top, "venv") || Contains(top, "virt"))
  }

  /** A file name whose last three characters are `.py`. */
  predicate IsSource(nm: string) {
    TakeLast(nm, 3) == ".py"
  }

  /** The module for source file `nm` in directory `top`. */
  function CandidateOf(root: string, top: string, nm: string): Candidate {
    var modFile := top + "/" + nm;
    Candidate(DirModName(root, modFile), modFile, top)
  }

  /** The modules of the source files among `files`, in order. */
  function FileCandidates(root: string, top: string, files: seq<string>): seq<Candidate>
    decreases |files|
  {
    if |files| == 0 then []
    else
      var nm := files[|files| - 1];
      FileCandidates(root, top, files[..|files| - 1]) + (if IsSource(nm) then [CandidateOf(root, top, nm)] else [])
  }

  /** The modules of every directory of the walk that is not skipped, in
      the walk's order. */
  function Candidates(root: string, walk: seq<WalkEntry>, ignoreVenv: bool): seq<Candidate>
    decreases |walk|
  {
    if |walk| == 0 then []
    else
      Candidates(root, walk[..|walk| - 1], ignoreVenv) + DirCandidates(root, walk[|walk| - 1], ignoreVenv)
  }

  /** The modules of one directory of the walk: none when it is skipped. */
  function DirCandidates(root: string, e: WalkEntry, ignoreVenv: bool): seq<Candidate> {
    if Skipped(e.top, ignoreVenv) then [] else FileCandidates(root, e.top, e.files)
  }

  /** The dictionary built from `cs` in order, a name already present being
      left alone. */
  function FirstWins(cs: seq<Candidate>): map<string, Candidate>
    decreases |cs|
  {
    if |cs| == 0 then map[]
    else
      var m := FirstWins(cs[..|cs| - 1]);
      var c := cs[|cs| - 1];
      if c.name in m then m else m[c.name := c]
  }

  /** `m` is the module object built for candidate `c`, with no direct
      imports yet. */
  predicate Built(m: Module, c: Candidate)
    reads m
  {
    m.name == c.name && m.file == c.file && m.path == c.path && m.directImports == map[]
  }

  /** Each module of `mods` is the one built for the entry of `fw` under
      the same name, and the two have the same names. */
  predicate Mirrors(mods: map<string, Module>, fw: map<string, Candidate>)
    reads mods.Values
  {
    mods.Keys == fw.Keys && forall k | k in mods :: Built(mods[k], fw[k])
  }

  lemma MirrorsInsert(mods: map<string, Module>, fw: map<string, Candidate>, c: Candidate, mod: Module)
    requires Mirrors(mods, fw) && c.name !in mods && Built(mod, c)
    ensures Mirrors(mods[c.name := mod], fw[c.name := c])
  {
  }

  lemma FileCandidatesStep(root: string, top: string, files: seq<string>, j: nat)
    requires j < |files|
    ensures IsSource(files[j]) ==>
      FileCandidates(root, top, files[..j + 1]) == FileCandidates(root, top, files[..j]) + [CandidateOf(root, top, files[j])]
    ensures !IsSource(files[j]) ==>
      FileCandidates(root, top, files[..j + 1]) == FileCandidates(root, top, files[..j])
  {
    PrefixOfSnoc(files[..j], files[j]);
    assert files[..j + 1] == files[..j] + [files[j]];
  }

  lemma SeenStep(seen0: seq<Candidate>, root: string, top: string, files: seq<string>, j: nat)
    requires j < |files|
    ensures IsSource(files[j]) ==>
      seen0 + FileCandidates(root, top, files[..j + 1]) == (seen0 + FileCandidates(root, top, files[..j])) + [CandidateOf(root, top, files[j])]
    ensures !IsSource(files[j]) ==>
      seen0 + FileCandidates(root, top, files[..j + 1]) == seen0 + FileCandidates(root, top, files[..j])
  {
    FileCandidatesStep(root, top, files, j);
    AppendAssoc(seen0, FileCandidates(root, top, files[..j]), [CandidateOf(root, top, files[j])]);
  }

  lemma CandidatesStep(root: string, walk: seq<WalkEntry>, i: nat, ignoreVenv: bool)
    requires i < |walk|
    ensures Skipped(walk[i].top, ignoreVenv) ==>
      Candidates(root, walk[..i + 1], ignoreVenv) == Candidates(root, walk[..i], ignoreVenv)
    ensures !Skipped(walk[i].top, ignoreVenv) ==>
      Candidates(root, walk[..i + 1], ignoreVenv) == Candidates(root, walk[..i], ignoreVenv) + FileCandidates(root, walk[i].top, walk[i].files)
  {
    PrefixOfSnoc(walk[..i], walk[i]);
    assert walk[..i + 1] == walk[..i] + [walk[i]];
    var c := Candidates(root, walk[..i], ignoreVenv);
    assert c + [] == c;
  }

  lemma FirstWinsStep(cs: seq<Candidate>, c: Candidate)
    ensures c.name in FirstWins(cs) ==> FirstWins(cs + [c]) == FirstWins(cs)
    ensures c.name !in FirstWins(cs) ==> FirstWins(cs + [c]) == FirstWins(cs)[c.name := c]
  {
    PrefixOfSnoc(cs, c);
  }

  /** The modules of the source files of directory `top`, added to `mods`
      unless their name is taken. */
  method AddSourceFiles(root: string, top: string, files: seq<string>, mods0: map<string, Module>, ghost seen0: seq<Candidate>)
    returns (mods: map<string, Module>, ghost seen: seq<Candidate>)
    requires Mirrors(mods0, FirstWins(seen0))
    ensures seen == seen0 + FileCandidates(root, top, files)
    ensures Mirrors(mods, FirstWins(seen))
    ensures forall k | k in mods0 :: k in mods && mods[k] == mods0[k]
    ensures forall k | k in mods :: (k in mods0 && mods[k] == mods0[k]) || fresh(mods[k])
  {
    mods, seen := mods0, seen0;
    var j := 0;
    while j < |files|
      invariant j <= |files|
      invariant seen == seen0 + FileCandidates(root, top, files[..j])
      invariant Mirrors(mods, FirstWins(seen))
      invariant forall k | k in mods0 :: k in mods && mods[k] == mods0[k]
      invariant forall k | k in mods :: (k in mods0 && mods[k] == mods0[k]) || fresh(mods[k])
    {
      var nm := files[j];
      SeenStep(seen0, root, top, files, j);
      if TakeLast(nm, 3) == ".py" {
        var modFile := top + "/" + nm;
        var modPath := top;
        var modName := DirModName(root, modFile);
        ghost var c := Candidate(modName, modFile, modPath);
        assert c == CandidateOf(root, top, nm);
        FirstWinsStep(seen, c);
        if modName !in mods {
          var mod := new Module(modName, modFile, modPath);
          MirrorsInsert(mods, FirstWins(seen), c, mod);
          mods := mods[modName := mod];
        }
        seen := seen + [c];
      }
      j := j + 1;
    }
    assert files[..|files|] == files;
  }

  /** Walks the directories and creates one new module per name, from the
      first source file with that name. */
  method GetModulesInDir(root: string, walk: seq<WalkEntry>, ignoreVenv: bool) returns (mods: map<string, Module>)
    ensures Mirrors(mods, FirstWins(Candidates(root, walk, ignoreVenv)))
    ensures forall k | k in mods :: fresh(mods[k])
  {
    mods := map[];
    ghost var seen: seq<Candidate> := [];
    var i := 0;
    while i < |walk|
      invariant i <= |walk|
      invariant seen == Candidates(root, walk[..i], ignoreVenv)
      invariant Mirrors(mods, FirstWins(seen))
      invariant forall k | k in mods :: fresh(mods[k])
    {
      var top, files := walk[i].top, walk[i].files;
      CandidatesStep(root, walk, i, ignoreVenv);
      if !(ignoreVenv && (Contains(top, "venv") || Contains(top, "virt"))) {
        mods, seen := AddSourceFiles(root, top, files, mods, seen);
      }
      i := i + 1;
    }
    assert walk[..|walk|] == walk;
  }

  // ---------------------------------------------------------------------
  // What the dictionary holds.

  /** `cs[i]` is the first entry of `cs` named `k`. */
  predicate FirstNamed(cs: seq<Candidate>, i: nat, k: string)
    requires i < |cs|
  {
    cs[i].name == k && forall j | 0 <= j < i :: cs[j].name != k
  }

  /** Every name of `cs` is a key, and each key holds the first entry with
      that name. */
  lemma {:induction false} FirstWinsHolds(cs: seq<Candidate>)
    ensures forall i | 0 <= i < |cs| :: cs[i].name in FirstWins(cs)
    ensures forall k | k in FirstWins(cs) :: exists i | 0 <= i < |cs| :: FirstWins(cs)[k] == cs[i] && FirstNamed(cs, i, k)
    decreases |cs|
  {
    if |cs| > 0 {
      var n := |cs| - 1;
      var init := cs[..n];
      var c := cs[n];
      FirstWinsHolds(init);
      PrefixOfSnoc(init, c);
      assert cs == init + [c];
      var m0 := FirstWins(init);
      forall i | 0 <= i < n
        ensures cs[i].name in m0
      {
        assert init[i] == cs[i];
      }
      forall k | k in FirstWins(cs)
        ensures exists i | 0 <= i < |cs| :: FirstWins(cs)[k] == cs[i] && FirstNamed(cs, i, k)
      {
        if k in m0 {
          var i :| 0 <= i < n && m0[k] == init[i] && FirstNamed(init, i, k);
          FirstNamedExtend(cs, i, k);
        } else {
          assert FirstNamed(cs, n, k);
        }
      }
    }
  }

  lemma FirstNamedExtend(cs: seq<Candidate>, i: nat, k: string)
    requires i < |cs| - 1 && FirstNamed(cs[..|cs| - 1], i, k)
    ensures FirstNamed(cs, i, k)
  {
    var init := cs[..|cs| - 1];
    assert forall j | 0 <= j <= i :: init[j] == cs[j];
  }

  /** The modules of one directory are those of its source files, in
      order. */
  lemma {:induction false} FileCandidatesMembers(root: string, top: string, files: seq<string>)
    ensures forall j | 0 <= j < |files| && IsSource(files[j]) :: CandidateOf(root, top, files[j]) in FileCandidates(root, top, files)
    ensures forall c | c in FileCandidates(root, top, files) ::
      exists j | 0 <= j < |files| :: IsSource(files[j]) && c == CandidateOf(root, top, files[j])
    decreases |files|
  {
    if |files| > 0 {
      var n := |files| - 1;
      FileCandidatesMembers(root, top, files[..n]);
      assert forall j | 0 <= j < n :: files[..n][j] == files[j];
    }
  }

  /** File `j` of directory `i` is a source file in a directory the walk
      does not skip. */
  predicate Listed(walk: seq<WalkEntry>, ignoreVenv: bool, i: nat, j: nat)
    requires i < |walk| && j < |walk[i].files|
  {
    !Skipped(walk[i].top, ignoreVenv) && IsSource(walk[i].files[j])
  }

  /** The walk yields a module for every source file in a directory it does
      not skip. */
  lemma {:induction false} CandidatesComplete(root: string, walk: seq<WalkEntry>, ignoreVenv: bool)
    ensures forall i, j | 0 <= i < |walk| && 0 <= j < |walk[i].files| && Listed(walk, ignoreVenv, i, j) ::
      CandidateOf(root, walk[i].top, walk[i].files[j]) in Candidates(root, walk, ignoreVenv)
    decreases |walk|
  {
    if |walk| > 0 {
      var n := |walk| - 1;
      var init := walk[..n];
      var e := walk[n];
      CandidatesComplete(root, init, ignoreVenv);
      FileCandidatesMembers(root, e.top, e.files);
      var a, b := Candidates(root, init, ignoreVenv), DirCandidates(root, e, ignoreVenv);
      forall i, j | 0 <= i < |walk| && 0 <= j < |walk[i].files| && Listed(walk, ignoreVenv, i, j)
        ensures CandidateOf(root, walk[i].top, walk[i].files[j]) in a + b
      {
        if i < n {
          assert init[i] == walk[i];
          assert Listed(init, ignoreVenv, i, j);
        }
      }
    }
  }

  /** Every module the walk yields is that of a source file in a directory
      it does not skip. */
  lemma {:induction false} CandidatesOrigin(root: string, walk: seq<WalkEntry>, ignoreVenv: bool)
    ensures forall c | c in Candidates(root, walk, ignoreVenv) ::
      exists i, j | 0 <= i < |walk| && 0 <= j < |walk[i].files| ::
        Listed(walk, ignoreVenv, i, j) && c == CandidateOf(root, walk[i].top, walk[i].files[j])
    decreases |walk|
  {
    if |walk| > 0 {
      var n := |walk| - 1;
      var init := walk[..n];
      var e := walk[n];
      CandidatesOrigin(root, init, ignoreVenv);
      FileCandidatesMembers(root, e.top, e.files);
      var a, b := Candidates(root, init, ignoreVenv), DirCandidates(root, e, ignoreVenv);
      forall c | c in a + b
        ensures exists i, j | 0 <= i < |walk| && 0 <= j < |walk[i].files| ::
          Listed(walk, ignoreVenv, i, j) && c == CandidateOf(root, walk[i].top, walk[i].files[j])
      {
        if c in a {
          var i, j :| 0 <= i < n && 0 <= j < |init[i].files| && Listed(init, ignoreVenv, i, j) && c == CandidateOf(root, init[i].top, init[i].files[j]);
          assert init[i] == walk[i];
          assert Listed(walk, ignoreVenv, i, j);
        } else {
          var j :| 0 <= j < |e.files| && IsSource(e.files[j]) && c == CandidateOf(root, e.top, e.files[j]);
          assert Listed(walk, ignoreVenv, n, j);
        }
      }
    }
  }

  /** `get_modules_in_dir` yields exactly the names of the source files in
      the directories it does not skip, each for the first such file in
      walk order. */
  lemma ModuleNames(root: string, walk: seq<WalkEntry>, ignoreVenv: bool)
    ensures var fw := FirstWins(Candidates(root, walk, ignoreVenv));
      forall i, j | 0 <= i < |walk| && 0 <= j < |walk[i].files| && Listed(walk, ignoreVenv, i, j) ::
        CandidateOf(root, walk[i].top, walk[i].files[j]).name in fw
    ensures var fw := FirstWins(Candidates(root, walk, ignoreVenv));
      forall k | k in fw :: fw[k].name == k && exists i, j | 0 <= i < |walk| && 0 <= j < |walk[i].files| ::
        Listed(walk, ignoreVenv, i, j) && fw[k] == CandidateOf(root, walk[i].top, walk[i].files[j])
  {
    var cs := Candidates(root, walk, ignoreVenv);
    CandidatesComplete(root, walk, ignoreVenv);
    CandidatesOrigin(root, walk, ignoreVenv);
    FirstWinsHolds(cs);
    var fw := FirstWins(cs);
    forall i, j | 0 <= i < |walk| && 0 <= j < |walk[i].files| && Listed(walk, ignoreVenv, i, j)
      ensures CandidateOf(root, walk[i].top, walk[i].files[j]).name in fw
    {
      var p :| 0 <= p < |cs| && cs[p] == CandidateOf(root, walk[i].top, walk[i].files[j]);
    }
    forall k | k in fw
      ensures fw[k].name == k
      ensures exists i, j | 0 <= i < |walk| && 0 <= j < |walk[i].files| ::
        Listed(walk, ignoreVenv, i, j) && fw[k] == CandidateOf(root, walk[i].top, walk[i].files[j])
    {
      var p :| 0 <= p < |cs| && fw[k] == cs[p] && FirstNamed(cs, p, k);
      assert cs[p] in cs;
    }
  }

  // ---------------------------------------------------------------------
  // The test project.

  /** Source file `x.py` directly in the root is module `x`. */
  lemma RootModuleName(root: string, x: string)
    requires NoChar(x, '/') && !Contains(x, "__init__")
    ensures CandidateOf(root, root, x + ".py").name == x
    ensures IsSource(x + ".py")
  {
    assert Segments([x]);
    DirModNameOfModule(root, [x]);
    AppendAssoc(root + "/", x, ".py");
    assert (x + ".py")[|x|..] == ".py";
  }

  /** Source file `x.py` in directory `dirs` below the root is module
      `dirs` dotted, then `x`. */
  lemma NestedModuleName(root: string, dirs: seq<string>, x: string)
    requires Segments(dirs) && NoChar(x, '/') && !Contains(Join(dirs + [x], '.'), "__init__")
    ensures CandidateOf(root, root + "/" + Join(dirs, '/'), x + ".py").name == Join(dirs + [x], '.')
    ensures IsSource(x + ".py")
  {
    SegmentsSnoc(dirs, x);
    DirModNameOfModule(root, dirs + [x]);
    JoinSnoc(dirs, x, '/');
    PathRegroup(root + "/", Join(dirs, '/'), x, ".py");
    assert (x + ".py")[|x|..] == ".py";
  }

  /** The package file `__init__.py` in directory `dirs` below the root is
      module `dirs` dotted. */
  lemma PackageName(root: string, dirs: seq<string>)
    requires Segments(dirs) && !Contains(Join(dirs, '.'), "__init__")
    ensures CandidateOf(root, root + "/" + Join(dirs, '/'), "__init__.py").name == Join(dirs, '.')
  {
    DirModNameOfPackage(root, dirs);
    JoinSnoc(dirs, "__init__", '/');
    InitFile();
    PathRegroup(root + "/", Join(dirs, '/'), "__init__", ".py");
    assert SourcePath(root, dirs + ["__init__"]) == root + "/" + Join(dirs, '/') + "/" + "__init__.py";
  }

  lemma InitFile()
    ensures "__init__" + ".py" == "__init__.py"
    ensures IsSource("__init__.py")
  {
  }

  lemma PathRegroup(a: string, d: string, x: string, e: string)
    ensures a + (d + ['/'] + x) + e == a + d + "/" + (x + e)
  {
  }

  /** A directory path with no `v` in it is not skipped. */
  lemma NoVNotSkipped(top: string, ignoreVenv: bool)
    requires NoChar(top, 'v')
    ensures !Skipped(top, ignoreVenv)
  {
    MissingCharNotContained(top, "venv", 0);
    MissingCharNotContained(top, "virt", 0);
  }

  /** Joining two paths that are not skipped with `/` gives a path that is
      not skipped: neither word holds a `/`. */
  lemma NotSkippedJoin(a: string, b: string)
    requires !Skipped(a, true) && !Skipped(b, true)
    ensures !Skipped(a + "/" + b, true)
  {
    assert NoChar("venv", '/') && NoChar("virt", '/');
    ContainsJoin(a, b, '/', "venv");
    ContainsJoin(a, b, '/', "virt");
    assert a + "/" + b == a + ['/'] + b;
  }

  /** The source files named `xs`. */
  function Sources(xs: seq<string>): (r: seq<string>)
    ensures |r| == |xs| && forall j | 0 <= j < |xs| :: r[j] == xs[j] + ".py"
  {
    if |xs| == 0 then [] else [xs[0] + ".py"] + Sources(xs[1..])
  }

  /** A project laid out like the test project: the modules `tops` at the
      root, a package `p` holding a package `q` that holds module `c`, and
      a virtual environment. */
  function Layout(root: string, tops: seq<string>, p: string, q: string, c: string, venv: seq<string>): seq<WalkEntry> {
    [ WalkEntry(root, Sources(tops)),
      WalkEntry(root + "/" + p, ["__init__.py"]),
      WalkEntry(root + "/" + p + "/" + q, ["__init__.py", c + ".py"]),
      WalkEntry(root + "/" + "venv", venv) ]
  }

  /** The names a layout must have for its modules to be named as the
      test expects: no directory name that looks like a virtual
      environment, no `/` in a name, no `__init__` in any module name. */
  predicate LayoutNames(root: string, tops: seq<string>, p: string, q: string, c: string) {
    && !Skipped(root, true) && !Skipped(p, true) && !Skipped(q, true)
    && (forall j | 0 <= j < |tops| :: NoChar(tops[j], '/') && !Contains(tops[j], "__init__"))
    && NoChar(p, '/') && NoChar(q, '/') && NoChar(c, '/')
    && !Contains(p, "__init__") && !Contains(p + "." + q, "__init__") && !Contains(p + "." + q + "." + c, "__init__")
  }

  lemma LayoutRootDir(root: string, tops: seq<string>, p: string, q: string, c: string, venv: seq<string>)
    requires LayoutNames(root, tops, p, q, c)
    ensures var w := Layout(root, tops, p, q, c, venv);
      forall j | 0 <= j < |w[0].files| :: Listed(w, true, 0, j) && CandidateOf(root, w[0].top, w[0].files[j]).name == tops[j]
  {
    var w := Layout(root, tops, p, q, c, venv);
    forall j | 0 <= j < |w[0].files|
      ensures Listed(w, true, 0, j) && CandidateOf(root, w[0].top, w[0].files[j]).name == tops[j]
    {
      RootModuleName(root, tops[j]);
    }
  }

  lemma LayoutPackageDir(root: string, tops: seq<string>, p: string, q: string, c: string, venv: seq<string>)
    requires LayoutNames(root, tops, p, q, c)
    ensures var w := Layout(root, tops, p, q, c, venv);
      Listed(w, true, 1, 0) && CandidateOf(root, w[1].top, w[1].files[0]).name == p
  {
    NotSkippedJoin(root, p);
    InitFile();
    assert Join([p], '/') == p && Join([p], '.') == p;
    assert Segments([p]);
    PackageName(root, [p]);
  }

  lemma LayoutInnerDir(root: string, tops: seq<string>, p: string, q: string, c: string, venv: seq<string>)
    requires LayoutNames(root, tops, p, q, c)
    ensures var w := Layout(root, tops, p, q, c, venv);
      && Listed(w, true, 2, 0) && CandidateOf(root, w[2].top, w[2].files[0]).name == p + "." + q
      && Listed(w, true, 2, 1) && CandidateOf(root, w[2].top, w[2].files[1]).name == p + "." + q + "." + c
  {
    NotSkippedJoin(root, p);
    NotSkippedJoin(root + "/" + p, q);
    InitFile();
    var dirs := [p, q];
    assert Join(dirs, '/') == p + "/" + q by {
      assert dirs[1..] == [q];
    }
    assert Join(dirs, '.') == p + "." + q by {
      assert dirs[1..] == [q];
    }
    assert Segments(dirs) by {
      assert NoChar(dirs[0], '/') && NoChar(dirs[1], '/');
    }
    PathRegroup(root + "/", p, q, "");
    assert root + "/" + p + "/" + q == root + "/" + Join(dirs, '/');
    PackageName(root, dirs);
    JoinSnoc(dirs, c, '.');
    assert dirs + [c] == [p, q, c];
    NestedModuleName(root, dirs, c);
  }

  lemma LayoutVenvDir(root: string, tops: seq<string>, p: string, q: string, c: string, venv: seq<string>)
    ensures Skipped(Layout(root, tops, p, q, c, venv)[3].top, true)
  {
    ContainsSuffix(root + "/", "venv");
  }

  lemma UnionRegroup<T>(a: set<T>, x: T, y: T, z: T)
    ensures a + {x} + {y, z} + {} == a + {x, y, z}
  {
  }

  /** The names in `tops`. */
  function TopNames(tops: seq<string>): set<string> {
    set x | x in tops
  }

  /** The module names of a project laid out like the test project. */
  function LayoutModuleNames(tops: seq<string>, p: string, q: string, c: string): set<string> {
    TopNames(tops) + {p, p + "." + q, p + "." + q + "." + c}
  }

  /** The names of the candidates `cs`. */
  function NamesOf(cs: seq<Candidate>): set<string> {
    set c | c in cs :: c.name
  }

  /** The dictionary's names are exactly the names of the candidates. */
  lemma FirstWinsKeys(cs: seq<Candidate>)
    ensures FirstWins(cs).Keys == NamesOf(cs)
  {
    FirstWinsHolds(cs);
    forall k | k in NamesOf(cs) ensures k in FirstWins(cs) {
      var c :| c in cs && c.name == k;
      var i :| 0 <= i < |cs| && cs[i] == c;
    }
  }

  lemma NamesOfAppend(a: seq<Candidate>, b: seq<Candidate>)
    ensures NamesOf(a + b) == NamesOf(a) + NamesOf(b)
  {
    forall k | k in NamesOf(a + b) ensures k in NamesOf(a) + NamesOf(b) {
      var c :| c in a + b && c.name == k;
    }
    forall k | k in NamesOf(a) + NamesOf(b) ensures k in NamesOf(a + b) {
      if k in NamesOf(a) {
        var c :| c in a && c.name == k;
        assert c in a + b;
      } else {
        var c :| c in b && c.name == k;
        assert c in a + b;
      }
    }
  }

  /** Walking two lists of directories one after the other yields the
      modules of the first, then those of the second. */
  lemma {:induction false} CandidatesAppend(root: string, a: seq<WalkEntry>, b: seq<WalkEntry>, ignoreVenv: bool)
    ensures Candidates(root, a + b, ignoreVenv) == Candidates(root, a, ignoreVenv) + Candidates(root, b, ignoreVenv)
    decreases |b|
  {
    if |b| == 0 {
      assert a + b == a;
      var ca := Candidates(root, a, ignoreVenv);
      assert ca + [] == ca;
    } else {
      var n := |b| - 1;
      CandidatesAppend(root, a, b[..n], ignoreVenv);
      SplitLast(a, b);
      var ca, cb, d := Candidates(root, a, ignoreVenv), Candidates(root, b[..n], ignoreVenv), DirCandidates(root, b[n], ignoreVenv);
      assert Candidates(root, a + b, ignoreVenv) == Candidates(root, a + b[..n], ignoreVenv) + d;
      assert Candidates(root, b, ignoreVenv) == cb + d;
      AppendAssoc(ca, cb, d);
    }
  }

  lemma SplitLast<T>(a: seq<T>, b: seq<T>)
    requires |b| > 0
    ensures (a + b)[..|a + b| - 1] == a + b[..|b| - 1]
    ensures (a + b)[|a + b| - 1] == b[|b| - 1]
  {
  }


  lemma CandidatesOne(root: string, e: WalkEntry, ignoreVenv: bool)
    ensures Candidates(root, [e], ignoreVenv) == DirCandidates(root, e, ignoreVenv)
  {
    assert [e][..0] == [];
    assert [] + DirCandidates(root, e, ignoreVenv) == DirCandidates(root, e, ignoreVenv);
  }

  lemma LayoutRootNames(root: string, tops: seq<string>, p: string, q: string, c: string, venv: seq<string>)
    requires LayoutNames(root, tops, p, q, c)
    ensures NamesOf(DirCandidates(root, Layout(root, tops, p, q, c, venv)[0], true)) == TopNames(tops)
  {
    var w := Layout(root, tops, p, q, c, venv);
    var e := w[0];
    LayoutRootDir(root, tops, p, q, c, venv);
    FileCandidatesMembers(root, e.top, e.files);
    var fc := FileCandidates(root, e.top, e.files);
    assert DirCandidates(root, e, true) == fc;
    forall k | k in NamesOf(fc) ensures k in tops {
      var cd :| cd in fc && cd.name == k;
      var j :| 0 <= j < |e.files| && IsSource(e.files[j]) && cd == CandidateOf(root, e.top, e.files[j]);
      assert k == tops[j];
    }
    forall k | k in tops ensures k in NamesOf(fc) {
      var j :| 0 <= j < |tops| && tops[j] == k;
      assert Listed(w, true, 0, j);
      assert CandidateOf(root, e.top, e.files[j]) in fc;
    }
  }

  lemma LayoutPackageNames(root: string, tops: seq<string>, p: string, q: string, c: string, venv: seq<string>)
    requires LayoutNames(root, tops, p, q, c)
    ensures NamesOf(DirCandidates(root, Layout(root, tops, p, q, c, venv)[1], true)) == {p}
  {
    var w := Layout(root, tops, p, q, c, venv);
    var e := w[1];
    LayoutPackageDir(root, tops, p, q, c, venv);
    assert e.files[..0] == [];
    assert FileCandidates(root, e.top, e.files) == [CandidateOf(root, e.top, e.files[0])];
  }

  lemma LayoutInnerNames(root: string, tops: seq<string>, p: string, q: string, c: string, venv: seq<string>)
    requires LayoutNames(root, tops, p, q, c)
    ensures NamesOf(DirCandidates(root, Layout(root, tops, p, q, c, venv)[2], true)) == {p + "." + q, p + "." + q + "." + c}
  {
    var w := Layout(root, tops, p, q, c, venv);
    var e := w[2];
    LayoutInnerDir(root, tops, p, q, c, venv);
    assert e.files[..1] == [e.files[0]] && e.files[..1][..0] == [];
    assert FileCandidates(root, e.top, e.files[..1]) == [CandidateOf(root, e.top, e.files[0])];
    assert FileCandidates(root, e.top, e.files) == [CandidateOf(root, e.top, e.files[0]), CandidateOf(root, e.top, e.files[1])];
  }

  /** A project laid out like the test project yields one module per
      root-level source file, the two packages and the module inside them,
      and nothing from the virtual environment. */
  lemma LayoutModules(root: string, tops: seq<string>, p: string, q: string, c: string, venv: seq<string>)
    requires LayoutNames(root, tops, p, q, c)
    ensures FirstWins(Candidates(root, Layout(root, tops, p, q, c, venv), true)).Keys == LayoutModuleNames(tops, p, q, c)
  {
    var w := Layout(root, tops, p, q, c, venv);
    var d0, d1, d2, d3 := DirCandidates(root, w[0], true), DirCandidates(root, w[1], true), DirCandidates(root, w[2], true), DirCandidates(root, w[3], true);
    assert w == [w[0]] + [w[1]] + [w[2]] + [w[3]];
    CandidatesAppend(root, [w[0]] + [w[1]] + [w[2]], [w[3]], true);
    CandidatesAppend(root, [w[0]] + [w[1]], [w[2]], true);
    CandidatesAppend(root, [w[0]], [w[1]], true);
    CandidatesOne(root, w[0], true);
    CandidatesOne(root, w[1], true);
    CandidatesOne(root, w[2], true);
    CandidatesOne(root, w[3], true);
    LayoutVenvDir(root, tops, p, q, c, venv);
    assert d3 == [];
    var cs := d0 + d1 + d2 + d3;
    assert Candidates(root, w, true) == cs;
    FirstWinsKeys(cs);
    NamesOfAppend(d0 + d1 + d2, d3);
    NamesOfAppend(d0 + d1, d2);
    NamesOfAppend(d0, d1);
    assert NamesOf(cs) == NamesOf(d0) + NamesOf(d1) + NamesOf(d2) + NamesOf(d3);
    LayoutRootNames(root, tops, p, q, c, venv);
    LayoutPackageNames(root, tops, p, q, c, venv);
    LayoutInnerNames(root, tops, p, q, c, venv);
    assert NamesOf(d3) == {};
    var tn := TopNames(tops);
    assert FirstWins(Candidates(root, w, true)).Keys == NamesOf(cs);
    assert NamesOf(cs) == tn + {p} + {p + "." + q, p + "." + q + "." + c} + {};
    UnionRegroup(tn, p, p + "." + q, p + "." + q + "." + c);
  }

  /** The test project: `main`, `module_a`, `module_b`, `module_d` and
      `hello` at the root, `path/__init__.py`, `path/to/__init__.py` and
      `path/to/module_c.py`, and a virtual environment. */
  function ProjectWalk(root: string): seq<WalkEntry> {
    Layout(root, ["main", "module_a", "module_b", "module_d", "hello"], "path", "to", "module_c", ["six.py"])
  }

  /** The names the test of `get_modules_in_dir` expects. */
  function ProjectNames(): set<string> {
    {"main", "module_a", "module_b", "path", "path.to", "path.to.module_c", "module_d", "hello"}
  }

  lemma ProjectDottedNames()
    ensures "path" + "." + "to" == "path.to"
    ensures "path" + "." + "to" + "." + "module_c" == "path.to.module_c"
  {
  }

  /** The names the test project's layout gives are the ones the test
      expects. */
  lemma ProjectLayoutNames()
    ensures LayoutModuleNames(["main", "module_a", "module_b", "module_d", "hello"], "path", "to", "module_c") == ProjectNames()
  {
    assert TopNames(["main", "module_a", "module_b", "module_d", "hello"]) == {"main", "module_a", "module_b", "module_d", "hello"};
    ProjectDottedNames();
  }

  /** The test project's directory names do not look like virtual
      environments, and its names have no `/` and no `__init__`. */
  lemma ProjectLayoutWellFormed(root: string)
    requires !Skipped(root, true)
    ensures LayoutNames(root, ["main", "module_a", "module_b", "module_d", "hello"], "path", "to", "module_c")
  {
    ProjectTopsClean();
    ProjectPackageClean();
  }

  lemma ProjectTopsClean()
    ensures var tops := ["main", "module_a", "module_b", "module_d", "hello"];
      forall j | 0 <= j < |tops| :: NoChar(tops[j], '/') && !Contains(tops[j], "__init__")
  {
    MissingCharNotContained("main", "__init__", 0);
    MissingCharNotContained("module_a", "__init__", 3);
    MissingCharNotContained("module_b", "__init__", 3);
    MissingCharNotContained("module_d", "__init__", 3);
    MissingCharNotContained("hello", "__init__", 0);
  }

  lemma ProjectPackageClean()
    ensures !Skipped("path", true) && !Skipped("to", true)
    ensures NoChar("path", '/') && NoChar("to", '/') && NoChar("module_c", '/')
    ensures !Contains("path", "__init__") && !Contains("path" + "." + "to", "__init__")
    ensures !Contains("path" + "." + "to" + "." + "module_c", "__init__")
  {
    NoVNotSkipped("path", true);
    NoVNotSkipped("to", true);
    MissingCharNotContained("path", "__init__", 0);
    MissingCharNotContained("path" + "." + "to", "__init__", 0);
    MissingCharNotContained("path" + "." + "to" + "." + "module_c", "__init__", 3);
  }

  /** On the test project below any root whose path holds neither `venv`
      nor `virt`, `get_modules_in_dir` yields exactly the names the test
      expects. */
  lemma ProjectModules(root: string)
    requires !Skipped(root, true)
    ensures FirstWins(Candidates(root, ProjectWalk(root), true)).Keys == ProjectNames()
  {
    var tops := ["main", "module_a", "module_b", "module_d", "hello"];
    ProjectLayoutWellFormed(root);
    LayoutModules(root, tops, "path", "to", "module_c", ["six.py"]);
    ProjectLayoutNames();
  }
}
