/** How a source file below the project root gets its dotted module name:
    the name `get_modules_in_dir` computes for every file it finds, and
    `abs_mod_name`, which renames the modules a module finder reports. Paths
    are `/`-separated and already absolute; the root has no trailing `/`. */
module Naming {
  import opened Base
  import opened Text

  /** The path of `modFile` after the root and its `/`, with `/` turned
      into `.` and the last three characters dropped. */
  function Dotted(root: string, modFile: string): string {
    DropLast(ReplaceChar(Drop(modFile, |root| + 1), '/', '.'), 3)
  }

  /** Every `.__init__` removed, when the name holds `__init__` anywhere. */
  function StripInit(name: string): string {
    if Contains(name, "__init__") then ReplaceAll(name, ".__init__", "") else name
  }

  /** The name `get_modules_in_dir` gives `modFile` below `root`. */
  function DirModName(root: string, modFile: string): string {
    StripInit(Dotted(root, modFile))
  }

  /** The path after the root, split at `/`, without its first piece. */
  function RelParts(file: string, root: string): seq<string> {
    Split(Drop(file, |root|), '/')[1..]
  }

  /** The module name of the pieces below the root: the last piece loses
      its last three characters and is dropped when that leaves `__init__`;
      the pieces are joined with `.`. */
  function NameOfParts(parts: seq<string>): string
    requires |parts| >= 1
  {
    var last := DropLast(parts[|parts| - 1], 3);
    var kept := if last == "__init__" then parts[..|parts| - 1] else parts[..|parts| - 1] + [last];
    Join(kept, '.')
  }

  /** `abs_mod_name(file, root)`; a path with no `/` below the root
      raises. */
  function AbsModName(file: string, root: string): Result<string, Fault> {
    var parts := RelParts(file, root);
    if |parts| == 0 then Failure(NoPathBelowRoot(file)) else Success(NameOfParts(parts))
  }

  /** The path of the file for module path `segs` below `root`. */
  function SourcePath(root: string, segs: seq<string>): string {
    root + "/" + Join(segs, '/') + ".py"
  }

  predicate Segments(segs: seq<string>) {
    |segs| >= 1 && forall i | 0 <= i < |segs| :: NoChar(segs[i], '/')
  }

  // ---------------------------------------------------------------------
  // Directory naming.

  /** The dotted form of a path below the root, extension kept. */
  lemma DottedSource(root: string, segs: seq<string>, ext: string)
    requires Segments(segs) && NoChar(ext, '/')
    ensures ReplaceChar(Drop(root + "/" + Join(segs, '/') + ext, |root| + 1), '/', '.') == Join(segs, '.') + ext
  {
    var rel := Join(segs, '/') + ext;
    assert Drop(root + "/" + Join(segs, '/') + ext, |root| + 1) == rel by {
      assert root + "/" + Join(segs, '/') + ext == (root + "/") + rel;
    }
    ReplaceCharConcat(Join(segs, '/'), ext, '/', '.');
    ReplaceCharJoin(segs, '/', '.');
    ReplaceCharAbsent(ext, '/', '.');
  }

  lemma DottedOfSource(root: string, segs: seq<string>)
    requires Segments(segs)
    ensures Dotted(root, SourcePath(root, segs)) == Join(segs, '.')
  {
    assert NoChar(".py", '/');
    DottedSource(root, segs, ".py");
    var x := Join(segs, '.');
    assert DropLast(x + ".py", 3) == x;
  }

  /** A trailing `.__init__` is removed from a name without `__init__`. */
  lemma StripTrailingInit(x: string)
    requires !Contains(x, "__init__")
    ensures StripInit(x + ".__init__") == x
  {
    ContainsTrailingInit(x);
    NoDottedInit(x);
    RemoveTrailingInit(x);
  }

  lemma ContainsTrailingInit(x: string)
    ensures Contains(x + ".__init__", "__init__")
  {
    assert x + ".__init__" == (x + ".") + "__init__";
    ContainsSuffix(x + ".", "__init__");
  }

  lemma NoDottedInit(x: string)
    requires !Contains(x, "__init__")
    ensures !Contains(x, ".__init__")
  {
    if Contains(x, ".__init__") {
      assert ".__init__" == ['.'] + "__init__";
      ContainsTail(x, '.', "__init__");
    }
  }

  /** A module file is named by its path below the root, dotted, when the
      name does not hold `__init__`. */
  lemma DirModNameOfModule(root: string, segs: seq<string>)
    requires Segments(segs) && !Contains(Join(segs, '.'), "__init__")
    ensures DirModName(root, SourcePath(root, segs)) == Join(segs, '.')
  {
    DottedOfSource(root, segs);
  }

  /** A package's `__init__.py` is named by the package's path, dotted. */
  lemma DirModNameOfPackage(root: string, segs: seq<string>)
    requires Segments(segs) && !Contains(Join(segs, '.'), "__init__")
    ensures DirModName(root, SourcePath(root, segs + ["__init__"])) == Join(segs, '.')
  {
    var pkg := segs + ["__init__"];
    var x := Join(segs, '.');
    SegmentsSnoc(segs, "__init__");
    DottedOfSource(root, pkg);
    JoinSnoc(segs, "__init__", '.');
    DotInit(x);
    StripTrailingInit(x);
  }

  lemma DotInit(x: string)
    ensures x + ['.'] + "__init__" == x + ".__init__"
  {
  }

  lemma SegmentsSnoc(segs: seq<string>, x: string)
    requires Segments(segs) && NoChar(x, '/')
    ensures Segments(segs + [x])
  {
    assert forall i | 0 <= i < |segs + [x]| :: (segs + [x])[i] == if i < |segs| then segs[i] else x;
  }

  /** The `__init__.py` of the root itself keeps the name `__init__`. */
  lemma DirModNameOfRootPackage(root: string)
    ensures DirModName(root, root + "/__init__.py") == "__init__"
  {
    DottedRootPackage(root);
    StripInitAlone();
  }

  lemma DottedRootPackage(root: string)
    ensures Dotted(root, root + "/__init__.py") == "__init__"
  {
    assert Drop(root + "/__init__.py", |root| + 1) == "__init__.py" by {
      DropRootPackage(root);
    }
    assert NoChar("__init__.py", '/');
    ReplaceCharAbsent("__init__.py", '/', '.');
    assert DropLast("__init__.py", 3) == "__init__";
  }

  lemma DropRootPackage(root: string)
    ensures Drop(root + "/__init__.py", |root| + 1) == "__init__.py"
  {
    assert root + "/__init__.py" == (root + "/") + "__init__.py";
  }

  lemma StripInitAlone()
    ensures StripInit("__init__") == "__init__"
  {
    assert ReplaceAll("__init__", ".__init__", "") == "__init__";
  }

  // ---------------------------------------------------------------------
  // `abs_mod_name`.

  /** The pieces below the root of the file of module path `segs` are the
      segments, the last one with its `.py`. */
  lemma RelPartsOfSource(root: string, segs: seq<string>)
    requires Segments(segs)
    ensures RelParts(SourcePath(root, segs), root) == ExtendLast(segs, ".py")
  {
    var body := Join(segs, '/');
    var rel := "/" + (body + ".py");
    assert Drop(SourcePath(root, segs), |root|) == rel by {
      assert SourcePath(root, segs) == root + rel;
    }
    assert rel[0] == '/' && rel[1..] == body + ".py";
    SplitSepHead(rel, '/');
    assert NoChar(".py", '/');
    SplitAppend(body, '/', ".py");
    SplitJoin(segs, '/');
  }

  /** The file of module path `segs` is named by the path, dotted; a last
      segment `__init__` (a package) is dropped, so the root's own
      `__init__.py` gets the empty name. */
  lemma AbsModNameOfSource(root: string, segs: seq<string>)
    requires Segments(segs)
    ensures var n := |segs|;
      segs[n - 1] != "__init__" ==> AbsModName(SourcePath(root, segs), root) == Success(Join(segs, '.'))
    ensures var n := |segs|;
      segs[n - 1] == "__init__" ==> AbsModName(SourcePath(root, segs), root) == Success(Join(segs[..n - 1], '.'))
  {
    RelPartsOfSource(root, segs);
    NameOfSegments(segs);
  }

  lemma NameOfSegments(segs: seq<string>)
    requires |segs| >= 1
    ensures var n := |segs|;
      segs[n - 1] != "__init__" ==> NameOfParts(ExtendLast(segs, ".py")) == Join(segs, '.')
    ensures var n := |segs|;
      segs[n - 1] == "__init__" ==> NameOfParts(ExtendLast(segs, ".py")) == Join(segs[..n - 1], '.')
  {
    var n := |segs|;
    if segs[n - 1] == "__init__" {
      NameOfPackageSegments(segs);
    } else {
      NameOfModuleSegments(segs);
    }
  }

  lemma NameOfModuleSegments(segs: seq<string>)
    requires |segs| >= 1 && segs[|segs| - 1] != "__init__"
    ensures NameOfParts(ExtendLast(segs, ".py")) == Join(segs, '.')
  {
    var n := |segs|;
    var parts := ExtendLast(segs, ".py");
    assert DropLast(parts[n - 1], 3) == segs[n - 1] by {
      DropLastAppend(segs[n - 1], ".py");
    }
    assert NameOfParts(parts) == Join(parts[..n - 1] + [segs[n - 1]], '.') by {
      NameOfModuleParts(parts);
    }
    SnocLast(segs);
  }

  lemma NameOfPackageSegments(segs: seq<string>)
    requires |segs| >= 1 && segs[|segs| - 1] == "__init__"
    ensures NameOfParts(ExtendLast(segs, ".py")) == Join(segs[..|segs| - 1], '.')
  {
    var n := |segs|;
    DropLastAppend(segs[n - 1], ".py");
  }

  lemma NameOfModuleParts(parts: seq<string>)
    requires |parts| >= 1 && DropLast(parts[|parts| - 1], 3) != "__init__"
    ensures NameOfParts(parts) == Join(parts[..|parts| - 1] + [DropLast(parts[|parts| - 1], 3)], '.')
  {
  }

  lemma DropLastAppend(s: string, t: string)
    requires |t| > 0
    ensures DropLast(s + t, |t|) == s
  {
    assert (s + t)[..|s|] == s;
  }

  /** `abs_mod_name('/path/to/mod.py', '/path')` is `to.mod`. */
  lemma AbsModNameExample()
    ensures AbsModName("/path/to/mod.py", "/path") == Success("to.mod")
  {
    var segs := ["to", "mod"];
    assert Join(segs, '/') == "to/mod" by {
      assert segs[1..] == ["mod"];
    }
    assert SourcePath("/path", segs) == "/path/to/mod.py";
    assert Segments(segs) by {
      assert NoChar(segs[0], '/') && NoChar(segs[1], '/');
    }
    AbsModNameOfSource("/path", segs);
    assert Join(segs, '.') == "to.mod" by {
      assert segs[1..] == ["mod"];
    }
  }

  /** Both namings agree on a module file below the root when no segment
      holds `/` and the dotted name holds no `__init__`. */
  lemma ModuleNamingsAgree(root: string, segs: seq<string>)
    requires Segments(segs) && !Contains(Join(segs, '.'), "__init__")
    ensures AbsModName(SourcePath(root, segs), root) == Success(DirModName(root, SourcePath(root, segs)))
  {
    DirModNameOfModule(root, segs);
    AbsModNameOfSource(root, segs);
    LastSegmentInName(segs);
  }

  /** The name of a module path ends with its last segment. */
  lemma LastSegmentInName(segs: seq<string>)
    requires |segs| >= 1
    ensures Contains(Join(segs, '.'), segs[|segs| - 1])
  {
    var n := |segs|;
    var pre := if n == 1 then "" else Join(segs[..n - 1], '.') + ".";
    assert Join(segs, '.') == pre + segs[n - 1] by {
      if n > 1 {
        JoinSnoc(segs[..n - 1], segs[n - 1], '.');
        SnocLast(segs);
      }
    }
    ContainsSuffix(pre, segs[n - 1]);
  }

  /** Both namings agree on the `__init__.py` of a package below the root,
      under the same conditions. */
  lemma PackageNamingsAgree(root: string, segs: seq<string>)
    requires Segments(segs) && !Contains(Join(segs, '.'), "__init__")
    ensures var pkg := segs + ["__init__"];
      AbsModName(SourcePath(root, pkg), root) == Success(DirModName(root, SourcePath(root, pkg)))
  {
    var pkg := segs + ["__init__"];
    SegmentsSnoc(segs, "__init__");
    AbsModNameOfSource(root, pkg);
    PrefixOfSnoc(segs, "__init__");
    DirModNameOfPackage(root, segs);
  }

  /** The two namings differ on the root's own `__init__.py`: the directory
      walk names it `__init__`, `abs_mod_name` the empty string. */
  lemma RootPackageNamingsDiffer(root: string)
    ensures DirModName(root, SourcePath(root, ["__init__"])) == "__init__"
    ensures AbsModName(SourcePath(root, ["__init__"]), root) == Success("")
  {
    SourcePathOfRootPackage(root);
    DirModNameOfRootPackage(root);
    AbsModNameOfRootPackage(root);
  }

  lemma SourcePathOfRootPackage(root: string)
    ensures SourcePath(root, ["__init__"]) == root + "/__init__.py"
  {
    assert Join(["__init__"], '/') == "__init__";
  }

  lemma AbsModNameOfRootPackage(root: string)
    ensures AbsModName(SourcePath(root, ["__init__"]), root) == Success("")
  {
    assert Segments(["__init__"]) by {
      assert NoChar(["__init__"][0], '/');
    }
    RelPartsOfSource(root, ["__init__"]);
    assert NameOfParts(ExtendLast(["__init__"], ".py")) == "" by {
      NameOfPackageSegments(["__init__"]);
      assert ["__init__"][..0] == [];
    }
  }

  lemma {:induction false} JoinSnoc(parts: seq<string>, x: string, c: char)
    requires |parts| >= 1
    ensures Join(parts + [x], c) == Join(parts, c) + [c] + x
  {
    if |parts| == 1 {
      assert (parts + [x])[1..] == [x];
    } else {
      assert (parts + [x])[1..] == parts[1..] + [x];
      JoinSnoc(parts[1..], x, c);
    }
  }
}
