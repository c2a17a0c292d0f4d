/** The dependency resolver of `get_fq_immediate_deps`: it folds the
    scanner's events into the map from fully qualified module name to the
    entries imported from it, and `add_immediate_deps_to_modules`, which
    stores that map in every module of the project. */
module Resolver {
  import opened Base
  import opened Bytecode
  import opened Scanner
  import opened Text
  import opened Modules

  /** `target.split('.')[0]`: the text before the first dot. */
  function TopLevel(target: string): (r: string)
    ensures |r| <= |target| && target[..|r|] == r && NoChar(r, '.')
    ensures |r| == |target| || target[|r|] == '.'
  {
    SplitHead(target, '.');
    Split(target, '.')[0]
  }

  /** An absolute import is kept unless its top-level package belongs to
      the standard library and the target is not a project module. */
  predicate Kept(target: string, allMods: set<string>, isStd: string -> bool) {
    !isStd(TopLevel(target)) || target in allMods
  }

  /** `fq_deps[k]` of the defaultdict, read without inserting. */
  function Get(m: DirectImports, k: string): seq<Member> {
    if k in m then m[k] else []
  }

  /** `fq_deps[k].append(x)`. */
  function Push(m: DirectImports, k: string, x: Member): DirectImports {
    m[k := Get(m, k) + [x]]
  }

  /** One name of a kept fromlist: a project submodule `top.n` is recorded
      as a whole-module entry under `top.n`, any other name under `top`. */
  function ImportName(m: DirectImports, top: string, n: string, allMods: set<string>): DirectImports {
    var fq := top + "." + n;
    if fq in allMods then Push(m, fq, WholeModule) else Push(m, top, Named(n))
  }

  /** The loop over the names of a fromlist, in order. */
  function ImportNames(m: DirectImports, top: string, names: seq<string>, allMods: set<string>): DirectImports
    decreases |names|
  {
    if |names| == 0 then m
    else ImportNames(ImportName(m, top, names[0], allMods), top, names[1..], allMods)
  }

  /** One event: stores and relative imports change nothing; a kept absolute
      import with a falsy fromlist records the whole module, then iterates
      the fromlist, which raises unless it is a tuple. */
  function Step(m: DirectImports, e: Event, allMods: set<string>, isStd: string -> bool): Result<DirectImports, Fault> {
    match e
    case AbsImport(fromlist, top) =>
      if !Kept(top, allMods, isStd) then Success(m)
      else
        var m1 := if Truthy(fromlist) then m else Push(m, top, WholeModule);
        if fromlist.CTuple? then Success(ImportNames(m1, top, fromlist.items, allMods))
        else Failure(FromlistNotIterable(top))
    case _ => Success(m)
  }

  /** The events in order; the first exception ends the fold. */
  function Resolve(m: DirectImports, evs: seq<Event>, allMods: set<string>, isStd: string -> bool): Result<DirectImports, Fault>
    decreases |evs|
  {
    if |evs| == 0 then Success(m)
    else
      match Step(m, evs[0], allMods, isStd)
      case Failure(f) => Failure(f)
      case Success(m') => Resolve(m', evs[1..], allMods, isStd)
  }

  /** `get_fq_immediate_deps` for the module in `file`: the compiled code of
      every readable source file is an input. The scanner is a generator, so
      every event it yields is folded before the exception that stopped it
      surfaces. */
  function ImmediateDeps(allMods: set<string>, isStd: string -> bool, sources: map<string, CodeObject>,
                         version: int, t: OpTable, file: string): Result<DirectImports, Fault>
  {
    if file !in sources then Failure(ModuleUnreadable(file))
    else
      var s := ScanOpcodes(sources[file], version, t);
      match Resolve(map[], s.events, allMods, isStd)
      case Failure(f) => Failure(f)
      case Success(m) => if s.stop.Some? then Failure(s.stop.value) else Success(m)
  }

  /** The defaultdict filled in place, one event and one name at a time. */
  method GetFqImmediateDeps(allMods: set<string>, isStd: string -> bool, sources: map<string, CodeObject>,
                            version: int, t: OpTable, file: string)
    returns (r: Result<DirectImports, Fault>)
    ensures r == ImmediateDeps(allMods, isStd, sources, version, t, file)
  {
    if file !in sources {
      return Failure(ModuleUnreadable(file));
    }
    var scanned := ScanOpcodes(sources[file], version, t);
    var evs := scanned.events;
    var fqDeps: DirectImports := map[];
    for j := 0 to |evs|
      invariant Resolve(map[], evs, allMods, isStd) == Resolve(fqDeps, evs[j..], allMods, isStd)
    {
      var e := evs[j];
      assert evs[j..][0] == e && evs[j..][1..] == evs[j + 1..];
      if e.AbsImport? {
        var top := e.target;
        if !isStd(TopLevel(top)) || top in allMods {
          if !Truthy(e.fromlist) {
            fqDeps := fqDeps[top := Get(fqDeps, top) + [WholeModule]];
          }
          if !e.fromlist.CTuple? {
            return Failure(FromlistNotIterable(top));
          }
          var names := e.fromlist.items;
          ghost var m1 := fqDeps;
          for k := 0 to |names|
            invariant ImportNames(m1, top, names, allMods) == ImportNames(fqDeps, top, names[k..], allMods)
          {
            assert names[k..][0] == names[k] && names[k..][1..] == names[k + 1..];
            var fq := top + "." + names[k];
            if fq in allMods {
              fqDeps := fqDeps[fq := Get(fqDeps, fq) + [WholeModule]];
            } else {
              fqDeps := fqDeps[top := Get(fqDeps, top) + [Named(names[k])]];
            }
          }
          assert names[|names|..] == [];
        }
      }
    }
    assert evs[|evs|..] == [];
    if scanned.stop.Some? {
      return Failure(scanned.stop.value);
    }
    return Success(fqDeps);
  }

  // ---------------------------------------------------------------------
  // A reference definition, key by key: what each event appends under a
  // given key.

  /** What importing `n` from `top` appends under `k`. */
  function NameShare(top: string, n: string, k: string, allMods: set<string>): seq<Member> {
    var fq := top + "." + n;
    if fq in allMods then (if k == fq then [WholeModule] else [])
    else (if k == top then [Named(n)] else [])
  }

  function NamesShare(top: string, names: seq<string>, k: string, allMods: set<string>): seq<Member>
    decreases |names|
  {
    if |names| == 0 then [] else NameShare(top, names[0], k, allMods) + NamesShare(top, names[1..], k, allMods)
  }

  /** What one event appends under `k` when the fold goes past it. */
  function EventShare(e: Event, k: string, allMods: set<string>, isStd: string -> bool): seq<Member> {
    if e.AbsImport? && e.fromlist.CTuple? && Kept(e.target, allMods, isStd) then
      (if |e.fromlist.items| == 0 && k == e.target then [WholeModule] else [])
        + NamesShare(e.target, e.fromlist.items, k, allMods)
    else []
  }

  function Shares(evs: seq<Event>, k: string, allMods: set<string>, isStd: string -> bool): seq<Member>
    decreases |evs|
  {
    if |evs| == 0 then [] else EventShare(evs[0], k, allMods, isStd) + Shares(evs[1..], k, allMods, isStd)
  }

  /** The events that raise: a kept absolute import whose fromlist is not a
      tuple. */
  predicate Raises(e: Event, allMods: set<string>, isStd: string -> bool) {
    e.AbsImport? && Kept(e.target, allMods, isStd) && !e.fromlist.CTuple?
  }

  /** The events the fold acts on. */
  predicate Relevant(e: Event, allMods: set<string>, isStd: string -> bool) {
    e.AbsImport? && Kept(e.target, allMods, isStd)
  }

  /** The relevant events, in order: exactly the events of `evs` the fold
      acts on. */
  function RelevantOnly(evs: seq<Event>, allMods: set<string>, isStd: string -> bool): (r: seq<Event>)
    ensures forall e | e in r :: e in evs && Relevant(e, allMods, isStd)
    ensures forall e | e in evs && Relevant(e, allMods, isStd) :: e in r
    decreases |evs|
  {
    if |evs| == 0 then []
    else (if Relevant(evs[0], allMods, isStd) then [evs[0]] else []) + RelevantOnly(evs[1..], allMods, isStd)
  }

  // ---------------------------------------------------------------------
  // Properties of the fold.

  /** The fromlist loop appends, under every key, exactly the reference
      entries, and creates a key only when it appends under it. */
  lemma {:induction false} ImportNamesAt(m: DirectImports, top: string, names: seq<string>, allMods: set<string>, k: string)
    ensures Get(ImportNames(m, top, names, allMods), k) == Get(m, k) + NamesShare(top, names, k, allMods)
    ensures k in ImportNames(m, top, names, allMods) <==> k in m || NamesShare(top, names, k, allMods) != []
    decreases |names|
  {
    if |names| > 0 {
      var m1 := ImportName(m, top, names[0], allMods);
      ImportNamesAt(m1, top, names[1..], allMods, k);
      ImportNameAt(m, top, names[0], allMods, k);
      var head := NameShare(top, names[0], k, allMods);
      var tail := NamesShare(top, names[1..], k, allMods);
      assert NamesShare(top, names, k, allMods) == head + tail;
      AppendAssoc(Get(m, k), head, tail);
    }
  }

  lemma ImportNameAt(m: DirectImports, top: string, n: string, allMods: set<string>, k: string)
    ensures Get(ImportName(m, top, n, allMods), k) == Get(m, k) + NameShare(top, n, k, allMods)
    ensures k in ImportName(m, top, n, allMods) <==> k in m || NameShare(top, n, k, allMods) != []
  {
  }

  /** One step of the fold appends under `k` what the reference definition
      says the event contributes. */
  lemma StepAt(m: DirectImports, e: Event, allMods: set<string>, isStd: string -> bool, k: string)
    requires Step(m, e, allMods, isStd).Success?
    ensures Get(Step(m, e, allMods, isStd).value, k) == Get(m, k) + EventShare(e, k, allMods, isStd)
    ensures k in Step(m, e, allMods, isStd).value <==> k in m || EventShare(e, k, allMods, isStd) != []
  {
    if e.AbsImport? && Kept(e.target, allMods, isStd) {
      var items := e.fromlist.items;
      var m0 := if Truthy(e.fromlist) then m else Push(m, e.target, WholeModule);
      var own: seq<Member> := if |items| == 0 && k == e.target then [WholeModule] else [];
      assert Get(m0, k) == Get(m, k) + own;
      assert k in m0 <==> k in m || own != [];
      ImportNamesAt(m0, e.target, items, allMods, k);
      AppendAssoc(Get(m, k), own, NamesShare(e.target, items, k, allMods));
    } else {
      assert EventShare(e, k, allMods, isStd) == [];
      assert Get(m, k) + [] == Get(m, k);
    }
  }

  /** The fold appends, under every key and in event order, exactly what the
      reference definition says each event contributes; a key exists exactly
      when something was appended under it. */
  lemma {:induction false} ResolveAt(m: DirectImports, evs: seq<Event>, allMods: set<string>, isStd: string -> bool, k: string)
    requires Resolve(m, evs, allMods, isStd).Success?
    ensures Get(Resolve(m, evs, allMods, isStd).value, k) == Get(m, k) + Shares(evs, k, allMods, isStd)
    ensures k in Resolve(m, evs, allMods, isStd).value <==> k in m || Shares(evs, k, allMods, isStd) != []
    decreases |evs|
  {
    if |evs| == 0 {
      assert Get(m, k) + [] == Get(m, k);
    } else {
      var e := evs[0];
      var m1 := Step(m, e, allMods, isStd).value;
      StepAt(m, e, allMods, isStd, k);
      ResolveAt(m1, evs[1..], allMods, isStd, k);
      var head := EventShare(e, k, allMods, isStd);
      var tail := Shares(evs[1..], k, allMods, isStd);
      AppendAssoc(Get(m, k), head, tail);
    }
  }

  /** The fold raises exactly when some event raises, and then it raises the
      exception of the first such event. */
  lemma {:induction false} ResolveFailure(m: DirectImports, evs: seq<Event>, allMods: set<string>, isStd: string -> bool)
    ensures Resolve(m, evs, allMods, isStd).Failure? <==> exists i :: 0 <= i < |evs| && Raises(evs[i], allMods, isStd)
    ensures Resolve(m, evs, allMods, isStd).Failure? ==>
      exists i :: (&& 0 <= i < |evs| && Raises(evs[i], allMods, isStd)
                   && Resolve(m, evs, allMods, isStd).error == FromlistNotIterable(evs[i].target)
                   && forall j | 0 <= j < i :: !Raises(evs[j], allMods, isStd))
    decreases |evs|
  {
    if |evs| > 0 {
      var e := evs[0];
      if !Raises(e, allMods, isStd) {
        var m1 := Step(m, e, allMods, isStd).value;
        ResolveFailure(m1, evs[1..], allMods, isStd);
        if Resolve(m, evs, allMods, isStd).Failure? {
          var i :| (&& 0 <= i < |evs[1..]| && Raises(evs[1..][i], allMods, isStd)
                    && Resolve(m1, evs[1..], allMods, isStd).error == FromlistNotIterable(evs[1..][i].target)
                    && forall j | 0 <= j < i :: !Raises(evs[1..][j], allMods, isStd));
          assert forall j | 1 <= j < i + 1 :: evs[j] == evs[1..][j - 1];
        }
        if exists i :: 0 <= i < |evs| && Raises(evs[i], allMods, isStd) {
          var i :| 0 <= i < |evs| && Raises(evs[i], allMods, isStd);
          assert evs[1..][i - 1] == evs[i];
        }
      }
    }
  }

  /** Stores, relative imports and discarded standard-library imports leave
      the result unchanged: only the kept absolute imports matter. */
  lemma {:induction false} OnlyKeptImportsMatter(m: DirectImports, evs: seq<Event>, allMods: set<string>, isStd: string -> bool)
    ensures Resolve(m, evs, allMods, isStd) == Resolve(m, RelevantOnly(evs, allMods, isStd), allMods, isStd)
    decreases |evs|
  {
    if |evs| > 0 {
      var e := evs[0];
      var rest := RelevantOnly(evs[1..], allMods, isStd);
      if Relevant(e, allMods, isStd) {
        assert RelevantOnly(evs, allMods, isStd) == [e] + rest;
        assert ([e] + rest)[1..] == rest;
        if Step(m, e, allMods, isStd).Success? {
          OnlyKeptImportsMatter(Step(m, e, allMods, isStd).value, evs[1..], allMods, isStd);
        }
      } else {
        assert RelevantOnly(evs, allMods, isStd) == rest;
        OnlyKeptImportsMatter(m, evs[1..], allMods, isStd);
      }
    }
  }

  /** An entry is appended under `k` by an event exactly when the event is a
      kept absolute import with a tuple fromlist and either the entry records
      a whole module (the target itself with an empty fromlist, or a project
      module `target.n` for a listed `n`) or it is a listed name `n` under the
      target with `target.n` not a project module. */
  lemma EventShareMembers(e: Event, k: string, allMods: set<string>, isStd: string -> bool, x: Member)
    ensures x in EventShare(e, k, allMods, isStd) <==>
      (&& e.AbsImport? && e.fromlist.CTuple? && Kept(e.target, allMods, isStd)
       && ((x == WholeModule && ((k == e.target && |e.fromlist.items| == 0)
                                 || (k in allMods && exists n | n in e.fromlist.items :: e.target + "." + n == k)))
           || (x.Named? && k == e.target && x.name in e.fromlist.items && e.target + "." + x.name !in allMods)))
  {
    if e.AbsImport? && e.fromlist.CTuple? && Kept(e.target, allMods, isStd) {
      NamesShareMembers(e.target, e.fromlist.items, k, allMods, x);
    }
  }

  lemma {:induction false} NamesShareMembers(top: string, names: seq<string>, k: string, allMods: set<string>, x: Member)
    ensures x in NamesShare(top, names, k, allMods) <==>
      ((x == WholeModule && k in allMods && exists n | n in names :: top + "." + n == k)
       || (x.Named? && k == top && x.name in names && top + "." + x.name !in allMods))
    decreases |names|
  {
    if |names| > 0 {
      NamesShareMembers(top, names[1..], k, allMods, x);
      assert forall n | n in names :: n == names[0] || n in names[1..];
    }
  }

  lemma {:induction false} SharesMembers(evs: seq<Event>, k: string, allMods: set<string>, isStd: string -> bool, x: Member)
    ensures x in Shares(evs, k, allMods, isStd) <==> exists e | e in evs :: x in EventShare(e, k, allMods, isStd)
    decreases |evs|
  {
    if |evs| > 0 {
      SharesMembers(evs[1..], k, allMods, isStd, x);
      assert forall e | e in evs :: e == evs[0] || e in evs[1..];
    }
  }

  /** A kept absolute import with an empty fromlist records its target as a
      whole module. */
  lemma WholeModuleForEmptyFromlist(evs: seq<Event>, allMods: set<string>, isStd: string -> bool, top: string)
    requires Resolve(map[], evs, allMods, isStd).Success?
    requires AbsImport(CTuple([]), top) in evs && Kept(top, allMods, isStd)
    ensures top in Resolve(map[], evs, allMods, isStd).value
    ensures WholeModule in Resolve(map[], evs, allMods, isStd).value[top]
  {
    ResolveAt(map[], evs, allMods, isStd, top);
    EventShareMembers(AbsImport(CTuple([]), top), top, allMods, isStd, WholeModule);
    SharesMembers(evs, top, allMods, isStd, WholeModule);
  }

  /** A name `n` imported from `top` where `top.n` is a project module is
      recorded under `top.n` and never as a name under `top`. */
  lemma ProjectSubmoduleImport(evs: seq<Event>, allMods: set<string>, isStd: string -> bool, top: string, names: seq<string>, n: string)
    requires Resolve(map[], evs, allMods, isStd).Success?
    requires AbsImport(CTuple(names), top) in evs && Kept(top, allMods, isStd)
    requires n in names && top + "." + n in allMods
    ensures var r := Resolve(map[], evs, allMods, isStd).value;
      top + "." + n in r && WholeModule in r[top + "." + n] && Named(n) !in Get(r, top)
  {
    var fq := top + "." + n;
    ResolveAt(map[], evs, allMods, isStd, fq);
    EventShareMembers(AbsImport(CTuple(names), top), fq, allMods, isStd, WholeModule);
    SharesMembers(evs, fq, allMods, isStd, WholeModule);
    ResolveAt(map[], evs, allMods, isStd, top);
    SharesMembers(evs, top, allMods, isStd, Named(n));
    forall e | e in evs ensures Named(n) !in EventShare(e, top, allMods, isStd) {
      EventShareMembers(e, top, allMods, isStd, Named(n));
    }
  }

  /** Every name entry under `k` comes from a kept import of `k` that lists
      the name, and the name is not a project submodule of `k`. */
  lemma NamedEntryOrigin(evs: seq<Event>, allMods: set<string>, isStd: string -> bool, k: string, n: string)
    requires Resolve(map[], evs, allMods, isStd).Success?
    requires Named(n) in Get(Resolve(map[], evs, allMods, isStd).value, k)
    ensures k + "." + n !in allMods
    ensures exists names :: AbsImport(CTuple(names), k) in evs && Kept(k, allMods, isStd) && n in names
  {
    ResolveAt(map[], evs, allMods, isStd, k);
    SharesMembers(evs, k, allMods, isStd, Named(n));
    var e :| e in evs && Named(n) in EventShare(e, k, allMods, isStd);
    EventShareMembers(e, k, allMods, isStd, Named(n));
    assert e == AbsImport(CTuple(e.fromlist.items), k);
  }

  /** Every key of the result is the target of a kept absolute import or a
      project module. */
  lemma ResultKeys(evs: seq<Event>, allMods: set<string>, isStd: string -> bool, k: string)
    requires Resolve(map[], evs, allMods, isStd).Success?
    requires k in Resolve(map[], evs, allMods, isStd).value
    ensures k in allMods || exists e | e in evs :: Relevant(e, allMods, isStd) && e.target == k
  {
    ResolveAt(map[], evs, allMods, isStd, k);
    var x := Shares(evs, k, allMods, isStd)[0];
    SharesMembers(evs, k, allMods, isStd, x);
    var e :| e in evs && x in EventShare(e, k, allMods, isStd);
    EventShareMembers(e, k, allMods, isStd, x);
  }

  /** A standard-library import of a module outside the project leaves no
      key of its own, unless another kept import or a project module put it
      there. */
  lemma StdlibImportDiscarded(evs: seq<Event>, allMods: set<string>, isStd: string -> bool, top: string)
    requires Resolve(map[], evs, allMods, isStd).Success?
    requires isStd(TopLevel(top)) && top !in allMods
    ensures top !in Resolve(map[], evs, allMods, isStd).value
  {
    if top in Resolve(map[], evs, allMods, isStd).value {
      ResultKeys(evs, allMods, isStd, top);
    }
  }

  // ---------------------------------------------------------------------
  // The test project's `main.py`.

  /** The top-level package of `a.b` is `a` when `a` has no dot. */
  lemma TopLevelOfDotted(a: string, b: string)
    requires NoChar(a, '.')
    ensures TopLevel(a + "." + b) == a
  {
    SplitAround(a, '.', b);
    SplitNoSep(a, '.');
    assert a + "." + b == a + ['.'] + b;
  }

  /** A name without a dot is its own top-level package. */
  lemma TopLevelOfUndotted(a: string)
    requires NoChar(a, '.')
    ensures TopLevel(a) == a
  {
    SplitNoSep(a, '.');
  }

  /** A module that stores its docstring, imports a discarded module `s`,
      imports the name `n` from a kept module `target` of which `n` is not
      a submodule, and defines a function `f`, depends on `target` alone,
      for the name `n`. */
  lemma OneNamedDependency(doc: string, s: string, n: string, target: string, f: string,
                           allMods: set<string>, isStd: string -> bool)
    requires !Kept(s, allMods, isStd)
    requires Kept(target, allMods, isStd) && target + "." + n !in allMods
    ensures Resolve(map[], [Store(doc), AbsImport(CTuple([]), s), Store(s),
                            AbsImport(CTuple([n]), target), Store(n), Store(f)], allMods, isStd)
            == Success(map[target := [Named(n)]])
  {
    var m := map[target := [Named(n)]];
    var imp := AbsImport(CTuple([n]), target);
    var tail := [Store(n), Store(f)];
    ImportOneName(target, n, allMods, isStd);
    StoresKeep(m, tail, allMods, isStd);
    ResolveCons(map[], imp, tail, allMods, isStd);
    ResolveCons(map[], Store(s), [imp] + tail, allMods, isStd);
    ResolveCons(map[], AbsImport(CTuple([]), s), [Store(s)] + ([imp] + tail), allMods, isStd);
    ResolveCons(map[], Store(doc), [AbsImport(CTuple([]), s)] + ([Store(s)] + ([imp] + tail)), allMods, isStd);
    assert [Store(doc), AbsImport(CTuple([]), s), Store(s), imp, Store(n), Store(f)]
        == [Store(doc)] + ([AbsImport(CTuple([]), s)] + ([Store(s)] + ([imp] + tail)));
  }

  /** A kept `from target import n` into an empty dictionary, where `n` is
      not a project submodule, records `n` under `target`. */
  lemma ImportOneName(target: string, n: string, allMods: set<string>, isStd: string -> bool)
    requires Kept(target, allMods, isStd) && target + "." + n !in allMods
    ensures Step(map[], AbsImport(CTuple([n]), target), allMods, isStd) == Success(map[target := [Named(n)]])
  {
    var m1 := ImportName(map[], target, n, allMods);
    assert m1 == map[target := [Named(n)]] by {
      assert Get(map[], target) + [Named(n)] == [Named(n)];
    }
    assert ImportNames(map[], target, [n], allMods) == ImportNames(m1, target, [], allMods) by {
      assert [n][0] == n && [n][1..] == [];
    }
  }

  /** The fold over `[e] + rest` is the fold over `rest` after `e`. */
  lemma ResolveCons(m: DirectImports, e: Event, rest: seq<Event>, allMods: set<string>, isStd: string -> bool)
    requires Step(m, e, allMods, isStd).Success?
    ensures Resolve(m, [e] + rest, allMods, isStd) == Resolve(Step(m, e, allMods, isStd).value, rest, allMods, isStd)
  {
    assert ([e] + rest)[1..] == rest;
  }

  /** Stores change nothing. */
  lemma {:induction false} StoresKeep(m: DirectImports, evs: seq<Event>, allMods: set<string>, isStd: string -> bool)
    requires forall i | 0 <= i < |evs| :: evs[i].Store?
    ensures Resolve(m, evs, allMods, isStd) == Success(m)
    decreases |evs|
  {
    if |evs| > 0 {
      StoresKeep(m, evs[1..], allMods, isStd);
    }
  }

  /** The events the scanner reports for the test project's `main.py`: the
      docstring, `import sys`, `from path.to.module_c import MyClass` and
      the function `main`. */
  function MainEvents(): seq<Event> {
    [Store("__doc__"), AbsImport(CTuple([]), "sys"), Store("sys"),
     AbsImport(CTuple(["MyClass"]), "path.to.module_c"), Store("MyClass"), Store("main")]
  }

  /** With `sys` in the standard library and `path` not, `main.py` depends
      only on `path.to.module_c`, from which it imports the name `MyClass`. */
  lemma MainDependencies(allMods: set<string>, isStd: string -> bool)
    requires isStd("sys") && !isStd("path")
    requires "sys" !in allMods && "path.to.module_c.MyClass" !in allMods
    ensures Resolve(map[], MainEvents(), allMods, isStd) == Success(map["path.to.module_c" := [Named("MyClass")]])
  {
    MainNames();
    TopLevelOfUndotted("sys");
    TopLevelOfDotted("path", "to.module_c");
    OneNamedDependency("__doc__", "sys", "MyClass", "path.to.module_c", "main", allMods, isStd);
  }

  lemma MainNames()
    ensures NoChar("sys", '.') && NoChar("path", '.')
    ensures "path" + "." + "to.module_c" == "path.to.module_c"
    ensures "path.to.module_c" + "." + "MyClass" == "path.to.module_c.MyClass"
  {
  }

  // ---------------------------------------------------------------------
  // `add_immediate_deps_to_modules`.

  /** What `get_fq_immediate_deps` returns for module `name` of `modDict`. */
  function DepsOf(modDict: map<string, Module>, name: string, isStd: string -> bool,
                  sources: map<string, CodeObject>, version: int, t: OpTable): Result<DirectImports, Fault>
    requires name in modDict
  {
    ImmediateDeps(modDict.Keys, isStd, sources, version, t, modDict[name].file)
  }

  /** Module `j` holds its resolved direct imports. */
  predicate HoldsDeps(modDict: map<string, Module>, j: string, isStd: string -> bool,
                      sources: map<string, CodeObject>, version: int, t: OpTable)
    reads if j in modDict then {modDict[j]} else {}
  {
    j in modDict && DepsOf(modDict, j, isStd, sources, version, t) == Success(modDict[j].directImports)
  }

  /** Module `j` is not the same object as any module whose name sorts
      before `k`. */
  predicate Unshared(modDict: map<string, Module>, j: string, k: string)
    requires j in modDict
  {
    forall i | i in modDict && StrLess(i, k) :: modDict[i] != modDict[j]
  }

  /** Module `j` is not the same object as any of the first `n` modules in
      `order`. */
  predicate UnsharedPrefix(modDict: map<string, Module>, order: seq<string>, n: nat, j: string)
    requires j in modDict && n <= |order|
  {
    forall p | 0 <= p < n && order[p] in modDict :: modDict[order[p]] != modDict[j]
  }

  /** `sorted(names)`: the names in increasing order, each once. */
  method SortNames(names: set<string>) returns (order: seq<string>)
    ensures |order| == |names| && forall x :: x in order <==> x in names
    ensures forall p, q | 0 <= p < q < |order| :: StrLess(order[p], order[q])
  {
    order := [];
    var todo := names;
    while todo != {}
      invariant todo !! set x | x in order
      invariant forall x :: x in names <==> x in todo || x in order
      invariant |order| + |todo| == |names|
      invariant forall p, q | 0 <= p < q < |order| :: StrLess(order[p], order[q])
      invariant forall p, u | 0 <= p < |order| && u in todo :: StrLess(order[p], u)
      decreases |todo|
    {
      LeastExists(todo);
      var x :| IsLeast(x, todo);
      forall u | u in todo - {x} ensures StrLess(x, u) {
        StrLessTotal(x, u);
      }
      order := order + [x];
      todo := todo - {x};
    }
  }

  /** In increasing order, the names before position `i` are exactly the
      names less than the one at `i`. */
  lemma SortedPrefix(order: seq<string>, i: nat, j: string)
    requires i < |order|
    requires forall p, q | 0 <= p < q < |order| :: StrLess(order[p], order[q])
    requires j in order
    ensures StrLess(j, order[i]) <==> j in order[..i]
  {
    var p :| 0 <= p < |order| && order[p] == j;
    StrLessIrreflexive(j);
    if p > i && StrLess(j, order[i]) {
      StrLessTransitive(j, order[i], j);
    }
  }

  /** The modules are visited in sorted name order, and each one's
      `direct_imports` is replaced by its resolved map. The first module
      whose resolution raises stops the walk: the modules before it in
      sorted order hold their new maps, the rest keep their old ones
      (unless they share their object with a module already visited). */
  method AddImmediateDepsToModules(modDict: map<string, Module>, isStd: string -> bool,
                                   sources: map<string, CodeObject>, version: int, t: OpTable)
    returns (fault: Option<Fault>)
    modifies modDict.Values
    ensures fault.None? ==> forall k | k in modDict :: HoldsDeps(modDict, k, isStd, sources, version, t)
    ensures fault.Some? ==> exists k :: (
      && k in modDict
      && DepsOf(modDict, k, isStd, sources, version, t) == Failure(fault.value)
      && (forall j | j in modDict && StrLess(j, k) :: HoldsDeps(modDict, j, isStd, sources, version, t))
      && (forall j | j in modDict && !StrLess(j, k) && Unshared(modDict, j, k) ::
            modDict[j].directImports == old(modDict[j].directImports)))
  {
    var order := SortNames(modDict.Keys);
    for i := 0 to |order|
      invariant forall p | 0 <= p < i :: HoldsDeps(modDict, order[p], isStd, sources, version, t)
      invariant forall j | j in modDict && UnsharedPrefix(modDict, order, i, j) ::
        modDict[j].directImports == old(modDict[j].directImports)
    {
      var name := order[i];
      var m := modDict[name];
      var r := GetFqImmediateDeps(modDict.Keys, isStd, sources, version, t, m.file);
      if r.Failure? {
        forall j | j in modDict && StrLess(j, name) ensures HoldsDeps(modDict, j, isStd, sources, version, t) {
          SortedPrefix(order, i, j);
          var p :| 0 <= p < i && order[p] == j;
        }
        forall j | j in modDict && Unshared(modDict, j, name) ensures UnsharedPrefix(modDict, order, i, j) {
          forall p | 0 <= p < i ensures modDict[order[p]] != modDict[j] {
            assert StrLess(order[p], name);
          }
        }
        return Some(r.error);
      }
      label Before:
      m.directImports := r.value;
      assert forall p | 0 <= p < i + 1 :: HoldsDeps(modDict, order[p], isStd, sources, version, t) by {
        forall p | 0 <= p < i + 1 ensures HoldsDeps(modDict, order[p], isStd, sources, version, t) {
          if p < i && modDict[order[p]] != m {
            assert old@Before(HoldsDeps(modDict, order[p], isStd, sources, version, t));
          }
        }
      }
      assert forall j | j in modDict && UnsharedPrefix(modDict, order, i + 1, j) ::
               modDict[j].directImports == old(modDict[j].directImports) by {
        forall j | j in modDict && UnsharedPrefix(modDict, order, i + 1, j)
          ensures modDict[j].directImports == old(modDict[j].directImports)
        {
          assert UnsharedPrefix(modDict, order, i, j);
          assert modDict[order[i]] != modDict[j];
        }
      }
    }
    return None;
  }
}
