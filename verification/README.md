# import-visualizer, modelled in Dafny

A model of the dependency engine of import-visualizer (`src/vis.py`). That
tool draws the import graph of a Python project. It does four things:

- It finds the project's modules, either by walking the root directory or by
  taking what a module finder reports for a script.
- It decodes each module's compiled bytecode and scans it for import
  instructions.
- It resolves those imports into fully qualified module names.
- It turns the result into a directed graph whose vendor (third-party)
  modules are coloured blue.

The project has these modules:

| module | file | models |
|---|---|---|
| `Base` | `base.dfy` | `Option`, `Result`, the exceptions the code can raise (`Fault`), bytes, Python's `\|` on integers |
| `Text` | `text.dfy` | the string operations the code uses: slicing, `in`, `split`, `join`, `replace` |
| `Bytecode` | `bytecode.dfy` | `_unpack_opargs`, for both the Python 3 and the Python 2 encodings |
| `Scanner` | `scanner.dfy` | `scan_opcodes` |
| `Assembler` | `assembler.dfy` | an encoder and an assembler, the inverses the decoder and the scanner are proved against |
| `Modules` | `modules.dfy` | the `Module` class and its `direct_imports` |
| `Naming` | `naming.dfy` | the dotted name `get_modules_in_dir` gives a file, and `abs_mod_name` |
| `Finder` | `finder.dfy` | the filtering and renaming in `get_modules_from_file` |
| `Discovery` | `discovery.dfy` | `get_modules_in_dir`, and the test project of `src/test_vis.py` |
| `Resolver` | `resolver.dfy` | `get_fq_immediate_deps` and `add_immediate_deps_to_modules` |
| `Graph` | `graph.dfy` | `mod_dict_to_dag`, with the digraph object it fills |

Loops that update variables or objects are methods with loop invariants:

- the two decoder loops;
- the `defaultdict` fill of `get_fq_immediate_deps`;
- the directory walk;
- the sorted walk over the modules;
- the two loops that draw the graph.

Each of these methods is proved equal to a recursive definition, or proved to
keep an invariant. The properties are then proved about those definitions.

Opcode numbers are a parameter (`Bytecode.OpTable`), because the code reads
them from `dis`. `Bytecode.CPython3` gives the CPython 3.6–3.10 values as an
example. The standard-library test `is_std_lib_module` is an oracle
parameter `isStd`. The interpreter's major version is the parameter
`version`.

Behaviours of the code worth noting:

- The first exception raised while resolving a module stops
  `add_immediate_deps_to_modules` for every later module
  (`Resolver.AddImmediateDepsToModules`).
- The Python 2 decoder reads a single argument byte after the opcode
  (`Bytecode.Py2At`).
- It reports the offset just after each instruction.
- The directory walk removes every `.__init__` from a name that contains
  `__init__` anywhere.
- It names the root's own `__init__.py` `__init__`, while `abs_mod_name`
  names it the empty string (`Naming.RootPackageNamingsDiffer`).

## Model

| member | source | states |
|---|---|---|
| Base.ByteOrShifted | src/vis.py:139 | OR-ing an argument byte into a multiple of 256 (the shifted accumulator) is addition |
| Base.BitOrDisjoint | src/vis.py:139 | `a \| b` is `a + b` when `a < 2^n` and `b` is a multiple of `2^n` |
| Bytecode.Py3Decode | src/vis.py:135-143 | the reference Python 3 decoding: triples at even offsets, with the `extended_arg` accumulator and the IndexError for a missing argument byte. Its properties are stated by `Py3DecodeOutcome`, `Py3DecodeAt`, `Py3Argument` and `Assembler.DecodeEncode` |
| Bytecode.Py2Decode | src/vis.py:145-154 | the reference Python 2 decoding: instructions of width 3 or 1, each reported with the offset after it. Its properties are stated by `Py2DecodeOutcome`, `Py2DecodeAt` and `Py2DecodeCoversCode` |
| Bytecode.UnpackOpargsPy3 | src/vis.py:133-143 | the stepping loop with its `extended_arg` accumulator returns exactly the Python 3 decoding from offset 0. This includes the IndexError for an argument-bearing opcode in the last byte |
| Bytecode.UnpackOpargsPy2 | src/vis.py:144-154 | the variable-width loop returns exactly the Python 2 decoding, including its IndexError |
| Bytecode.UnpackOpargs | src/vis.py:129-155 | major version 3 selects the wordcode decoder and 2 the legacy one; any other version yields no triple |
| Bytecode.Py3DecodeOutcome | src/vis.py:135-143 | decoding fails exactly when the code has odd length and ends on an argument-bearing opcode, and it reports that byte's offset. Otherwise it yields one triple per even offset |
| Bytecode.Py3DecodeAt | src/vis.py:135-143 | triple `k` has offset `2k` and the opcode at `2k`. Its argument is None below HAVE_ARGUMENT, and otherwise the next byte OR-ed with the accumulator: EXTENDED_ARG's argument shifted by 8, cleared by any other argument-bearing opcode |
| Bytecode.AccAtIsShifted | src/vis.py:140 | the accumulator is always a multiple of 256 |
| Bytecode.Py3Argument | src/vis.py:138-140 | after `EXTENDED_ARG a` an argument is `a * 256` plus its own byte. After any other argument-bearing opcode it is just the byte |
| Bytecode.Py2DecodeOutcome | src/vis.py:145-154 | legacy decoding fails exactly when the walk by instruction widths lands on the last byte and that byte is an argument-bearing opcode, and then with that offset. It yields nothing exactly for empty code |
| Bytecode.Py2DecodeAt | src/vis.py:145-154 | each instruction starts where the one before ended. Its width is 3 with an argument and 1 without. The offset reported is its end, and the argument is the one byte after the opcode |
| Bytecode.Py2DecodeCoversCode | src/vis.py:146-154 | the last instruction ends at or past the end of the code |
| Scanner.StripExtended | src/vis.py:183-184 | the `opargs` comprehension. It is never longer than its input; `StripExtendedMembers` states which entries it keeps |
| Scanner.StripExtendedMembers | src/vis.py:183-184 | the comprehension keeps exactly the entries that are not EXTENDED_ARG, with offsets dropped |
| Scanner.EventAt | src/vis.py:186-197 | what one instruction of the loop reports: a store, an absolute or relative import, nothing, or the exception its table lookup raises. `ScanEventOrigin` and `ScanEventComplete` tie it to the scan |
| Scanner.ScanFrom | src/vis.py:185-197 | the generator loop from one instruction on: the events in order, ended by the first exception. Its properties are stated by `ScanFaultFree`, `ScanStopsAtBadLookup`, `ScanEventOrigin`, `ScanEventComplete` and `ScanSkipsOtherOps` |
| Scanner.ScanOpcodes | src/vis.py:158-197 | `scan_opcodes`: decoding faults surface before any event, otherwise the scan of the stripped instructions. `Assembler.AssembleScanRoundTrip` states its round trip |
| Scanner.ScanFaultFree | src/vis.py:185-197 | when every store, IMPORT_NAME and LOAD_CONST argument indexes its table, the scan raises nothing |
| Scanner.ScanStopsAtBadLookup | src/vis.py:185-197 | a scan that raises does so at the instruction whose `names[...]` or `consts[...]` lookup fails |
| Scanner.ScanEventOrigin | src/vis.py:185-197 | a store event comes from STORE_NAME or STORE_GLOBAL with that name. An import event comes from IMPORT_NAME preceded by two LOAD_CONSTs, and it is absolute exactly when the level is 0 or -1 |
| Scanner.ScanEventComplete | src/vis.py:185-197 | every instruction that yields an event, with no lookup raising before it, has its event reported; the converse of `ScanEventOrigin` |
| Scanner.ScanSkipsOtherOps | src/vis.py:185-197 | instructions that are neither stores nor IMPORT_NAME report nothing |
| Scanner.RelativeSiblingImport | src/vis.py:173-178 | `from . import sibling` is reported as a level-1 relative import of `sibling` from the empty name, followed by the store |
| Assembler.DecodeEncodeArg | src/vis.py:137-140 | an argument written with EXTENDED_ARG prefixes is decoded back in full |
| Assembler.DecodeEncodeOne | src/vis.py:135-143 | decoding one encoded instruction in front of more code yields that instruction, then the rest |
| Assembler.DecodeEncode | src/vis.py:135-143 | decoding the encoding of any instruction list, then dropping EXTENDED_ARG entries, returns the list |
| Assembler.ScanWindow | src/vis.py:189-196 | each statement's four instructions report its import event and then its store |
| Assembler.ScanWindows | src/vis.py:185-197 | windows laid one after another scan to their events in order |
| Assembler.AssembleScanRoundTrip | src/vis.py:180-197 | import statements assembled into a Python 3 code object scan back, in order, to one import event and one store per statement |
| Modules.Module.constructor | src/vis.py:118-126 | a new module has its name, file and path, and empty `direct_imports` |
| Naming.DirModName | src/vis.py:109-111 | the name the directory walk gives a module file. `DirModNameOfModule`, `DirModNameOfPackage` and `DirModNameOfRootPackage` state it |
| Naming.AbsModName | src/vis.py:44-59 | `abs_mod_name`, with the IndexError for a path with no piece below the root. `AbsModNameOfSource`, `AbsModNameExample` and the namings-agree lemmas state it |
| Naming.DottedOfSource | src/vis.py:109 | a file's path below the root, with `/` turned into `.` and `.py` dropped, is its segments joined with `.` |
| Naming.StripTrailingInit | src/vis.py:110-111 | removing `.__init__` from `x.__init__` leaves `x` when `x` holds no `__init__` |
| Naming.DirModNameOfModule | src/vis.py:107-111 | the directory walk names a module file by its dotted path |
| Naming.DirModNameOfPackage | src/vis.py:107-111 | the directory walk names a package's `__init__.py` by the package's dotted path |
| Naming.DirModNameOfRootPackage | src/vis.py:109-111 | the root's own `__init__.py` keeps the name `__init__` |
| Naming.RelPartsOfSource | src/vis.py:53-54 | the pieces of a path below the root are its segments, the last one with `.py` |
| Naming.AbsModNameOfSource | src/vis.py:44-59 | `abs_mod_name` names a module file by its dotted path, and a package's `__init__.py` by the package's path |
| Naming.AbsModNameExample | src/vis.py:49 | `abs_mod_name` of `/path/to/mod.py` below `/path` is `to.mod` |
| Naming.ModuleNamingsAgree | src/vis.py:44-59 | for a module file whose name holds no `__init__`, `abs_mod_name` gives the same name as the directory walk |
| Naming.PackageNamingsAgree | src/vis.py:44-59 | for a package's `__init__.py`, `abs_mod_name` gives the same name as the directory walk |
| Naming.RootPackageNamingsDiffer | src/vis.py:56-57 | on the root's own `__init__.py` the walk gives `__init__` and `abs_mod_name` gives the empty name |
| Finder.Rekey | src/vis.py:83-90 | the filter, then the re-keying comprehension, in the finder's order. The `Rekey` lemmas state its failure, keys and winners |
| Finder.ModulesFromFinder | src/vis.py:83-90 | the post-processing of `get_modules_from_file` with the standard-library filter and `abs_mod_name`. `StdlibModulesDropped` states it |
| Finder.RekeyFailure | src/vis.py:88-90 | the renaming raises exactly when a kept module has no path below the root. The exception comes from the first such module |
| Finder.RekeyKeys | src/vis.py:88-90 | every kept module's new name, the one `abs_mod_name` gives it, is a key of the result. The module held there is the last one renamed to that name (`RekeyLastWins`) |
| Finder.RekeyLastWins | src/vis.py:88-90 | each name holds the last kept module renamed to it |
| Finder.StdlibModulesDropped | src/vis.py:83-90 | without the system path, no standard-library module survives the filter. With it, every module the finder reports has its new name as a key of the result, holding the last module renamed to that name |
| Discovery.Candidates | src/vis.py:102-111 | the source files of the walk in order, with their names, skipping virtual-environment directories. `CandidatesComplete`, `CandidatesOrigin` and `CandidatesAppend` state it |
| Discovery.FirstWins | src/vis.py:112-114 | the dictionary in which the first candidate with a name keeps it. `FirstWinsHolds` and `FirstWinsKeys` state it |
| Discovery.AddSourceFiles | src/vis.py:105-114 | the inner loop adds a new module for each source file whose name is not yet taken. Every module already there stays under its name as the same object |
| Discovery.GetModulesInDir | src/vis.py:95-115 | the walk creates one new module per name. It is built from the first source file with that name in a directory that is not skipped |
| Discovery.FirstWinsHolds | src/vis.py:112-114 | every candidate name is a key, and each key holds the first candidate with that name |
| Discovery.FileCandidatesMembers | src/vis.py:105-106 | the files of a directory that yield modules are exactly its names ending in `.py` |
| Discovery.CandidatesComplete | src/vis.py:102-106 | every source file in a directory that is not skipped yields a module |
| Discovery.CandidatesOrigin | src/vis.py:102-106 | every module comes from a source file in a directory that is not skipped |
| Discovery.ModuleNames | src/vis.py:102-115 | the names are exactly those of the listed source files. Each name holds the first such file in walk order |
| Discovery.NoVNotSkipped | src/vis.py:103 | a directory path without `v` is never skipped as a virtual environment |
| Discovery.RootModuleName | src/vis.py:107-111 | `x.py` in the root is module `x` |
| Discovery.NestedModuleName | src/vis.py:107-111 | `x.py` in a directory below the root is that directory's dotted path followed by `x` |
| Discovery.PackageName | src/vis.py:107-111 | `__init__.py` in a directory below the root is that directory's dotted path |
| Discovery.NotSkippedJoin | src/vis.py:103 | two directory paths that are not skipped, joined with `/`, give a path that is not skipped |
| Discovery.LayoutVenvDir | src/vis.py:103-104 | the `venv` directory of the layout is skipped |
| Discovery.FirstWinsKeys | src/vis.py:112-114 | the keys are exactly the candidates' names |
| Discovery.CandidatesAppend | src/vis.py:102-115 | walking two parts of a listing yields the modules of the first part, then those of the second |
| Discovery.LayoutModules | src/test_vis.py:8-21 | for a layout shaped like the test project, under a root and with package names that hold neither `venv` nor `virt`, the names are the root modules, the package, the inner package and its module |
| Discovery.ProjectModules | src/test_vis.py:8-21 | on the test project, below any root whose path holds neither `venv` nor `virt`, the walk yields exactly the eight names the test expects |
| Resolver.Step | src/vis.py:218-238 | one event of the loop over `scan_opcodes`: stores and relative imports change nothing, a kept absolute import appends its entries, a fromlist that is not a tuple raises. `StepAt`, `EventShareMembers` and `ResolveFailure` state its effect |
| Resolver.Resolve | src/vis.py:216-238 | the loop as a fold over the events; the first exception ends it. `ResolveAt`, `SharesMembers` and `ResolveFailure` state its result |
| Resolver.ImmediateDeps | src/vis.py:200-240 | `get_fq_immediate_deps` for one module file: the fold over its scan, or the fault that stopped the scan after the events before it are folded. `GetFqImmediateDeps` computes it |
| Resolver.TopLevel | src/vis.py:224 | `split('.')[0]` is the prefix before the first dot |
| Resolver.GetFqImmediateDeps | src/vis.py:200-240 | the `defaultdict` fill, one event and one name at a time, computes the fold over the scanner's events. Every event before a scanner exception is folded before that exception surfaces |
| Resolver.RelevantOnly | src/vis.py:216-238 | the events kept are exactly the input's kept absolute imports: each is among the input and relevant, and every relevant input event is kept |
| Resolver.ImportNamesAt | src/vis.py:228-234 | under every key, the fromlist loop appends exactly the reference entries. It creates a key only when it appends under it |
| Resolver.StepAt | src/vis.py:222-234 | under every key, one event appends exactly what the reference definition assigns to it |
| Resolver.ResolveAt | src/vis.py:216-238 | under every key and in event order, the fold appends exactly the reference entries. A key exists exactly when something was appended under it |
| Resolver.ResolveFailure | src/vis.py:222-234 | the fold raises exactly when a kept absolute import has a fromlist that is not a tuple. It raises the first one's exception |
| Resolver.OnlyKeptImportsMatter | src/vis.py:216-238 | stores, relative imports and discarded standard-library imports do not change the result |
| Resolver.EventShareMembers | src/vis.py:222-234 | an entry is appended under a key exactly when the import is kept and one of two things holds. Either the entry is a whole-module record of the target (empty fromlist) or of a project submodule, or it is a listed name that is not a project submodule |
| Resolver.NamesShareMembers | src/vis.py:228-234 | the same, for the names of one fromlist |
| Resolver.SharesMembers | src/vis.py:216-238 | an entry is in the reference entries under a key exactly when some event contributes it |
| Resolver.WholeModuleForEmptyFromlist | src/vis.py:226-227 | a kept `import top` records `top` as a whole module |
| Resolver.ProjectSubmoduleImport | src/vis.py:228-232 | `from top import n` with `top.n` a project module records `top.n` as a whole module, and never `n` as a name under `top` |
| Resolver.NamedEntryOrigin | src/vis.py:233-234 | every name entry under `k` comes from a kept import of `k` that lists it, and `k.n` is not a project module |
| Resolver.ResultKeys | src/vis.py:222-234 | every key is a project module or the target of a kept absolute import |
| Resolver.StdlibImportDiscarded | src/vis.py:224-225 | an import whose top-level package is standard library, and whose target is not a project module, leaves no key |
| Resolver.TopLevelOfDotted | src/vis.py:224 | the top-level package of `a.b` is `a` when `a` has no dot |
| Resolver.TopLevelOfUndotted | src/vis.py:224 | a name without a dot is its own top-level package |
| Resolver.ImportOneName | src/vis.py:222-234 | a kept `from target import n`, where `target.n` is not a project module, records the name `n` under `target` |
| Resolver.StoresKeep | src/vis.py:216-238 | a run of store events leaves the map unchanged |
| Resolver.OneNamedDependency | src/vis.py:216-238 | a module that imports a discarded module and one name from a kept one depends on the kept module alone, for that name |
| Resolver.MainDependencies | project/main.py:4-7 | with `sys` in the standard library, the test project's `main.py` depends only on `path.to.module_c`, for the name `MyClass` |
| Resolver.SortNames | src/vis.py:248 | `sorted` yields every name once, in increasing order |
| Resolver.SortedPrefix | src/vis.py:248 | in sorted order, the names before a position are exactly the smaller ones |
| Resolver.AddImmediateDepsToModules | src/vis.py:243-250 | in sorted name order, each module's `direct_imports` becomes its resolved map. The first exception stops the walk: earlier modules hold their maps and later ones keep their old ones |
| Graph.Digraph.constructor | src/vis.py:256 | a new digraph has its name and format and an empty body |
| Graph.Digraph.Node | src/vis.py:265 | `node` appends one node declaration |
| Graph.Digraph.Edge | src/vis.py:268 | `edge` appends one edge |
| Graph.ImportGraphOf | src/vis.py:259-260 | each module's direct-import keys, under its name; it has exactly the keys of the module dictionary |
| Graph.ModDictToDag | src/vis.py:253-269 | the graph is new, named as asked and in `pdf` format. Every statement is an edge from a module to one of its imports, blue exactly for vendor imports, or a blue node for a vendor module. Every import has its edge, no statement repeats, and each vendor node comes before the first edge to it |
| Graph.DrawModules | src/vis.py:259-268 | the outer loop over the modules leaves the complete drawing |
| Graph.DrawImports | src/vis.py:260-268 | the inner loop draws every import of one module and declares each new vendor module once |
| Graph.DeclareNode | src/vis.py:262-266 | declaring a vendor module not yet in `vendor_mods` keeps the drawing consistent |
| Graph.EmitEdge | src/vis.py:268 | adding the edge to an import not yet drawn keeps the drawing consistent |
| Graph.VendorNodes | src/vis.py:262-266 | in a complete drawing the nodes are exactly the imports that are not project modules, all blue |

## Left out

- Reading files, `compile`, `os.path.abspath`, `os.walk` and `ModuleFinder` are not modelled. The compiled code of each file, the directory listing and the finder's report are inputs.
- The body of `libinfo.is_std_lib_module` is not modelled: it is the oracle `isStd`.
- The numbers `dis` gives the opcodes are the parameter `OpTable`.
- Rendering the graph with graphviz, `get_args`, `main` and printing are not modelled.
- Dictionary insertion order is not modelled: module dictionaries and `direct_imports` are maps.
- Graph.ModDictToDag: states which statements the body holds, and that each vendor node comes before its edges. It does not state their order otherwise, because the dictionaries' iteration order is not modelled.
- `Bytecode.Const` has only ints, None and tuples of names. Other constant kinds never reach an import window, so they are not modelled.
- Nested code objects (function and class bodies) are not modelled. `scan_opcodes` only reads the module's own code.
- The STORE and REL_IMPORT events are reported, but the resolver ignores them, as the source's `TODO` branches do.
- The default `root_dir` of `get_modules_from_file` is not modelled: the root is always given, already absolute and without a trailing `/`. Appending `sys.path` to the finder's path is not modelled either: it only affects what the finder reports.
- A finder module without a file (a built-in) is not modelled: every reported module has a file.
- Discovery.ProjectModules: the listing of the test project is reconstructed from the names the test expects. `hello` is placed at the root. The root's path, like the package names, must hold neither `venv` nor `virt`, because otherwise the walk skips the whole project. The directory listing itself is not part of this model.
- An `OSError` from a module file that cannot be read is `Fault.ModuleUnreadable`: the model has no file contents, only compiled code or its absence.
