/** The import scanner (`scan_opcodes`): it reads the decoded instructions of
    a module, with EXTENDED_ARG entries dropped, and reports name stores and
    the `LOAD_CONST; LOAD_CONST; IMPORT_NAME` windows that spell an import. */
module Scanner {
  import opened Base
  import opened Bytecode

  /** An instruction with its offset dropped: `(op, arg)`. */
  datatype OpArg = OpArg(op: byte, arg: Option<nat>)

  /** What the scanner reports. `fromlist` and `level` are the constants the
      instruction window loaded, the fromlist after `or []`. */
  datatype Event =
    | Store(name: string)
    | AbsImport(fromlist: Const, target: string)
    | RelImport(level: Const, fromlist: Const, target: string)

  /** The events reported before the scan stopped, and the exception that
      stopped it, if any: the scanner is a generator, so its consumer sees
      every event before the fault. */
  datatype Scanned = Scanned(events: seq<Event>, stop: Option<Fault>)

  /** The list comprehension over the decoder's output: offsets dropped and
      EXTENDED_ARG entries left out, order kept. */
  function StripExtended(instrs: seq<Instr>, t: OpTable): (r: seq<OpArg>)
    ensures |r| <= |instrs|
  {
    if |instrs| == 0 then []
    else (if instrs[0].op == t.extendedArg then [] else [OpArg(instrs[0].op, instrs[0].arg)]) + StripExtended(instrs[1..], t)
  }

  /** What the comprehension keeps: exactly the entries that are not
      EXTENDED_ARG, offsets dropped. */
  lemma {:induction false} StripExtendedMembers(instrs: seq<Instr>, t: OpTable)
    ensures forall x | x in StripExtended(instrs, t) :: x.op != t.extendedArg
    ensures forall x | x in StripExtended(instrs, t) ::
      exists i :: 0 <= i < |instrs| && x == OpArg(instrs[i].op, instrs[i].arg)
    ensures forall i | 0 <= i < |instrs| && instrs[i].op != t.extendedArg ::
      OpArg(instrs[i].op, instrs[i].arg) in StripExtended(instrs, t)
  {
    if |instrs| > 0 {
      StripExtendedMembers(instrs[1..], t);
      assert forall i | 1 <= i < |instrs| :: instrs[i] == instrs[1..][i - 1];
    }
  }

  /** `table[arg]`, which raises when there is no argument or it is past the
      end of the table. */
  function Lookup<T>(table: seq<T>, arg: Option<nat>): Option<T> {
    if arg.Some? && arg.value < |table| then Some(table[arg.value]) else None
  }

  /** Python truthiness of a constant. */
  predicate Truthy(c: Const) {
    match c
    case CNone => false
    case CInt(n) => n != 0
    case CTuple(items) => |items| > 0
  }

  /** `c or []`, with the empty list written as the empty tuple. */
  function OrEmpty(c: Const): Const {
    if Truthy(c) then c else CTuple([])
  }

  /** `level == 0 or level == -1`. */
  predicate IsAbsoluteLevel(level: Const) {
    level == CInt(0) || level == CInt(-1)
  }

  predicate IsStoreOp(op: byte, t: OpTable) {
    op == t.storeName || op == t.storeGlobal
  }

  /** IMPORT_NAME at index `i >= 2` with both previous instructions LOAD_CONST. */
  predicate ImportShapeAt(ops: seq<OpArg>, i: nat, t: OpTable)
    requires i < |ops|
  {
    ops[i].op == t.importName && i >= 2 && ops[i - 1].op == t.loadConst && ops[i - 2].op == t.loadConst
  }

  /** What the scanner reports for instruction `i`: a store, an import, or
      nothing; or the exception a table lookup raises. */
  function EventAt(ops: seq<OpArg>, i: nat, names: seq<string>, consts: seq<Const>, t: OpTable): Result<Option<Event>, Fault>
    requires i < |ops|
  {
    if IsStoreOp(ops[i].op, t) then
      match Lookup(names, ops[i].arg)
      case None => Failure(BadTableIndex(i))
      case Some(n) => Success(Some(Store(n)))
    else if ImportShapeAt(ops, i, t) then
      match (Lookup(consts, ops[i - 2].arg), Lookup(consts, ops[i - 1].arg), Lookup(names, ops[i].arg))
      case (Some(level), Some(fromlist), Some(target)) =>
        if IsAbsoluteLevel(level) then Success(Some(AbsImport(OrEmpty(fromlist), target)))
        else Success(Some(RelImport(level, OrEmpty(fromlist), target)))
      case _ => Failure(BadTableIndex(i))
    else Success(None)
  }

  /** The scan of instructions `i..` in order. */
  function ScanFrom(ops: seq<OpArg>, i: nat, names: seq<string>, consts: seq<Const>, t: OpTable): Scanned
    decreases |ops| - i
  {
    if i >= |ops| then Scanned([], None)
    else
      match EventAt(ops, i, names, consts, t)
      case Failure(f) => Scanned([], Some(f))
      case Success(None) => ScanFrom(ops, i + 1, names, consts, t)
      case Success(Some(e)) =>
        var rest := ScanFrom(ops, i + 1, names, consts, t);
        Scanned([e] + rest.events, rest.stop)
  }

  /** `scan_opcodes` on a compiled module: decoding happens before the first
      event, so a decoding fault stops the scan with no event. */
  function ScanOpcodes(co: CodeObject, version: int, t: OpTable): Scanned {
    match Decode(version, co.code, t)
    case Failure(f) => Scanned([], Some(f))
    case Success(instrs) => ScanFrom(StripExtended(instrs, t), 0, co.names, co.consts, t)
  }

  // ---------------------------------------------------------------------
  // Properties of the scan.

  /** Every lookup the scanner can make is in range. */
  predicate TablesCover(ops: seq<OpArg>, names: seq<string>, consts: seq<Const>, t: OpTable) {
    forall j | 0 <= j < |ops| ::
      && (IsStoreOp(ops[j].op, t) || ops[j].op == t.importName ==>
            ops[j].arg.Some? && ops[j].arg.value < |names|)
      && (ops[j].op == t.loadConst ==> ops[j].arg.Some? && ops[j].arg.value < |consts|)
  }

  /** With tables that cover every argument, the scan runs to the end. */
  lemma {:induction false} ScanFaultFree(ops: seq<OpArg>, i: nat, names: seq<string>, consts: seq<Const>, t: OpTable)
    requires TablesCover(ops, names, consts, t)
    ensures ScanFrom(ops, i, names, consts, t).stop == None
    decreases |ops| - i
  {
    if i < |ops| {
      assert EventAt(ops, i, names, consts, t).Success?;
      ScanFaultFree(ops, i + 1, names, consts, t);
    }
  }

  /** A scan that stops names the instruction whose lookup failed. */
  lemma {:induction false} ScanStopsAtBadLookup(ops: seq<OpArg>, i: nat, names: seq<string>, consts: seq<Const>, t: OpTable)
    requires ScanFrom(ops, i, names, consts, t).stop.Some?
    ensures var f := ScanFrom(ops, i, names, consts, t).stop.value;
      f.BadTableIndex? && i <= f.position < |ops| &&
      EventAt(ops, f.position, names, consts, t) == Failure(f)
    decreases |ops| - i
  {
    if EventAt(ops, i, names, consts, t).Success? {
      ScanStopsAtBadLookup(ops, i + 1, names, consts, t);
    }
  }

  /** Every event comes from an instruction at or after `i` of the right
      kind: a store from a store opcode whose argument names it, an import
      from an IMPORT_NAME preceded by two LOAD_CONSTs whose argument names
      its target, and absolute exactly when the level constant is 0 or -1. */
  lemma {:induction false} ScanEventOrigin(ops: seq<OpArg>, i: nat, names: seq<string>, consts: seq<Const>, t: OpTable, e: Event)
    requires e in ScanFrom(ops, i, names, consts, t).events
    ensures exists j :: i <= j < |ops| && EventAt(ops, j, names, consts, t) == Success(Some(e))
    ensures e.Store? ==> exists j :: i <= j < |ops| && IsStoreOp(ops[j].op, t) && Lookup(names, ops[j].arg) == Some(e.name)
    ensures e.AbsImport? ==>
      exists j, level :: (&& i <= j < |ops| && ImportShapeAt(ops, j, t) && !IsStoreOp(ops[j].op, t)
                          && Lookup(names, ops[j].arg) == Some(e.target)
                          && Lookup(consts, ops[j - 2].arg) == Some(level) && IsAbsoluteLevel(level))
    ensures e.RelImport? ==>
      exists j :: (&& i <= j < |ops| && ImportShapeAt(ops, j, t) && !IsStoreOp(ops[j].op, t)
                   && Lookup(names, ops[j].arg) == Some(e.target)
                   && Lookup(consts, ops[j - 2].arg) == Some(e.level) && !IsAbsoluteLevel(e.level))
    decreases |ops| - i
  {
    var r := EventAt(ops, i, names, consts, t);
    if r == Success(Some(e)) {
    } else {
      ScanEventOrigin(ops, i + 1, names, consts, t, e);
    }
  }

  /** The converse: every instruction at or after `i` that yields an event,
      with no lookup raising before it, has its event reported. */
  lemma {:induction false} ScanEventComplete(ops: seq<OpArg>, i: nat, j: nat, names: seq<string>, consts: seq<Const>, t: OpTable, e: Event)
    requires i <= j < |ops|
    requires EventAt(ops, j, names, consts, t) == Success(Some(e))
    requires forall k | i <= k < j :: EventAt(ops, k, names, consts, t).Success?
    ensures e in ScanFrom(ops, i, names, consts, t).events
    decreases j - i
  {
    if i < j {
      ScanEventComplete(ops, i + 1, j, names, consts, t, e);
    }
  }

  /** Instructions that are neither stores nor IMPORT_NAME report nothing. */
  lemma {:induction false} ScanSkipsOtherOps(ops: seq<OpArg>, i: nat, names: seq<string>, consts: seq<Const>, t: OpTable)
    requires forall j | i <= j < |ops| :: !IsStoreOp(ops[j].op, t) && ops[j].op != t.importName
    ensures ScanFrom(ops, i, names, consts, t) == Scanned([], None)
    decreases |ops| - i
  {
    if i < |ops| {
      ScanSkipsOtherOps(ops, i + 1, names, consts, t);
    }
  }

  /** `from . import sibling` as CPython 3 compiles it: LOAD_CONST 1 (the
      level), LOAD_CONST ('sibling',), IMPORT_NAME '', IMPORT_FROM sibling,
      STORE_NAME sibling, POP_TOP. The scanner reports a level-1 relative
      import of `sibling` from the empty module name, then the store. */
  lemma RelativeSiblingImport()
    ensures
      var t := CPython3;
      var importFrom: byte := 109;
      var popTop: byte := 1;
      var ops := [OpArg(t.loadConst, Some(0)), OpArg(t.loadConst, Some(1)),
                  OpArg(t.importName, Some(0)), OpArg(importFrom, Some(1)),
                  OpArg(t.storeName, Some(1)), OpArg(popTop, None)];
      var names := ["", "sibling"];
      var consts := [CInt(1), CTuple(["sibling"])];
      ScanFrom(ops, 0, names, consts, t) ==
        Scanned([RelImport(CInt(1), CTuple(["sibling"]), ""), Store("sibling")], None)
  {
    var t := CPython3;
    var importFrom: byte := 109;
    var popTop: byte := 1;
    var ops := [OpArg(t.loadConst, Some(0)), OpArg(t.loadConst, Some(1)),
                OpArg(t.importName, Some(0)), OpArg(importFrom, Some(1)),
                OpArg(t.storeName, Some(1)), OpArg(popTop, None)];
    var names := ["", "sibling"];
    var consts := [CInt(1), CTuple(["sibling"])];
    assert ScanFrom(ops, 5, names, consts, t) == Scanned([], None);
    assert ScanFrom(ops, 4, names, consts, t) == Scanned([Store("sibling")], None);
    assert ScanFrom(ops, 3, names, consts, t) == Scanned([Store("sibling")], None);
    assert EventAt(ops, 2, names, consts, t) == Success(Some(RelImport(CInt(1), CTuple(["sibling"]), "")));
    assert ScanFrom(ops, 2, names, consts, t) ==
      Scanned([RelImport(CInt(1), CTuple(["sibling"]), ""), Store("sibling")], None);
    assert EventAt(ops, 1, names, consts, t) == Success(None);
    assert EventAt(ops, 0, names, consts, t) == Success(None);
  }
}
