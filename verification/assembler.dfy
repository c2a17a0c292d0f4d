/** The inverse of the decoder and the scanner: an encoder of instructions
    into Python 3 wordcode, with EXTENDED_ARG prefixes for wide arguments as
    CPython emits them, and an assembler that lays out import statements as
    the instruction windows the scanner recognises. Decoding what was
    encoded, and scanning what was assembled, gives back the input. */
module Assembler {
  import opened Base
  import opened Bytecode
  import opened Scanner

  /** One argument-bearing instruction: the argument's bytes above the lowest
      go into EXTENDED_ARG prefixes, most significant first. */
  function EncodeArg(op: byte, arg: nat, ext: byte): (code: seq<byte>)
    ensures |code| >= 2
    decreases arg
  {
    if arg < 256 then [op, arg] else EncodeArg(ext, arg / 256, ext) + [op, arg % 256]
  }

  function EncodeOne(x: OpArg, t: OpTable): seq<byte> {
    match x.arg
    case None => [x.op, 0]
    case Some(a) => EncodeArg(x.op, a, t.extendedArg)
  }

  function Encode(xs: seq<OpArg>, t: OpTable): seq<byte> {
    if |xs| == 0 then [] else EncodeOne(xs[0], t) + Encode(xs[1..], t)
  }

  /** Instructions the encoder can write: no EXTENDED_ARG of their own, and
      an argument exactly on the argument-bearing opcodes. */
  predicate Encodable(xs: seq<OpArg>, t: OpTable) {
    forall i | 0 <= i < |xs| :: xs[i].op != t.extendedArg && (xs[i].arg.Some? <==> xs[i].op >= t.haveArgument)
  }

  /** The decoder's output as the scanner sees it. */
  function Stripped(r: Result<seq<Instr>, Fault>, t: OpTable): Result<seq<OpArg>, Fault> {
    match r
    case Success(s) => Success(StripExtended(s, t))
    case Failure(e) => Failure(e)
  }

  function PrependOp(x: OpArg, r: Result<seq<OpArg>, Fault>): Result<seq<OpArg>, Fault> {
    match r
    case Success(s) => Success([x] + s)
    case Failure(e) => Failure(e)
  }

  lemma StrippedPrepend(x: Instr, r: Result<seq<Instr>, Fault>, t: OpTable)
    ensures Stripped(Prepend(x, r), t) ==
      if x.op == t.extendedArg then Stripped(r, t) else PrependOp(OpArg(x.op, x.arg), Stripped(r, t))
  {
    if r.Success? {
      var s := [x] + r.value;
      assert s[1..] == r.value;
      assert StripExtended(s, t) ==
        (if x.op == t.extendedArg then [] else [OpArg(x.op, x.arg)]) + StripExtended(r.value, t);
      if x.op == t.extendedArg {
        assert [] + StripExtended(r.value, t) == StripExtended(r.value, t);
      }
    }
  }

  /** Decoding an encoded wide instruction restores its full argument; an
      EXTENDED_ARG leaves its shifted argument in the accumulator for what
      follows, any other opcode leaves the accumulator clear. */
  lemma {:induction false} DecodeEncodeArg(op: byte, a: nat, rest: seq<byte>, t: OpTable, base: nat)
    requires op >= t.haveArgument && t.extendedArg >= t.haveArgument
    ensures var code := EncodeArg(op, a, t.extendedArg);
      op == t.extendedArg ==>
        Stripped(Py3Decode(code + rest, t, base, 0), t) == Stripped(Py3Decode(rest, t, base + |code|, a * 256), t)
    ensures var code := EncodeArg(op, a, t.extendedArg);
      op != t.extendedArg ==>
        Stripped(Py3Decode(code + rest, t, base, 0), t) ==
          PrependOp(OpArg(op, Some(a)), Stripped(Py3Decode(rest, t, base + |code|, 0), t))
    decreases a
  {
    var code := EncodeArg(op, a, t.extendedArg);
    if a < 256 {
      assert (code + rest)[2..] == rest;
      assert BitOr(a, 0) == a;
      StrippedPrepend(Instr(base, op, Some(a)), Py3Decode(rest, t, base + 2, if op == t.extendedArg then a * 256 else 0), t);
    } else {
      var high := EncodeArg(t.extendedArg, a / 256, t.extendedArg);
      var tail: seq<byte> := [op, a % 256] + rest;
      assert code + rest == high + tail;
      DecodeEncodeArg(t.extendedArg, a / 256, tail, t, base);
      ByteOrShifted(a % 256, a / 256);
      assert BitOr(a % 256, a / 256 * 256) == a;
      assert tail[2..] == rest;
      StrippedPrepend(Instr(base + |high|, op, Some(a)),
                      Py3Decode(rest, t, base + |code|, if op == t.extendedArg then a * 256 else 0), t);
    }
  }

  /** Decoding one encoded instruction in front of more code yields it,
      followed by what the rest decodes to. */
  lemma DecodeEncodeOne(x: OpArg, rest: seq<byte>, t: OpTable, base: nat)
    requires x.op != t.extendedArg && (x.arg.Some? <==> x.op >= t.haveArgument)
    requires t.extendedArg >= t.haveArgument
    ensures Stripped(Py3Decode(EncodeOne(x, t) + rest, t, base, 0), t) ==
      PrependOp(x, Stripped(Py3Decode(rest, t, base + |EncodeOne(x, t)|, 0), t))
  {
    if x.arg.None? {
      assert (EncodeOne(x, t) + rest)[2..] == rest;
      StrippedPrepend(Instr(base, x.op, None), Py3Decode(rest, t, base + 2, 0), t);
    } else {
      DecodeEncodeArg(x.op, x.arg.value, rest, t, base);
    }
  }

  /** Decoding encoded instructions yields the first, followed by what the
      rest decodes to. */
  lemma DecodeEncodeCons(xs: seq<OpArg>, t: OpTable, base: nat)
    requires |xs| > 0 && Encodable(xs, t) && t.extendedArg >= t.haveArgument
    ensures Encodable(xs[1..], t)
    ensures Stripped(Py3Decode(Encode(xs, t), t, base, 0), t) ==
      PrependOp(xs[0], Stripped(Py3Decode(Encode(xs[1..], t), t, base + |EncodeOne(xs[0], t)|, 0), t))
  {
    assert forall i | 0 <= i < |xs| - 1 :: xs[1..][i] == xs[i + 1];
    DecodeEncodeOne(xs[0], Encode(xs[1..], t), t, base);
  }

  /** Decoding then dropping EXTENDED_ARG entries inverts the encoder. */
  lemma {:induction false} DecodeEncode(xs: seq<OpArg>, t: OpTable, base: nat)
    requires Encodable(xs, t) && t.extendedArg >= t.haveArgument
    ensures Stripped(Py3Decode(Encode(xs, t), t, base, 0), t) == Success(xs)
    decreases |xs|
  {
    if |xs| == 0 {
      assert Encode(xs, t) == [];
      assert StripExtended([], t) == [];
    } else {
      DecodeEncodeCons(xs, t, base);
      DecodeEncode(xs[1..], t, base + |EncodeOne(xs[0], t)|);
      assert [xs[0]] + xs[1..] == xs;
    }
  }

  // ---------------------------------------------------------------------
  // Import statements laid out as the scanner's instruction windows.

  /** `from target import fromlist` (or `import target` when `fromlist` is
      empty) at package depth `level`, bound to `binding`. */
  datatype ImportStmt = ImportStmt(level: int, fromlist: seq<string>, target: string, binding: string)

  /** Statement `j` loads constants `2j` (level) and `2j + 1` (fromlist),
      imports name `2j` and stores name `2j + 1`. */
  function StmtOp(j: nat, k: nat, t: OpTable): OpArg
    requires k < 4
  {
    if k == 0 then OpArg(t.loadConst, Some(2 * j))
    else if k == 1 then OpArg(t.loadConst, Some(2 * j + 1))
    else if k == 2 then OpArg(t.importName, Some(2 * j))
    else OpArg(t.storeName, Some(2 * j + 1))
  }

  function AssembleOps(stmts: seq<ImportStmt>, t: OpTable): seq<OpArg> {
    seq(4 * |stmts|, i requires 0 <= i < 4 * |stmts| => StmtOp(i / 4, i % 4, t))
  }

  /** The level as an int; the fromlist as CPython stores it: None for a
      plain import, a tuple otherwise. */
  function AssembleConsts(stmts: seq<ImportStmt>): seq<Const> {
    seq(2 * |stmts|, i requires 0 <= i < 2 * |stmts| =>
      var s := stmts[i / 2];
      if i % 2 == 0 then CInt(s.level)
      else if |s.fromlist| == 0 then CNone
      else CTuple(s.fromlist))
  }

  function AssembleNames(stmts: seq<ImportStmt>): seq<string> {
    seq(2 * |stmts|, i requires 0 <= i < 2 * |stmts| =>
      if i % 2 == 0 then stmts[i / 2].target else stmts[i / 2].binding)
  }

  function Assemble(stmts: seq<ImportStmt>, t: OpTable): CodeObject {
    CodeObject(Encode(AssembleOps(stmts, t), t), AssembleNames(stmts), AssembleConsts(stmts))
  }

  /** The import a statement means to the scanner: absolute for level 0 or
      -1, relative otherwise, with the fromlist as written. */
  function StmtImport(s: ImportStmt): Event {
    if s.level == 0 || s.level == -1 then AbsImport(CTuple(s.fromlist), s.target)
    else RelImport(CInt(s.level), CTuple(s.fromlist), s.target)
  }

  /** What the statements mean to the scanner. */
  function StmtEvents(stmts: seq<ImportStmt>): seq<Event> {
    if |stmts| == 0 then []
    else [StmtImport(stmts[0]), Store(stmts[0].binding)] + StmtEvents(stmts[1..])
  }

  /** The tables and instructions that statement `j` contributes. */
  lemma AssembledAt(stmts: seq<ImportStmt>, t: OpTable, j: nat)
    requires j < |stmts|
    ensures var ops := AssembleOps(stmts, t);
      && |ops| == 4 * |stmts|
      && ops[4 * j] == OpArg(t.loadConst, Some(2 * j))
      && ops[4 * j + 1] == OpArg(t.loadConst, Some(2 * j + 1))
      && ops[4 * j + 2] == OpArg(t.importName, Some(2 * j))
      && ops[4 * j + 3] == OpArg(t.storeName, Some(2 * j + 1))
    ensures var consts := AssembleConsts(stmts);
      && |consts| == 2 * |stmts|
      && consts[2 * j] == CInt(stmts[j].level)
      && OrEmpty(consts[2 * j + 1]) == CTuple(stmts[j].fromlist)
    ensures var names := AssembleNames(stmts);
      && |names| == 2 * |stmts|
      && names[2 * j] == stmts[j].target && names[2 * j + 1] == stmts[j].binding
  {
    assert (4 * j) / 4 == j && (4 * j) % 4 == 0;
    assert (4 * j + 1) / 4 == j && (4 * j + 1) % 4 == 1;
    assert (4 * j + 2) / 4 == j && (4 * j + 2) % 4 == 2;
    assert (4 * j + 3) / 4 == j && (4 * j + 3) % 4 == 3;
    assert (2 * j) / 2 == j && (2 * j) % 2 == 0;
    assert (2 * j + 1) / 2 == j && (2 * j + 1) % 2 == 1;
  }

  /** Instructions `i..i+3` report nothing, nothing, `e1` and `e2`. */
  predicate Window(ops: seq<OpArg>, i: nat, names: seq<string>, consts: seq<Const>, t: OpTable, e1: Event, e2: Event) {
    && i + 3 < |ops|
    && EventAt(ops, i, names, consts, t) == Success(None)
    && EventAt(ops, i + 1, names, consts, t) == Success(None)
    && EventAt(ops, i + 2, names, consts, t) == Success(Some(e1))
    && EventAt(ops, i + 3, names, consts, t) == Success(Some(e2))
  }

  /** Statement `j`'s window reports its import and then its store. */
  lemma ScanWindow(stmts: seq<ImportStmt>, t: OpTable, j: nat)
    requires t.Valid() && j < |stmts|
    ensures Window(AssembleOps(stmts, t), 4 * j, AssembleNames(stmts), AssembleConsts(stmts), t,
                   StmtImport(stmts[j]), Store(stmts[j].binding))
  {
    AssembledAt(stmts, t, j);
  }

  /** A window contributes its two events to the scan. */
  lemma ScanFour(ops: seq<OpArg>, i: nat, names: seq<string>, consts: seq<Const>, t: OpTable, e1: Event, e2: Event)
    requires Window(ops, i, names, consts, t, e1, e2)
    ensures var rest := ScanFrom(ops, i + 4, names, consts, t);
      ScanFrom(ops, i, names, consts, t) == Scanned([e1, e2] + rest.events, rest.stop)
  {
    var rest := ScanFrom(ops, i + 4, names, consts, t);
    assert ScanFrom(ops, i + 2, names, consts, t) == Scanned([e1] + ([e2] + rest.events), rest.stop);
    assert [e1] + ([e2] + rest.events) == [e1, e2] + rest.events;
  }

  lemma StmtEventsFrom(stmts: seq<ImportStmt>, j: nat)
    requires j < |stmts|
    ensures StmtEvents(stmts[j..]) == [StmtImport(stmts[j]), Store(stmts[j].binding)] + StmtEvents(stmts[j + 1..])
  {
    assert stmts[j..][0] == stmts[j] && stmts[j..][1..] == stmts[j + 1..];
  }

  /** Instructions laid out as one window per statement, from window `j`
      on, scan to the statements' events. */
  lemma {:induction false} ScanWindows(ops: seq<OpArg>, names: seq<string>, consts: seq<Const>, t: OpTable,
                                       stmts: seq<ImportStmt>, j: nat)
    requires |ops| == 4 * |stmts| && j <= |stmts|
    requires forall k | j <= k < |stmts| ::
      Window(ops, 4 * k, names, consts, t, StmtImport(stmts[k]), Store(stmts[k].binding))
    ensures ScanFrom(ops, 4 * j, names, consts, t) == Scanned(StmtEvents(stmts[j..]), None)
    decreases |stmts| - j
  {
    if j == |stmts| {
      assert stmts[j..] == [];
    } else {
      ScanWindows(ops, names, consts, t, stmts, j + 1);
      ScanFour(ops, 4 * j, names, consts, t, StmtImport(stmts[j]), Store(stmts[j].binding));
      StmtEventsFrom(stmts, j);
      assert 4 * j + 4 == 4 * (j + 1);
    }
  }

  /** Import statements assembled into a Python 3 code object and scanned
      give back, in order, one import event per statement followed by the
      store of its binding (a plain import's None fromlist becomes empty). */
  lemma AssembleScanRoundTrip(stmts: seq<ImportStmt>, t: OpTable)
    requires t.Valid()
    ensures ScanOpcodes(Assemble(stmts, t), 3, t) == Scanned(StmtEvents(stmts), None)
  {
    var ops := AssembleOps(stmts, t);
    assert Encodable(ops, t) by {
      forall i | 0 <= i < |ops|
        ensures ops[i].op != t.extendedArg && (ops[i].arg.Some? <==> ops[i].op >= t.haveArgument)
      {
        assert ops[i] == StmtOp(i / 4, i % 4, t);
      }
    }
    DecodeEncode(ops, t, 0);
    forall k | 0 <= k < |stmts|
      ensures Window(ops, 4 * k, AssembleNames(stmts), AssembleConsts(stmts), t,
                     StmtImport(stmts[k]), Store(stmts[k].binding))
    {
      ScanWindow(stmts, t, k);
    }
    ScanWindows(ops, AssembleNames(stmts), AssembleConsts(stmts), t, stmts, 0);
    assert stmts[0..] == stmts;
  }
}
