/** The instruction decoder (`_unpack_opargs`): it turns a code object's byte
    string into (offset, opcode, argument) triples, in the fixed two-byte
    wordcode of Python 3 or the variable-width encoding of Python 2. */
module Bytecode {
  import opened Base

  /** The opcode numbers the analysis looks at. The decoder reads
      `haveArgument` and `extendedArg`; the scanner reads the rest. */
  datatype OpTable = OpTable(
    haveArgument: byte,
    extendedArg: byte,
    loadConst: byte,
    importName: byte,
    storeName: byte,
    storeGlobal: byte)
  {
    /** The shape CPython's numbering has: the opcodes the scanner reads,
        and EXTENDED_ARG, carry an argument, and they are distinct. */
    predicate Valid() {
      && extendedArg >= haveArgument
      && loadConst >= haveArgument
      && importName >= haveArgument
      && storeName >= haveArgument
      && storeGlobal >= haveArgument
      && extendedArg != loadConst && extendedArg != importName
      && extendedArg != storeName && extendedArg != storeGlobal
      && loadConst != importName && loadConst != storeName && loadConst != storeGlobal
      && importName != storeName && importName != storeGlobal
    }
  }

  /** The numbering of CPython 3.6 to 3.10. */
  const CPython3: OpTable := OpTable(90, 144, 100, 108, 90, 97)

  /** A constant of `co_consts` as far as the scanner uses it: the import
      level is an int and the fromlist is None or a tuple of names. */
  datatype Const = CInt(i: int) | CNone | CTuple(items: seq<string>)

  /** The parts of a compiled module the analysis reads. */
  datatype CodeObject = CodeObject(code: seq<byte>, names: seq<string>, consts: seq<Const>)

  /** One decoded instruction: `(offset, op, arg)`, `arg` None for opcodes
      below HAVE_ARGUMENT. */
  datatype Instr = Instr(offset: nat, op: byte, arg: Option<nat>)

  function Prepend(x: Instr, r: Result<seq<Instr>, Fault>): Result<seq<Instr>, Fault> {
    match r
    case Success(s) => Success([x] + s)
    case Failure(e) => Failure(e)
  }

  /** `s[n:]` in Python: empty when `n` is past the end. */
  function Skip<T>(s: seq<T>, n: nat): seq<T> {
    if n <= |s| then s[n..] else []
  }

  /** Python 3 decoding of `code`, whose first byte sits at offset `base`,
      with `ext` the `extended_arg` accumulator carried in from the left. */
  function Py3Decode(code: seq<byte>, t: OpTable, base: nat, ext: nat): Result<seq<Instr>, Fault>
    decreases |code|
  {
    if |code| == 0 then Success([])
    else if code[0] >= t.haveArgument then
      if |code| < 2 then Failure(TruncatedArgument(base))
      else
        var arg := BitOr(code[1], ext);
        var ext' := if code[0] == t.extendedArg then arg * 256 else 0;
        Prepend(Instr(base, code[0], Some(arg)), Py3Decode(code[2..], t, base + 2, ext'))
    else
      Prepend(Instr(base, code[0], None), Py3Decode(Skip(code, 2), t, base + 2, ext))
  }

  /** Python 2 decoding: an argument-bearing opcode takes three bytes, of
      which only the first argument byte is read; the offset reported is the
      one just after the instruction. */
  function Py2Decode(code: seq<byte>, t: OpTable, base: nat): Result<seq<Instr>, Fault>
    decreases |code|
  {
    if |code| == 0 then Success([])
    else if code[0] >= t.haveArgument then
      if |code| < 2 then Failure(TruncatedArgument(base))
      else Prepend(Instr(base + 3, code[0], Some(code[1])), Py2Decode(Skip(code, 3), t, base + 3))
    else
      Prepend(Instr(base + 1, code[0], None), Py2Decode(code[1..], t, base + 1))
  }

  /** `_unpack_opargs` under interpreter major version `version`; any other
      version yields nothing. */
  function Decode(version: int, code: seq<byte>, t: OpTable): Result<seq<Instr>, Fault> {
    if version == 3 then Py3Decode(code, t, 0, 0)
    else if version == 2 then Py2Decode(code, t, 0)
    else Success([])
  }


  // ---------------------------------------------------------------------
  // The decoder as the source runs it: a loop with a mutable accumulator.

  function Append(done: seq<Instr>, r: Result<seq<Instr>, Fault>): Result<seq<Instr>, Fault> {
    match r
    case Success(s) => Success(done + s)
    case Failure(e) => Failure(e)
  }

  lemma AppendPrepend(done: seq<Instr>, x: Instr, r: Result<seq<Instr>, Fault>)
    ensures Append(done, Prepend(x, r)) == Append(done + [x], r)
  {
    if r.Success? {
      assert done + ([x] + r.value) == (done + [x]) + r.value;
    }
  }

  lemma AppendNothing(r: Result<seq<Instr>, Fault>)
    ensures Append([], r) == r
  {
    if r.Success? {
      assert [] + r.value == r.value;
    }
  }

  method UnpackOpargsPy3(code: seq<byte>, t: OpTable) returns (r: Result<seq<Instr>, Fault>)
    ensures r == Py3Decode(code, t, 0, 0)
  {
    var out: seq<Instr> := [];
    var extendedArg: nat := 0;
    var i: nat := 0;
    assert Skip(code, 0) == code;
    AppendNothing(Py3Decode(code, t, 0, 0));
    while i < |code|
      invariant i <= |code| + 1
      invariant Py3Decode(code, t, 0, 0) == Append(out, Py3Decode(Skip(code, i), t, i, extendedArg))
      decreases |code| - i
    {
      var op := code[i];
      var rest := Skip(code, i);
      assert rest[0] == op;
      if op >= t.haveArgument {
        if i + 1 >= |code| {
          assert Py3Decode(rest, t, i, extendedArg) == Failure(TruncatedArgument(i));
          return Failure(TruncatedArgument(i));
        }
        var a := BitOr(code[i + 1], extendedArg);
        var ext' := if op == t.extendedArg then a * 256 else 0;
        assert rest[1] == code[i + 1] && rest[2..] == Skip(code, i + 2);
        AppendPrepend(out, Instr(i, op, Some(a)), Py3Decode(Skip(code, i + 2), t, i + 2, ext'));
        extendedArg := ext';
        out := out + [Instr(i, op, Some(a))];
      } else {
        assert Skip(rest, 2) == Skip(code, i + 2);
        AppendPrepend(out, Instr(i, op, None), Py3Decode(Skip(code, i + 2), t, i + 2, extendedArg));
        out := out + [Instr(i, op, None)];
      }
      i := i + 2;
    }
    assert Skip(code, i) == [];
    r := Success(out);
    assert out + [] == out;
  }

  method UnpackOpargsPy2(code: seq<byte>, t: OpTable) returns (r: Result<seq<Instr>, Fault>)
    ensures r == Py2Decode(code, t, 0)
  {
    var out: seq<Instr> := [];
    var i: nat := 0;
    assert Skip(code, 0) == code;
    AppendNothing(Py2Decode(code, t, 0));
    while i < |code|
      invariant i <= |code| + 2
      invariant Py2Decode(code, t, 0) == Append(out, Py2Decode(Skip(code, i), t, i))
      decreases |code| - i
    {
      var op := code[i];
      var rest := Skip(code, i);
      assert rest[0] == op;
      var arg: Option<nat>;
      if op >= t.haveArgument {
        if i + 1 >= |code| {
          assert Py2Decode(rest, t, i) == Failure(TruncatedArgument(i));
          return Failure(TruncatedArgument(i));
        }
        arg := Some(code[i + 1]);
        assert rest[1] == code[i + 1] && Skip(rest, 3) == Skip(code, i + 3);
        i := i + 3;
      } else {
        arg := None;
        assert rest[1..] == Skip(code, i + 1);
        i := i + 1;
      }
      AppendPrepend(out, Instr(i, op, arg), Py2Decode(Skip(code, i), t, i));
      out := out + [Instr(i, op, arg)];
    }
    assert Skip(code, i) == [];
    r := Success(out);
    assert out + [] == out;
  }

  method UnpackOpargs(version: int, code: seq<byte>, t: OpTable) returns (r: Result<seq<Instr>, Fault>)
    ensures r == Decode(version, code, t)
  {
    if version == 3 {
      r := UnpackOpargsPy3(code, t);
    } else if version == 2 {
      r := UnpackOpargsPy2(code, t);
    } else {
      r := Success([]);
    }
  }

  // ---------------------------------------------------------------------
  // Python 3: a positional description of the decoded triples.

  /** The `extended_arg` accumulator in effect when the instruction at word
      `k` (offset `2k`) is read, starting from `ext0`: an EXTENDED_ARG sets it
      to its own argument shifted left by 8, any other argument-bearing
      opcode clears it, and an opcode without argument leaves it alone. */
  function AccAt(code: seq<byte>, t: OpTable, ext0: nat, k: nat): nat
    requires 2 * k <= |code|
  {
    if k == 0 then ext0
    else
      var p := 2 * (k - 1);
      var prev := AccAt(code, t, ext0, k - 1);
      if code[p] < t.haveArgument then prev
      else if code[p] == t.extendedArg then BitOr(code[p + 1], prev) * 256
      else 0
  }

  /** The accumulator after the first word of `code`. */
  function AccAfterFirst(code: seq<byte>, t: OpTable, ext0: nat): nat
    requires 2 <= |code|
  {
    if code[0] < t.haveArgument then ext0
    else if code[0] == t.extendedArg then BitOr(code[1], ext0) * 256
    else 0
  }

  /** Decoding succeeds unless the code has odd length and ends on an
      argument-bearing opcode. */
  predicate Py3Decodable(code: seq<byte>, t: OpTable) {
    |code| % 2 == 0 || code[|code| - 1] < t.haveArgument
  }

  lemma {:induction false} AccAtShift(code: seq<byte>, t: OpTable, ext0: nat, k: nat)
    requires 2 <= |code| && 2 * (k + 1) <= |code|
    ensures AccAt(code, t, ext0, k + 1) == AccAt(code[2..], t, AccAfterFirst(code, t, ext0), k)
  {
    if k > 0 {
      AccAtShift(code, t, ext0, k - 1);
      assert code[2..][2 * (k - 1)] == code[2 * k];
      assert code[2..][2 * (k - 1) + 1] == code[2 * k + 1];
    }
  }

  /** The accumulator handed to the rest of the code after the first word
      (or the single byte left). */
  function ExtAfterFirst(code: seq<byte>, t: OpTable, ext0: nat): nat
    requires 1 <= |code| && (code[0] >= t.haveArgument ==> 2 <= |code|)
  {
    if code[0] < t.haveArgument then ext0 else AccAfterFirst(code, t, ext0)
  }

  lemma Py3DecodeStep(code: seq<byte>, t: OpTable, base: nat, ext0: nat)
    requires 1 <= |code| && (code[0] >= t.haveArgument ==> 2 <= |code|)
    ensures var r := Py3Decode(code, t, base, ext0);
      var rest := Py3Decode(Skip(code, 2), t, base + 2, ExtAfterFirst(code, t, ext0));
      && (r.Success? <==> rest.Success?)
      && (r.Failure? ==> r.error == rest.error)
      && (r.Success? ==> |r.value| == 1 + |rest.value|)
  {
  }

  lemma Py3DecodableStep(code: seq<byte>, t: OpTable)
    requires 1 <= |code| && (code[0] >= t.haveArgument ==> 2 <= |code|)
    ensures Py3Decodable(code, t) <==> Py3Decodable(Skip(code, 2), t)
  {
    var rest := Skip(code, 2);
    if |rest| > 0 {
      assert rest[|rest| - 1] == code[|code| - 1];
    }
  }

  /** The Python 3 decoder fails exactly on a truncated last instruction,
      reporting its offset, and otherwise emits one triple per even offset
      below `|code|`. */
  lemma {:induction false} Py3DecodeOutcome(code: seq<byte>, t: OpTable, base: nat, ext0: nat)
    ensures Py3Decode(code, t, base, ext0).Success? <==> Py3Decodable(code, t)
    ensures Py3Decode(code, t, base, ext0).Failure? ==>
      Py3Decode(code, t, base, ext0).error == TruncatedArgument(base + |code| - 1)
    ensures Py3Decode(code, t, base, ext0).Success? ==>
      |Py3Decode(code, t, base, ext0).value| == (|code| + 1) / 2
    decreases |code|
  {
    if |code| == 0 {
    } else if code[0] >= t.haveArgument && |code| < 2 {
    } else {
      var rest := Skip(code, 2);
      Py3DecodeStep(code, t, base, ext0);
      Py3DecodeOutcome(rest, t, base + 2, ExtAfterFirst(code, t, ext0));
      Py3DecodableStep(code, t);
    }
  }

  /** A successful decoding into more than one triple is its first triple
      followed by the decoding of the rest, with the accumulator carried
      over. */
  lemma Py3DecodeTail(code: seq<byte>, t: OpTable, base: nat, ext0: nat)
    requires Py3Decode(code, t, base, ext0).Success?
    requires 1 < |Py3Decode(code, t, base, ext0).value|
    ensures 2 <= |code|
    ensures var r := Py3Decode(code, t, base, ext0).value;
      var rest := Py3Decode(code[2..], t, base + 2, AccAfterFirst(code, t, ext0));
      rest.Success? && r[1..] == rest.value
  {
    if |code| >= 2 {
      assert Skip(code, 2) == code[2..];
    }
  }

  /** Triple `k` of `r` as the Python 3 decoder emits it: offset `base + 2k`,
      the opcode at that offset, no argument below HAVE_ARGUMENT and
      otherwise the next byte OR-ed with the accumulator in effect. */
  predicate Py3At(code: seq<byte>, t: OpTable, base: nat, ext0: nat, r: seq<Instr>, k: nat)
    requires k < |r|
  {
    && 2 * k < |code|
    && r[k].offset == base + 2 * k
    && r[k].op == code[2 * k]
    && (code[2 * k] < t.haveArgument ==> r[k].arg == None)
    && (code[2 * k] >= t.haveArgument ==>
          2 * k + 1 < |code| && r[k].arg == Some(BitOr(code[2 * k + 1], AccAt(code, t, ext0, k))))
  }

  lemma Py3AtStep(code: seq<byte>, t: OpTable, base: nat, ext0: nat, r: seq<Instr>, k: nat)
    requires 0 < k < |r| && 2 <= |code|
    requires Py3At(code[2..], t, base + 2, AccAfterFirst(code, t, ext0), r[1..], k - 1)
    ensures Py3At(code, t, base, ext0, r, k)
  {
    assert r[k] == r[1..][k - 1];
    assert code[2..][2 * (k - 1)] == code[2 * k];
    if code[2 * k] >= t.haveArgument {
      assert code[2..][2 * (k - 1) + 1] == code[2 * k + 1];
      AccAtShift(code, t, ext0, k - 1);
    }
  }

  /** Every triple of a successful Python 3 decoding is where `Py3At` says. */
  lemma {:induction false} Py3DecodeAt(code: seq<byte>, t: OpTable, base: nat, ext0: nat, k: nat)
    requires Py3Decode(code, t, base, ext0).Success?
    requires k < |Py3Decode(code, t, base, ext0).value|
    ensures Py3At(code, t, base, ext0, Py3Decode(code, t, base, ext0).value, k)
    decreases k
  {
    if k == 0 {
    } else {
      Py3DecodeTail(code, t, base, ext0);
      Py3DecodeAt(code[2..], t, base + 2, AccAfterFirst(code, t, ext0), k - 1);
      Py3AtStep(code, t, base, ext0, Py3Decode(code, t, base, ext0).value, k);
    }
  }

  /** The accumulator is always a multiple of 256 when it starts at 0. */
  lemma {:induction false} AccAtIsShifted(code: seq<byte>, t: OpTable, k: nat)
    requires 2 * k <= |code|
    ensures AccAt(code, t, 0, k) % 256 == 0
  {
    if k > 0 {
      AccAtIsShifted(code, t, k - 1);
    }
  }

  /** From offset 0 the argument of an argument-bearing instruction is its
      own argument byte plus the accumulator: after EXTENDED_ARG with
      argument `a` that is `a * 256` plus the byte, after any other
      argument-bearing instruction just the byte. */
  lemma Py3Argument(code: seq<byte>, t: OpTable, k: nat)
    requires Py3Decode(code, t, 0, 0).Success?
    requires k < |Py3Decode(code, t, 0, 0).value|
    requires Py3Decode(code, t, 0, 0).value[k].arg.Some?
    ensures 2 * k + 1 < |code|
    ensures Py3Decode(code, t, 0, 0).value[k].arg.value == code[2 * k + 1] + AccAt(code, t, 0, k)
    ensures k > 0 && code[2 * k - 2] >= t.haveArgument && code[2 * k - 2] == t.extendedArg ==>
      var prev := Py3Decode(code, t, 0, 0).value[k - 1];
      prev.arg.Some? && AccAt(code, t, 0, k) == prev.arg.value * 256
    ensures k > 0 && code[2 * k - 2] >= t.haveArgument && code[2 * k - 2] != t.extendedArg ==>
      Py3Decode(code, t, 0, 0).value[k].arg.value == code[2 * k + 1]
  {
    Py3DecodeAt(code, t, 0, 0, k);
    if k > 0 {
      Py3DecodeAt(code, t, 0, 0, k - 1);
    }
    AccAtIsShifted(code, t, k);
    var acc := AccAt(code, t, 0, k);
    ByteOrShifted(code[2 * k + 1], acc / 256);
    assert 256 * (acc / 256) == acc;
  }

  // ---------------------------------------------------------------------
  // Python 2.

  /** The Python 2 walk, stepping by instruction widths from the first byte,
      lands on offset `p`. */
  predicate Py2Lands(code: seq<byte>, t: OpTable, p: nat)
    decreases |code|
  {
    if p == 0 then true
    else if |code| == 0 then false
    else
      var width := Py2Width(code[0], t);
      p >= width && Py2Lands(Skip(code, width), t, p - width)
  }

  /** A Python 2 decoding fails exactly when the walk lands on the last byte
      and that byte is an argument-bearing opcode, and then with that
      offset. It yields nothing exactly for empty code. */
  lemma {:induction false} Py2DecodeOutcome(code: seq<byte>, t: OpTable, base: nat)
    ensures Py2Decode(code, t, base).Failure? <==>
      |code| > 0 && Py2Lands(code, t, |code| - 1) && code[|code| - 1] >= t.haveArgument
    ensures Py2Decode(code, t, base).Failure? ==>
      && Py2Decode(code, t, base).error == TruncatedArgument(base + |code| - 1)
      && code[|code| - 1] >= t.haveArgument
    ensures Py2Decode(code, t, base).Success? ==>
      (|Py2Decode(code, t, base).value| == 0 <==> |code| == 0)
    decreases |code|
  {
    if |code| > 0 && !(code[0] >= t.haveArgument && |code| < 2) {
      var width := if code[0] >= t.haveArgument then 3 else 1;
      var rest := Skip(code, width);
      Py2DecodeOutcome(rest, t, base + width);
      if |code| - 1 >= width {
        assert |rest| == |code| - width;
        assert rest[|rest| - 1] == code[|code| - 1];
      }
    }
  }

  /** Where the Python 2 instruction `k` starts: `base` for the first, the
      offset reported for the one before otherwise. */
  function Py2Start(r: seq<Instr>, base: nat, k: nat): nat
    requires k < |r|
  {
    if k == 0 then base else r[k - 1].offset
  }

  /** The width of the Python 2 instruction starting with opcode `op`. */
  function Py2Width(op: byte, t: OpTable): nat {
    if op >= t.haveArgument then 3 else 1
  }

  lemma Py2DecodeFirst(code: seq<byte>, t: OpTable, base: nat)
    requires Py2Decode(code, t, base).Success?
    requires 0 < |Py2Decode(code, t, base).value|
    ensures Py2At(code, t, base, Py2Decode(code, t, base).value, 0)
  {
  }

  lemma Py2DecodeTail(code: seq<byte>, t: OpTable, base: nat)
    requires Py2Decode(code, t, base).Success?
    requires 1 < |Py2Decode(code, t, base).value|
    ensures 0 < |code| && Py2Width(code[0], t) <= |code|
    ensures var r := Py2Decode(code, t, base).value;
      var width := Py2Width(code[0], t);
      var rest := Py2Decode(code[width..], t, base + width);
      rest.Success? && r[1..] == rest.value && r[0].offset == base + width
  {
    var width := Py2Width(code[0], t);
    if width <= |code| {
      assert Skip(code, width) == code[width..];
    }
  }

  /** Triple `k` of `r` is the Python 2 instruction starting where the one
      before it ended (at `base` for the first): its offset is that start
      plus the instruction's width, 3 for argument-bearing opcodes and 1
      otherwise; the opcode is the byte at the start and the argument is
      only the byte after it. */
  predicate Py2At(code: seq<byte>, t: OpTable, base: nat, r: seq<Instr>, k: nat)
    requires k < |r|
  {
    var start := Py2Start(r, base, k);
    && base <= start < base + |code|
    && r[k].op == code[start - base]
    && r[k].offset == start + Py2Width(r[k].op, t)
    && (r[k].op >= t.haveArgument ==> start - base + 1 < |code| && r[k].arg == Some(code[start - base + 1] as nat))
    && (r[k].op < t.haveArgument ==> r[k].arg == None)
  }

  lemma Py2AtStep(code: seq<byte>, t: OpTable, base: nat, width: nat, r: seq<Instr>, k: nat)
    requires 0 < k < |r| && width <= |code|
    requires r[0].offset == base + width
    requires Py2At(code[width..], t, base + width, r[1..], k - 1)
    ensures Py2At(code, t, base, r, k)
  {
    assert r[k] == r[1..][k - 1];
    if k > 1 {
      assert r[k - 1] == r[1..][k - 2];
    }
  }

  /** Python 2 decoding walks the instructions one after the other. */
  lemma {:induction false} Py2DecodeAt(code: seq<byte>, t: OpTable, base: nat, k: nat)
    requires Py2Decode(code, t, base).Success?
    requires k < |Py2Decode(code, t, base).value|
    ensures Py2At(code, t, base, Py2Decode(code, t, base).value, k)
    decreases k
  {
    if k == 0 {
      Py2DecodeFirst(code, t, base);
    } else {
      Py2DecodeTail(code, t, base);
      var width := Py2Width(code[0], t);
      var r := Py2Decode(code, t, base).value;
      var rest := code[width..];
      Py2DecodeAt(rest, t, base + width, k - 1);
      assert Py2At(rest, t, base + width, r[1..], k - 1);
      Py2AtStep(code, t, base, width, r, k);
    }
  }

  /** The last Python 2 instruction ends at or past the end of the code. */
  lemma {:induction false} Py2DecodeCoversCode(code: seq<byte>, t: OpTable, base: nat)
    requires Py2Decode(code, t, base).Success?
    requires |Py2Decode(code, t, base).value| > 0
    ensures var r := Py2Decode(code, t, base).value;
      r[|r| - 1].offset >= base + |code|
    decreases |code|
  {
    var width := if code[0] >= t.haveArgument then 3 else 1;
    var rest := Skip(code, width);
    var r := Py2Decode(code, t, base).value;
    var r' := Py2Decode(rest, t, base + width).value;
    assert r == [r[0]] + r';
    if |r'| > 0 {
      Py2DecodeCoversCode(rest, t, base + width);
    } else {
      Py2DecodeOutcome(rest, t, base + width);
    }
  }
}
