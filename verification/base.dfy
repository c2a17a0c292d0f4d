/** Values shared by every stage of the import analysis: optional values,
    results that carry the Python exception a stage would raise, bytes, and
    Python's `|` on non-negative integers. */
module Base {

  datatype Option<+T> = None | Some(value: T)

  datatype Result<+T, +E> = Success(value: T) | Failure(error: E)

  /** One element of a `bytes` object. */
  type byte = b: int | 0 <= b < 256

  /** The exceptions the analysis can raise on input it cannot handle. */
  datatype Fault =
      /** IndexError: an argument-bearing opcode is the last byte of the code */
    | TruncatedArgument(offset: nat)
      /** IndexError or TypeError: `names[arg]` or `consts[arg]` with no
          argument or an argument past the end of the table */
    | BadTableIndex(position: nat)
      /** TypeError: the fromlist of a kept absolute import is not a tuple */
    | FromlistNotIterable(target: string)
      /** the module's source file cannot be opened or compiled */
    | ModuleUnreadable(file: string)
      /** IndexError in `abs_mod_name`: the path has no segment below the root */
    | NoPathBelowRoot(file: string)

  function Pow2(n: nat): (r: nat)
    ensures r >= 1
  {
    if n == 0 then 1 else 2 * Pow2(n - 1)
  }

  /** Python's `a | b` on non-negative integers, one bit at a time from the
      least significant end. */
  function BitOr(a: nat, b: nat): nat
    decreases a + b
  {
    if a == 0 then b
    else if b == 0 then a
    else 2 * BitOr(a / 2, b / 2) + (if a % 2 == 1 || b % 2 == 1 then 1 else 0)
  }

  /** OR-ing a value below 2^n into a multiple of 2^n is addition: the two
      have no set bit in common. */
  lemma {:induction false} BitOrDisjoint(n: nat, low: nat, k: nat)
    requires low < Pow2(n)
    ensures BitOr(low, Pow2(n) * k) == Pow2(n) * k + low
  {
    var high := Pow2(n) * k;
    if low != 0 && high != 0 {
      assert n > 0;
      var half := Pow2(n - 1) * k;
      assert high == 2 * half by {
        assert Pow2(n) == 2 * Pow2(n - 1);
      }
      assert low / 2 < Pow2(n - 1);
      BitOrDisjoint(n - 1, low / 2, k);
      assert BitOr(low, high) == 2 * BitOr(low / 2, half) + low % 2;
    }
  }

  /** The case the bytecode decoder relies on: a byte OR-ed into a multiple
      of 256. */
  lemma ByteOrShifted(b: byte, k: nat)
    ensures BitOr(b, 256 * k) == 256 * k + b
  {
    assert Pow2(8) == 256 by {
      assert Pow2(4) == 16;
    }
    BitOrDisjoint(8, b, k);
  }
}
