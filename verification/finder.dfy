/** What `get_modules_from_file` does with the modules a module finder
    reports for a script: drop the standard-library ones unless the system
    path was searched, then re-key every remaining module by the name
    `abs_mod_name` gives its file. The finder itself is not modelled: its
    report is the input, in the finder's order. */
module Finder {
  import opened Base
  import opened Naming

  /** A module the finder reports: the name it was found under and its
      source file. */
  datatype Found = Found(name: string, file: string)

  /** The standard-library filter: every module is kept when the system path
      was searched, otherwise only those the oracle does not call standard. */
  predicate Keeps(x: Found, isStd: string -> bool, useSysPath: bool) {
    useSysPath || !isStd(x.name)
  }

  /** The module dictionary rebuilt in the finder's order from the modules
      `keep` accepts, each under the name `rename` gives it: a later module
      renamed to the same name replaces an earlier one, and the first kept
      module `rename` rejects raises. */
  function Rekey(found: seq<Found>, keep: Found -> bool, rename: Found -> Result<string, Fault>): Result<map<string, Found>, Fault>
    decreases |found|
  {
    if |found| == 0 then Success(map[])
    else
      var x := found[|found| - 1];
      match Rekey(found[..|found| - 1], keep, rename)
      case Failure(e) => Failure(e)
      case Success(m) =>
        if !keep(x) then Success(m)
        else match rename(x)
          case Failure(e) => Failure(e)
          case Success(n) => Success(m[n := x])
  }

  /** `get_modules_from_file` after the finder has run: the filter, then
      the renaming by `abs_mod_name`. */
  function ModulesFromFinder(found: seq<Found>, root: string, isStd: string -> bool, useSysPath: bool): Result<map<string, Found>, Fault> {
    Rekey(found, (x: Found) => Keeps(x, isStd, useSysPath), (x: Found) => AbsModName(x.file, root))
  }

  /** Module `i` is kept and cannot be renamed. */
  predicate Unnameable(found: seq<Found>, i: nat, keep: Found -> bool, rename: Found -> Result<string, Fault>)
    requires i < |found|
  {
    keep(found[i]) && rename(found[i]).Failure?
  }

  /** Rekeying fails exactly when a kept module cannot be renamed, and then
      with the error of the first such module. */
  lemma {:induction false} RekeyFailure(found: seq<Found>, keep: Found -> bool, rename: Found -> Result<string, Fault>)
    ensures var r := Rekey(found, keep, rename);
      r.Success? <==> forall i | 0 <= i < |found| :: !Unnameable(found, i, keep, rename)
    ensures var r := Rekey(found, keep, rename);
      r.Failure? ==> exists i | 0 <= i < |found| ::
        && Unnameable(found, i, keep, rename)
        && rename(found[i]) == Failure(r.error)
        && forall j | 0 <= j < i :: !Unnameable(found, j, keep, rename)
    decreases |found|
  {
    if |found| > 0 {
      var n := |found| - 1;
      var init := found[..n];
      RekeyFailure(init, keep, rename);
      forall j | 0 <= j < n
        ensures Unnameable(init, j, keep, rename) == Unnameable(found, j, keep, rename)
      {
        assert init[j] == found[j];
      }
      var r0 := Rekey(init, keep, rename);
      if r0.Failure? {
        var i :| 0 <= i < n && Unnameable(init, i, keep, rename) && rename(init[i]) == Failure(r0.error)
          && forall j | 0 <= j < i :: !Unnameable(init, j, keep, rename);
        assert Unnameable(found, i, keep, rename);
      } else if Unnameable(found, n, keep, rename) {
        assert forall j | 0 <= j < n :: !Unnameable(found, j, keep, rename);
      }
    }
  }

  /** Every kept module's new name is a key of the result; the module held
      there is the last one renamed to it (see `RekeyLastWins`). */
  lemma {:induction false} RekeyKeys(found: seq<Found>, keep: Found -> bool, rename: Found -> Result<string, Fault>)
    requires Rekey(found, keep, rename).Success?
    ensures var m := Rekey(found, keep, rename).value;
      forall i | 0 <= i < |found| && keep(found[i]) :: rename(found[i]).Success? && rename(found[i]).value in m
    decreases |found|
  {
    if |found| > 0 {
      var n := |found| - 1;
      var init := found[..n];
      RekeyKeys(init, keep, rename);
      assert forall j | 0 <= j < n :: init[j] == found[j];
    }
  }

  /** Module `i` is the last kept module renamed to `n`. */
  predicate LastRenamedTo(found: seq<Found>, i: nat, n: string, keep: Found -> bool, rename: Found -> Result<string, Fault>)
    requires i < |found|
  {
    && keep(found[i])
    && rename(found[i]) == Success(n)
    && forall j | i < j < |found| && keep(found[j]) :: rename(found[j]) != Success(n)
  }

  /** Every name in the result holds the last kept module renamed to it:
      later modules win. */
  lemma {:induction false} RekeyLastWins(found: seq<Found>, keep: Found -> bool, rename: Found -> Result<string, Fault>)
    requires Rekey(found, keep, rename).Success?
    ensures var m := Rekey(found, keep, rename).value;
      forall n | n in m :: exists i | 0 <= i < |found| :: m[n] == found[i] && LastRenamedTo(found, i, n, keep, rename)
    decreases |found|
  {
    if |found| > 0 {
      var last := |found| - 1;
      var init := found[..last];
      var x := found[last];
      RekeyLastWins(init, keep, rename);
      var m0 := Rekey(init, keep, rename).value;
      var m := Rekey(found, keep, rename).value;
      forall n | n in m
        ensures exists i | 0 <= i < |found| :: m[n] == found[i] && LastRenamedTo(found, i, n, keep, rename)
      {
        if keep(x) && rename(x) == Success(n) {
          assert LastRenamedTo(found, last, n, keep, rename);
        } else {
          var i :| 0 <= i < last && m0[n] == init[i] && LastRenamedTo(init, i, n, keep, rename);
          LastRenamedExtend(found, i, n, keep, rename);
        }
      }
    }
  }

  lemma LastRenamedExtend(found: seq<Found>, i: nat, n: string, keep: Found -> bool, rename: Found -> Result<string, Fault>)
    requires i < |found| - 1
    requires LastRenamedTo(found[..|found| - 1], i, n, keep, rename)
    requires !(keep(found[|found| - 1]) && rename(found[|found| - 1]) == Success(n))
    ensures LastRenamedTo(found, i, n, keep, rename)
  {
    var init := found[..|found| - 1];
    assert found[i] == init[i];
    forall j | i < j < |found| && keep(found[j])
      ensures rename(found[j]) != Success(n)
    {
      if j < |found| - 1 {
        assert found[j] == init[j];
      }
    }
  }

  /** Without the system path, no standard-library module survives; with
      it, every module the finder reports has its new name as a key. */
  lemma StdlibModulesDropped(found: seq<Found>, root: string, isStd: string -> bool, useSysPath: bool)
    requires ModulesFromFinder(found, root, isStd, useSysPath).Success?
    ensures var m := ModulesFromFinder(found, root, isStd, useSysPath).value;
      !useSysPath ==> forall n | n in m :: !isStd(m[n].name)
    ensures var m := ModulesFromFinder(found, root, isStd, useSysPath).value;
      useSysPath ==> forall i | 0 <= i < |found| :: AbsModName(found[i].file, root).Success? && AbsModName(found[i].file, root).value in m
  {
    RekeyLastWins(found, (x: Found) => Keeps(x, isStd, useSysPath), (x: Found) => AbsModName(x.file, root));
    RekeyKeys(found, (x: Found) => Keeps(x, isStd, useSysPath), (x: Found) => AbsModName(x.file, root));
  }
}
