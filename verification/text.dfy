/** The Python string operations the module naming uses, on `seq<char>`:
    `in`, slicing, `replace`, `split` and `join`. */
module Text {

  /** `sub in s`. */
  predicate Contains(s: string, sub: string)
    decreases |s|
  {
    |sub| <= |s| && (s[..|sub|] == sub || (|s| > 0 && Contains(s[1..], sub)))
  }

  /** `s[n:]` for `n >= 0`. */
  function Drop(s: string, n: nat): string {
    if n <= |s| then s[n..] else ""
  }

  /** `s[:-n]` for `n > 0`. */
  function DropLast(s: string, n: nat): string
    requires n > 0
  {
    if n <= |s| then s[..|s| - n] else ""
  }

  /** `s[-n:]` for `n > 0`. */
  function TakeLast(s: string, n: nat): string
    requires n > 0
  {
    if n <= |s| then s[|s| - n..] else s
  }

  /** `s.replace(a, b)` for single characters. */
  function ReplaceChar(s: string, a: char, b: char): (r: string)
    ensures |r| == |s|
  {
    if |s| == 0 then "" else [if s[0] == a then b else s[0]] + ReplaceChar(s[1..], a, b)
  }

  /** `s.replace(pat, repl)`: every occurrence, left to right, without
      overlap. */
  function ReplaceAll(s: string, pat: string, repl: string): string
    requires |pat| > 0
    decreases |s|
  {
    if |s| < |pat| then s
    else if s[..|pat|] == pat then repl + ReplaceAll(s[|pat|..], pat, repl)
    else [s[0]] + ReplaceAll(s[1..], pat, repl)
  }

  /** `s.split(c)`: never empty; `"".split(c) == [""]`. */
  function Split(s: string, c: char): (parts: seq<string>)
    ensures |parts| >= 1
  {
    if |s| == 0 then [""]
    else
      var rest := Split(s[1..], c);
      if s[0] == c then [""] + rest else [[s[0]] + rest[0]] + rest[1..]
  }

  /** `c.join(parts)`. */
  function Join(parts: seq<string>, c: char): string {
    if |parts| == 0 then ""
    else if |parts| == 1 then parts[0]
    else parts[0] + [c] + Join(parts[1..], c)
  }

  predicate NoChar(s: string, c: char) {
    forall i | 0 <= i < |s| :: s[i] != c
  }

  // ---------------------------------------------------------------------

  /** Joining the pieces of a split with the same separator restores the
      string. */
  lemma {:induction false} JoinSplit(s: string, c: char)
    ensures Join(Split(s, c), c) == s
  {
    if |s| > 0 {
      var rest := Split(s[1..], c);
      JoinSplit(s[1..], c);
      if s[0] == c {
        assert Join([""] + rest, c) == "" + [c] + Join(rest, c);
      } else {
        var parts := [[s[0]] + rest[0]] + rest[1..];
        if |rest| > 1 {
          assert parts[1..] == rest[1..];
          assert Join(rest, c) == rest[0] + [c] + Join(rest[1..], c);
        }
      }
    }
  }

  /** No piece of a split holds the separator. */
  lemma {:induction false} SplitPiecesNoSep(s: string, c: char)
    ensures forall p | p in Split(s, c) :: NoChar(p, c)
  {
    if |s| > 0 {
      SplitPiecesNoSep(s[1..], c);
      var rest := Split(s[1..], c);
      if s[0] != c {
        assert NoChar(rest[0], c);
        assert NoChar([s[0]] + rest[0], c);
        forall p | p in rest[1..] ensures p in rest { }
      }
    }
  }

  /** Splitting a string with no separator in it gives the string itself. */
  lemma {:induction false} SplitNoSep(s: string, c: char)
    requires NoChar(s, c)
    ensures Split(s, c) == [s]
  {
    if |s| > 0 {
      assert NoChar(s[1..], c) by {
        forall i | 0 <= i < |s| - 1 ensures s[1..][i] != c {
          assert s[1..][i] == s[i + 1];
        }
      }
      SplitNoSep(s[1..], c);
      assert [s[0]] + s[1..] == s;
    }
  }

  /** Splitting around one separator splits each side. */
  lemma {:induction false} SplitAround(s: string, c: char, t: string)
    ensures Split(s + [c] + t, c) == Split(s, c) + Split(t, c)
  {
    if |s| == 0 {
      assert s + [c] + t == [c] + t;
      assert ([c] + t)[1..] == t;
    } else {
      assert (s + [c] + t)[1..] == s[1..] + [c] + t;
      SplitAround(s[1..], c, t);
      var a, b := Split(s[1..], c), Split(t, c);
      if s[0] == c {
        AppendAssoc([""], a, b);
      } else {
        HeadAppend([s[0]] + a[0], a, b);
      }
    }
  }

  lemma HeadAppend<T>(x: T, a: seq<T>, b: seq<T>)
    requires |a| >= 1
    ensures [x] + (a + b)[1..] == ([x] + a[1..]) + b
  {
  }

  /** `parts` with `t` appended to its last piece. */
  function ExtendLast(parts: seq<string>, t: string): (r: seq<string>)
    requires |parts| >= 1
    ensures |r| == |parts| && r[..|r| - 1] == parts[..|parts| - 1] && r[|r| - 1] == parts[|parts| - 1] + t
  {
    parts[..|parts| - 1] + [parts[|parts| - 1] + t]
  }

  lemma AppendAssoc<T>(a: seq<T>, b: seq<T>, c: seq<T>)
    ensures (a + b) + c == a + (b + c)
  {
  }

  lemma SnocLast<T>(s: seq<T>)
    requires |s| >= 1
    ensures s[..|s| - 1] + [s[|s| - 1]] == s
  {
  }

  lemma PrefixOfSnoc<T>(s: seq<T>, x: T)
    ensures (s + [x])[..|s|] == s
  {
  }

  lemma ExtendLastCons(x: string, parts: seq<string>, t: string)
    requires |parts| >= 1
    ensures ExtendLast([x] + parts, t) == [x] + ExtendLast(parts, t)
  {
    assert ([x] + parts)[..|parts|] == [x] + parts[..|parts| - 1];
  }

  /** Appending text without the separator extends the last piece. */
  lemma {:induction false} SplitAppend(s: string, c: char, t: string)
    requires NoChar(t, c)
    ensures Split(s + t, c) == ExtendLast(Split(s, c), t)
  {
    if |s| == 0 {
      assert s + t == t;
      SplitNoSep(t, c);
    } else {
      var u := s + t;
      var rest := Split(s[1..], c);
      assert u[0] == s[0] && u[1..] == s[1..] + t;
      SplitAppend(s[1..], c, t);
      if s[0] == c {
        SplitSepHead(s, c);
        SplitSepHead(u, c);
        ExtendLastCons("", rest, t);
      } else {
        SplitCharHead(s, c);
        SplitCharHead(u, c);
        SplitAppendChar(s[0], rest, t);
      }
    }
  }

  lemma SplitAppendChar(x: char, rest: seq<string>, t: string)
    requires |rest| >= 1
    ensures var rest' := ExtendLast(rest, t);
      [[x] + rest'[0]] + rest'[1..] == ExtendLast([[x] + rest[0]] + rest[1..], t)
  {
    var rest' := ExtendLast(rest, t);
    if |rest| == 1 {
      assert rest' == [rest[0] + t];
      assert [x] + (rest[0] + t) == ([x] + rest[0]) + t;
    } else {
      assert rest'[0] == rest[0];
      assert rest'[1..] == ExtendLast(rest[1..], t);
      ExtendLastCons([x] + rest[0], rest[1..], t);
    }
  }

  lemma SplitSepHead(s: string, c: char)
    requires |s| > 0 && s[0] == c
    ensures Split(s, c) == [""] + Split(s[1..], c)
  {
  }

  lemma SplitCharHead(s: string, c: char)
    requires |s| > 0 && s[0] != c
    ensures var rest := Split(s[1..], c);
      Split(s, c) == [[s[0]] + rest[0]] + rest[1..]
  {
  }

  /** Replacing one separator by another keeps the pieces. */
  lemma {:induction false} SplitReplaceChar(s: string, a: char, b: char)
    requires NoChar(s, b)
    ensures Split(ReplaceChar(s, a, b), b) == Split(s, a)
  {
    if |s| > 0 {
      SplitReplaceChar(s[1..], a, b);
      assert ReplaceChar(s, a, b)[1..] == ReplaceChar(s[1..], a, b);
    }
  }

  /** Replacing a character that does not occur changes nothing. */
  lemma {:induction false} ReplaceCharAbsent(s: string, a: char, b: char)
    requires NoChar(s, a)
    ensures ReplaceChar(s, a, b) == s
  {
    if |s| > 0 {
      ReplaceCharAbsent(s[1..], a, b);
    }
  }

  /** Replacing `a` by `b` and then `b` by `a` restores a string without
      `b`. */
  lemma {:induction false} ReplaceCharBack(s: string, a: char, b: char)
    requires NoChar(s, b)
    ensures ReplaceChar(ReplaceChar(s, a, b), b, a) == s
  {
    if |s| > 0 {
      ReplaceCharBack(s[1..], a, b);
      assert ReplaceChar(s, a, b)[1..] == ReplaceChar(s[1..], a, b);
    }
  }

  lemma {:induction false} ReplaceCharConcat(s: string, t: string, a: char, b: char)
    ensures ReplaceChar(s + t, a, b) == ReplaceChar(s, a, b) + ReplaceChar(t, a, b)
  {
    if |s| == 0 {
      assert s + t == t;
    } else {
      assert (s + t)[1..] == s[1..] + t;
      ReplaceCharConcat(s[1..], t, a, b);
    }
  }

  /** A string contains each of its suffixes. */
  lemma {:induction false} ContainsSuffix(s: string, sub: string)
    ensures Contains(s + sub, sub)
  {
    if |s| > 0 {
      assert (s + sub)[1..] == s[1..] + sub;
      ContainsSuffix(s[1..], sub);
    } else {
      assert (s + sub)[..|sub|] == sub;
    }
  }

  /** A string missing one of the characters of `sub` does not contain
      `sub`. */
  lemma {:induction false} MissingCharNotContained(s: string, sub: string, k: nat)
    requires k < |sub| && NoChar(s, sub[k])
    ensures !Contains(s, sub)
    decreases |s|
  {
    if |sub| <= |s| {
      assert s[..|sub|][k] != sub[k];
      if |s| > 0 {
        assert NoChar(s[1..], sub[k]) by {
          forall i | 0 <= i < |s| - 1 ensures s[1..][i] != sub[k] {
            assert s[1..][i] == s[i + 1];
          }
        }
        MissingCharNotContained(s[1..], sub, k);
      }
    }
  }

  /** `sub` occurs in `s` starting at index `i`. */
  predicate OccursAt(s: string, sub: string, i: nat) {
    i + |sub| <= |s| && s[i..i + |sub|] == sub
  }

  /** `Contains` holds exactly when `sub` occurs at some index. */
  lemma {:induction false} ContainsOccurs(s: string, sub: string)
    ensures Contains(s, sub) <==> exists i: nat :: OccursAt(s, sub, i)
    decreases |s|
  {
    if |sub| <= |s| && |s| > 0 {
      var t := s[1..];
      ContainsOccurs(t, sub);
      forall i: nat | 1 <= i
        ensures OccursAt(s, sub, i) == OccursAt(t, sub, i - 1)
      {
        if i + |sub| <= |s| {
          assert t[i - 1..i - 1 + |sub|] == s[i..i + |sub|];
        }
      }
      if Contains(t, sub) {
        var i: nat :| OccursAt(t, sub, i);
        assert OccursAt(s, sub, i + 1);
      }
      if exists i: nat :: OccursAt(s, sub, i) {
        var i: nat :| OccursAt(s, sub, i);
        if i > 0 {
          assert OccursAt(t, sub, i - 1);
        } else {
          assert s[..|sub|] == s[0..|sub|];
        }
      }
      if s[..|sub|] == sub {
        assert s[0..|sub|] == sub;
        assert OccursAt(s, sub, 0);
      }
    } else if |sub| <= |s| {
      assert OccursAt(s, sub, 0);
    }
  }

  /** Joining two strings with a separator that `w` does not hold creates
      no occurrence of `w`. */
  lemma ContainsJoin(a: string, b: string, c: char, w: string)
    requires NoChar(w, c) && !Contains(a, w) && !Contains(b, w)
    ensures !Contains(a + [c] + b, w)
  {
    ContainsOccurs(a, w);
    ContainsOccurs(b, w);
    ContainsOccurs(a + [c] + b, w);
    forall i: nat
      ensures !OccursAt(a + [c] + b, w, i)
    {
      if i + |w| <= |a| {
        JoinWindowLeft(a, b, c, w, i);
      } else if i > |a| {
        JoinWindowRight(a, b, c, w, i);
      } else {
        JoinWindowAcross(a, b, c, w, i);
      }
    }
  }

  lemma JoinWindowLeft(a: string, b: string, c: char, w: string, i: nat)
    requires i + |w| <= |a| && !OccursAt(a, w, i)
    ensures !OccursAt(a + [c] + b, w, i)
  {
    assert (a + [c] + b)[i..i + |w|] == a[i..i + |w|];
  }

  lemma JoinWindowRight(a: string, b: string, c: char, w: string, i: nat)
    requires i > |a| && !OccursAt(b, w, i - |a| - 1)
    ensures !OccursAt(a + [c] + b, w, i)
  {
    var s := a + [c] + b;
    var j := i - |a| - 1;
    if i + |w| <= |s| {
      assert s[i..i + |w|] == b[j..j + |w|];
    }
  }

  lemma JoinWindowAcross(a: string, b: string, c: char, w: string, i: nat)
    requires NoChar(w, c) && i <= |a| < i + |w|
    ensures !OccursAt(a + [c] + b, w, i)
  {
    var s := a + [c] + b;
    if i + |w| <= |s| {
      assert s[i..i + |w|][|a| - i] == c;
    }
  }

  /** Replacing text that does not occur changes nothing. */
  lemma {:induction false} ReplaceAllAbsent(s: string, pat: string, repl: string)
    requires |pat| > 0 && !Contains(s, pat)
    ensures ReplaceAll(s, pat, repl) == s
  {
    if |s| >= |pat| {
      ReplaceAllAbsent(s[1..], pat, repl);
    }
  }

  /** Removing `.__init__` from a name that ends with it and holds it nowhere
      else leaves the name in front. The window that straddles the end of
      `x` cannot match, because `.` occurs in `.__init__` only at its start. */
  lemma {:induction false} RemoveTrailingInit(x: string)
    requires !Contains(x, ".__init__")
    ensures ReplaceAll(x + ".__init__", ".__init__", "") == x
  {
    var pat := ".__init__";
    var s := x + pat;
    if |x| == 0 {
      assert s == pat;
      assert s[..|pat|] == pat && s[|pat|..] == "";
    } else {
      assert s[..|pat|] != pat by {
        if |x| >= |pat| {
          assert s[..|pat|] == x[..|pat|];
        } else {
          assert s[..|pat|][|x|] == '.';
          assert pat[|x|] != '.';
        }
      }
      assert s[1..] == x[1..] + pat;
      RemoveTrailingInit(x[1..]);
      assert [x[0]] + x[1..] == x;
    }
  }

  /** The first piece of a split is the text before the first separator. */
  lemma {:induction false} SplitHead(s: string, c: char)
    ensures var h := Split(s, c)[0];
      |h| <= |s| && s[..|h|] == h && NoChar(h, c) && (|h| == |s| || s[|h|] == c)
  {
    if |s| > 0 && s[0] != c {
      SplitHead(s[1..], c);
      var h' := Split(s[1..], c)[0];
      var h := Split(s, c)[0];
      assert h == [s[0]] + h';
      assert s[..|h|] == [s[0]] + s[1..][..|h'|];
    }
  }

  /** Splitting a join of pieces without the separator gives the pieces back. */
  lemma {:induction false} SplitJoin(parts: seq<string>, c: char)
    requires |parts| >= 1
    requires forall i | 0 <= i < |parts| :: NoChar(parts[i], c)
    ensures Split(Join(parts, c), c) == parts
  {
    if |parts| == 1 {
      SplitNoSep(parts[0], c);
    } else {
      SplitJoin(parts[1..], c);
      SplitAround(parts[0], c, Join(parts[1..], c));
      SplitNoSep(parts[0], c);
      assert [parts[0]] + parts[1..] == parts;
    }
  }

  /** Replacing the separator of a join by another one re-joins the pieces
      with the other one. */
  lemma {:induction false} ReplaceCharJoin(parts: seq<string>, a: char, b: char)
    requires forall i | 0 <= i < |parts| :: NoChar(parts[i], a)
    ensures ReplaceChar(Join(parts, a), a, b) == Join(parts, b)
  {
    if |parts| == 1 {
      ReplaceCharAbsent(parts[0], a, b);
    } else if |parts| > 1 {
      ReplaceCharJoin(parts[1..], a, b);
      ReplaceCharAbsent(parts[0], a, b);
      ReplaceCharConcat(parts[0] + [a], Join(parts[1..], a), a, b);
      ReplaceCharConcat(parts[0], [a], a, b);
    }
  }

  /** A string that holds `[c] + sub` holds `sub`. */
  lemma {:induction false} ContainsTail(s: string, c: char, sub: string)
    requires Contains(s, [c] + sub)
    ensures Contains(s, sub)
    decreases |s|
  {
    if s[..|sub| + 1] == [c] + sub {
      assert s[1..][..|sub|] == sub;
    } else {
      ContainsTail(s[1..], c, sub);
    }
    if s[..|sub|] != sub {
      assert |s| > 0;
    }
  }

  // ---------------------------------------------------------------------
  // Python's ordering of `str` values, which `sorted` uses.

  /** `a < b` on strings: lexicographic by code point, a proper prefix first. */
  predicate StrLess(a: string, b: string) {
    |b| > 0 && (|a| == 0 || a[0] < b[0] || (a[0] == b[0] && StrLess(a[1..], b[1..])))
  }

  lemma {:induction false} StrLessIrreflexive(a: string)
    ensures !StrLess(a, a)
  {
    if |a| > 0 {
      StrLessIrreflexive(a[1..]);
    }
  }

  lemma {:induction false} StrLessTransitive(a: string, b: string, d: string)
    requires StrLess(a, b) && StrLess(b, d)
    ensures StrLess(a, d)
  {
    if |a| > 0 && a[0] == b[0] && b[0] == d[0] {
      StrLessTransitive(a[1..], b[1..], d[1..]);
    }
  }

  lemma {:induction false} StrLessTotal(a: string, b: string)
    requires a != b
    ensures StrLess(a, b) || StrLess(b, a)
  {
    if |a| > 0 && |b| > 0 && a[0] == b[0] {
      assert a == [a[0]] + a[1..] && b == [b[0]] + b[1..];
      StrLessTotal(a[1..], b[1..]);
    }
  }

  /** `x` is a least element of `s`. */
  predicate IsLeast(x: string, s: set<string>) {
    x in s && forall y | y in s :: !StrLess(y, x)
  }

  /** Every finite non-empty set of strings has a least element. */
  lemma {:induction false} LeastExists(s: set<string>)
    requires s != {}
    ensures exists x :: IsLeast(x, s)
    decreases |s|
  {
    var x :| x in s;
    var rest := s - {x};
    if rest == {} {
      assert s == {x};
      StrLessIrreflexive(x);
      assert IsLeast(x, s);
    } else {
      LeastExists(rest);
      var m :| IsLeast(m, rest);
      LeastOfInsert(x, m, rest);
      assert s == rest + {x};
      if !IsLeast(x, s) {
        assert IsLeast(m, s);
      }
    }
  }

  lemma LeastOfInsert(x: string, m: string, rest: set<string>)
    requires IsLeast(m, rest)
    ensures IsLeast(x, rest + {x}) || IsLeast(m, rest + {x})
  {
    if StrLess(x, m) {
      StrLessIrreflexive(x);
      forall y | y in rest ensures !StrLess(y, x) {
        if StrLess(y, x) {
          StrLessTransitive(y, x, m);
        }
      }
    }
  }
}
