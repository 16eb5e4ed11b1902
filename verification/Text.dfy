/** Strings as the units use them: code-point order, sorted keys, runs of characters, decimals. */
module Text {

  // ---- order ----

  /** Code-point order, in which both the database and `sorted` compare text. */
  predicate Le(a: string, b: string) {
    a == "" || (b != "" && (a[0] < b[0] || (a[0] == b[0] && Le(a[1..], b[1..]))))
  }

  lemma {:induction false} LeTotal(a: string, b: string)
    ensures Le(a, b) || Le(b, a)
  {
    if a != "" && b != "" && a[0] == b[0] {
      LeTotal(a[1..], b[1..]);
    }
  }

  lemma {:induction false} LeAntisymmetric(a: string, b: string)
    requires Le(a, b) && Le(b, a)
    ensures a == b
  {
    if a != "" {
      LeAntisymmetric(a[1..], b[1..]);
      assert a == [a[0]] + a[1..] && b == [b[0]] + b[1..];
    }
  }

  lemma {:induction false} LeTransitive(a: string, b: string, c: string)
    requires Le(a, b) && Le(b, c)
    ensures Le(a, c)
  {
    if a != "" && a[0] == b[0] && b[0] == c[0] {
      LeTransitive(a[1..], b[1..], c[1..]);
    }
  }

  /** `i` is where the texts first differ, and there `a` has the smaller character. */
  predicate SmallerAt(a: string, b: string, i: nat) {
    i < |a| && i < |b| && a[..i] == b[..i] && a[i] < b[i]
  }

  lemma SmallerFurtherOn(a: string, b: string, i: nat)
    requires a != "" && b != "" && a[0] == b[0]
    ensures SmallerAt(a, b, i + 1) <==> SmallerAt(a[1..], b[1..], i)
  {
    if i < |a[1..]| && i < |b[1..]| {
      assert a[..i + 1] == [a[0]] + a[1..][..i] && b[..i + 1] == [b[0]] + b[1..][..i];
      assert a[1..][..i] == a[..i + 1][1..] && b[1..][..i] == b[..i + 1][1..];
    }
  }

  lemma SmallerAtOnce(a: string, b: string, i: nat)
    requires a != "" && b != "" && a[0] != b[0]
    ensures SmallerAt(a, b, i) <==> i == 0 && a[0] < b[0]
  {
    if 0 < i <= |a| && i <= |b| {
      assert a[..i][0] == a[0] && b[..i][0] == b[0];
    }
  }

  /** The order is decided where the texts first differ; a start of a text comes before it. */
  lemma {:induction false} LeExactly(a: string, b: string)
    ensures Le(a, b) <==> a <= b || exists i: nat :: SmallerAt(a, b, i)
  {
    if a != "" && b != "" {
      if a[0] == b[0] {
        LeExactly(a[1..], b[1..]);
        assert a == [a[0]] + a[1..] && b == [b[0]] + b[1..];
        forall i: nat
          ensures SmallerAt(a, b, i + 1) <==> SmallerAt(a[1..], b[1..], i)
        {
          SmallerFurtherOn(a, b, i);
        }
        if i: nat :| SmallerAt(a, b, i) {
          assert i > 0 && SmallerAt(a[1..], b[1..], i - 1);
        }
        if i: nat :| SmallerAt(a[1..], b[1..], i) {
          assert SmallerAt(a, b, i + 1);
        }
      } else {
        assert SmallerAt(a, b, 0) <==> a[0] < b[0];
        forall i: nat
          ensures SmallerAt(a, b, i) <==> i == 0 && a[0] < b[0]
        {
          SmallerAtOnce(a, b, i);
        }
      }
    }
  }

  predicate Least(s: set<string>, m: string) {
    m in s && forall x | x in s :: Le(m, x)
  }

  lemma {:induction false} LeastExists(s: set<string>)
    requires s != {}
    ensures exists m :: Least(s, m)
  {
    var x :| x in s;
    LeTotal(x, x);
    var rest := s - {x};
    if rest == {} {
      assert forall y :: y in s ==> y == x || y in rest;
      assert Least(s, x);
    } else {
      LeastExists(rest);
      var m :| Least(rest, m);
      LeTotal(x, m);
      if Le(m, x) {
        assert Least(s, m);
      } else {
        forall y | y in s
          ensures Le(x, y)
        {
          if y != x { LeTransitive(x, m, y); }
        }
        assert Least(s, x);
      }
    }
  }

  lemma LeastUnique(s: set<string>, x: string, y: string)
    requires Least(s, x) && Least(s, y)
    ensures x == y
  {
    LeAntisymmetric(x, y);
  }

  function LeastOf(s: set<string>): (m: string)
    requires s != {}
    ensures Least(s, m)
  {
    LeastExists(s);
    assert forall x, y :: Least(s, x) && Least(s, y) ==> x == y by {
      forall x, y | Least(s, x) && Least(s, y)
        ensures x == y
      {
        LeastUnique(s, x, y);
      }
    }
    var m :| m in s && Least(s, m);
    m
  }

  /** The elements of `s` in order. */
  function Sorted(s: set<string>): (r: seq<string>)
    ensures forall x :: x in r <==> x in s
    ensures forall i, j :: 0 <= i < j < |r| ==> r[i] != r[j] && Le(r[i], r[j])
    decreases |s|
  {
    if s == {} then
      []
    else
      var m := LeastOf(s);
      [m] + Sorted(s - {m})
  }

  // ---- runs and trimming ----

  /** The white space of `str.split` and `str.strip`. */
  predicate IsSpace(c: char) {
    var n := c as int;
    || 0x09 <= n <= 0x0D || 0x1C <= n <= 0x20 || n == 0x85 || n == 0xA0 || n == 0x1680
    || 0x2000 <= n <= 0x200A || n == 0x2028 || n == 0x2029 || n == 0x202F || n == 0x205F || n == 0x3000
  }

  function TrimLeft(s: string): string {
    if s != "" && IsSpace(s[0]) then TrimLeft(s[1..]) else s
  }

  function TrimRight(s: string): string {
    if s != "" && IsSpace(s[|s| - 1]) then TrimRight(s[..|s| - 1]) else s
  }

  function Trim(s: string): string {
    TrimRight(TrimLeft(s))
  }

  predicate IsBlank(s: string) {
    forall c :: c in s ==> IsSpace(c)
  }

  predicate IsTrimmed(s: string) {
    s != "" ==> !IsSpace(s[0]) && !IsSpace(s[|s| - 1])
  }

  /** The space, the tabs and line ends, the separators 1C to 1F, NEL, and the Unicode space separators. */
  lemma SpacesExactly(c: char)
    ensures IsSpace(c) <==>
              c in {' ', '\t', '\n', '\r', '\U{0B}', '\U{0C}', '\U{1C}', '\U{1D}', '\U{1E}', '\U{1F}',
                    '\U{85}', '\U{A0}', '\U{1680}', '\U{2000}', '\U{2001}', '\U{2002}', '\U{2003}', '\U{2004}',
                    '\U{2005}', '\U{2006}', '\U{2007}', '\U{2008}', '\U{2009}', '\U{200A}', '\U{2028}', '\U{2029}',
                    '\U{202F}', '\U{205F}', '\U{3000}'}
  {
  }

  lemma {:induction false} TrimLeftExactly(blank: string, s: string)
    requires IsBlank(blank) && (s != "" ==> !IsSpace(s[0]))
    ensures TrimLeft(blank + s) == s
  {
    if blank == "" {
      assert blank + s == s;
    } else {
      assert blank[0] in blank && (blank + s)[1..] == blank[1..] + s;
      TrimLeftExactly(blank[1..], s);
    }
  }

  lemma {:induction false} TrimRightExactly(s: string, blank: string)
    requires IsBlank(blank) && (s != "" ==> !IsSpace(s[|s| - 1]))
    ensures TrimRight(s + blank) == s
  {
    if blank == "" {
      assert s + blank == s;
    } else {
      var n := |blank| - 1;
      assert blank[n] in blank && (s + blank)[..|s| + n] == s + blank[..n];
      TrimRightExactly(s, blank[..n]);
    }
  }

  /** Trimming takes off exactly the white space at both ends. */
  lemma TrimExactly(blank: string, s: string, blank': string)
    requires IsBlank(blank) && IsBlank(blank') && IsTrimmed(s)
    ensures Trim(blank + s + blank') == s
  {
    if s == "" {
      var all := blank + blank';
      assert blank + s + blank' == all && all == all + "";
      TrimLeftExactly(all, "");
    } else {
      assert blank + s + blank' == blank + (s + blank');
      TrimLeftExactly(blank, s + blank');
      TrimRightExactly(s, blank');
    }
  }

  lemma {:induction false} TrimLeftParts(s: string) returns (blank: string)
    ensures IsBlank(blank) && s == blank + TrimLeft(s) && (TrimLeft(s) != "" ==> !IsSpace(TrimLeft(s)[0]))
  {
    if s != "" && IsSpace(s[0]) {
      blank := TrimLeftParts(s[1..]);
      blank := [s[0]] + blank;
    } else {
      blank := "";
    }
  }

  lemma {:induction false} TrimRightParts(s: string) returns (blank: string)
    ensures IsBlank(blank) && s == TrimRight(s) + blank
    ensures TrimRight(s) != "" ==> !IsSpace(TrimRight(s)[|TrimRight(s)| - 1])
  {
    if s != "" && IsSpace(s[|s| - 1]) {
      blank := TrimRightParts(s[..|s| - 1]);
      blank := blank + [s[|s| - 1]];
    } else {
      blank := "";
    }
  }

  /** Every text is its trimmed part between two blanks. */
  lemma TrimParts(s: string) returns (blank: string, blank': string)
    ensures IsBlank(blank) && IsBlank(blank') && IsTrimmed(Trim(s)) && s == blank + Trim(s) + blank'
  {
    var left := TrimLeft(s);
    blank := TrimLeftParts(s);
    blank' := TrimRightParts(left);
    assert Trim(s) != "" ==> Trim(s)[0] == left[0];
  }

  lemma TrimmedAway(s: string)
    ensures Trim(s) == "" <==> IsBlank(s)
  {
    var p, q := TrimParts(s);
    if Trim(s) == "" {
      assert s == p + q;
    }
    if IsBlank(s) {
      assert s == s + "" + "";
      TrimExactly(s, "", "");
    }
  }

  function RunLength(s: string, keep: char -> bool): (n: nat)
    ensures n <= |s|
    ensures n < |s| ==> !keep(s[n])
    ensures forall i :: 0 <= i < n ==> keep(s[i])
  {
    if s != "" && keep(s[0]) then 1 + RunLength(s[1..], keep) else 0
  }

  /** The maximal runs of characters that satisfy `keep`. */
  function Runs(s: string, keep: char -> bool): (runs: seq<string>)
    ensures forall run :: run in runs ==> run != "" && forall c :: c in run ==> keep(c)
  {
    if s == "" then
      []
    else if keep(s[0]) then
      var n := RunLength(s, keep);
      [s[..n]] + Runs(s[n..], keep)
    else
      Runs(s[1..], keep)
  }

  lemma {:induction false} RunLengthAgrees(s: string, f: char -> bool, g: char -> bool)
    requires forall c :: f(c) == g(c)
    ensures RunLength(s, f) == RunLength(s, g)
  {
    if s != "" {
      RunLengthAgrees(s[1..], f, g);
    }
  }

  lemma {:induction false} RunsAgree(s: string, f: char -> bool, g: char -> bool)
    requires forall c :: f(c) == g(c)
    ensures Runs(s, f) == Runs(s, g)
    decreases |s|
  {
    if s != "" {
      RunLengthAgrees(s, f, g);
      if f(s[0]) {
        RunsAgree(s[RunLength(s, f)..], f, g);
      } else {
        RunsAgree(s[1..], f, g);
      }
    }
  }

  predicate AllKept(s: string, keep: char -> bool) {
    forall c :: c in s ==> keep(c)
  }

  /** No run goes on from `a` into `b`. */
  predicate Apart(a: string, b: string, keep: char -> bool) {
    a == "" || b == "" || !keep(a[|a| - 1]) || !keep(b[0])
  }

  lemma {:induction false} RunLengthSplit(a: string, b: string, keep: char -> bool)
    requires RunLength(a, keep) < |a| || b == "" || !keep(b[0])
    ensures RunLength(a + b, keep) == RunLength(a, keep)
  {
    if a == "" {
      assert a + b == b;
    } else {
      assert (a + b)[1..] == a[1..] + b;
      if keep(a[0]) {
        RunLengthSplit(a[1..], b, keep);
      }
    }
  }

  /** The runs of two parts are the runs of each, unless a run goes on from one into the other. */
  lemma {:induction false} RunsSplit(a: string, b: string, keep: char -> bool)
    requires Apart(a, b, keep)
    ensures Runs(a + b, keep) == Runs(a, keep) + Runs(b, keep)
    decreases |a|
  {
    if a == "" {
      assert a + b == b;
    } else if keep(a[0]) {
      var n := FirstRunSplit(a, b, keep);
      RunsSplit(a[n..], b, keep);
      FirstOfThree(a[..n], Runs(a[n..], keep), Runs(b, keep));
    } else {
      GapSplit(a, b, keep);
      RunsSplit(a[1..], b, keep);
    }
  }

  lemma FirstOfThree<T>(first: T, second: seq<T>, third: seq<T>)
    ensures [first] + (second + third) == ([first] + second) + third
  {
  }

  lemma GapSplit(a: string, b: string, keep: char -> bool)
    requires a != "" && !keep(a[0]) && Apart(a, b, keep)
    ensures Apart(a[1..], b, keep)
    ensures Runs(a, keep) == Runs(a[1..], keep) && Runs(a + b, keep) == Runs(a[1..] + b, keep)
  {
    assert (a + b)[1..] == a[1..] + b;
  }

  /** The first run of `a` is that of `a + b`, and what follows it is apart from `b`. */
  lemma FirstRunSplit(a: string, b: string, keep: char -> bool) returns (n: nat)
    requires a != "" && keep(a[0]) && Apart(a, b, keep)
    ensures 0 < n <= |a| && Apart(a[n..], b, keep)
    ensures Runs(a, keep) == [a[..n]] + Runs(a[n..], keep)
    ensures Runs(a + b, keep) == [a[..n]] + Runs(a[n..] + b, keep)
  {
    n := RunLength(a, keep);
    if n == |a| {
      assert keep(a[n - 1]);
    }
    RunLengthSplit(a, b, keep);
    assert (a + b)[..n] == a[..n] && (a + b)[n..] == a[n..] + b;
  }

  lemma {:induction false} RunLengthOfAll(s: string, keep: char -> bool)
    requires AllKept(s, keep)
    ensures RunLength(s, keep) == |s|
  {
    if s != "" {
      assert s[0] in s;
      RunLengthOfAll(s[1..], keep);
    }
  }

  lemma RunsOfRun(run: string, keep: char -> bool)
    requires run != "" && AllKept(run, keep)
    ensures Runs(run, keep) == [run]
  {
    RunLengthOfAll(run, keep);
    assert run[0] in run && run[..|run|] == run && run[|run|..] == "";
  }

  lemma {:induction false} RunsOfGap(gap: string, keep: char -> bool)
    requires forall c :: c in gap ==> !keep(c)
    ensures Runs(gap, keep) == []
  {
    if gap != "" {
      assert gap[0] in gap;
      RunsOfGap(gap[1..], keep);
    }
  }

  /** `run` stands in `s` between `front` and `rest`, and cannot be made longer. */
  ghost predicate IsRunAt(s: string, front: string, run: string, rest: string, keep: char -> bool) {
    && s == front + run + rest && run != "" && AllKept(run, keep)
    && (front != "" ==> !keep(front[|front| - 1])) && (rest != "" ==> !keep(rest[0]))
  }

  lemma RunsAround(s: string, front: string, run: string, rest: string, keep: char -> bool)
    requires IsRunAt(s, front, run, rest, keep)
    ensures Runs(s, keep) == Runs(front, keep) + [run] + Runs(rest, keep)
  {
    RunsOfRun(run, keep);
    RunsSplit(front + run, rest, keep);
    RunsSplit(front, run, keep);
  }

  /** A run of what follows the first `n` characters is one of the whole, unless they lengthen it. */
  lemma RunFurtherOn(s: string, n: nat, front: string, run: string, rest: string, keep: char -> bool)
    requires 0 < n <= |s| && IsRunAt(s[n..], front, run, rest, keep)
    requires front == "" ==> !keep(s[n - 1])
    ensures IsRunAt(s, s[..n] + front, run, rest, keep)
  {
    assert s == s[..n] + s[n..];
    assert s == (s[..n] + front) + run + rest;
  }

  lemma {:induction false} RunsFound(s: string, keep: char -> bool, run: string) returns (front: string, rest: string)
    requires run in Runs(s, keep)
    ensures IsRunAt(s, front, run, rest, keep)
    decreases |s|
  {
    if !keep(s[0]) {
      front, rest := RunsFound(s[1..], keep, run);
      RunFurtherOn(s, 1, front, run, rest, keep);
      front := s[..1] + front;
    } else {
      var n := RunLength(s, keep);
      if run == s[..n] {
        front, rest := "", s[n..];
        assert s == front + run + rest;
      } else {
        front, rest := RunsFound(s[n..], keep, run);
        assert run[0] in run && s[n..][0] == (front + run)[0];
        RunFurtherOn(s, n, front, run, rest, keep);
        front := s[..n] + front;
      }
    }
  }

  ghost predicate IsRunOf(s: string, run: string, keep: char -> bool) {
    exists front, rest :: IsRunAt(s, front, run, rest, keep)
  }

  /** The runs are exactly the stretches of kept characters that cannot be made longer. */
  lemma RunsExactly(s: string, keep: char -> bool, run: string)
    ensures run in Runs(s, keep) <==> IsRunOf(s, run, keep)
  {
    if run in Runs(s, keep) {
      var front, rest := RunsFound(s, keep, run);
    }
    if front, rest :| IsRunAt(s, front, run, rest, keep) {
      RunsAround(s, front, run, rest, keep);
    }
  }

  // ---- decimals ----

  function Digit(n: nat): char
    requires n < 10
  {
    "0123456789"[n]
  }

  function Decimal(n: nat): (s: string)
    ensures s != ""
  {
    if n < 10 then [Digit(n)] else Decimal(n / 10) + [Digit(n % 10)]
  }

  lemma {:induction false} DecimalInjective(m: nat, n: nat)
    requires Decimal(m) == Decimal(n)
    ensures m == n
  {
    var a, b := Decimal(m), Decimal(n);
    assert a[|a| - 1] == Digit(m % 10) && b[|b| - 1] == Digit(n % 10);
    if m >= 10 && n >= 10 {
      assert a[..|a| - 1] == Decimal(m / 10) && b[..|b| - 1] == Decimal(n / 10);
      DecimalInjective(m / 10, n / 10);
    }
  }

  /** The number that decimal digits write. */
  function Numeral(s: string): int {
    if s == "" then 0 else 10 * Numeral(s[..|s| - 1]) + (s[|s| - 1] as int - '0' as int)
  }

  /** A decimal writes its number, without a leading zero. */
  lemma {:induction false} DecimalExactly(n: nat)
    ensures forall c :: c in Decimal(n) ==> '0' <= c <= '9'
    ensures Numeral(Decimal(n)) == n && (n > 0 ==> Decimal(n)[0] != '0')
  {
    if n < 10 {
      assert Decimal(n)[..0] == "";
    } else {
      var s := Decimal(n);
      DecimalExactly(n / 10);
      assert s[..|s| - 1] == Decimal(n / 10);
    }
  }
}
