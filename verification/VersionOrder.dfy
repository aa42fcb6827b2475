/**
 The version comparison of packages/package.c without rpmlib: debvercmp and its
 wrapper, against the order of section 5.6.12 of the Debian Policy Manual.
 */
module VersionOrder {
  import opened CText
  import opened Ordering

  /** The weight of one character; end of string weighs as NUL does. */
  function Order(c: char): int {
    if IsDigit(c) then 0
    else if IsAlpha(c) then c as int
    else if c == '~' then -1
    else if c != NUL then c as int + 256
    else 0
  }

  // ---------------------------------------------------------------------
  // Reference order: alternating tokens of non-digits and a number
  // ---------------------------------------------------------------------

  datatype Token = Token(run: string, number: nat)

  const NO_TOKEN := Token("", 0)

  /** The longest prefix without digits. */
  function NonDigits(s: string): string {
    if s == [] || IsDigit(s[0]) then [] else [s[0]] + NonDigits(s[1..])
  }

  function AfterNonDigits(s: string): (r: string)
    ensures |r| <= |s|
    ensures r == [] || IsDigit(r[0])
    ensures s != [] && !IsDigit(s[0]) ==> |r| < |s|
  {
    if s == [] || IsDigit(s[0]) then s else AfterNonDigits(s[1..])
  }

  /** The value of the digits that s starts with, read after a prefix worth acc. */
  function NumberFrom(acc: nat, s: string): nat
    decreases |s|
  {
    if s == [] || !IsDigit(s[0]) then acc else NumberFrom(10 * acc + DigitValue(s[0]), s[1..])
  }

  function AfterDigits(s: string): (r: string)
    ensures |r| <= |s|
    ensures r == [] || !IsDigit(r[0])
    ensures s != [] && IsDigit(s[0]) ==> |r| < |s|
  {
    if s == [] || !IsDigit(s[0]) then s else AfterDigits(s[1..])
  }

  function FirstToken(s: string): Token {
    Token(NonDigits(s), NumberFrom(0, AfterNonDigits(s)))
  }

  function AfterToken(s: string): (r: string)
    ensures |r| <= |s|
    ensures s != [] ==> |r| < |s|
  {
    AfterDigits(AfterNonDigits(s))
  }

  function Tokens(s: string): seq<Token>
    decreases |s|
  {
    if s == [] then [] else [FirstToken(s)] + Tokens(AfterToken(s))
  }

  function CompareWeights(x: char, y: char): int {
    Order(x) - Order(y)
  }

  /** Runs compare by weight, the shorter one continuing with end-of-string. */
  function CompareRuns(a: string, b: string): int {
    LexPad(CompareWeights, NUL, a, b)
  }

  function CompareTokens(x: Token, y: Token): int {
    Lexically(CompareRuns(x.run, y.run), x.number - y.number)
  }

  function DebOrder(a: string, b: string): int {
    LexPad(CompareTokens, NO_TOKEN, Tokens(a), Tokens(b))
  }

  lemma DebOrderTotalPreorder()
    ensures TotalPreorder(DebOrder)
  {
    LexPadTotalPreorder(CompareWeights, NUL);
    var runs := (a: string, b: string) => LexPad(CompareWeights, NUL, a, b);
    assert forall a: string, b: string :: CompareRuns(a, b) == runs(a, b);
    assert TotalPreorder(CompareTokens) by {
      forall x: Token, y: Token, z: Token
        | CompareTokens(x, y) <= 0 && CompareTokens(y, z) <= 0
        ensures CompareTokens(x, z) <= 0
      {
        assert Sign(runs(x.run, z.run)) == -Sign(runs(z.run, x.run));
        assert Sign(runs(x.run, y.run)) == -Sign(runs(y.run, x.run));
        assert Sign(runs(z.run, y.run)) == -Sign(runs(y.run, z.run));
        assert runs(x.run, y.run) <= 0 && runs(y.run, z.run) <= 0 && runs(x.run, z.run) <= 0;
        if runs(x.run, z.run) == 0 {
          assert runs(z.run, y.run) <= 0;
          assert runs(y.run, x.run) <= 0;
        }
      }
      forall x: Token, y: Token
        ensures Sign(CompareTokens(x, y)) == -Sign(CompareTokens(y, x))
      {
        assert Sign(runs(x.run, y.run)) == -Sign(runs(y.run, x.run));
      }
      forall x: Token
        ensures CompareTokens(x, x) == 0
      {
        assert runs(x.run, x.run) == 0;
      }
    }
    LexPadTotalPreorder(CompareTokens, NO_TOKEN);
    var tokens := (a: seq<Token>, b: seq<Token>) => LexPad(CompareTokens, NO_TOKEN, a, b);
    forall a: string, b: string ensures DebOrder(a, b) == tokens(Tokens(a), Tokens(b)) {
    }
  }

  // ---------------------------------------------------------------------
  // One token of the reference order at a time
  // ---------------------------------------------------------------------

  lemma DebOrderStep(a: string, b: string)
    requires a != [] || b != []
    ensures DebOrder(a, b)
         == Lexically(CompareTokens(FirstToken(a), FirstToken(b)), DebOrder(AfterToken(a), AfterToken(b)))
  {
    assert AfterToken([]) == [] && FirstToken([]) == NO_TOKEN;
    forall s: string ensures HeadOr(Tokens(s), NO_TOKEN) == FirstToken(s) && Rest(Tokens(s)) == Tokens(AfterToken(s)) {
    }
  }

  // ---------------------------------------------------------------------
  // What the order means
  // ---------------------------------------------------------------------

  predicate StartsWithDigit(s: string) {
    s != "" && IsDigit(s[0])
  }

  lemma NonDigitFirst(c: char, s: string)
    requires !IsDigit(c)
    ensures NonDigits([c] + s) == [c] + NonDigits(s) && AfterNonDigits([c] + s) == AfterNonDigits(s)
  {
    assert ([c] + s)[1..] == s;
  }

  lemma {:induction false} NumberThen(acc: nat, d: string, s: string)
    requires AllDigits(d) && !StartsWithDigit(s)
    ensures NumberFrom(acc, d + s) == NumberFrom(acc, d) && AfterDigits(d + s) == s
    decreases |d|
  {
    if d == "" {
      assert d + s == s;
    } else {
      assert (d + s)[1..] == d[1..] + s;
      NumberThen(10 * acc + DigitValue(d[0]), d[1..], s);
    }
  }

  lemma NumberFirst(d: string, s: string)
    requires AllDigits(d) && d != "" && !StartsWithDigit(s)
    ensures FirstToken(d + s) == Token("", NumberFrom(0, d)) && AfterToken(d + s) == s
  {
    assert (d + s)[0] == d[0];
    NumberThen(0, d, s);
  }

  /** A leading non-digit in common does not matter. */
  lemma SameNonDigit(c: char, s: string, t: string)
    requires !IsDigit(c)
    ensures DebOrder([c] + s, [c] + t) == DebOrder(s, t)
  {
    NonDigitFirst(c, s);
    NonDigitFirst(c, t);
    DebOrderStep([c] + s, [c] + t);
    assert CompareTokens(FirstToken([c] + s), FirstToken([c] + t)) == CompareTokens(FirstToken(s), FirstToken(t)) by {
      LexPadSame(CompareWeights, NUL, c, NonDigits(s), NonDigits(t));
    }
    if s != "" || t != "" {
      DebOrderStep(s, t);
    }
  }

  lemma LexPadSame<T>(cmp: (T, T) -> int, pad: T, x: T, a: seq<T>, b: seq<T>)
    requires cmp(x, x) == 0
    ensures LexPad(cmp, pad, [x] + a, [x] + b) == LexPad(cmp, pad, a, b)
  {
    assert Rest([x] + a) == a && Rest([x] + b) == b;
  }

  /** Nor does a number in common. */
  lemma SameNumber(d: string, s: string, t: string)
    requires AllDigits(d) && d != "" && !StartsWithDigit(s) && !StartsWithDigit(t)
    ensures DebOrder(d + s, d + t) == DebOrder(s, t)
  {
    NumberFirst(d, s);
    NumberFirst(d, t);
    DebOrderStep(d + s, d + t);
  }

  /** The digits that s starts with. */
  function Digits(s: string): (d: string)
    ensures AllDigits(d) && s == d + AfterDigits(s)
  {
    if s == "" || !IsDigit(s[0]) then "" else [s[0]] + Digits(s[1..])
  }

  /** Nothing in common matters, unless a number goes on after it. */
  lemma {:induction false} SamePrefix(s: string, t: string, u: string)
    requires !StartsWithDigit(t) && !StartsWithDigit(u)
    ensures DebOrder(s + t, s + u) == DebOrder(t, u)
    decreases |s|
  {
    if s == "" {
      assert s + t == t && s + u == u;
    } else if !IsDigit(s[0]) {
      assert s + t == [s[0]] + (s[1..] + t) && s + u == [s[0]] + (s[1..] + u);
      SameNonDigit(s[0], s[1..] + t, s[1..] + u);
      SamePrefix(s[1..], t, u);
    } else {
      var d, rest := Digits(s), AfterDigits(s);
      assert s + t == d + (rest + t) && s + u == d + (rest + u);
      SameNumber(d, rest + t, rest + u);
      SamePrefix(rest, t, u);
    }
  }

  lemma RunsDecide(x: string, y: string)
    requires x != "" && !IsDigit(x[0]) && NulFree(x) && NulFree(y) && !StartsWithDigit(y)
    requires Order(x[0]) != Order(At(y, 0))
    ensures DebOrder(x, y) == Order(x[0]) - Order(At(y, 0))
  {
    DebOrderStep(x, y);
    CompareRunsStep(x, y);
  }

  /** A tilde puts a version before the same one without what follows. */
  lemma TildeIsLess(s: string, t: string)
    requires NulFree(t)
    ensures DebOrder(s + ['~'] + t, s) < 0
  {
    assert s + ['~'] + t == s + (['~'] + t) && s + "" == s;
    SamePrefix(s, ['~'] + t, "");
    RunsDecide(['~'] + t, "");
  }

  /** Any other character that starts no number puts it behind. */
  lemma MoreIsGreater(s: string, c: char, t: string)
    requires !IsDigit(c) && c != '~' && c != NUL && NulFree(t)
    ensures DebOrder(s + [c] + t, s) > 0
  {
    assert s + [c] + t == s + ([c] + t) && s + "" == s;
    SamePrefix(s, [c] + t, "");
    RunsDecide([c] + t, "");
  }

  lemma FirstDifference(s: string, x: char, t: string, y: char, u: string)
    requires !IsDigit(x) && !IsDigit(y) && x != NUL && y != NUL && NulFree(t) && NulFree(u) && Order(x) != Order(y)
    ensures DebOrder(s + [x] + t, s + [y] + u) == Order(x) - Order(y)
  {
    assert s + [x] + t == s + ([x] + t) && s + [y] + u == s + ([y] + u);
    SamePrefix(s, [x] + t, [y] + u);
    RunsDecide([x] + t, [y] + u);
  }

  /** At the first difference, a tilde comes before everything else. */
  lemma TildeIsFirst(s: string, t: string, c: char, u: string)
    requires !IsDigit(c) && c != '~' && c != NUL && NulFree(t) && NulFree(u)
    ensures DebOrder(s + ['~'] + t, s + [c] + u) < 0
  {
    FirstDifference(s, '~', t, c, u);
  }

  /** Letters come before all symbols but the tilde. */
  lemma LettersBeforeSymbols(s: string, x: char, t: string, c: char, u: string)
    requires IsAlpha(x) && !IsAlpha(c) && !IsDigit(c) && c != '~' && c != NUL && NulFree(t) && NulFree(u)
    ensures DebOrder(s + [x] + t, s + [c] + u) < 0
  {
    FirstDifference(s, x, t, c, u);
  }

  /** Letters among themselves, and symbols among themselves, come in the order of their codes. */
  lemma SameKindByCode(s: string, x: char, t: string, y: char, u: string)
    requires !IsDigit(x) && !IsDigit(y) && '~' !in {x, y} && NUL !in {x, y} && (IsAlpha(x) <==> IsAlpha(y))
    requires NulFree(t) && NulFree(u) && x < y
    ensures DebOrder(s + [x] + t, s + [y] + u) < 0
  {
    FirstDifference(s, x, t, y, u);
  }

  lemma {:induction false} DecimalReads(n: nat)
    ensures NumberFrom(0, Decimal(n)) == n
  {
    if n >= 10 {
      DecimalReads(n / 10);
      NumberAppend(0, Decimal(n / 10), DigitChar(n % 10));
    } else {
      assert [DigitChar(n)][1..] == [];
    }
  }

  lemma {:induction false} NumberAppend(acc: nat, d: string, c: char)
    requires AllDigits(d) && IsDigit(c)
    ensures NumberFrom(acc, d + [c]) == 10 * NumberFrom(acc, d) + DigitValue(c)
    decreases |d|
  {
    if d == "" {
      assert d + [c] == [c] && [c][1..] == "";
    } else {
      assert (d + [c])[1..] == d[1..] + [c];
      NumberAppend(10 * acc + DigitValue(d[0]), d[1..], c);
    }
  }

  function LeadingZeros(k: nat): (z: string)
    ensures AllDigits(z)
  {
    if k == 0 then "" else ['0'] + LeadingZeros(k - 1)
  }

  lemma {:induction false} ZerosCountNothing(k: nat, d: string)
    ensures NumberFrom(0, LeadingZeros(k) + d) == NumberFrom(0, d)
  {
    if k == 0 {
      assert "" + d == d;
    } else {
      assert LeadingZeros(k) + d == ['0'] + (LeadingZeros(k - 1) + d);
      ZerosCountNothing(k - 1, d);
    }
  }

  lemma NumberToken(k: nat, m: nat, t: string)
    requires !StartsWithDigit(t)
    ensures var a := LeadingZeros(k) + Decimal(m) + t; FirstToken(a) == Token("", m) && AfterToken(a) == t && a != ""
  {
    var d := LeadingZeros(k) + Decimal(m);
    ZerosCountNothing(k, Decimal(m));
    DecimalReads(m);
    NumberFirst(d, t);
  }

  predicate EndsWithDigit(s: string) {
    s != "" && IsDigit(s[|s| - 1])
  }

  /** Before anything that follows them, numbers compare by value, however many zeros they start with. */
  lemma {:induction false} NumbersDecide(s: string, j: nat, m: nat, t: string, k: nat, n: nat, u: string)
    requires !EndsWithDigit(s) && !StartsWithDigit(t) && !StartsWithDigit(u)
    ensures var order := DebOrder(s + (LeadingZeros(j) + Decimal(m) + t), s + (LeadingZeros(k) + Decimal(n) + u));
      if m == n then order == DebOrder(t, u) else order == m - n
    decreases |s|
  {
    var a, b := LeadingZeros(j) + Decimal(m) + t, LeadingZeros(k) + Decimal(n) + u;
    if s == "" {
      assert s + a == a && s + b == b;
      NumberToken(j, m, t);
      NumberToken(k, n, u);
      DebOrderStep(a, b);
    } else if !IsDigit(s[0]) {
      assert s + a == [s[0]] + (s[1..] + a) && s + b == [s[0]] + (s[1..] + b);
      SameNonDigit(s[0], s[1..] + a, s[1..] + b);
      NumbersDecide(s[1..], j, m, t, k, n, u);
    } else {
      var d, rest := Digits(s), AfterDigits(s);
      assert rest != "" && rest[|rest| - 1] == s[|s| - 1];
      assert s + a == d + (rest + a) && s + b == d + (rest + b);
      SameNumber(d, rest + a, rest + b);
      NumbersDecide(rest, j, m, t, k, n, u);
    }
  }

  /** Where two versions first differ at characters that start no number, or at an end, which of them comes first. */
  predicate Precedes(x: char, y: char) {
    if x == '~' || y == '~' then x == '~' && y != '~'
    else if x == NUL || y == NUL then x == NUL && y != NUL
    else if IsAlpha(x) != IsAlpha(y) then IsAlpha(x)
    else x < y
  }

  lemma DifferenceDecides(a: string, b: string, k: nat)
    requires NulFree(a) && NulFree(b) && k <= |a| && k <= |b| && a[..k] == b[..k]
    requires !IsDigit(At(a, k)) && !IsDigit(At(b, k)) && Precedes(At(a, k), At(b, k))
    ensures DebOrder(a, b) < 0 && DebOrder(b, a) > 0
  {
    var s := a[..k];
    assert a == s + a[k..] && b == s + b[k..];
    SamePrefix(s, a[k..], b[k..]);
    SamePrefix(s, b[k..], a[k..]);
    if k < |a| {
      RunsDecide(a[k..], b[k..]);
    }
    if k < |b| {
      RunsDecide(b[k..], a[k..]);
    }
  }

  function Pow10(n: nat): nat {
    if n == 0 then 1 else 10 * Pow10(n - 1)
  }

  lemma {:induction false} NumberFromGrows(acc: nat, s: string)
    ensures NumberFrom(acc, s) >= acc
    decreases |s|
  {
    if s != [] && IsDigit(s[0]) {
      NumberFromGrows(10 * acc + DigitValue(s[0]), s[1..]);
    }
  }

  /** A longer number without leading zeros is the greater one. */
  lemma MoreDigitsIsGreater(m: nat, x: nat, y: nat, s: string)
    requires y < Pow10(m)
    requires m > 0 ==> x >= Pow10(m - 1)
    requires s != [] && IsDigit(s[0])
    requires m == 0 ==> s[0] != '0'
    ensures NumberFrom(x, s) > y
  {
    NumberFromGrows(10 * x + DigitValue(s[0]), s[1..]);
  }

  /** One character of the run comparison; a digit or the end weighs nothing. */
  lemma CompareRunsStep(a: string, b: string)
    requires NulFree(a) && NulFree(b)
    requires (a != [] && !IsDigit(a[0])) || (b != [] && !IsDigit(b[0]))
    ensures var diff := Order(At(a, 0)) - Order(At(b, 0));
            if diff != 0 then CompareRuns(NonDigits(a), NonDigits(b)) == diff
            else
              && a != [] && b != [] && !IsDigit(a[0]) && !IsDigit(b[0])
              && CompareRuns(NonDigits(a), NonDigits(b)) == CompareRuns(NonDigits(a[1..]), NonDigits(b[1..]))
  {
    assert CompareWeights(HeadOr(NonDigits(a), NUL), HeadOr(NonDigits(b), NUL)) == Order(At(a, 0)) - Order(At(b, 0));
    if Order(At(a, 0)) == Order(At(b, 0)) {
      assert Rest(NonDigits(a)) == NonDigits(a[1..]);
      assert Rest(NonDigits(b)) == NonDigits(b[1..]);
    }
  }

  predicate AtNonDigit(s: string, i: nat)
    requires i <= |s|
  {
    i < |s| && !IsDigit(s[i])
  }

  /** The comparison of the runs that the two pointers stand at, step by step. */
  function RunsFrom(a: string, i: nat, b: string, j: nat): int
    requires NulFree(a) && NulFree(b) && i <= |a| && j <= |b|
    decreases |a| - i
  {
    if !AtNonDigit(a, i) && !AtNonDigit(b, j) then 0
    else if Order(At(a, i)) != Order(At(b, j)) then Order(At(a, i)) - Order(At(b, j))
    else RunsFrom(a, i + 1, b, j + 1)
  }

  lemma {:induction false} RunsFromIsRuns(a: string, i: nat, b: string, j: nat)
    requires NulFree(a) && NulFree(b) && i <= |a| && j <= |b|
    ensures RunsFrom(a, i, b, j) == CompareRuns(NonDigits(a[i..]), NonDigits(b[j..]))
    decreases |a| - i
  {
    var x, y := a[i..], b[j..];
    assert At(x, 0) == At(a, i) && At(y, 0) == At(b, j);
    if AtNonDigit(a, i) || AtNonDigit(b, j) {
      CompareRunsStep(x, y);
      if Order(At(a, i)) == Order(At(b, j)) {
        RunsFromIsRuns(a, i + 1, b, j + 1);
        assert x[1..] == a[i + 1..] && y[1..] == b[j + 1..];
      }
    }
  }

  /** Behind a run of non-digits. */
  lemma {:induction false} BehindRun(s: string, i: nat, k: nat)
    requires i <= k <= |s| && !AtNonDigit(s, k) && forall n | i <= n < k :: !IsDigit(s[n])
    ensures AfterNonDigits(s[i..]) == s[k..]
    decreases k - i
  {
    if i < k {
      BehindRun(s, i + 1, k);
      assert s[i..][1..] == s[i + 1..];
    }
  }

  /** The first inner loop of debvercmp, which stops at the first difference or with neither pointer at a non-digit. */
  method WalkNonDigits(a: string, b: string, i0: nat, j0: nat) returns (i: nat, j: nat, diff: int)
    requires NulFree(a) && NulFree(b)
    requires i0 <= |a| && j0 <= |b|
    ensures i0 <= i <= |a| && j0 <= j <= |b| && diff == RunsFrom(a, i0, b, j0)
    ensures diff == 0 ==> !AtNonDigit(a, i) && !AtNonDigit(b, j)
    ensures forall n | i0 <= n < i :: !IsDigit(a[n])
    ensures forall n | j0 <= n < j :: !IsDigit(b[n])
  {
    i, j := i0, j0;
    while AtNonDigit(a, i) || AtNonDigit(b, j)
      invariant i0 <= i <= |a| && j0 <= j <= |b|
      invariant RunsFrom(a, i0, b, j0) == RunsFrom(a, i, b, j)
      invariant forall n | i0 <= n < i :: !IsDigit(a[n])
      invariant forall n | j0 <= n < j :: !IsDigit(b[n])
      decreases |a| - i
    {
      var ac := Order(At(a, i));
      var bc := Order(At(b, j));
      if ac != bc {
        return i, j, ac - bc;
      }
      i, j := i + 1, j + 1;
    }
    return i, j, 0;
  }

  /** The same, told of the runs: equally heavy non-digits are stepped over. */
  method CompareNonDigits(a: string, b: string, i0: nat, j0: nat) returns (i: nat, j: nat, diff: int)
    requires NulFree(a) && NulFree(b)
    requires i0 <= |a| && j0 <= |b|
    ensures i0 <= i <= |a| && j0 <= j <= |b|
    ensures Sign(diff) == Sign(CompareRuns(NonDigits(a[i0..]), NonDigits(b[j0..])))
    ensures diff == 0 ==> AfterNonDigits(a[i0..]) == a[i..] && AfterNonDigits(b[j0..]) == b[j..]
  {
    i, j, diff := WalkNonDigits(a, b, i0, j0);
    RunsFromIsRuns(a, i0, b, j0);
    if diff == 0 {
      BehindRun(a, i0, i);
      BehindRun(b, j0, j);
    }
  }

  /** The zero-skipping loops of debvercmp. */
  method SkipZeros(s: string, i: nat) returns (k: nat)
    requires i <= |s|
    ensures i <= k <= |s| && At(s, k) != '0'
    ensures NumberFrom(0, s[k..]) == NumberFrom(0, s[i..])
    ensures AfterDigits(s[k..]) == AfterDigits(s[i..])
  {
    k := i;
    while At(s, k) == '0'
      invariant i <= k <= |s|
      invariant NumberFrom(0, s[k..]) == NumberFrom(0, s[i..])
      invariant AfterDigits(s[k..]) == AfterDigits(s[i..])
      decreases |s| - k
    {
      assert s[k..][1..] == s[k + 1..];
      k := k + 1;
    }
  }

  /**
   The digit loop of debvercmp and the tests after it: numbers of any length
   compared without computing them.
   */
  method CompareDigits(a: string, b: string, i0: nat, j0: nat) returns (i: nat, j: nat, diff: int)
    requires i0 <= |a| && j0 <= |b|
    requires At(a, i0) != '0' && At(b, j0) != '0'
    ensures i0 <= i <= |a| && j0 <= j <= |b|
    ensures Sign(diff) == Sign(NumberFrom(0, a[i0..]) - NumberFrom(0, b[j0..]))
    ensures diff == 0 ==> AfterDigits(a[i0..]) == a[i..] && AfterDigits(b[j0..]) == b[j..]
  {
    i, j := i0, j0;
    var firstDiff := 0;
    ghost var s, t := a[i0..], b[j0..];
    ghost var m: nat, x: nat, y: nat := 0, 0, 0;
    while i < |a| && j < |b| && IsDigit(At(a, i)) && IsDigit(At(b, j))
      invariant i0 <= i <= |a| && j0 <= j <= |b|
      invariant s == a[i..] && t == b[j..]
      invariant NumberFrom(0, a[i0..]) == NumberFrom(x, s)
      invariant NumberFrom(0, b[j0..]) == NumberFrom(y, t)
      invariant AfterDigits(a[i0..]) == AfterDigits(s)
      invariant AfterDigits(b[j0..]) == AfterDigits(t)
      invariant x < Pow10(m) && y < Pow10(m)
      invariant m > 0 ==> x >= Pow10(m - 1) && y >= Pow10(m - 1)
      invariant m == 0 ==> x == y == 0 && At(a, i) != '0' && At(b, j) != '0'
      invariant Sign(firstDiff) == Sign(x - y)
      decreases |s|
    {
      if firstDiff == 0 {
        firstDiff := At(a, i) as int - At(b, j) as int;
      }
      x, y, m := 10 * x + DigitValue(s[0]), 10 * y + DigitValue(t[0]), m + 1;
      s, t := s[1..], t[1..];
      i, j := i + 1, j + 1;
    }
    if i < |a| && IsDigit(At(a, i)) {
      MoreDigitsIsGreater(m, x, y, s);
      return i, j, 1;
    }
    if j < |b| && IsDigit(At(b, j)) {
      MoreDigitsIsGreater(m, y, x, t);
      return i, j, -1;
    }
    return i, j, firstDiff;
  }

  /**
   The pointer walk of debvercmp over two terminated strings. Its sign is that
   of the reference order, and both offsets stay at or before the terminators.
   */
  method DebVerCmp(a: string, b: string) returns (r: int)
    requires NulFree(a) && NulFree(b)
    ensures Sign(r) == Sign(DebOrder(a, b))
    ensures forall k | 0 <= k <= |a| && k <= |b| && a[..k] == b[..k] && !IsDigit(At(a, k)) && !IsDigit(At(b, k)) ::
              && (Precedes(At(a, k), At(b, k)) ==> r < 0)
              && (Precedes(At(b, k), At(a, k)) ==> r > 0)
  {
    DifferencesDecide(a, b);
    r := WalkVersions(a, b);
  }

  lemma DifferencesDecide(a: string, b: string)
    requires NulFree(a) && NulFree(b)
    ensures forall k | 0 <= k <= |a| && k <= |b| && a[..k] == b[..k] && !IsDigit(At(a, k)) && !IsDigit(At(b, k)) ::
              && (Precedes(At(a, k), At(b, k)) ==> DebOrder(a, b) < 0)
              && (Precedes(At(b, k), At(a, k)) ==> DebOrder(a, b) > 0)
  {
    forall k | 0 <= k <= |a| && k <= |b| && a[..k] == b[..k] && !IsDigit(At(a, k)) && !IsDigit(At(b, k))
      ensures Precedes(At(a, k), At(b, k)) ==> DebOrder(a, b) < 0
      ensures Precedes(At(b, k), At(a, k)) ==> DebOrder(a, b) > 0
    {
      if Precedes(At(a, k), At(b, k)) {
        DifferenceDecides(a, b, k);
      }
      if Precedes(At(b, k), At(a, k)) {
        DifferenceDecides(b, a, k);
      }
    }
  }

  /** One round of the loop of debvercmp: a run and a number on both sides. */
  method CompareNext(a: string, b: string, i0: nat, j0: nat) returns (i: nat, j: nat, diff: int)
    requires NulFree(a) && NulFree(b)
    requires i0 <= |a| && j0 <= |b|
    ensures i0 <= i <= |a| && j0 <= j <= |b|
    ensures Sign(diff) == Sign(CompareTokens(FirstToken(a[i0..]), FirstToken(b[j0..])))
    ensures diff == 0 ==> AfterToken(a[i0..]) == a[i..] && AfterToken(b[j0..]) == b[j..]
  {
    i, j, diff := CompareNonDigits(a, b, i0, j0);
    if diff != 0 {
      return;
    }
    i := SkipZeros(a, i);
    j := SkipZeros(b, j);
    i, j, diff := CompareDigits(a, b, i, j);
  }

  /** The loop of debvercmp. */
  method WalkVersions(a: string, b: string) returns (r: int)
    requires NulFree(a) && NulFree(b)
    ensures Sign(r) == Sign(DebOrder(a, b))
  {
    var i, j := 0, 0;
    while i < |a| || j < |b|
      invariant i <= |a| && j <= |b|
      invariant Sign(DebOrder(a, b)) == Sign(DebOrder(a[i..], b[j..]))
      decreases |a| - i + |b| - j
    {
      DebOrderStep(a[i..], b[j..]);
      ghost var x, y := a[i..], b[j..];
      i, j, r := CompareNext(a, b, i, j);
      if r != 0 {
        return;
      }
      assert |AfterToken(x)| + |AfterToken(y)| < |x| + |y|;
    }
    return 0;
  }
}
