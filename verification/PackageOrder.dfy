/**
 Package values and the comparison functions of packages/package.c. A field
 which is unset is the empty string, as isempty treats NULL and "" alike.
 */
module PackageOrder {
  import opened CText
  import opened Ordering
  import opened VersionOrder

  datatype Pkg = Pkg(
    name: string,
    arch: string,
    version: string,
    release: string,
    flags: string,
    context: string,
    prefix: char,
    priority: int)

  const WILDCARD := "*"

  const ULONG_MAX: nat := 0xFFFF_FFFF_FFFF_FFFF

  // ---------------------------------------------------------------------
  // String comparison
  // ---------------------------------------------------------------------

  function CompareChars(x: char, y: char): int {
    x as int - y as int
  }

  function CompareLowered(x: char, y: char): int {
    ToLower(x) as int - ToLower(y) as int
  }

  function StrCmp(a: string, b: string): int {
    LexPad(CompareChars, NUL, a, b)
  }

  function StrCaseCmp(a: string, b: string): int {
    LexPad(CompareLowered, NUL, a, b)
  }

  lemma {:induction false} StrCmpZero(a: string, b: string)
    requires NulFree(a) && NulFree(b)
    ensures StrCmp(a, b) == 0 <==> a == b
    decreases |a| + |b|
  {
    if a != [] && b != [] {
      StrCmpZero(a[1..], b[1..]);
      assert a == [a[0]] + a[1..] && b == [b[0]] + b[1..];
    } else if a != [] || b != [] {
      assert CompareChars(HeadOr(a, NUL), HeadOr(b, NUL)) != 0;
    }
  }

  lemma StringOrders()
    ensures TotalPreorder(StrCmp)
    ensures TotalPreorder(StrCaseCmp)
  {
    LexPadTotalPreorder(CompareChars, NUL);
    var plain := (a: string, b: string) => LexPad(CompareChars, NUL, a, b);
    assert forall a: string, b: string :: StrCmp(a, b) == plain(a, b);
    LexPadTotalPreorder(CompareLowered, NUL);
    var lowered := (a: string, b: string) => LexPad(CompareLowered, NUL, a, b);
    assert forall a: string, b: string :: StrCaseCmp(a, b) == lowered(a, b);
  }

  // ---------------------------------------------------------------------
  // Epoch, version and release
  // ---------------------------------------------------------------------

  function SpaceCount(s: string): (n: nat)
    ensures n <= |s|
  {
    if s == [] || !IsSpace(s[0]) then 0 else 1 + SpaceCount(s[1..])
  }

  /**
   strtoul in base ten with a 64 bit result: the value, and the offset at which
   the conversion stopped, which is 0 when there was nothing to convert.
   */
  function StrToUL(s: string): (r: (nat, nat))
    ensures r.1 <= |s|
    ensures r.0 <= ULONG_MAX
  {
    var sp := SpaceCount(s);
    var minus := sp < |s| && s[sp] == '-';
    var from := if sp < |s| && (s[sp] == '-' || s[sp] == '+') then sp + 1 else sp;
    if from == |s| || !IsDigit(s[from]) then (0, 0)
    else
      var n := NumberFrom(0, s[from..]);
      var value := if n > ULONG_MAX then ULONG_MAX
                   else if minus && n > 0 then ULONG_MAX + 1 - n
                   else n;
      (value, |s| - |AfterDigits(s[from..])|)
  }

  /** The epoch of a version, and what follows the colon that ends it. */
  function ExtractEpoch(version: string): (nat, string) {
    var (value, end) := StrToUL(version);
    if end != 0 && end < |version| && version[end] == ':' then (value, version[end + 1..])
    else (0, version)
  }

  function VStringRank(v: string): int {
    if v == "" then 0 else if v == WILDCARD then 1 else 2
  }

  /** Empty is below wild, and wild is below every other version string. */
  function CompareVStrings(v1: string, v2: string): int {
    if v1 == "" || v2 == "" then
      if v1 == "" then (if v2 == "" then 0 else -1) else 1
    else if v1 == WILDCARD || v2 == WILDCARD then
      if v1 == WILDCARD then (if v2 == WILDCARD then 0 else -1) else 1
    else Sign(DebOrder(v1, v2))
  }

  function CompareVersions(p: Pkg, q: Pkg): int {
    var (e1, v1) := ExtractEpoch(p.version);
    var (e2, v2) := ExtractEpoch(q.version);
    if e1 > e2 then 1
    else if e1 < e2 then -1
    else Lexically(CompareVStrings(v1, v2), CompareVStrings(p.release, q.release))
  }

  function CompareNames(p: Pkg, q: Pkg): int {
    StrCaseCmp(p.name, q.name)
  }

  function CompareArchs(p: Pkg, q: Pkg): int {
    StrCmp(p.arch, q.arch)
  }

  function Compare(p: Pkg, q: Pkg): int {
    Lexically(CompareNames(p, q), Lexically(CompareArchs(p, q), CompareVersions(p, q)))
  }

  predicate Equals(p: Pkg, q: Pkg) {
    && CompareNames(p, q) == 0
    && CompareArchs(p, q) == 0
    && CompareVersions(p, q) == 0
    && StrCmp(p.flags, q.flags) == 0
    && StrCmp(p.context, q.context) == 0
  }

  lemma VStringsTotalPreorder()
    ensures TotalPreorder(CompareVStrings)
  {
    DebOrderTotalPreorder();
    forall v: string, w: string
      ensures CompareVStrings(v, w)
           == if VStringRank(v) != VStringRank(w) then Sign(VStringRank(v) - VStringRank(w))
              else if VStringRank(v) == 2 then Sign(DebOrder(v, w)) else 0
    {
    }
    forall v: string, w: string, x: string
      | CompareVStrings(v, w) <= 0 && CompareVStrings(w, x) <= 0
      ensures CompareVStrings(v, x) <= 0
    {
      assert VStringRank(v) <= VStringRank(w) <= VStringRank(x);
    }
    forall v: string, w: string
      ensures Sign(CompareVStrings(v, w)) == -Sign(CompareVStrings(w, v))
    {
    }
  }

  function CompareEpochs(p: Pkg, q: Pkg): int {
    ExtractEpoch(p.version).0 - ExtractEpoch(q.version).0
  }

  function CompareUpstream(p: Pkg, q: Pkg): int {
    CompareVStrings(ExtractEpoch(p.version).1, ExtractEpoch(q.version).1)
  }

  function CompareReleases(p: Pkg, q: Pkg): int {
    CompareVStrings(p.release, q.release)
  }

  function CompareFull(p: Pkg, q: Pkg): int {
    Lexically(CompareUpstream(p, q), CompareReleases(p, q))
  }

  lemma VersionsTotalPreorder()
    ensures TotalPreorder(CompareVersions)
  {
    assert TotalPreorder(CompareFull) by {
      VStringsTotalPreorder();
      assert TotalPreorder(CompareUpstream);
      assert TotalPreorder(CompareReleases);
      LexicallyTotalPreorder(CompareFull, CompareUpstream, CompareReleases);
    }
    forall p, q
      ensures Sign(CompareVersions(p, q)) == Sign(Lexically(CompareEpochs(p, q), CompareFull(p, q)))
    {
    }
    LexicallyTotalPreorder(CompareVersions, CompareEpochs, CompareFull);
  }

  lemma VersionLaws(p: Pkg, q: Pkg, r: Pkg)
    ensures CompareVersions(p, p) == 0
    ensures Sign(CompareVersions(p, q)) == -Sign(CompareVersions(q, p))
    ensures CompareVersions(p, q) <= 0 && CompareVersions(q, r) <= 0 ==> CompareVersions(p, r) <= 0
  {
    VersionsTotalPreorder();
  }

  function CompareArchAndVersion(p: Pkg, q: Pkg): int {
    Lexically(CompareArchs(p, q), CompareVersions(p, q))
  }

  /** The comparison the list sort relies on. */
  lemma CompareTotalPreorder()
    ensures TotalPreorder(Compare)
  {
    assert TotalPreorder(CompareNames) && TotalPreorder(CompareArchs) by {
      StringOrders();
    }
    VersionsTotalPreorder();
    LexicallyTotalPreorder(CompareArchAndVersion, CompareArchs, CompareVersions);
    LexicallyTotalPreorder(Compare, CompareNames, CompareArchAndVersion);
  }

  /** The equality test the squash rule relies on is an equivalence. */
  lemma EqualsIsEquivalence(p: Pkg, q: Pkg, r: Pkg)
    ensures Equals(p, p)
    ensures Equals(p, q) ==> Equals(q, p)
    ensures Equals(p, q) && Equals(q, r) ==> Equals(p, r)
    ensures Equals(p, q) ==> Compare(p, q) == 0
  {
    StringOrders();
    VersionsTotalPreorder();
    assert StrCmp(p.flags, p.flags) == 0 && StrCmp(p.context, p.context) == 0;
    assert StrCmp(p.arch, p.arch) == 0 && StrCaseCmp(p.name, p.name) == 0;
    if Equals(p, q) {
      ZeroIsTransitive(StrCaseCmp, p.name, q.name, q.name);
      ZeroIsTransitive(StrCmp, p.arch, q.arch, q.arch);
      ZeroIsTransitive(CompareVersions, p, q, q);
      ZeroIsTransitive(StrCmp, p.flags, q.flags, q.flags);
      ZeroIsTransitive(StrCmp, p.context, q.context, q.context);
      if Equals(q, r) {
        ZeroIsTransitive(StrCaseCmp, p.name, q.name, r.name);
        ZeroIsTransitive(StrCmp, p.arch, q.arch, r.arch);
        ZeroIsTransitive(CompareVersions, p, q, r);
        ZeroIsTransitive(StrCmp, p.flags, q.flags, r.flags);
        ZeroIsTransitive(StrCmp, p.context, q.context, r.context);
      }
    }
  }

  // ---------------------------------------------------------------------
  // What decides a comparison
  // ---------------------------------------------------------------------

  /** A version with an epoch. */
  function Dated(epoch: nat, version: string): string {
    Decimal(epoch) + [':'] + version
  }

  /** strtoul over a text where a number starts at index from, behind spaces and perhaps a sign. */
  lemma ConvertsFrom(text: string, from: nat, n: nat, end: nat)
    requires from < |text| && IsDigit(text[from])
    requires NumberFrom(0, text[from..]) == n && |text| - |AfterDigits(text[from..])| == end
    requires var sp := SpaceCount(text); from == sp || (from == sp + 1 && text[sp] in {'+', '-'})
    ensures var minus := from == SpaceCount(text) + 1 && text[from - 1] == '-';
      StrToUL(text) == (if n > ULONG_MAX then ULONG_MAX else if minus && n > 0 then ULONG_MAX + 1 - n else n, end)
  {
  }

  lemma NumberAt(text: string, from: nat, d: string, rest: string)
    requires from <= |text| && text[from..] == d + rest && AllDigits(d) && d != "" && !StartsWithDigit(rest)
    ensures from < |text| && IsDigit(text[from])
    ensures NumberFrom(0, text[from..]) == NumberFrom(0, d) && |text| - |AfterDigits(text[from..])| == from + |d|
  {
    NumberThen(0, d, rest);
    assert text[from] == (d + rest)[0] == d[0];
  }

  lemma DatedConverts(e: nat, v: string)
    ensures StrToUL(Dated(e, v)) == (if e <= ULONG_MAX then e else ULONG_MAX, |Decimal(e)|)
  {
    var text, rest := Dated(e, v), [':'] + v;
    assert text[0..] == Decimal(e) + rest;
    assert text[0] == Decimal(e)[0];
    assert SpaceCount(text) == 0;
    assert NumberFrom(0, text[0..]) == e && |text| - |AfterDigits(text[0..])| == |Decimal(e)| by {
      DecimalReads(e);
      NumberAt(text, 0, Decimal(e), rest);
    }
    ConvertsFrom(text, 0, e, |Decimal(e)|);
  }

  /** An epoch is read as it is written in base ten, or as the greatest one, and ends at its colon. */
  lemma EpochReads(e: nat, v: string)
    ensures ExtractEpoch(Dated(e, v)) == (if e < 0x1_0000_0000_0000_0000 then e else 0xFFFF_FFFF_FFFF_FFFF, v)
  {
    DatedConverts(e, v);
    assert Dated(e, v)[|Decimal(e)| + 1..] == v;
  }

  /** What does not start as a number does has no epoch. */
  lemma NoNumberNoEpoch(v: string)
    requires v == "" || (!IsDigit(v[0]) && !IsSpace(v[0]) && v[0] != '+' && v[0] != '-')
    ensures ExtractEpoch(v) == (0, v)
  {
  }

  /** Without a colon there is no epoch, which is the same as zero. */
  lemma NoEpochIsZero(v: string)
    requires ':' !in v
    ensures ExtractEpoch(v) == (0, v) == ExtractEpoch(Dated(0, v))
  {
    EpochReads(0, v);
  }

  /** A version or release that is neither missing nor wild. */
  predicate Definite(v: string) {
    v != "" && v != WILDCARD
  }

  /** Definite strings compare as debvercmp has it; missing ones come first, and then wild ones. */
  lemma VStringsDecide(v: string, w: string)
    ensures Definite(v) && Definite(w) ==> Sign(CompareVStrings(v, w)) == Sign(DebOrder(v, w))
    ensures v == w ==> CompareVStrings(v, w) == 0
    ensures v == "" && w != "" ==> CompareVStrings(v, w) < 0 && CompareVStrings(w, v) > 0
    ensures v == WILDCARD && Definite(w) ==> CompareVStrings(v, w) < 0 && CompareVStrings(w, v) > 0
  {
    VStringsTotalPreorder();
  }

  /** The greater epoch is the greater version, whatever follows. */
  lemma EpochDecides(p: Pkg, q: Pkg, d: nat, e: nat, v: string, w: string)
    requires d < 0x1_0000_0000_0000_0000 && e < 0x1_0000_0000_0000_0000 && p.version == Dated(d, v) && q.version == Dated(e, w)
    requires d != e
    ensures Sign(CompareVersions(p, q)) == Sign(d - e)
  {
    EpochReads(d, v);
    EpochReads(e, w);
  }

  /** With equal epochs, versions that differ decide, whatever the releases. */
  lemma VersionDecides(p: Pkg, q: Pkg, e: nat, v: string, w: string)
    requires e < 0x1_0000_0000_0000_0000 && p.version == Dated(e, v) && q.version == Dated(e, w)
    ensures Definite(v) && Definite(w) && DebOrder(v, w) != 0 ==> Sign(CompareVersions(p, q)) == Sign(DebOrder(v, w))
    ensures v == "" && w != "" ==> CompareVersions(p, q) < 0
    ensures v == WILDCARD && Definite(w) ==> CompareVersions(p, q) < 0
  {
    EpochReads(e, v);
    EpochReads(e, w);
    VStringsDecide(v, w);
  }

  /** The same where neither has an epoch. */
  lemma PlainVersionDecides(p: Pkg, q: Pkg)
    requires ':' !in p.version && ':' !in q.version
    ensures Definite(p.version) && Definite(q.version) && DebOrder(p.version, q.version) != 0 ==>
              Sign(CompareVersions(p, q)) == Sign(DebOrder(p.version, q.version))
    ensures p.version == "" && q.version != "" ==> CompareVersions(p, q) < 0
    ensures p.version == WILDCARD && Definite(q.version) ==> CompareVersions(p, q) < 0
  {
    NoEpochIsZero(p.version);
    NoEpochIsZero(q.version);
    VStringsDecide(p.version, q.version);
  }

  /** Releases decide between versions that tie. */
  lemma ReleaseDecides(p: Pkg, q: Pkg, e: nat, v: string, w: string)
    requires e < 0x1_0000_0000_0000_0000 && p.version == Dated(e, v) && q.version == Dated(e, w)
    requires v == w || (Definite(v) && Definite(w) && DebOrder(v, w) == 0)
    ensures Definite(p.release) && Definite(q.release) ==> Sign(CompareVersions(p, q)) == Sign(DebOrder(p.release, q.release))
    ensures p.release == q.release ==> CompareVersions(p, q) == 0
    ensures p.release == "" && q.release != "" ==> CompareVersions(p, q) < 0
    ensures p.release == WILDCARD && Definite(q.release) ==> CompareVersions(p, q) < 0
  {
    EpochReads(e, v);
    EpochReads(e, w);
    VStringsDecide(v, w);
    VStringsDecide(p.release, q.release);
  }

  /** An epoch of zero may be left out. */
  lemma ZeroEpochTies(p: Pkg, q: Pkg, r: Pkg)
    requires ':' !in p.version && q == p.(version := Dated(0, p.version))
    ensures CompareVersions(p, r) == CompareVersions(q, r) && CompareVersions(r, p) == CompareVersions(r, q)
  {
    NoEpochIsZero(p.version);
  }

  // ---------------------------------------------------------------------
  // Strings, names and architectures
  // ---------------------------------------------------------------------

  function Lowered(s: string): (r: string)
    ensures |r| == |s|
  {
    seq(|s|, i requires 0 <= i < |s| => ToLower(s[i]))
  }

  lemma {:induction false} LexPadAt<T>(cmp: (T, T) -> int, pad: T, a: seq<T>, b: seq<T>, k: nat)
    requires k <= |a| && k <= |b| && forall i | 0 <= i < k :: cmp(a[i], b[i]) == 0
    requires k < |a| || k < |b|
    requires cmp(if k < |a| then a[k] else pad, if k < |b| then b[k] else pad) != 0
    ensures LexPad(cmp, pad, a, b) == cmp(if k < |a| then a[k] else pad, if k < |b| then b[k] else pad)
  {
    if k > 0 {
      LexPadAt(cmp, pad, a[1..], b[1..], k - 1);
    }
  }

  /** strings compare by the codes of the first characters that differ. */
  lemma StrCmpDecides(a: string, b: string, k: nat)
    requires k <= |a| && k <= |b| && a[..k] == b[..k] && At(a, k) != At(b, k)
    ensures Sign(StrCmp(a, b)) == Sign(At(a, k) as int - At(b, k) as int)
  {
    assert forall i | 0 <= i < k :: a[i] == a[..k][i] == b[..k][i] == b[i];
    LexPadAt(CompareChars, NUL, a, b, k);
  }

  lemma {:induction false} StrCaseCmpLowers(a: string, b: string)
    ensures StrCaseCmp(a, b) == StrCmp(Lowered(a), Lowered(b))
    decreases |a| + |b|
  {
    if a != [] || b != [] {
      StrCaseCmpLowers(Rest(a), Rest(b));
      assert Lowered(Rest(a)) == Rest(Lowered(a)) && Lowered(Rest(b)) == Rest(Lowered(b));
      assert ToLower(NUL) == NUL;
    }
  }

  lemma LoweredNulFree(s: string)
    requires NulFree(s)
    ensures NulFree(Lowered(s))
  {
  }

  /** Names decide first, ignoring case, then architectures, and versions decide between the rest. */
  lemma CompareDecides(p: Pkg, q: Pkg)
    requires NulFree(p.name) && NulFree(q.name) && NulFree(p.arch) && NulFree(q.arch)
    ensures if Lowered(p.name) != Lowered(q.name) then
              Sign(Compare(p, q)) == Sign(StrCmp(Lowered(p.name), Lowered(q.name))) != 0
            else if p.arch != q.arch then
              Sign(Compare(p, q)) == Sign(StrCmp(p.arch, q.arch)) != 0
            else Sign(Compare(p, q)) == Sign(CompareVersions(p, q))
  {
    StrCaseCmpLowers(p.name, q.name);
    LoweredNulFree(p.name);
    LoweredNulFree(q.name);
    StrCmpZero(Lowered(p.name), Lowered(q.name));
    StrCmpZero(p.arch, q.arch);
  }

  /** What lcfgpackage_equals takes for the same package. */
  lemma EqualsMeans(p: Pkg, q: Pkg)
    requires NulFree(p.name) && NulFree(q.name) && NulFree(p.arch) && NulFree(q.arch)
    requires NulFree(p.flags) && NulFree(q.flags) && NulFree(p.context) && NulFree(q.context)
    ensures Equals(p, q) <==>
            && Lowered(p.name) == Lowered(q.name) && p.arch == q.arch
            && p.flags == q.flags && p.context == q.context
            && CompareVersions(p, q) == 0
  {
    StrCaseCmpLowers(p.name, q.name);
    LoweredNulFree(p.name);
    LoweredNulFree(q.name);
    StrCmpZero(Lowered(p.name), Lowered(q.name));
    StrCmpZero(p.arch, q.arch);
    StrCmpZero(p.flags, q.flags);
    StrCmpZero(p.context, q.context);
  }

  lemma {:induction false} SpacesThen(blank: string, s: string)
    requires (forall i | 0 <= i < |blank| :: IsSpace(blank[i])) && s != "" && !IsSpace(s[0])
    ensures SpaceCount(blank + s) == |blank|
  {
    if blank == "" {
      assert blank + s == s;
    } else {
      assert (blank + s)[1..] == blank[1..] + s;
      SpacesThen(blank[1..], s);
    }
  }

  lemma SignedText(text: string, blank: string, sign: string, d: string, v: string)
    requires text == blank + (sign + (d + [':'] + v)) && |sign| == 1 && !IsSpace(sign[0])
    requires forall i | 0 <= i < |blank| :: IsSpace(blank[i])
    ensures var n := |blank|;
      && |text| == n + 1 + |d| + 1 + |v| && SpaceCount(text) == n && text[n] == sign[0]
      && text[n + 1..] == d + ([':'] + v) && text[n + 1 + |d|] == ':' && text[n + 1 + |d| + 1..] == v
  {
    SpacesThen(blank, sign + (d + [':'] + v));
  }

  lemma EpochEndsAt(text: string, value: nat, end: nat, v: string)
    requires StrToUL(text) == (value, end) && 0 < end < |text| && text[end] == ':' && text[end + 1..] == v
    ensures ExtractEpoch(text) == (value, v)
  {
  }

  /** As strtoul has it, spaces and a sign may precede an epoch, and a negative one wraps. */
  lemma SignedEpoch(blank: string, sign: string, e: nat, v: string)
    requires (forall i | 0 <= i < |blank| :: IsSpace(blank[i])) && sign in {"+", "-"} && e < 0x1_0000_0000_0000_0000
    ensures ExtractEpoch(blank + (sign + Dated(e, v)))
         == (if sign == "-" && e > 0 then 0x1_0000_0000_0000_0000 - e else e, v)
  {
    var text, n, d := blank + (sign + Dated(e, v)), |blank|, Decimal(e);
    var end, value := n + 1 + |d|, if sign == "-" && e > 0 then 0x1_0000_0000_0000_0000 - e else e;
    SignedText(text, blank, sign, d, v);
    assert StrToUL(text) == (value, end) by {
      DecimalReads(e);
      NumberAt(text, n + 1, d, [':'] + v);
      ConvertsFrom(text, n + 1, e, end);
    }
    EpochEndsAt(text, value, end, v);
  }
}
