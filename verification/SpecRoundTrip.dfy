/** Printing and parsing package specifications undo each other, and exactly when. */
module SpecRoundTrip {
  import opened CText
  import opened Scanning
  import opened PackageOrder
  import opened Merging
  import opened PackageFields
  import opened Spec
  import opened SpecPrinting

  /** The printed versions can be told from the separators around them. */
  predicate VersionsReadable(q: Pkg, o: Options) {
    '-' !in q.version || (o.modern && q.release != "")
  }

  /** The condition on the printed fields under which the parser finds them again. */
  predicate Readable(q: Pkg, o: Options) {
    && '-' !in q.arch
    && '[' !in q.context && Trimmed(q.context)
    && VersionsReadable(q, o)
  }

  /** Fields as they are printed: a version always, and a release where the parser needs one. */
  predicate Printable(ok: string -> bool, q: Pkg, o: Options) {
    && ValidPackage(ok, q)
    && q.version != ""
    && (q.release == "" ==> o.modern && ':' !in q.version)
  }

  lemma PrintedIsPrintable(ok: string -> bool, p: Pkg, defarch: string, o: Options)
    requires ValidPackage(ok, p)
    ensures Printable(ok, Printed(p, defarch, o), o)
  {
  }

  function Versions(q: Pkg, o: Options): string {
    q.name + [Separator(o)] + (q.version + Lead('-', q.release))
  }

  // ---------------------------------------------------------------------
  // Name, version and release
  // ---------------------------------------------------------------------

  predicate Solid(s: string) {
    forall i | 0 <= i < |s| :: !IsSpace(s[i])
  }

  lemma NameChars(name: string)
    requires ValidName(name)
    ensures Solid(name) && FreeOf(name, {'=', '/', ':', ']'})
  {
  }

  lemma VersionChars(version: string)
    requires ValidVersion(version)
    ensures Solid(version) && FreeOf(version, {'=', '/', ']'})
  {
  }

  lemma ReleaseChars(release: string)
    requires release == "" || ValidRelease(release)
    ensures Solid(release) && FreeOf(release, {'=', '/', ']', '-', ':'})
  {
  }

  lemma Joined(a: string, b: string, marks: set<char>)
    requires FreeOf(a, marks) && FreeOf(b, marks) && Solid(a) && Solid(b)
    ensures FreeOf(a + b, marks) && Solid(a + b)
  {
  }

  /** A modern version and release part in two at the last hyphen. */
  lemma VersionRelease(version: string, release: string)
    requires FreeOf(release, {'-'})
    ensures var vr := version + Lead('-', release);
      var k := LastIn(vr, {'-'});
      if release != "" then k == |version| && vr[..k] == version && vr[k + 1..] == release
      else vr == version && (k >= 0 <==> '-' in version)
  {
    var vr := version + Lead('-', release);
    if release != "" {
      LastInIs(vr, |version|, {'-'});
    } else {
      LastBeforeStops(vr, |vr|, {'-'});
    }
  }

  lemma ModernCut(name: string, version: string, release: string)
    requires ValidVersion(version) && (release == "" || ValidRelease(release))
    ensures var vr := version + Lead('-', release); CutBack(name + ['='] + vr, '=', {}) == Cut(true, name, vr)
  {
    var vr := version + Lead('-', release);
    VersionChars(version);
    ReleaseChars(release);
    Joined(version, Lead('-', release), {'='});
    CutBackAt(name, '=', vr, '=', {});
  }

  /** The legacy style reads a version only from its last hyphen on. */
  lemma LegacyVersion(name: string, version: string)
    requires Solid(version)
    ensures var cut := CutBack(name + ['-'] + version, '-', {});
      if '-' !in version then cut == Cut(true, name, version) else cut.field != version
  {
    if '-' !in version {
      CutBackAt(name, '-', version, '-', {});
    } else {
      CutBackField(name + ['-'] + version, '-', {});
    }
  }

  lemma LegacyCuts(name: string, version: string, release: string)
    requires ValidName(name) && ValidVersion(version) && ValidRelease(release)
    ensures var left := name + ['-'] + version;
      var text := left + ['-'] + release;
      CutBack(text, '=', {}) == Cut(false, text, "") && CutBack(text, '-', {}) == Cut(true, left, release)
  {
    var left := name + ['-'] + version;
    NameChars(name);
    VersionChars(version);
    ReleaseChars(release);
    CutBackMisses(left + ['-'] + release, '=', {});
    CutBackAt(left, '-', release, '-', {});
  }

  /** Name, version and release are read as they were printed, or the version is read wrongly or not at all. */
  predicate ReadsVersions(r: Parsed, p: Pkg, q: Pkg, o: Options) {
    if VersionsReadable(q, o) then r == Success(p.(name := q.name, version := q.version, release := q.release))
    else r.Failure? || r.value.version != q.version
  }

  lemma FinishReads(p: Pkg, q: Pkg, o: Options, name: string, version: string, release: string)
    requires ValidName(q.name) && ValidVersion(q.version) && (q.release == "" || ValidRelease(q.release))
    requires if VersionsReadable(q, o) then name == q.name && version == q.version && release == q.release
             else version != q.version
    ensures ReadsVersions(Finish(p, name, version, release), p, q, o)
  {
  }

  lemma ModernFinish(p: Pkg, text: string, name: string, vr: string) returns (v: string, w: string)
    requires CutBack(text, '=', {}) == Cut(true, name, vr) && vr != ""
    ensures ParseVersions(p, text) == Finish(p, name, v, w)
    ensures var k := LastIn(vr, {'-'}); v == (if k >= 0 then vr[..k] else vr) && w == if k >= 0 then vr[k + 1..] else ""
  {
    var k := LastIn(vr, {'-'});
    v := if k >= 0 then vr[..k] else vr;
    w := if k >= 0 then vr[k + 1..] else "";
  }

  lemma VersionsRead(ok: string -> bool, p: Pkg, q: Pkg, o: Options)
    requires Printable(ok, q, o)
    ensures ReadsVersions(ParseVersions(p, Versions(q, o)), p, q, o)
  {
    var text := Versions(q, o);
    ReleaseChars(q.release);
    if o.modern {
      ModernCut(q.name, q.version, q.release);
      VersionRelease(q.version, q.release);
      var v, w := ModernFinish(p, text, q.name, q.version + Lead('-', q.release));
      FinishReads(p, q, o, q.name, v, w);
    } else {
      var left := q.name + ['-'] + q.version;
      assert text == left + ['-'] + q.release;
      LegacyCuts(q.name, q.version, q.release);
      VersionChars(q.version);
      LegacyVersion(q.name, q.version);
      var version := CutBack(left, '-', {});
      FinishReads(p, q, o, version.rest, version.field, q.release);
    }
  }

  // ---------------------------------------------------------------------
  // Architecture and flags
  // ---------------------------------------------------------------------

  lemma ArchChars(arch: string)
    requires ValidArch(arch)
    ensures Solid(arch) && FreeOf(arch, {'=', '/', ':', ']'})
  {
  }

  lemma FlagChars(flags: string)
    requires flags == "" || ValidFlags(flags)
    ensures Solid(flags) && FreeOf(flags, FLAG_STOPS + {':', ']'})
  {
  }

  lemma VersionsChars(q: Pkg, o: Options)
    requires ValidName(q.name) && ValidVersion(q.version) && (q.release == "" || ValidRelease(q.release))
    ensures Solid(Versions(q, o)) && FreeOf(Versions(q, o), {'/', ']'})
  {
    NameChars(q.name);
    VersionChars(q.version);
    ReleaseChars(q.release);
    Joined(q.version, Lead('-', q.release), {'/', ']'});
    Joined(q.name, [Separator(o)], {'/', ']'});
    Joined(q.name + [Separator(o)], q.version + Lead('-', q.release), {'/', ']'});
  }

  /** A separator that hides every earlier colon: nothing after it is one. */
  lemma NoFlags(a: string, c: char, b: string)
    requires c in FLAG_STOPS && Solid(b) && ':' !in b
    ensures CutBack(a + [c] + b, ':', FLAG_STOPS) == Cut(false, a + [c] + b, "")
  {
    CutBackStops(a + [c] + b, |a|, ':', FLAG_STOPS);
  }

  lemma FlagsRead(ok: string -> bool, q: Pkg, o: Options)
    requires Printable(ok, q, o)
    ensures var base := Versions(q, o) + BackPart(q, o);
      CutBack(base + Lead(':', q.flags), ':', FLAG_STOPS) == Cut(q.flags != "", base, q.flags)
  {
    var base := Versions(q, o) + BackPart(q, o);
    FlagChars(q.flags);
    if q.flags != "" {
      assert base + Lead(':', q.flags) == base + [':'] + q.flags;
      CutBackAt(base, ':', q.flags, ':', FLAG_STOPS);
    } else {
      assert base + Lead(':', q.flags) == base;
      if BackPart(q, o) != "" {
        ArchChars(q.arch);
        assert base == Versions(q, o) + ['/'] + q.arch;
        NoFlags(Versions(q, o), '/', q.arch);
      } else if q.release != "" {
        ReleaseChars(q.release);
        var a := q.name + [Separator(o)] + q.version;
        assert base == a + ['-'] + q.release;
        NoFlags(a, '-', q.release);
      } else {
        VersionChars(q.version);
        assert base == q.name + [Separator(o)] + q.version;
        NoFlags(q.name, Separator(o), q.version);
      }
    }
  }

  lemma ArchRead(ok: string -> bool, q: Pkg, o: Options)
    requires Printable(ok, q, o) && '-' !in q.arch
    ensures var cut := CutBack(Versions(q, o) + BackPart(q, o), '/', ARCH_STOPS);
      cut.rest == Versions(q, o) && cut.field == if FrontArch(q, o) then "" else q.arch
  {
    var text := Versions(q, o);
    if BackPart(q, o) == "" {
      assert text + BackPart(q, o) == text;
      VersionsChars(q, o);
      CutBackMisses(text, '/', ARCH_STOPS);
    } else {
      assert text + BackPart(q, o) == text + ['/'] + q.arch;
      ArchChars(q.arch);
      CutBackAt(text, '/', q.arch, '/', ARCH_STOPS);
    }
  }

  function Tail(q: Pkg, o: Options): string {
    Versions(q, o) + BackPart(q, o) + Lead(':', q.flags)
  }

  lemma TailRead(ok: string -> bool, p: Pkg, q: Pkg, o: Options)
    requires Printable(ok, q, o) && '-' !in q.arch
    requires p.arch == if FrontArch(q, o) then q.arch else ""
    ensures ParseTail(p, Tail(q, o)) == ParseVersions(p.(flags := q.flags, arch := q.arch), Versions(q, o))
  {
    FlagsRead(ok, q, o);
    ArchRead(ok, q, o);
  }

  // ---------------------------------------------------------------------
  // Context, front architecture and prefix
  // ---------------------------------------------------------------------

  lemma TailChars(ok: string -> bool, q: Pkg, o: Options)
    requires Printable(ok, q, o)
    ensures Solid(Tail(q, o)) && FreeOf(Tail(q, o), {']'}) && Tail(q, o) != ""
  {
    VersionsChars(q, o);
    ArchChars(q.arch);
    FlagChars(q.flags);
    Joined(Versions(q, o), BackPart(q, o), {']'});
    Joined(Versions(q, o) + BackPart(q, o), Lead(':', q.flags), {']'});
  }

  lemma ContextRead(tail: string, context: string)
    requires tail != "" && Solid(tail) && ']' !in tail && '[' !in context && Trimmed(context)
    ensures var cut := CutContext(tail + Bracketed(context)); cut.rest == tail && cut.field == context
  {
    var inner := tail + ['['] + context;
    var text := if context == "" then tail else inner + [']'];
    assert tail + Bracketed(context) == text;
    assert context != "" ==> text[..|text| - 1] == inner;
    CutBackAt(tail, '[', context, '[', {});
  }

  lemma BracketedEnds(tail: string, context: string)
    requires tail != "" && Solid(tail)
    ensures var text := tail + Bracketed(context); !IsSpace(text[|text| - 1])
  {
  }

  lemma EndingDropped(text: string, o: Options)
    requires text != "" && !IsSpace(text[|text| - 1])
    ensures TrimRight(text + Ending(o)) == text
  {
    if o.newline {
      TrimRightOnce(text, '\n');
    } else {
      assert text + Ending(o) == text;
    }
  }

  lemma FrontRead(ok: string -> bool, q: Pkg, o: Options, rest: string)
    requires Printable(ok, q, o) && '-' !in q.arch
    ensures var cut := CutFront(FrontPart(q, o) + (Tail(q, o) + rest), '/', ARCH_STOPS);
      cut.rest == Tail(q, o) + rest && cut.field == if FrontArch(q, o) then q.arch else ""
  {
    var text := Tail(q, o) + rest;
    if FrontArch(q, o) {
      ArchChars(q.arch);
      CutFrontAt(q.arch, '/', text, '/', ARCH_STOPS);
    } else {
      assert FrontPart(q, o) + text == text;
      NameChars(q.name);
      NoFront(q.name, Separator(o), text);
    }
  }

  lemma NoFront(name: string, c: char, text: string)
    requires name != "" && !IsSpace(name[0]) && '/' !in name && c in ARCH_STOPS && c != '/'
    requires |name| < |text| && text[..|name|] == name && text[|name|] == c
    ensures CutFront(text, '/', ARCH_STOPS) == Cut(false, text, "")
  {
    assert forall i | 0 <= i < |name| :: text[i] == text[..|name|][i];
    CutFrontStops(text, |name|, '/', ARCH_STOPS);
  }

  lemma BodyCuts(ok: string -> bool, prefix: char, body: string, front: Cut, context: Cut)
    requires front == CutFront(body, '/', ARCH_STOPS) && context == CutContext(TrimRight(front.rest))
    requires context.field == "" || ok(context.field)
    ensures ParseBody(ok, prefix, body) == ParseTail(Pkg("", front.field, "", "", "", context.field, prefix, 0), context.rest)
  {
  }

  lemma TailEnd(tail: string, context: string, o: Options)
    requires tail != "" && Solid(tail) && ']' !in tail && '[' !in context && Trimmed(context)
    ensures var cut := CutContext(TrimRight(tail + (Bracketed(context) + Ending(o))));
      cut.rest == tail && cut.field == context
  {
    var text := tail + Bracketed(context);
    assert tail + (Bracketed(context) + Ending(o)) == text + Ending(o);
    BracketedEnds(tail, context);
    EndingDropped(text, o);
    ContextRead(tail, context);
  }

  lemma BodyRead(ok: string -> bool, q: Pkg, o: Options)
    requires Printable(ok, q, o) && '-' !in q.arch && '[' !in q.context && Trimmed(q.context)
    ensures ParseBody(ok, q.prefix, FrontPart(q, o) + (Tail(q, o) + (Bracketed(q.context) + Ending(o))))
         == ParseVersions(Pkg("", q.arch, "", "", q.flags, q.context, q.prefix, 0), Versions(q, o))
  {
    var tail, rest := Tail(q, o), Bracketed(q.context) + Ending(o);
    FrontRead(ok, q, o, rest);
    TailChars(ok, q, o);
    TailEnd(tail, q.context, o);
    var body := FrontPart(q, o) + (tail + rest);
    BodyCuts(ok, q.prefix, body, CutFront(body, '/', ARCH_STOPS), CutContext(TrimRight(tail + rest)));
    TailRead(ok, Pkg("", if FrontArch(q, o) then q.arch else "", "", "", "", q.context, q.prefix, 0), q, o);
  }

  lemma LayoutParts(q: Pkg, o: Options)
    ensures Layout(q, o) == PrefixPart(q) + (FrontPart(q, o) + (Tail(q, o) + (Bracketed(q.context) + Ending(o))))
  {
    var front, rest := PrefixPart(q) + FrontPart(q, o), Bracketed(q.context) + Ending(o);
    var core := Versions(q, o) + BackPart(q, o);
    assert Core(front, q, o) == front + core by {
      CoreParts(front, q.name, [Separator(o)], q.version, Lead('-', q.release), BackPart(q, o));
    }
    Associates(front, core, Lead(':', q.flags));
    Associates(front + Tail(q, o), Bracketed(q.context), Ending(o));
    Associates(front, Tail(q, o), rest);
    Associates(PrefixPart(q), FrontPart(q, o), Tail(q, o) + rest);
  }

  lemma CoreParts(front: string, a: string, b: string, c: string, d: string, e: string)
    ensures front + a + b + c + d + e == front + ((a + b + (c + d)) + e)
  {
  }

  lemma BodyStarts(ok: string -> bool, q: Pkg, o: Options, rest: string)
    requires Printable(ok, q, o) && '-' !in q.arch
    ensures var body := FrontPart(q, o) + (Tail(q, o) + rest); body != "" && IsWord(body[0])
  {
    var body := FrontPart(q, o) + (Tail(q, o) + rest);
    if FrontArch(q, o) {
      assert body[0] == q.arch[0];
    } else {
      assert body[0] == q.name[0];
    }
  }

  lemma PrefixRead(prefix: char, body: string)
    requires ValidPrefix(prefix) && body != "" && IsWord(body[0])
    ensures SplitPrefix((if prefix == PREFIX_NONE then "" else [prefix]) + body) == Success((prefix, body))
  {
    var s := (if prefix == PREFIX_NONE then "" else [prefix]) + body;
    assert (if prefix == PREFIX_NONE then s else s[1..]) == body;
  }

  lemma SpecRead(ok: string -> bool, q: Pkg, o: Options)
    requires Printable(ok, q, o) && '-' !in q.arch && '[' !in q.context && Trimmed(q.context)
    ensures ParseSpec(ok, Layout(q, o))
         == ParseVersions(Pkg("", q.arch, "", "", q.flags, q.context, q.prefix, 0), Versions(q, o))
  {
    var rest := Bracketed(q.context) + Ending(o);
    LayoutParts(q, o);
    BodyStarts(ok, q, o, rest);
    PrefixRead(q.prefix, FrontPart(q, o) + (Tail(q, o) + rest));
    BodyRead(ok, q, o);
  }

  // ---------------------------------------------------------------------
  // The results
  // ---------------------------------------------------------------------

  /** The result has a valid name, version and release, and is p otherwise. */
  predicate Completes(r: Parsed, p: Pkg) {
    r.Success? ==>
      var q := r.value;
      && ValidName(q.name) && (q.version == "" || ValidVersion(q.version)) && (q.release == "" || ValidRelease(q.release))
      && q == p.(name := q.name, version := q.version, release := q.release)
  }

  lemma FinishCompletes(p: Pkg, name: string, version: string, release: string)
    ensures Completes(Finish(p, name, version, release), p)
  {
  }

  lemma VersionsFinish(p: Pkg, text: string) returns (name: string, version: string, release: string)
    ensures ParseVersions(p, text).Success? ==> ParseVersions(p, text) == Finish(p, name, version, release)
  {
    var modern := CutBack(text, '=', {});
    var legacy := CutBack(modern.rest, '-', {});
    var before := CutBack(legacy.rest, '-', {});
    var vr := modern.field;
    var k := LastIn(vr, {'-'});
    name := if vr != "" then modern.rest else before.rest;
    version := if vr == "" then before.field else if k >= 0 then vr[..k] else vr;
    release := if vr == "" then legacy.field else if k >= 0 then vr[k + 1..] else "";
  }

  lemma TailFinish(p: Pkg, text: string) returns (flags: string, arch: string, rest: string)
    requires '-' !in p.arch
    ensures ParseTail(p, text).Success? ==>
      && ParseTail(p, text) == ParseVersions(p.(flags := flags, arch := arch), rest)
      && (flags == "" || ValidFlags(flags)) && ValidArch(arch) && '-' !in arch
  {
    var f := CutBack(text, ':', FLAG_STOPS);
    var a := CutBack(f.rest, '/', ARCH_STOPS);
    CutBackField(f.rest, '/', ARCH_STOPS);
    assert '-' !in a.field;
    flags, arch, rest := f.field, if p.arch == "" then a.field else p.arch, a.rest;
  }

  lemma ContextField(text: string)
    ensures var f := CutContext(text).field; '[' !in f && Trimmed(f)
  {
    if text != "" {
      CutBackField(text[..|text| - 1], '[', {});
    }
  }

  lemma BodyFinish(ok: string -> bool, prefix: char, body: string) returns (p: Pkg, rest: string)
    ensures ParseBody(ok, prefix, body).Success? ==> ParseBody(ok, prefix, body) == ParseTail(p, rest)
    ensures '-' !in p.arch && (ParseBody(ok, prefix, body).Success? ==> p.context == "" || ok(p.context))
    ensures '[' !in p.context && Trimmed(p.context) && p.prefix == prefix && p.priority == 0
  {
    var front := CutFront(body, '/', ARCH_STOPS);
    CutFrontField(body, '/', ARCH_STOPS);
    assert '-' !in front.field;
    var context := CutContext(TrimRight(front.rest));
    ContextField(TrimRight(front.rest));
    p, rest := Pkg("", front.field, "", "", "", context.field, prefix, 0), context.rest;
  }

  lemma BodyFields(ok: string -> bool, prefix: char, body: string)
    requires ParseBody(ok, prefix, body).Success? && ValidPrefix(prefix)
    ensures var q := ParseBody(ok, prefix, body).value;
      ValidPackage(ok, q) && '-' !in q.arch && '[' !in q.context && Trimmed(q.context) && q.priority == 0
  {
    var p, tail := BodyFinish(ok, prefix, body);
    var flags, arch, rest := TailFinish(p, tail);
    var p' := p.(flags := flags, arch := arch);
    var name, version, release := VersionsFinish(p', rest);
    FinishCompletes(p', name, version, release);
  }

  /** What the parser accepts is a valid package whose arch and context are printable without ambiguity. */
  lemma ParsedFields(ok: string -> bool, input: string)
    requires ParseSpec(ok, input).Success?
    ensures var q := ParseSpec(ok, input).value;
      ValidPackage(ok, q) && '-' !in q.arch && '[' !in q.context && Trimmed(q.context) && q.priority == 0
  {
    var s := TrimLeft(input);
    if IsWord(s[0]) {
      BodyFields(ok, PREFIX_NONE, s);
    } else {
      BodyFields(ok, s[0], s[1..]);
    }
  }

  /**
   Parsing a printed specification gives back the printed fields exactly when
   they are readable: no hyphen in the architecture, a context without an opening
   bracket or surrounding space, and no hyphen in the version unless the style is
   modern and a release follows.
   */
  lemma PrintParse(ok: string -> bool, p: Pkg, defarch: string, o: Options)
    requires ValidPackage(ok, p)
    ensures var q := Printed(p, defarch, o);
      ParseSpec(ok, PrintSpec(p, defarch, o)) == Success(q) <==> Readable(q, o)
  {
    var q := Printed(p, defarch, o);
    PrintedIsPrintable(ok, p, defarch, o);
    if '-' !in q.arch && '[' !in q.context && Trimmed(q.context) {
      SpecRead(ok, q, o);
      VersionsRead(ok, Pkg("", q.arch, "", "", q.flags, q.context, q.prefix, 0), q, o);
    } else if ParseSpec(ok, PrintSpec(p, defarch, o)).Success? {
      ParsedFields(ok, PrintSpec(p, defarch, o));
    }
  }

  /**
   What an accepted specification says survives being printed and read again,
   unless its version is not readable in that style. A modern "a=1-2-" gives the
   version "1-2" without a release, which is not readable in either style.
   */
  lemma ParsePrintParse(ok: string -> bool, input: string, o: Options)
    requires ParseSpec(ok, input).Success?
    ensures var q := Printed(ParseSpec(ok, input).value, "", o);
      ParseSpec(ok, PrintSpec(ParseSpec(ok, input).value, "", o)) == Success(q) <==> VersionsReadable(q, o)
  {
    var p := ParseSpec(ok, input).value;
    ParsedFields(ok, input);
    PrintParse(ok, p, "", o);
  }

  // ---------------------------------------------------------------------
  // The round trip in terms of the package itself
  // ---------------------------------------------------------------------

  /**
   The fields of p that are printed can be told apart: no hyphen in its architecture
   unless that is the default, no bracket or outer space in its context unless that
   is left out, and no hyphen in its version unless the style is modern and there is
   a release, or an epoch asks for one.
   */
  predicate Legible(p: Pkg, defarch: string, o: Options) {
    && ('-' !in p.arch || (defarch != "" && p.arch == defarch))
    && (o.noContext || ('[' !in p.context && Trimmed(p.context)))
    && ('-' !in p.version || (o.modern && (p.release != "" || ':' in p.version)))
  }

  /** Printing a legible package and reading the text gives back its own fields, but for those left out and the wildcards put in. */
  lemma PrintedFieldsRead(ok: string -> bool, p: Pkg, defarch: string, o: Options)
    requires ValidPackage(ok, p) && Legible(p, defarch, o)
    ensures var r := ParseSpec(ok, PrintSpec(p, defarch, o));
      && r.Success? && r.value.name == p.name && r.value.flags == p.flags
      && r.value.version == (if p.version == "" then "*" else p.version)
      && r.value.release == (if p.release != "" then p.release else if o.modern && ':' !in p.version then "" else "*")
      && r.value.arch == (if defarch != "" && p.arch == defarch then "" else p.arch)
      && r.value.context == (if o.noContext then "" else p.context)
      && r.value.prefix == (if o.noPrefix then PREFIX_NONE else p.prefix)
      && r.value.priority == 0
  {
    PrintParse(ok, p, defarch, o);
    LegibleIsReadable(p, defarch, o);
  }

  lemma LegibleIsReadable(p: Pkg, defarch: string, o: Options)
    ensures Legible(p, defarch, o) <==> Readable(Printed(p, defarch, o), o)
  {
    assert '-' !in WILDCARD && '-' !in "" && '[' !in "" && Trimmed("");
  }

  /** A package of which every field but the prefix and the priority is set. */
  predicate Complete(p: Pkg) {
    p.version != "" && p.release != "" && p.arch != "" && p.flags != "" && p.context != "" && p.priority == 0
  }

  /** Nothing is left out, and no architecture is the default. */
  predicate InFull(o: Options) {
    !o.noPrefix && !o.noContext
  }

  /** In every style a package with all fields set comes back as itself exactly when it is legible. */
  lemma CompleteRoundTrip(ok: string -> bool, p: Pkg, o: Options)
    requires ValidPackage(ok, p) && Complete(p) && InFull(o)
    ensures ParseSpec(ok, PrintSpec(p, "", o)) == Success(p) <==> Legible(p, "", o)
  {
    PrintParse(ok, p, "", o);
    LegibleIsReadable(p, "", o);
  }

  /** The text of such a package, in each of the three styles; the architecture leads in compatibility mode unless it is noarch. */
  lemma CompleteText(p: Pkg, o: Options)
    requires Complete(p) && InFull(o)
    ensures var leads := o.compat && !o.modern && p.arch != "noarch";
      PrintSpec(p, "", o)
         == (if p.prefix == PREFIX_NONE then "" else [p.prefix])
          + (if leads then p.arch + "/" else "")
          + p.name + (if o.modern then "=" else "-") + p.version + "-" + p.release
          + (if leads then "" else "/" + p.arch)
          + ":" + p.flags + "[" + p.context + "]" + (if o.newline then "\n" else "")
  {
    var leads := o.compat && !o.modern && p.arch != "noarch";
    var front, back := if leads then p.arch + "/" else "", if leads then "" else "/" + p.arch;
    var start := (if p.prefix == PREFIX_NONE then "" else [p.prefix]) + front + p.name + (if o.modern then "=" else "-") + p.version;
    var core := start + ("-" + p.release) + back;
    assert PrintSpec(p, "", o) == core + (":" + p.flags) + ("[" + p.context + "]") + (if o.newline then "\n" else "");
    Associates(start, "-", p.release);
    Associates(core, ":", p.flags);
    Associates(core + ":" + p.flags, "[" + p.context, "]");
    Associates(core + ":" + p.flags, "[", p.context);
  }

  // ---------------------------------------------------------------------
  // What is refused at once
  // ---------------------------------------------------------------------

  predicate Blank(s: string) {
    forall i | 0 <= i < |s| :: IsSpace(s[i])
  }

  /** The first character that is not a space. */
  predicate StartsAt(s: string, i: nat)
    requires i < |s|
  {
    !IsSpace(s[i]) && forall j | 0 <= j < i :: IsSpace(s[j])
  }

  lemma SplitAt(input: string, i: nat)
    requires i < |input| && StartsAt(input, i)
    ensures SplitPrefix(input)
         == if IsWord(input[i]) then Success((PREFIX_NONE, input[i..]))
            else if ValidPrefix(input[i]) then Success((input[i], input[i + 1..]))
            else Failure(BadPrefix)
  {
    SkipFromStops(input, 0);
    TrimLeftIs(input);
    assert SkipFrom(input, 0) == i;
    assert input[i..][1..] == input[i + 1..];
  }

  lemma SplitBlank(input: string)
    ensures SplitPrefix(input) == Failure(EmptySpec) <==> Blank(input)
  {
    if Blank(input) {
      SkipFromStops(input, 0);
      TrimLeftIs(input);
    } else {
      var i := FirstSolid(input);
      SplitAt(input, i);
    }
  }

  /** Just what has nothing but space in it is refused as empty. */
  lemma BlankRefused(ok: string -> bool, input: string)
    ensures ParseSpec(ok, input) == Failure(EmptySpec) <==> Blank(input)
  {
    SplitBlank(input);
    SplitDecides(ok, input);
  }

  /** Just what starts with neither a word character nor a prefix is refused for that. */
  lemma BadStartRefused(ok: string -> bool, input: string, i: nat)
    requires i < |input| && StartsAt(input, i)
    ensures ParseSpec(ok, input) == Failure(BadPrefix) <==> !IsWord(input[i]) && !ValidPrefix(input[i])
  {
    SplitAt(input, i);
    SplitDecides(ok, input);
  }

  lemma SplitDecides(ok: string -> bool, input: string)
    ensures ParseSpec(ok, input) == Failure(EmptySpec) <==> SplitPrefix(input) == Failure(EmptySpec)
    ensures ParseSpec(ok, input) == Failure(BadPrefix) <==> SplitPrefix(input) == Failure(BadPrefix)
  {
  }

  lemma FirstSolid(s: string) returns (i: nat)
    requires !Blank(s)
    ensures i < |s| && StartsAt(s, i)
  {
    SkipFromStops(s, 0);
    i := SkipFrom(s, 0);
  }

  // ---------------------------------------------------------------------
  // Missing fields, and colons that are no flags
  // ---------------------------------------------------------------------

  /** A text without separators has no release. */
  lemma ReleaseMissing(p: Pkg, text: string)
    requires FreeOf(text, {'-', '='})
    ensures ParseVersions(p, text) == Failure(NoRelease)
  {
    CutBackMisses(text, '=', {});
    CutBackMisses(text, '-', {});
    LegacyStages(p, text);
  }

  /** A text with a single hyphen has no version. */
  lemma VersionMissing(p: Pkg, text: string, name: string, release: string)
    requires text == name + ['-'] + release && release != "" && Solid(release)
    requires FreeOf(name, {'-', '='}) && FreeOf(release, {'-', '='})
    ensures ParseVersions(p, text) == Failure(NoVersion)
  {
    assert FreeOf(text, {'='});
    CutBackMisses(text, '=', {});
    assert CutBack(text, '-', {}) == Cut(true, name, release) by {
      CutBackAt(name, '-', release, '-', {});
    }
    assert CutBack(name, '-', {}).field == "" by {
      CutBackMisses(name, '-', {});
    }
    LegacyStages(p, text);
  }

  lemma LegacyStages(p: Pkg, text: string)
    requires CutBack(text, '=', {}) == Cut(false, text, "")
    ensures var release := CutBack(text, '-', {});
      && (release.field == "" ==> ParseVersions(p, text) == Failure(NoRelease))
      && (release.field != "" && CutBack(release.rest, '-', {}).field == "" ==> ParseVersions(p, text) == Failure(NoVersion))
  {
  }

  /** A colon in front of any of these characters begins no flags: it may end an epoch. */
  lemma NotFlags(a: string, c: char, b: string)
    requires c in {'/', '-', '=', '.', '~', '_', '+', '*', '?'} && Solid(b) && ':' !in b
    ensures CutBack(a + [c] + b, ':', FLAG_STOPS) == Cut(false, a + [c] + b, "")
  {
    NoFlags(a, c, b);
  }

  /** Letters and digits behind the last colon are flags. */
  lemma PlainFlags(a: string, b: string)
    requires ValidFlags(b)
    ensures CutBack(a + ":" + b, ':', FLAG_STOPS) == Cut(true, a, b)
  {
    FlagChars(b);
    CutBackAt(a, ':', b, ':', FLAG_STOPS);
  }

  /** An architecture behind a slash has no hyphen or equals sign in it. */
  lemma PlainArch(a: string, b: string, c: char, d: string)
    requires ValidArch(b) && c in {'-', '='} && Solid(d) && '/' !in d
    ensures '-' !in b ==> CutBack(a + "/" + b, '/', ARCH_STOPS) == Cut(true, a, b)
    ensures CutBack(a + "/" + b + [c] + d, '/', ARCH_STOPS) == Cut(false, a + "/" + b + [c] + d, "")
  {
    ArchChars(b);
    if '-' !in b {
      CutBackAt(a, '/', b, '/', ARCH_STOPS);
    }
    CutBackStops(a + "/" + b + [c] + d, |a + "/" + b|, '/', ARCH_STOPS);
  }

  /** An architecture in front of the name wins over one behind it, which is cut off all the same. */
  lemma FrontArchWins(p: Pkg, a: string, b: string)
    requires p.arch != "" && ValidArch(p.arch) && ValidArch(b) && '-' !in b
    ensures ParseTail(p, a + "/" + b) == ParseVersions(p.(flags := ""), a)
  {
    ArchChars(b);
    var text := a + "/" + b;
    assert CutBack(text, ':', FLAG_STOPS) == Cut(false, text, "") by {
      NoFlags(a, '/', b);
    }
    assert CutBack(text, '/', ARCH_STOPS) == Cut(true, a, b) by {
      CutBackAt(a, '/', b, '/', ARCH_STOPS);
    }
  }

  /** Without one in front, the one behind the name counts. */
  lemma BackArchCounts(p: Pkg, a: string, b: string)
    requires p.arch == "" && ValidArch(b) && '-' !in b
    ensures ParseTail(p, a + "/" + b) == ParseVersions(p.(flags := "", arch := b), a)
  {
    ArchChars(b);
    var text := a + "/" + b;
    assert CutBack(text, ':', FLAG_STOPS) == Cut(false, text, "") by {
      NoFlags(a, '/', b);
    }
    assert CutBack(text, '/', ARCH_STOPS) == Cut(true, a, b) by {
      CutBackAt(a, '/', b, '/', ARCH_STOPS);
    }
  }

  /** A closing bracket without an opening one ends no context. */
  lemma NoContext(text: string)
    requires '[' !in text || (text != "" && text[|text| - 1] != ']')
    ensures CutContext(text) == Cut(false, text, "")
  {
    if text != "" && '[' !in text {
      assert FreeOf(text[..|text| - 1], {'['});
      CutBackMisses(text[..|text| - 1], '[', {});
    }
  }
}
