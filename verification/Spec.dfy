/**
 Package specifications: lcfgpackage_from_spec and lcfgpackage_to_spec of
 packages/package.c.
 */
module Spec {
  import opened CText
  import opened Scanning
  import opened PackageOrder
  import opened Merging
  import opened PackageFields

  datatype SpecError =
    | EmptySpec | BadPrefix | BadContext | BadFlags | BadArch
    | NoRelease | NoVersion | BadVersion | BadRelease | NoName | BadName

  type Parsed = Result<Pkg, SpecError>

  datatype Options = Options(noPrefix: bool, noContext: bool, newline: bool, compat: bool, modern: bool)

  const FLAG_STOPS := {'/', '-', '=', '.', '~', '_', '+', '*', '?'}
  const ARCH_STOPS := {'-', '='}

  // ---------------------------------------------------------------------
  // What a specification means
  // ---------------------------------------------------------------------

  /** No error of the stages before the fields. */
  predicate LateError(r: Parsed) {
    r.Failure? ==> r.error != EmptySpec && r.error != BadPrefix
  }

  /** The setters for the fields that are found last. */
  function Finish(p: Pkg, name: string, version: string, release: string): (r: Parsed)
    ensures LateError(r)
  {
    if version != "" && !ValidVersion(version) then Failure(BadVersion)
    else if release != "" && !ValidRelease(release) then Failure(BadRelease)
    else if name == "" then Failure(NoName)
    else if !ValidName(name) then Failure(BadName)
    else Success(p.(name := name, version := version, release := release))
  }

  function ParseVersions(p: Pkg, text: string): (r: Parsed)
    ensures LateError(r)
  {
    var modern := CutBack(text, '=', {});
    if modern.field != "" then
      var k := LastIn(modern.field, {'-'});
      if k >= 0 then Finish(p, modern.rest, modern.field[..k], modern.field[k + 1..])
      else Finish(p, modern.rest, modern.field, "")
    else
      var release := CutBack(modern.rest, '-', {});
      var version := CutBack(release.rest, '-', {});
      if release.field == "" then Failure(NoRelease)
      else if version.field == "" then Failure(NoVersion)
      else Finish(p, version.rest, version.field, release.field)
  }

  function ParseTail(p: Pkg, text: string): (r: Parsed)
    ensures LateError(r)
  {
    var flags := CutBack(text, ':', FLAG_STOPS);
    var arch := CutBack(flags.rest, '/', ARCH_STOPS);
    var chosen := if p.arch == "" then arch.field else p.arch;
    if flags.field != "" && !ValidFlags(flags.field) then Failure(BadFlags)
    else if !ValidArch(chosen) then Failure(BadArch)
    else ParseVersions(p.(flags := flags.field, arch := chosen), arch.rest)
  }

  /** A context is in brackets at the end. */
  function CutContext(text: string): Cut {
    if text == "" || text[|text| - 1] != ']' then Cut(false, text, "")
    else
      var cut := CutBack(text[..|text| - 1], '[', {});
      if cut.found then cut else Cut(false, text, "")
  }

  function ParseBody(ok: string -> bool, prefix: char, body: string): (r: Parsed)
    ensures LateError(r)
  {
    var front := CutFront(body, '/', ARCH_STOPS);
    var context := CutContext(TrimRight(front.rest));
    if context.field != "" && !ok(context.field) then Failure(BadContext)
    else ParseTail(Pkg("", front.field, "", "", "", context.field, prefix, 0), context.rest)
  }

  /** The prefix character, and what follows it. */
  function SplitPrefix(input: string): Result<(char, string), SpecError> {
    var s := TrimLeft(input);
    if s == "" then Failure(EmptySpec)
    else if IsWord(s[0]) then Success((PREFIX_NONE, s))
    else if ValidPrefix(s[0]) then Success((s[0], s[1..]))
    else Failure(BadPrefix)
  }

  function ParseSpec(ok: string -> bool, input: string): Parsed {
    match SplitPrefix(input)
    case Success((prefix, body)) => ParseBody(ok, prefix, body)
    case Failure(e) => Failure(e)
  }

  /** strrchr, as an index; -1 stands for NULL. */
  method StrRChr(s: string, c: char) returns (k: int)
    ensures k == LastIn(s, {c})
  {
    k := |s| - 1;
    while k >= 0 && s[k] != c
      invariant -1 <= k < |s| && LastIn(s, {c}) == LastBefore(s, k + 1, {c})
    {
      k := k - 1;
    }
  }

  /** The last part of lcfgpackage_from_spec: the setters, the name being what is left. */
  method NameFromSpec(pkg: Pkg, text: string, left: nat, version: string, release: string) returns (r: Parsed)
    requires left <= |text|
    ensures r == Finish(pkg, text[..left], version, release)
  {
    if version != "" && !ValidVersion(version) {
      return Failure(BadVersion);
    }
    if release != "" && !ValidRelease(release) {
      return Failure(BadRelease);
    }
    if left == 0 {
      return Failure(NoName);
    }
    var name := text[..left];
    if !ValidName(name) {
      return Failure(BadName);
    }
    return Success(pkg.(name := name, version := version, release := release));
  }

  /** The part of lcfgpackage_from_spec from the release and version on. */
  method VersionsFromSpec(pkg: Pkg, text: string, len: nat) returns (r: Parsed)
    requires len <= |text|
    ensures r == ParseVersions(pkg, text[..len])
  {
    var version, release := "", "";
    var found, left, vr := WalkBackwardsUntil(text, len, '=', {});
    if vr != "" {
      version := vr;
      var sep := StrRChr(vr, '-');
      if sep >= 0 {
        release := vr[sep + 1..];
        version := vr[..sep];
      }
    } else {
      found, left, release := WalkBackwardsUntil(text, left, '-', {});
      if release == "" {
        return Failure(NoRelease);
      }
      found, left, version := WalkBackwardsUntil(text, left, '-', {});
      if version == "" {
        return Failure(NoVersion);
      }
    }
    r := NameFromSpec(pkg, text, left, version, release);
  }

  method TailFromSpec(pkg: Pkg, text: string, len: nat) returns (r: Parsed)
    requires len <= |text|
    ensures r == ParseTail(pkg, text[..len])
  {
    var found, left, flags := WalkBackwardsUntil(text, len, ':', FLAG_STOPS);
    if flags != "" && !ValidFlags(flags) {
      return Failure(BadFlags);
    }
    var arch2;
    found, left, arch2 := WalkBackwardsUntil(text, left, '/', ARCH_STOPS);
    var arch := if pkg.arch == "" then arch2 else pkg.arch;
    if arch != "" && !ValidArch(arch) {
      return Failure(BadArch);
    }
    r := VersionsFromSpec(pkg.(flags := flags, arch := arch), text, left);
  }

  /** The context at the end of the first len characters, and what then is left of them. */
  method ContextFromSpec(text: string, len: nat) returns (left: nat, context: string)
    requires len <= |text|
    ensures left <= len && text[..left] == CutContext(text[..len]).rest && context == CutContext(text[..len]).field
  {
    left, context := len, "";
    if len > 0 && text[len - 1] == ']' {
      assert text[..len][..len - 1] == text[..len - 1];
      var found, ctxLen, ctx := WalkBackwardsUntil(text, len - 1, '[', {});
      if found {
        left, context := ctxLen, ctx;
      }
    }
  }

  method BodyFromSpec(ok: string -> bool, prefix: char, input: string, start: nat) returns (r: Parsed)
    requires start <= |input|
    ensures r == ParseBody(ok, prefix, input[start..])
  {
    var found, next, arch := WalkForwardsUntil(input, start, '/', ARCH_STOPS);
    var text := input[next..];
    var len := DropSpaces(text);
    var left, context := ContextFromSpec(text, len);
    if context != "" && !ok(context) {
      return Failure(BadContext);
    }
    r := TailFromSpec(Pkg("", arch, "", "", "", context, prefix, 0), text, left);
  }

  /** lcfgpackage_from_spec. */
  method FromSpec(ok: string -> bool, input: string) returns (r: Parsed)
    requires NulFree(input)
    ensures r == ParseSpec(ok, input)
  {
    var start := SkipSpaces(input, 0);
    ghost var s := TrimLeft(input);
    TrimLeftIs(input);
    if start == |input| {
      return Failure(EmptySpec);
    }
    var firstChar := input[start];
    assert s[0] == firstChar;
    if IsWord(firstChar) {
      r := BodyFromSpec(ok, PREFIX_NONE, input, start);
    } else if ValidPrefix(firstChar) {
      assert s[1..] == input[start + 1..];
      r := BodyFromSpec(ok, firstChar, input, start + 1);
    } else {
      r := Failure(BadPrefix);
    }
  }
}
