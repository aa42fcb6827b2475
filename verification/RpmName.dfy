/** RPM file names: lcfgpackage_from_rpm_filename and lcfgpackage_to_rpm_filename of packages/rpm.c. */
module RpmNames {
  import opened CText
  import opened Buffers
  import opened Scanning
  import opened PackageOrder
  import opened Merging
  import opened PackageFields

  const SUFFIX := ".rpm"

  datatype RpmError =
    | BadFilename | NoSuffix | NoArch | BadArch
    | NoRelease | BadRelease | NoVersion | BadVersion | NoName | BadName

  type Parsed = Result<Pkg, RpmError>

  // ---------------------------------------------------------------------
  // What a file name means
  // ---------------------------------------------------------------------

  function Basename(input: string): string {
    input[LastIn(input, {'/'}) + 1..]
  }

  /** The last c that is not the last character, or -1. */
  function CutPoint(s: string, c: char): (k: int)
    ensures -1 <= k && (0 <= k ==> k < |s| - 1 && s[k] == c)
  {
    if s == "" then -1 else LastBefore(s, |s| - 1, {c})
  }

  /** No error of the stages before the fields. */
  predicate LateError(r: Parsed) {
    r.Failure? ==> r.error != BadFilename && r.error != NoSuffix
  }

  function ParseName(p: Pkg, text: string): (r: Parsed)
    ensures LateError(r)
  {
    if text == "" then Failure(NoName)
    else if !ValidName(text) then Failure(BadName)
    else Success(p.(name := text))
  }

  function ParseVersion(p: Pkg, text: string): (r: Parsed)
    ensures LateError(r)
  {
    var k := CutPoint(text, '-');
    if k < 0 then Failure(NoVersion)
    else if !ValidVersion(text[k + 1..]) then Failure(BadVersion)
    else ParseName(p.(version := text[k + 1..]), text[..k])
  }

  function ParseRelease(p: Pkg, text: string): (r: Parsed)
    ensures LateError(r)
  {
    var k := CutPoint(text, '-');
    if k < 0 then Failure(NoRelease)
    else if !ValidRelease(text[k + 1..]) then Failure(BadRelease)
    else ParseVersion(p.(release := text[k + 1..]), text[..k])
  }

  function ParseArch(text: string): (r: Parsed)
    ensures LateError(r)
  {
    var k := CutPoint(text, '.');
    if k < 0 then Failure(NoArch)
    else if !ValidArch(text[k + 1..]) then Failure(BadArch)
    else ParseRelease(Pkg("", text[k + 1..], "", "", "", "", PREFIX_NONE, 0), text[..k])
  }

  function StripSuffix(filename: string): Result<string, RpmError> {
    var n := |filename| - |SUFFIX|;
    if n <= 0 then Failure(BadFilename)
    else if filename[n..] != SUFFIX then Failure(NoSuffix)
    else Success(filename[..n])
  }

  /** The file name without directories and suffix. */
  function Stem(input: string): Result<string, RpmError> {
    StripSuffix(Basename(input))
  }

  lemma StemNotEmpty(input: string)
    requires Stem(input).Success?
    ensures Stem(input).value != ""
  {
  }

  function ParseRpm(input: string): Parsed {
    match Stem(input)
    case Success(stem) => ParseArch(stem)
    case Failure(e) => Failure(e)
  }

  /** One of the loops that run an index down from offset; -1 for a search that fails. */
  method SearchBack(text: string, offset: nat, c: char) returns (i: int)
    requires offset <= |text|
    ensures i == LastBefore(text, offset, {c})
  {
    i := offset - 1;
    while i >= 0 && text[i] != c
      invariant -1 <= i < offset && LastBefore(text, offset, {c}) == LastBefore(text, i + 1, {c})
    {
      i := i - 1;
    }
  }

  /** The version and the name, before the release. */
  method VersionFromRpm(pkg: Pkg, text: string) returns (r: Parsed)
    ensures r == ParseVersion(pkg, text)
  {
    var i := -1;
    if |text| > 0 {
      i := SearchBack(text, |text| - 1, '-');
    }
    if i < 0 {
      return Failure(NoVersion);
    }
    var version := text[i + 1..];
    if !ValidVersion(version) {
      return Failure(BadVersion);
    }
    var name := text[..i];
    if name == "" {
      return Failure(NoName);
    }
    if !ValidName(name) {
      return Failure(BadName);
    }
    return Success(pkg.(name := name, version := version));
  }

  /** The fields in front of the architecture, which ends at index i of the file name. */
  method FieldsFromRpm(pkg: Pkg, filename: string, end: nat) returns (r: Parsed)
    requires end <= |filename|
    ensures r == ParseRelease(pkg, filename[..end])
  {
    var text := filename[..end];
    var i := -1;
    if end > 0 {
      i := SearchBack(text, end - 1, '-');
    }
    if i < 0 {
      return Failure(NoRelease);
    }
    var release := text[i + 1..];
    if !ValidRelease(release) {
      return Failure(BadRelease);
    }
    r := VersionFromRpm(pkg.(release := release), text[..i]);
  }

  method StemFromRpm(stem: string) returns (r: Parsed)
    requires stem != ""
    ensures r == ParseArch(stem)
  {
    var i := SearchBack(stem, |stem| - 1, '.');
    if i < 0 {
      return Failure(NoArch);
    }
    var arch := stem[i + 1..];
    if !ValidArch(arch) {
      return Failure(BadArch);
    }
    r := FieldsFromRpm(Pkg("", arch, "", "", "", "", PREFIX_NONE, 0), stem, i);
  }

  /** lcfgpackage_from_rpm_filename. */
  method FromRpmFilename(input: string) returns (r: Parsed)
    requires NulFree(input)
    ensures r == ParseRpm(input)
  {
    if input == "" {
      return Failure(BadFilename);
    }
    var sep := SearchBack(input, |input|, '/');
    var filename := input[sep + 1..];
    assert filename == Basename(input);
    match StripSuffix(filename)
    case Failure(e) => r := Failure(e);
    case Success(stem) =>
      StemNotEmpty(input);
      r := StemFromRpm(stem);
  }

  // ---------------------------------------------------------------------
  // What is printed
  // ---------------------------------------------------------------------

  /** The version without anything up to its first colon. */
  function AfterEpoch(version: string): string {
    var k := FirstFrom(version, 0, {':'});
    if k < |version| then version[k + 1..] else version
  }

  /** The architecture printed for a package: its own, the default, or that of the host. */
  function ArchOf(p: Pkg, defarch: Option<string>, host: string): string {
    if p.arch != "" then p.arch else if defarch.Some? then defarch.value else host
  }

  function Filename(name: string, version: string, release: string, arch: string): string {
    name + ['-'] + version + ['-'] + release + ['.'] + arch + SUFFIX
  }

  function PrintRpm(p: Pkg, defarch: Option<string>, host: string, newline: bool): string {
    Filename(p.name, AfterEpoch(p.version), p.release, ArchOf(p, defarch, host)) + if newline then ['\n'] else ""
  }

  /** strchr, as an index; |s| stands for NULL. */
  method StrChr(s: string, c: char) returns (k: nat)
    ensures k == FirstFrom(s, 0, {c})
  {
    k := 0;
    while k < |s| && s[k] != c
      invariant k <= |s| && FirstFrom(s, 0, {c}) == FirstFrom(s, k, {c})
    {
      k := k + 1;
    }
  }

  lemma FilenameLength(name: string, version: string, release: string, arch: string)
    ensures |Filename(name, version, release, arch)| == |name| + |version| + |release| + |arch| + |SUFFIX| + 3
  {
  }

  method PutFilename(buf: array<char>, name: string, version: string, release: string, arch: string) returns (to: nat)
    requires |Filename(name, version, release, arch)| < buf.Length
    requires forall i | 0 <= i < buf.Length :: buf[i] == NUL
    modifies buf
    ensures to == |Filename(name, version, release, arch)| && buf[..to] == Filename(name, version, release, arch)
    ensures forall i | to <= i < buf.Length :: buf[i] == NUL
  {
    ghost var w := name;
    assert "" + w == w;
    to := Put(buf, 0, name, "");
    to := Put(buf, to, ['-'], w);
    w := w + ['-'];
    to := Put(buf, to, version, w);
    w := w + version;
    to := Put(buf, to, ['-'], w);
    w := w + ['-'];
    to := Put(buf, to, release, w);
    w := w + release;
    to := Put(buf, to, ['.'], w);
    w := w + ['.'];
    to := Put(buf, to, arch, w);
    w := w + arch;
    to := Put(buf, to, SUFFIX, w);
  }

  /**
   lcfgpackage_to_rpm_filename: -1 when the name, version or release is missing.
   Otherwise the text is in the given buffer if that is large enough, else in a new one.
   */
  method ToRpmFilename(pkg: Pkg, defarch: Option<string>, host: string, newline: bool, buf: array<char>)
    returns (len: int, result: array<char>)
    requires NulFreeFields(pkg) && NulFree(host) && (defarch.Some? ==> NulFree(defarch.value))
    modifies buf
    ensures len == if pkg.name == "" || pkg.version == "" || pkg.release == "" then -1
                   else |PrintRpm(pkg, defarch, host, newline)|
    ensures result == buf || (fresh(result) && result.Length == len + 1 && buf.Length <= len)
    ensures result != buf || len < 0 ==> buf[..] == old(buf[..])
    ensures 0 <= len ==> len < result.Length && result[..len] == PrintRpm(pkg, defarch, host, newline)
    ensures forall i | 0 <= len <= i < result.Length :: result[i] == NUL
  {
    if pkg.name == "" || pkg.version == "" || pkg.release == "" {
      return -1, buf;
    }
    var version := pkg.version;
    var colon := StrChr(version, ':');
    if colon < |version| {
      version := version[colon + 1..];
    }
    var arch := if pkg.arch != "" then pkg.arch else if defarch.Some? then defarch.value else host;
    len := |pkg.name| + |version| + |pkg.release| + |arch| + |SUFFIX| + 3;
    if newline {
      len := len + 1;
    }
    FilenameLength(pkg.name, version, pkg.release, arch);
    result := Prepare(buf, len);
    ghost var text := Filename(pkg.name, version, pkg.release, arch);
    var to := PutFilename(result, pkg.name, version, pkg.release, arch);
    to := Put(result, to, if newline then ['\n'] else "", text);
    assert to == len;
  }

  // ---------------------------------------------------------------------
  // Round trips
  // ---------------------------------------------------------------------

  lemma CutPointIs(a: string, c: char, b: string)
    requires b != "" && c !in b[..|b| - 1]
    ensures CutPoint(a + [c] + b, c) == |a|
  {
    var s := a + [c] + b;
    assert s[|a|] == c;
    assert forall i | |a| < i < |s| - 1 :: s[i] == b[..|b| - 1][i - |a| - 1];
    LastBeforeStops(s, |s| - 1, {c});
    assert LastBefore(s, |s| - 1, {c}) == |a|;
  }

  /** A hyphen can only be the last character of a version that the parser found. */
  lemma CutPointLeaves(s: string, c: char)
    requires CutPoint(s, c) >= 0
    ensures var k := CutPoint(s, c);
      var b := s[k + 1..];
      b != "" && c !in b[..|b| - 1] && s == s[..k] + [c] + b
  {
    LastBeforeStops(s, |s| - 1, {c});
  }

  predicate Hyphenless(version: string) {
    version != "" && '-' !in version[..|version| - 1]
  }

  lemma FilenameParts(name: string, version: string, release: string, arch: string)
    ensures Filename(name, version, release, arch)
         == (((name + ['-'] + version) + ['-'] + release) + ['.'] + arch) + SUFFIX
  {
  }

  lemma StemRead(name: string, version: string, release: string, arch: string)
    requires ValidName(name) && ValidVersion(version) && ValidRelease(release) && ValidArch(arch) && arch != ""
    requires Hyphenless(version)
    ensures ParseArch(((name + ['-'] + version) + ['-'] + release) + ['.'] + arch)
         == Success(Pkg(name, arch, version, release, "", "", PREFIX_NONE, 0))
  {
    var p := Pkg("", arch, "", "", "", "", PREFIX_NONE, 0);
    assert ParseVersion(p.(release := release), name + ['-'] + version)
        == Success(Pkg(name, arch, version, release, "", "", PREFIX_NONE, 0)) by {
      var s := name + ['-'] + version;
      CutPointIs(name, '-', version);
      assert s[..|name|] == name && s[|name| + 1..] == version;
    }
    var left := name + ['-'] + version;
    assert ParseRelease(p, left + ['-'] + release) == ParseVersion(p.(release := release), left) by {
      var s := left + ['-'] + release;
      assert '-' !in release[..|release| - 1];
      CutPointIs(left, '-', release);
      assert s[..|left|] == left && s[|left| + 1..] == release;
    }
    var all := left + ['-'] + release;
    assert ParseArch(all + ['.'] + arch) == ParseRelease(p, all) by {
      var s := all + ['.'] + arch;
      assert '.' !in arch[..|arch| - 1];
      CutPointIs(all, '.', arch);
      assert s[..|all|] == all && s[|all| + 1..] == arch;
    }
  }

  lemma BasenameOf(name: string)
    requires '/' !in name
    ensures Basename(name) == name
  {
    LastInIs(name, -1, {'/'});
  }

  lemma VersionMadeOf(p: Pkg, text: string)
    requires ParseVersion(p, text).Success?
    ensures var q := ParseVersion(p, text).value;
      && text == q.name + ['-'] + q.version && q == p.(name := q.name, version := q.version)
      && ValidName(q.name) && ValidVersion(q.version) && Hyphenless(q.version)
  {
    CutPointLeaves(text, '-');
  }

  lemma ReleaseMadeOf(p: Pkg, text: string)
    requires ParseRelease(p, text).Success?
    ensures var q := ParseRelease(p, text).value;
      && text == (q.name + ['-'] + q.version) + ['-'] + q.release
      && q == p.(name := q.name, version := q.version, release := q.release)
      && ValidName(q.name) && ValidVersion(q.version) && Hyphenless(q.version) && ValidRelease(q.release)
  {
    CutPointLeaves(text, '-');
    var k := CutPoint(text, '-');
    VersionMadeOf(p.(release := text[k + 1..]), text[..k]);
  }

  lemma StemMadeOf(text: string)
    requires ParseArch(text).Success?
    ensures var q := ParseArch(text).value;
      && text == ((q.name + ['-'] + q.version) + ['-'] + q.release) + ['.'] + q.arch
      && q == Pkg(q.name, q.arch, q.version, q.release, "", "", PREFIX_NONE, 0)
      && ValidName(q.name) && ValidVersion(q.version) && Hyphenless(q.version) && ValidRelease(q.release)
      && ValidArch(q.arch) && q.arch != ""
  {
    CutPointLeaves(text, '.');
    var k := CutPoint(text, '.');
    ReleaseMadeOf(Pkg("", text[k + 1..], "", "", "", "", PREFIX_NONE, 0), text[..k]);
  }

  /** What an accepted file name says, it is made of. */
  lemma RpmMadeOf(input: string)
    requires ParseRpm(input).Success?
    ensures var q := ParseRpm(input).value;
      && Basename(input) == Filename(q.name, q.version, q.release, q.arch)
      && ValidName(q.name) && ValidVersion(q.version) && ValidRelease(q.release) && ValidArch(q.arch) && q.arch != ""
      && Hyphenless(q.version)
      && q == Pkg(q.name, q.arch, q.version, q.release, "", "", PREFIX_NONE, 0)
  {
    var q := ParseRpm(input).value;
    StemMadeOf(Stem(input).value);
    FilenameParts(q.name, q.version, q.release, q.arch);
    assert Basename(input) == Stem(input).value + SUFFIX;
  }

  lemma NewlineFails(text: string)
    ensures ParseRpm(text + ['\n']).Failure?
  {
    var s := text + ['\n'];
    var filename := Basename(s);
    assert LastIn(s, {'/'}) < |text|;
    assert filename[|filename| - 1] == '\n';
    var n := |filename| - |SUFFIX|;
    assert n > 0 ==> filename[n..][3] != SUFFIX[3];
  }

  lemma StemOf(stem: string)
    requires stem != "" && '/' !in stem
    ensures Stem(stem + SUFFIX) == Success(stem)
  {
    BasenameOf(stem + SUFFIX);
  }

  lemma FilenameParsed(name: string, version: string, release: string, arch: string)
    requires ValidName(name) && ValidVersion(version) && ValidRelease(release) && ValidArch(arch) && arch != ""
    requires Hyphenless(version)
    ensures ParseRpm(Filename(name, version, release, arch)) == Success(Pkg(name, arch, version, release, "", "", PREFIX_NONE, 0))
  {
    StemRead(name, version, release, arch);
    FilenameParts(name, version, release, arch);
    StemOf(((name + ['-'] + version) + ['-'] + release) + ['.'] + arch);
  }

  lemma FilenameRead(name: string, version: string, release: string, arch: string)
    requires ValidName(name) && (version == "" || ValidVersion(version)) && ValidRelease(release)
    ensures ParseRpm(Filename(name, version, release, arch)) == Success(Pkg(name, arch, version, release, "", "", PREFIX_NONE, 0))
      <==> arch != "" && ValidArch(arch) && Hyphenless(version)
  {
    var text := Filename(name, version, release, arch);
    if arch != "" && ValidArch(arch) && Hyphenless(version) {
      FilenameParsed(name, version, release, arch);
    } else if ParseRpm(text).Success? {
      RpmMadeOf(text);
    }
  }

  /**
   The parser finds the printed fields in a printed file name exactly when there
   is no newline after it, the architecture is valid, and the version without its
   epoch is not empty and has no hyphen before its last character.
   */
  lemma PrintParseRpm(p: Pkg, defarch: Option<string>, host: string, newline: bool)
    requires ValidName(p.name) && ValidVersion(p.version) && ValidRelease(p.release)
    ensures var version, arch := AfterEpoch(p.version), ArchOf(p, defarch, host);
      ParseRpm(PrintRpm(p, defarch, host, newline)) == Success(Pkg(p.name, arch, version, p.release, "", "", PREFIX_NONE, 0))
      <==> !newline && arch != "" && ValidArch(arch) && Hyphenless(version)
  {
    var version, arch := AfterEpoch(p.version), ArchOf(p, defarch, host);
    var text := Filename(p.name, version, p.release, arch);
    if newline {
      NewlineFails(text);
    } else {
      assert text + "" == text;
      FilenameRead(p.name, version, p.release, arch);
    }
  }

  /** Printing what an accepted file name says gives its basename back, exactly when its version has no colon. */
  lemma ParsePrintRpm(input: string, defarch: Option<string>, host: string)
    requires ParseRpm(input).Success?
    ensures var q := ParseRpm(input).value;
      PrintRpm(q, defarch, host, false) == Basename(input) <==> ':' !in q.version
  {
    var q := ParseRpm(input).value;
    RpmMadeOf(input);
    FirstFromStops(q.version, 0, {':'});
    FilenameLength(q.name, q.version, q.release, q.arch);
    FilenameLength(q.name, AfterEpoch(q.version), q.release, q.arch);
  }

  // ---------------------------------------------------------------------
  // Versions with and without an epoch
  // ---------------------------------------------------------------------

  /** The file name of a package, where the version without its epoch is v. */
  function NameOf(p: Pkg, v: string, defarch: Option<string>, host: string, newline: bool): string {
    p.name + "-" + v + "-" + p.release + "."
      + (if p.arch != "" then p.arch else if defarch == None then host else defarch.value)
      + ".rpm" + if newline then "\n" else ""
  }

  /** An epoch e is not printed, nor is its colon; what follows is, in full. */
  lemma EpochNotPrinted(p: Pkg, e: string, v: string, defarch: Option<string>, host: string, newline: bool)
    requires p.version == e + ":" + v && ':' !in e
    ensures PrintRpm(p, defarch, host, newline) == NameOf(p, v, defarch, host, newline)
  {
    FirstFromStops(p.version, 0, {':'});
    assert p.version[|e|] == ':' && forall i | 0 <= i < |e| :: p.version[i] == e[i];
    assert FirstFrom(p.version, 0, {':'}) == |e|;
    assert p.version[|e| + 1..] == v;
  }

  /** A version without an epoch is printed in full. */
  lemma VersionPrinted(p: Pkg, defarch: Option<string>, host: string, newline: bool)
    requires ':' !in p.version
    ensures PrintRpm(p, defarch, host, newline) == NameOf(p, p.version, defarch, host, newline)
  {
    FirstFromStops(p.version, 0, {':'});
  }

  /** A package prints as the one with the same version and no epoch. */
  lemma EpochMakesNoDifference(p: Pkg, e: string, v: string, defarch: Option<string>, host: string, newline: bool)
    requires p.version == e + ":" + v && ':' !in e && ':' !in v
    ensures PrintRpm(p, defarch, host, newline) == PrintRpm(p.(version := v), defarch, host, newline)
  {
    EpochNotPrinted(p, e, v, defarch, host, newline);
    VersionPrinted(p.(version := v), defarch, host, newline);
  }

  /** Reading the printed name finds the version that followed the epoch, and the fields of the package. */
  lemma PrintedVersionRead(p: Pkg, e: string, v: string, defarch: Option<string>, host: string)
    requires ValidName(p.name) && ValidVersion(p.version) && ValidRelease(p.release) && ValidArch(p.arch) && p.arch != ""
    requires (p.version == e + ":" + v && ':' !in e) || (p.version == v && ':' !in v)
    ensures ParseRpm(PrintRpm(p, defarch, host, false)) == Success(Pkg(p.name, p.arch, v, p.release, "", "", PREFIX_NONE, 0))
       <==> v != "" && '-' !in v[..|v| - 1]
  {
    if p.version == e + ":" + v && ':' !in e {
      EpochNotPrinted(p, e, v, defarch, host, false);
      assert v != "" ==> ValidVersion(v) by {
        assert forall i | 0 <= i < |v| :: v[i] == p.version[|e| + 1 + i];
      }
    } else {
      VersionPrinted(p, defarch, host, false);
    }
    assert NameOf(p, v, defarch, host, false) == Filename(p.name, v, p.release, p.arch);
    FilenameRead(p.name, v, p.release, p.arch);
  }

  /** The file name is that of valid fields, the version without a hyphen before its last character. */
  predicate MadeOf(filename: string, name: string, version: string, release: string, arch: string) {
    && filename == name + "-" + version + "-" + release + "." + arch + ".rpm"
    && ValidName(name) && ValidVersion(version) && ValidRelease(release) && ValidArch(arch) && arch != ""
    && '-' !in version[..|version| - 1]
  }

  /** Just such file names are accepted, in any directory, and for those fields. */
  lemma AcceptedExactly(input: string, p: Pkg)
    ensures ParseRpm(input) == Success(p) <==>
            && MadeOf(input[LastIn(input, {'/'}) + 1..], p.name, p.version, p.release, p.arch)
            && p.flags == p.context == "" && p.prefix == PREFIX_NONE && p.priority == 0
  {
    var base := Basename(input);
    if ParseRpm(input) == Success(p) {
      RpmMadeOf(input);
    }
    if MadeOf(base, p.name, p.version, p.release, p.arch) {
      assert base == Filename(p.name, p.version, p.release, p.arch);
      FilenameParsed(p.name, p.version, p.release, p.arch);
      FilenameNoSlash(p.name, p.version, p.release, p.arch);
      BasenameOf(base);
    }
  }

  lemma FilenameNoSlash(name: string, version: string, release: string, arch: string)
    requires ValidName(name) && ValidVersion(version) && ValidRelease(release) && ValidArch(arch)
    ensures '/' !in Filename(name, version, release, arch)
  {
    assert '/' !in name && '/' !in version && '/' !in release && '/' !in arch;
  }

  /** A file name of four characters at most is refused for its length, and a longer one for a missing suffix. */
  lemma SuffixRefused(dir: string, filename: string)
    requires '/' !in filename && (dir == "" || dir[|dir| - 1] == '/')
    ensures ParseRpm(dir + filename) == Failure(BadFilename) <==> |filename| <= 4
    ensures ParseRpm(dir + filename) == Failure(NoSuffix) <==> |filename| > 4 && filename[|filename| - 4..] != ".rpm"
  {
    BasenameIn(dir, filename);
    StemRefused(dir + filename, filename);
  }

  lemma BasenameIn(dir: string, filename: string)
    requires '/' !in filename && (dir == "" || dir[|dir| - 1] == '/')
    ensures Basename(dir + filename) == filename
  {
    var input := dir + filename;
    assert dir != "" ==> input[|dir| - 1] == '/';
    assert forall i | |dir| <= i < |input| :: input[i] == filename[i - |dir|];
    LastInIs(input, |dir| - 1, {'/'});
  }

  lemma StemRefused(input: string, filename: string)
    requires Basename(input) == filename
    ensures ParseRpm(input) == Failure(BadFilename) <==> |filename| <= 4
    ensures ParseRpm(input) == Failure(NoSuffix) <==> |filename| > 4 && filename[|filename| - 4..] != ".rpm"
  {
  }

  /** What is missing in front of the suffix is told from back to front. */
  lemma MissingParts(p: Pkg, a: string, b: string)
    requires FreeOf(a, {'-', '.'})
    ensures ParseArch(a) == Failure(NoArch)
    ensures ParseRelease(p, a) == Failure(NoRelease)
    ensures ParseVersion(p, a) == Failure(NoVersion)
    ensures ValidVersion(b) && '-' !in b ==> ParseVersion(p, "-" + b) == Failure(NoName)
  {
    if ValidVersion(b) && '-' !in b {
      CutPointIs("", '-', b);
      assert "" + ['-'] + b == "-" + b && ("-" + b)[1..] == b;
    }
  }
}
