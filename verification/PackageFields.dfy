/** What the setters of packages/package.c accept. An unset field is "". */
module PackageFields {
  import opened CText
  import opened PackageOrder
  import opened Merging

  datatype Result<+T, +E> = Success(value: T) | Failure(error: E)

  predicate IsNameChar(c: char) { IsWord(c) || c in {'-', '.', '+'} }

  predicate IsVersionChar(c: char) { IsAlnum(c) || c in {'.', '~', '_', '+', '-', ':', '*', '?'} }

  predicate IsReleaseChar(c: char) { IsAlnum(c) || c in {'.', '~', '_', '+', '*', '?'} }

  predicate ValidName(name: string) {
    name != "" && IsAlnum(name[0]) && forall i | 0 < i < |name| :: IsNameChar(name[i])
  }

  predicate ValidVersion(version: string) {
    version != "" && forall i | 0 <= i < |version| :: IsVersionChar(version[i])
  }

  predicate ValidRelease(release: string) {
    release != "" && forall i | 0 <= i < |release| :: IsReleaseChar(release[i])
  }

  predicate ValidFlags(flags: string) {
    flags != "" && forall i | 0 <= i < |flags| :: IsAlnum(flags[i])
  }

  /** A package with a name whose fields came through the setters; ok stands for lcfgcontext_valid_expression. */
  predicate ValidPackage(ok: string -> bool, p: Pkg) {
    && ValidName(p.name)
    && ValidArch(p.arch)
    && (p.version == "" || ValidVersion(p.version))
    && (p.release == "" || ValidRelease(p.release))
    && (p.flags == "" || ValidFlags(p.flags))
    && (p.context == "" || ok(p.context))
    && ValidPrefix(p.prefix)
  }

  predicate LetterOrDigit(c: char) {
    'a' <= c <= 'z' || 'A' <= c <= 'Z' || '0' <= c <= '9'
  }

  /** The characters that are allowed in each field; a release is a version without hyphen and colon. */
  lemma FieldCharacters(c: char)
    ensures ValidVersion([c]) <==> LetterOrDigit(c) || c in {'.', '~', '_', '+', '-', ':', '*', '?'}
    ensures ValidRelease([c]) <==> ValidVersion([c]) && c !in {'-', ':'}
    ensures ValidName("a" + [c]) <==> LetterOrDigit(c) || c in {'_', '-', '.', '+'}
    ensures ValidName([c]) <==> LetterOrDigit(c)
    ensures ValidFlags([c]) <==> LetterOrDigit(c)
    ensures ValidArch([c]) <==> LetterOrDigit(c) || c in {'_', '-'}
    ensures ValidPrefix(c) <==> c in {'\0', '+', '-', '?', '!', '~', '>'}
  {
    assert ("a" + [c])[1] == c && ("a" + [c])[0] == 'a';
    assert [c][0] == c;
  }

  /** One character after another, a field is valid when each of its characters is allowed there. */
  lemma FieldsByCharacter(s: string, c: char)
    ensures ValidVersion(s + [c]) <==> (s == "" || ValidVersion(s)) && ValidVersion([c])
    ensures ValidRelease(s + [c]) <==> (s == "" || ValidRelease(s)) && ValidRelease([c])
    ensures ValidFlags(s + [c]) <==> (s == "" || ValidFlags(s)) && ValidFlags([c])
    ensures ValidArch(s + [c]) <==> ValidArch(s) && ValidArch([c])
    ensures s != "" ==> (ValidName(s + [c]) <==> ValidName(s) && ValidName("a" + [c]))
  {
    var t := s + [c];
    assert t[|s|] == c && forall i | 0 <= i < |s| :: t[i] == s[i];
    assert ("a" + [c])[1] == c;
  }
}
