/** lcfgpackage_to_spec of packages/package.c. */
module SpecPrinting {
  import opened CText
  import opened Buffers
  import opened PackageOrder
  import opened Merging
  import opened Spec

  // ---------------------------------------------------------------------
  // What is printed
  // ---------------------------------------------------------------------

  /** The fields that appear in the text, with the wildcards that stand for missing ones. */
  function Printed(p: Pkg, defarch: string, o: Options): Pkg {
    Pkg(
      p.name,
      if defarch != "" && p.arch == defarch then "" else p.arch,
      if p.version == "" then WILDCARD else p.version,
      if p.release == "" && (':' in p.version || !o.modern) then WILDCARD else p.release,
      p.flags,
      if o.noContext then "" else p.context,
      if o.noPrefix then PREFIX_NONE else p.prefix,
      0)
  }

  /** Compatibility mode puts the architecture before the name. */
  predicate FrontArch(q: Pkg, o: Options) {
    o.compat && !o.modern && q.arch != "" && q.arch != "noarch"
  }

  function Lead(c: char, s: string): string {
    if s == "" then "" else [c] + s
  }

  function Separator(o: Options): char {
    if o.modern then '=' else '-'
  }

  function Bracketed(context: string): string {
    if context == "" then "" else ['['] + context + [']']
  }

  function PrefixPart(q: Pkg): string {
    if q.prefix == PREFIX_NONE then "" else [q.prefix]
  }

  function FrontPart(q: Pkg, o: Options): string {
    if FrontArch(q, o) then q.arch + ['/'] else ""
  }

  function BackPart(q: Pkg, o: Options): string {
    if FrontArch(q, o) then "" else Lead('/', q.arch)
  }

  function Ending(o: Options): string {
    if o.newline then ['\n'] else ""
  }

  /** The text up to the flags. */
  function Core(front: string, q: Pkg, o: Options): string {
    front + q.name + [Separator(o)] + q.version + Lead('-', q.release) + BackPart(q, o)
  }

  function Layout(q: Pkg, o: Options): string {
    Core(PrefixPart(q) + FrontPart(q, o), q, o) + Lead(':', q.flags) + Bracketed(q.context) + Ending(o)
  }

  function PrintSpec(p: Pkg, defarch: string, o: Options): string {
    Layout(Printed(p, defarch, o), o)
  }

  // ---------------------------------------------------------------------
  // The printer
  // ---------------------------------------------------------------------

  /** The characters of an optional field and its separator. */
  function Width(s: string): nat {
    if s == "" then 0 else |s| + 1
  }

  function CoreWidth(q: Pkg): nat {
    |q.name| + 1 + |q.version| + Width(q.release)
  }

  /** The length of a text, told from the fields alone. */
  function LayoutWidth(q: Pkg, o: Options): nat {
    CoreWidth(q) + (if q.prefix == PREFIX_NONE then 0 else 1) + Width(q.arch) + Width(q.flags)
      + (if q.context == "" then 0 else |q.context| + 2) + (if o.newline then 1 else 0)
  }

  lemma CoreLength(q: Pkg, o: Options)
    ensures |Core(PrefixPart(q) + FrontPart(q, o), q, o)|
         == CoreWidth(q) + (if q.prefix == PREFIX_NONE then 0 else 1) + Width(q.arch)
  {
    var front := PrefixPart(q) + FrontPart(q, o);
    assert |front| + |BackPart(q, o)| == (if q.prefix == PREFIX_NONE then 0 else 1) + Width(q.arch);
  }

  lemma LayoutLength(q: Pkg, o: Options)
    ensures |Layout(q, o)| == LayoutWidth(q, o)
  {
    CoreLength(q, o);
  }

  /** The space that the text needs, as it is added up before anything is written. */
  method Measure(pkg: Pkg, defarch: string, o: Options) returns (newLen: nat)
    ensures newLen == LayoutWidth(Printed(pkg, defarch, o), o)
  {
    ghost var q := Printed(pkg, defarch, o);
    var version := if pkg.version == "" then WILDCARD else pkg.version;
    newLen := |pkg.name| + |version| + 1;
    var release := pkg.release;
    if release == "" && (':' in pkg.version || !o.modern) {
      release := WILDCARD;
    }
    if release != "" {
      newLen := newLen + |release| + 1;
    }
    assert newLen == CoreWidth(q);
    if !o.noPrefix && pkg.prefix != PREFIX_NONE {
      newLen := newLen + 1;
    }
    ghost var sum := CoreWidth(q) + if q.prefix == PREFIX_NONE then 0 else 1;
    assert newLen == sum;
    if pkg.arch != "" && (defarch == "" || pkg.arch != defarch) {
      newLen := newLen + |pkg.arch| + 1;
    }
    sum := sum + Width(q.arch);
    assert newLen == sum;
    if pkg.flags != "" {
      newLen := newLen + |pkg.flags| + 1;
    }
    sum := sum + Width(q.flags);
    assert newLen == sum;
    if !o.noContext && pkg.context != "" {
      newLen := newLen + |pkg.context| + 2;
    }
    sum := sum + if q.context == "" then 0 else |q.context| + 2;
    assert newLen == sum;
    if o.newline {
      newLen := newLen + 1;
    }
  }

  /** Everything up to the flags. */
  method PutCore(buf: array<char>, q: Pkg, o: Options) returns (to: nat)
    requires |Core(PrefixPart(q) + FrontPart(q, o), q, o)| < buf.Length
    requires forall i | 0 <= i < buf.Length :: buf[i] == NUL
    modifies buf
    ensures to == |Core(PrefixPart(q) + FrontPart(q, o), q, o)|
    ensures buf[..to] == Core(PrefixPart(q) + FrontPart(q, o), q, o)
    ensures forall i | to <= i < buf.Length :: buf[i] == NUL
  {
    ghost var w := PrefixPart(q);
    assert "" + w == w;
    to := Put(buf, 0, PrefixPart(q), "");
    to := Put(buf, to, FrontPart(q, o), w);
    w := w + FrontPart(q, o);
    to := Put(buf, to, q.name, w);
    w := w + q.name;
    to := Put(buf, to, [Separator(o)], w);
    w := w + [Separator(o)];
    to := Put(buf, to, q.version, w);
    w := w + q.version;
    to := Put(buf, to, Lead('-', q.release), w);
    w := w + Lead('-', q.release);
    to := Put(buf, to, BackPart(q, o), w);
  }

  /**
   lcfgpackage_to_spec: -1 for a package without a name. Otherwise the text, NUL
   padded, is in the given buffer if that is large enough, else in a new one.
   */
  method ToSpec(pkg: Pkg, defarch: string, o: Options, buf: array<char>) returns (len: int, result: array<char>)
    requires NulFreeFields(pkg) && NulFree(defarch)
    modifies buf
    ensures len == if pkg.name == "" then -1 else |PrintSpec(pkg, defarch, o)|
    ensures result == buf || (fresh(result) && result.Length == len + 1 && buf.Length <= len)
    ensures result != buf || len < 0 ==> buf[..] == old(buf[..])
    ensures 0 <= len ==> len < result.Length && result[..len] == PrintSpec(pkg, defarch, o)
    ensures forall i | 0 <= len <= i < result.Length :: result[i] == NUL
  {
    if pkg.name == "" {
      return -1, buf;
    }
    var newLen := Measure(pkg, defarch, o);
    result := Prepare(buf, newLen);
    var q := Printed(pkg, defarch, o);
    LayoutLength(q, o);
    ghost var w := Core(PrefixPart(q) + FrontPart(q, o), q, o);
    var to := PutCore(result, q, o);
    to := Put(result, to, Lead(':', q.flags), w);
    w := w + Lead(':', q.flags);
    to := Put(result, to, Bracketed(q.context), w);
    w := w + Bracketed(q.context);
    to := Put(result, to, Ending(o), w);
    assert to == newLen;
    len := newLen;
  }
}
