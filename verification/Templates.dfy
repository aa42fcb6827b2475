/** Resource name templates: resources/templates.c. */
module Templates {
  import opened CText
  import Buffers
  import opened Scanning

  const PLACEHOLDER := '$'
  const MAX_DEPTH := 5

  // ---------------------------------------------------------------------
  // Placeholders
  // ---------------------------------------------------------------------

  /** The positions of the placeholders before index hi, the last one first. */
  function Places(t: string, hi: nat): seq<nat>
    requires hi <= |t|
  {
    var k := LastBefore(t, hi, {PLACEHOLDER});
    if k < 0 then [] else [k] + Places(t, k)
  }

  function CountTo(t: string, hi: nat): (n: nat)
    requires hi <= |t|
    ensures n <= hi
  {
    if hi == 0 then 0 else CountTo(t, hi - 1) + if t[hi - 1] == PLACEHOLDER then 1 else 0
  }

  lemma {:induction false} PlacesCount(t: string, hi: nat)
    requires hi <= |t|
    ensures |Places(t, hi)| == CountTo(t, hi)
  {
    if hi > 0 {
      PlacesCount(t, hi - 1);
      PlacesStep(t, hi);
    }
  }

  lemma PlacesStep(t: string, hi: nat)
    requires 0 < hi <= |t|
    ensures Places(t, hi) == if t[hi - 1] == PLACEHOLDER then [hi - 1] + Places(t, hi - 1) else Places(t, hi - 1)
  {
  }

  /** A letter, then word characters and placeholders: at least one placeholder, and not too many. */
  predicate ValidTemplate(t: string) {
    && t != "" && IsAlpha(t[0])
    && (forall i | 0 < i < |t| :: IsWord(t[i]) || t[i] == PLACEHOLDER)
    && 1 <= CountTo(t, |t|) <= MAX_DEPTH
  }

  /** lcfgresource_valid_template. */
  method IsValidTemplate(t: string) returns (valid: bool)
    ensures valid <==> ValidTemplate(t)
  {
    valid := t != "" && IsAlpha(t[0]);
    var pcount := 0;
    var i := 1;
    while i < |t| && valid
      invariant valid ==> t != "" && IsAlpha(t[0]) && 1 <= i <= |t| && pcount == CountTo(t, i) <= MAX_DEPTH
      invariant valid ==> forall j | 0 < j < i :: IsWord(t[j]) || t[j] == PLACEHOLDER
      invariant !valid ==> !ValidTemplate(t)
    {
      if t[i] == PLACEHOLDER {
        pcount := pcount + 1;
        if pcount > MAX_DEPTH {
          CountGrows(t, i + 1);
          valid := false;
        }
      } else if !IsWord(t[i]) {
        valid := false;
      }
      i := i + 1;
    }
    if pcount < 1 {
      valid := false;
    }
  }

  lemma {:induction false} CountGrows(t: string, hi: nat)
    requires hi <= |t|
    ensures CountTo(t, hi) <= CountTo(t, |t|)
    decreases |t| - hi
  {
    if hi < |t| {
      CountGrows(t, hi + 1);
    }
  }

  /** The index of the first "_$", or |t|. */
  function SplitAt(t: string, k: nat): (r: nat)
    requires k <= |t|
    ensures k <= r <= |t|
    decreases |t| - k
  {
    if k == |t| then k
    else if k + 1 < |t| && t[k] == '_' && t[k + 1] == PLACEHOLDER then k
    else SplitAt(t, k + 1)
  }

  // ---------------------------------------------------------------------
  // Filling in tags
  // ---------------------------------------------------------------------

  /** The first hi characters with the last of n tags for the last placeholder, and so on. */
  function FillTo(t: string, hi: nat, tags: seq<string>, n: nat): string
    requires hi <= |t| && n <= |tags|
  {
    var k := LastBefore(t, hi, {PLACEHOLDER});
    if k < 0 || n == 0 then t[..hi] else FillTo(t, k, tags, n - 1) + tags[n - 1] + t[k + 1..hi]
  }

  function Filled(t: string, tags: seq<string>): string {
    FillTo(t, |t|, tags, |tags|)
  }

  /** Filling in from the front: from tag j on, the next tag for the next placeholder between indices k and hi. */
  function FillForward(t: string, k: nat, hi: nat, tags: seq<string>, j: nat): string
    requires k <= hi <= |t|
    decreases hi - k
  {
    if k == hi then ""
    else if t[k] == PLACEHOLDER && j < |tags| then tags[j] + FillForward(t, k + 1, hi, tags, j + 1)
    else [t[k]] + FillForward(t, k + 1, hi, tags, j)
  }

  /** How much longer n tags are than their placeholders. */
  function Growth(tags: seq<string>, from: nat, to: nat): int
    requires from <= to <= |tags|
  {
    if from == to then 0 else Growth(tags, from, to - 1) + |tags[to - 1]| - 1
  }

  lemma {:induction false} FilledLength(t: string, hi: nat, tags: seq<string>, n: nat)
    requires hi <= |t| && CountTo(t, hi) <= n <= |tags|
    ensures |FillTo(t, hi, tags, n)| == hi + Growth(tags, n - CountTo(t, hi), n)
  {
    CountBeforeLast(t, hi);
    var k := LastBefore(t, hi, {PLACEHOLDER});
    if k >= 0 {
      var c := CountTo(t, k);
      FilledLength(t, k, tags, n - 1);
      assert |FillTo(t, hi, tags, n)| == |FillTo(t, k, tags, n - 1)| + |tags[n - 1]| + (hi - k - 1);
      assert Growth(tags, n - 1 - c, n) == Growth(tags, n - 1 - c, n - 1) + |tags[n - 1]| - 1;
    }
  }

  lemma CountBeforeLast(t: string, hi: nat)
    requires hi <= |t|
    ensures var k := LastBefore(t, hi, {PLACEHOLDER}); CountTo(t, hi) == if k < 0 then 0 else CountTo(t, k) + 1
  {
    PlacesCount(t, hi);
    var k := LastBefore(t, hi, {PLACEHOLDER});
    if k >= 0 {
      PlacesCount(t, k);
    }
  }

  /** Where lcfgtemplate_substitute takes the last segment of a template to end: before its last character. */
  function Top(t: string): nat
    requires t != ""
  {
    if t[|t| - 1] == PLACEHOLDER then |t| else |t| - 1
  }

  lemma TopPlaces(t: string)
    requires t != ""
    ensures Places(t, Top(t)) == Places(t, |t|) && CountTo(t, Top(t)) == CountTo(t, |t|)
  {
    PlacesStep(t, |t|);
  }

  /** What is left of a template up to index hi, filled with the first tags, and the text w make the whole. */
  ghost predicate Rendered(t: string, tags: seq<string>, hi: nat, left: nat, w: string) {
    && t != "" && hi <= Top(t) && left <= |tags|
    && FillTo(t, Top(t), tags, |tags|) == FillTo(t, hi, tags, left) + w
  }

  lemma RenderedStep(t: string, tags: seq<string>, hi: nat, left: nat, w: string)
    requires Rendered(t, tags, hi, left, w) && 0 < left && Places(t, hi) != []
    ensures var k := Places(t, hi)[0];
      && k < hi && Places(t, hi)[1..] == Places(t, k)
      && Rendered(t, tags, k, left - 1, tags[left - 1] + (t[k + 1..hi] + w))
    ensures |FillTo(t, Top(t), tags, |tags|)| >= |tags[left - 1]| + (hi - Places(t, hi)[0] - 1) + |w|
  {
    var k := Places(t, hi)[0];
    var a, b, c := FillTo(t, k, tags, left - 1), tags[left - 1], t[k + 1..hi];
    assert FillTo(t, hi, tags, left) == a + b + c;
    Associates(a + b, c, w);
    Associates(a, b, c + w);
  }

  // ---------------------------------------------------------------------
  // Templates
  // ---------------------------------------------------------------------

  class Template {
    var tmpl: string
    const places: array<int>
    var tmplLen: nat
    var nameLen: nat
    var pcount: nat

    /** A template that has been set. */
    ghost predicate Valid()
      reads this, places
    {
      && places.Length == MAX_DEPTH
      && ValidTemplate(tmpl) && tmplLen == |tmpl| && nameLen == SplitAt(tmpl, 0) < |tmpl|
      && pcount == |Places(tmpl, |tmpl|)| <= MAX_DEPTH
      && forall i | 0 <= i < pcount :: places[i] == Places(tmpl, |tmpl|)[i]
    }

    ghost predicate Empty()
      reads this
    {
      places.Length == MAX_DEPTH && pcount == 0
    }

    /** lcfgtemplate_new. */
    constructor ()
      ensures Empty() && tmpl == "" && fresh(places)
    {
      tmpl, tmplLen, nameLen, pcount := "", 0, 0, 0;
      places := new int[MAX_DEPTH](_ => -1);
    }

    /** strstr for "_$". */
    method FindSplit(t: string) returns (k: nat)
      ensures k == SplitAt(t, 0)
    {
      k := 0;
      while k < |t| && !(k + 1 < |t| && t[k] == '_' && t[k + 1] == PLACEHOLDER)
        invariant k <= |t| && SplitAt(t, 0) == SplitAt(t, k)
      {
        k := k + 1;
      }
    }

    /**
     lcfgtemplate_set_tmpl. The placeholders are recorded behind those of any template
     set before, so that only the first one set can be filled in.
     */
    method SetTmpl(t: string) returns (ok: bool)
      requires places.Length == MAX_DEPTH && pcount <= MAX_DEPTH
      requires ValidTemplate(t) && SplitAt(t, 0) < |t| ==> pcount + CountTo(t, |t|) <= MAX_DEPTH
      modifies this, places
      ensures ok <==> ValidTemplate(t) && SplitAt(t, 0) < |t|
      ensures if ok then tmpl == t && pcount <= MAX_DEPTH && places[..pcount] == old(places[..pcount]) + Places(t, |t|)
              else tmpl == old(tmpl) && pcount == old(pcount) && places[..] == old(places[..])
      ensures ok ==> (Valid() <==> old(pcount) == 0)
    {
      ok := IsValidTemplate(t);
      if ok {
        var split := FindSplit(t);
        ok := split < |t|;
        if ok {
          tmpl, tmplLen, nameLen := t, |t|, split;
          RecordPlaces(t);
        }
      }
    }

    method RecordPlaces(t: string)
      requires places.Length == MAX_DEPTH && pcount + CountTo(t, |t|) <= MAX_DEPTH
      modifies `pcount, places
      ensures pcount == old(pcount) + CountTo(t, |t|) && |Places(t, |t|)| == CountTo(t, |t|)
      ensures places[..pcount] == old(places[..pcount]) + Places(t, |t|)
    {
      PlacesCount(t, |t|);
      ghost var all, done, rest := old(places[..pcount]) + Places(t, |t|), old(places[..pcount]), Places(t, |t|);
      var i := |t| - 1;
      while i >= 0
        invariant -1 <= i < |t| && rest == Places(t, i + 1)
        invariant pcount + |rest| == |all| <= MAX_DEPTH
        invariant places[..pcount] == done && done + rest == all
      {
        PlacesStep(t, i + 1);
        if t[i] == PLACEHOLDER {
          Associates(done, [i], rest[1..]);
          assert [i] + rest[1..] == rest;
          pcount := pcount + 1;
          places[pcount - 1] := i;
          assert places[..pcount] == places[..pcount - 1] + [i];
          done, rest := done + [i], rest[1..];
        }
        i := i - 1;
      }
    }

    /**
     lcfgtemplate_substitute: -1 when there are too few tags. Otherwise the name, NUL
     padded, is in the given buffer if that is large enough, else in a new one.
     */
    method Substitute(tags: seq<string>, buf: array<char>) returns (len: int, result: array<char>)
      requires Valid()
      modifies buf
      ensures len == if |tags| < CountTo(tmpl, |tmpl|) then -1
                     else |tmpl| + Growth(tags, |tags| - CountTo(tmpl, |tmpl|), |tags|)
      ensures result == buf || (fresh(result) && result.Length == len + 1 && buf.Length <= len)
      ensures result != buf || len < 0 ==> buf[..] == old(buf[..])
      ensures 0 <= len ==> len < result.Length && result[..len] == Outcome(tmpl, tags)
      ensures forall i | 0 <= len <= i < result.Length :: result[i] == NUL
    {
      PlacesCount(tmpl, |tmpl|);
      if |tags| < pcount {
        return -1, buf;
      }
      len := NewLength(tags);
      OutcomeLength(tmpl, tags);
      result := Buffers.Prepare(buf, len);
      assert places[..pcount] == Places(tmpl, |tmpl|);
      Render(tmpl, places[..pcount], tags, result, len);
    }

    /** The length of the name, added up before anything is written. */
    method NewLength(tags: seq<string>) returns (newLen: int)
      requires Valid() && pcount <= |tags|
      ensures newLen == |tmpl| + Growth(tags, |tags| - pcount, |tags|)
    {
      newLen := tmplLen;
      var i := 0;
      while i < pcount
        invariant i <= pcount
        invariant newLen == |tmpl| + Growth(tags, |tags| - i, |tags|)
      {
        GrowthFront(tags, |tags| - i - 1, |tags|);
        newLen := newLen + |tags[|tags| - 1 - i]| - 1;
        i := i + 1;
      }
    }
  }

  /** Write the static text after a placeholder, and then its tag, in front of what is written already. */
  method FillOne(t: string, place: nat, end: int, tag: string, buf: array<char>, start: nat, newLen: nat,
                 ghost hi: nat, ghost w: string, ghost next: string)
    returns (offset: nat)
    requires place < hi <= |t| && (end == hi || (end == hi - 1 && place == hi - 1))
    requires start + |w| == newLen < buf.Length && buf[start..newLen] == w
    requires next == tag + (t[place + 1..hi] + w) && |next| <= newLen
    modifies buf
    ensures offset + |next| == newLen && buf[offset..newLen] == next
    ensures forall j | newLen <= j < buf.Length :: buf[j] == old(buf[j])
  {
    offset := start;
    var after := place + 1;
    var afterLen := end - after;
    ghost var rest := t[after..hi];
    if afterLen > 0 {
      offset := offset - afterLen;
      PutBefore(buf, offset, t[after..after + afterLen], w);
    } else {
      assert rest + w == w;
    }
    offset := offset - |tag|;
    PutBefore(buf, offset, tag, rest + w);
  }

  /** The template before its first placeholder. */
  function FirstPlace(t: string): nat {
    FirstFrom(t, 0, {PLACEHOLDER})
  }

  /** What lcfgtemplate_substitute produces when the last character is not a placeholder. */
  function Misfilled(t: string, tags: seq<string>): string
    requires t != ""
  {
    var filled := FillTo(t, |t| - 1, tags, |tags|);
    var h := FirstPlace(t);
    if h < |t| && h <= |filled| then t[..h + 1] + filled[h..] else filled
  }

  /** Write a text in front of what is written already. */
  method PutBefore(buf: array<char>, at: nat, text: string, ghost w: string)
    requires at + |text| + |w| <= buf.Length && buf[at + |text|..at + |text| + |w|] == w
    modifies buf
    ensures buf[at..at + |text| + |w|] == text + w
    ensures forall i | 0 <= i < buf.Length && !(at <= i < at + |text|) :: buf[i] == old(buf[i])
  {
    Buffers.Copy(buf, at, text);
    assert buf[at..at + |text| + |w|] == buf[at..at + |text|] + buf[at + |text|..at + |text| + |w|];
    assert buf[at..at + |text|] == text;
    assert buf[at + |text|..at + |text| + |w|] == w;
  }

  /** From index i on, the recorded positions are those before index hi. */
  ghost predicate Upcoming(t: string, places: seq<int>, i: nat, hi: nat) {
    && i <= |places| && hi <= |t|
    && |Places(t, hi)| == |places| - i
    && forall j | i <= j < |places| :: places[j] == Places(t, hi)[j - i]
  }

  lemma UpcomingStep(t: string, places: seq<int>, i: nat, hi: nat)
    requires Upcoming(t, places, i, hi) && i < |places|
    ensures Places(t, hi) != [] && 0 <= places[i] == Places(t, hi)[0] < hi
    ensures Upcoming(t, places, i + 1, places[i]) && t[places[i]] == PLACEHOLDER
  {
    var all, k := Places(t, hi), places[i];
    assert k == all[0] && all[1..] == Places(t, k);
    forall j | i + 1 <= j < |places| ensures places[j] == Places(t, k)[j - (i + 1)] {
      assert all[j - i] == all[1..][j - (i + 1)];
    }
  }

  /** The second loop of lcfgtemplate_substitute, which writes from the end of the name to its front. */
  method FillBackwards(t: string, places: seq<int>, tags: seq<string>, buf: array<char>, newLen: nat)
    returns (offset: nat, ghost hi: nat, ghost w: string)
    requires t != "" && places == Places(t, |t|) && |places| <= |tags| && newLen < buf.Length
    requires newLen == |FillTo(t, Top(t), tags, |tags|)| + |t| - Top(t)
    modifies buf
    ensures Rendered(t, tags, hi, |tags| - |places|, w) && Places(t, hi) == []
    ensures places != [] ==> hi < |t| && t[hi] == PLACEHOLDER
    ensures offset + |w| == newLen && buf[offset..newLen] == w
    ensures forall j | newLen <= j < buf.Length :: buf[j] == old(buf[j])
  {
    TopPlaces(t);
    var end: int := |t| - 1;
    offset, hi, w := newLen, Top(t), "";
    var i, left := 0, |tags|;
    while i < |places|
      invariant left == |tags| - i
      invariant hi <= Top(t) && (end == hi || (hi == |t| && end == hi - 1 && t[|t| - 1] == PLACEHOLDER))
      invariant Upcoming(t, places, i, hi) && (i > 0 ==> hi < |t| && t[hi] == PLACEHOLDER)
      invariant Rendered(t, tags, hi, left, w)
      invariant offset + |w| == newLen && buf[offset..newLen] == w
      invariant forall j | newLen <= j < buf.Length :: buf[j] == old(buf[j])
    {
      UpcomingStep(t, places, i, hi);
      RenderedStep(t, tags, hi, left, w);
      var place := places[i];
      left := left - 1;
      ghost var next := tags[left] + (t[place + 1..hi] + w);
      offset := FillOne(t, place, end, tags[left], buf, offset, newLen, hi, w, next);
      end, hi, w := place, place, next;
      i := i + 1;
    }
  }

  /** Everything that lcfgtemplate_substitute writes. */
  method Render(t: string, places: seq<int>, tags: seq<string>, buf: array<char>, newLen: nat)
    requires t != "" && places == Places(t, |t|) != [] && |places| <= |tags| && newLen < buf.Length
    requires newLen == |FillTo(t, Top(t), tags, |tags|)| + |t| - Top(t)
    modifies buf
    ensures buf[..newLen] == Outcome(t, tags)
    ensures forall j | newLen <= j < buf.Length :: buf[j] == old(buf[j])
  {
    var offset, hi, w := FillBackwards(t, places, tags, buf, newLen);
    OutcomeParts(t, tags, hi, |tags| - |places|, w);
    PutBefore(buf, 0, t[..offset], w);
    assert buf[0..newLen] == buf[..newLen];
  }

  lemma {:induction false} GrowthFront(tags: seq<string>, from: nat, to: nat)
    requires from < to <= |tags|
    ensures Growth(tags, from, to) == |tags[from]| - 1 + Growth(tags, from + 1, to)
  {
    if from + 1 < to {
      GrowthFront(tags, from, to - 1);
    }
  }

  /** What precedes every placeholder stays in front. */
  lemma {:induction false} FillHead(t: string, hi: nat, tags: seq<string>, n: nat, h: nat)
    requires h <= hi <= |t| && n <= |tags| && forall i | 0 <= i < h :: t[i] != PLACEHOLDER
    ensures h <= |FillTo(t, hi, tags, n)| && FillTo(t, hi, tags, n)[..h] == t[..h]
  {
    var k := LastBefore(t, hi, {PLACEHOLDER});
    if k >= 0 && n > 0 {
      FillHead(t, k, tags, n - 1, h);
      FrontStays(FillTo(t, k, tags, n - 1), tags[n - 1], t[k + 1..hi], h);
    }
  }

  lemma FrontStays(a: string, b: string, c: string, h: nat)
    requires h <= |a|
    ensures (a + b + c)[..h] == a[..h]
  {
  }

  /** With every placeholder used, what is left of the template ends at its first placeholder. */
  lemma LastIsFirst(t: string, hi: nat)
    requires hi < |t| && t[hi] == PLACEHOLDER && Places(t, hi) == []
    ensures FirstPlace(t) == hi
  {
    FirstFromStops(t, 0, {PLACEHOLDER});
    LastBeforeStops(t, hi, {PLACEHOLDER});
  }

  /** What lcfgtemplate_substitute produces. */
  function Outcome(t: string, tags: seq<string>): string
    requires t != ""
  {
    if t[|t| - 1] == PLACEHOLDER then Filled(t, tags) else Misfilled(t, tags)
  }

  lemma OutcomeLength(t: string, tags: seq<string>)
    requires t != "" && CountTo(t, |t|) <= |tags|
    ensures |FillTo(t, Top(t), tags, |tags|)| + |t| - Top(t) == |t| + Growth(tags, |tags| - CountTo(t, |t|), |tags|)
  {
    TopPlaces(t);
    FilledLength(t, Top(t), tags, |tags|);
  }

  lemma OutcomeParts(t: string, tags: seq<string>, hi: nat, left: nat, w: string)
    requires Rendered(t, tags, hi, left, w) && Places(t, hi) == [] && hi < |t| && t[hi] == PLACEHOLDER
    ensures Outcome(t, tags) == t[..hi + |t| - Top(t)] + w
  {
    RenderedAll(t, tags, hi, left, w);
    LastIsFirst(t, hi);
    OutcomeFrom(t, tags, hi, w);
  }

  lemma RenderedAll(t: string, tags: seq<string>, hi: nat, left: nat, w: string)
    requires Rendered(t, tags, hi, left, w) && Places(t, hi) == []
    ensures FillTo(t, Top(t), tags, |tags|) == t[..hi] + w
  {
  }

  lemma OutcomeFrom(t: string, tags: seq<string>, hi: nat, w: string)
    requires hi < |t| && FirstPlace(t) == hi && FillTo(t, Top(t), tags, |tags|) == t[..hi] + w
    ensures Outcome(t, tags) == t[..hi + |t| - Top(t)] + w
  {
    DropsFront(t[..hi], w);
  }

  lemma DropsFront(a: string, w: string)
    ensures (a + w)[|a|..] == w
  {
  }

  lemma FillToPlaceholder(t: string, hi: nat, tags: seq<string>, n: nat)
    requires 0 < hi <= |t| && 0 < n <= |tags| && t[hi - 1] == PLACEHOLDER
    ensures FillTo(t, hi, tags, n) == FillTo(t, hi - 1, tags, n - 1) + tags[n - 1]
  {
    assert t[hi..hi] == "";
  }

  lemma SliceLast(t: string, lo: nat, hi: nat)
    requires lo < hi <= |t|
    ensures t[lo..hi] == t[lo..hi - 1] + [t[hi - 1]]
    ensures lo == 0 ==> t[..hi] == t[..hi - 1] + [t[hi - 1]]
  {
  }

  lemma FillToStatic(t: string, hi: nat, tags: seq<string>, n: nat)
    requires 0 < hi <= |t| && n <= |tags| && t[hi - 1] != PLACEHOLDER
    ensures FillTo(t, hi, tags, n) == FillTo(t, hi - 1, tags, n) + [t[hi - 1]]
  {
    var k, c := LastBefore(t, hi - 1, {PLACEHOLDER}), [t[hi - 1]];
    if k < 0 || n == 0 {
      SliceLast(t, 0, hi);
    } else {
      SliceLast(t, k + 1, hi);
      Associates(FillTo(t, k, tags, n - 1) + tags[n - 1], t[k + 1..hi - 1], c);
    }
  }

  lemma FillToChar(t: string, hi: nat, tags: seq<string>, n: nat)
    requires 0 < hi <= |t| && CountTo(t, hi) <= n <= |tags|
    ensures t[hi - 1] == PLACEHOLDER ==> n > 0 && FillTo(t, hi, tags, n) == FillTo(t, hi - 1, tags, n - 1) + tags[n - 1]
    ensures t[hi - 1] != PLACEHOLDER ==> FillTo(t, hi, tags, n) == FillTo(t, hi - 1, tags, n) + [t[hi - 1]]
  {
    if t[hi - 1] == PLACEHOLDER {
      FillToPlaceholder(t, hi, tags, n);
    } else {
      FillToStatic(t, hi, tags, n);
    }
  }

  lemma {:induction false} FillForwardLast(t: string, k: nat, hi: nat, tags: seq<string>, j: nat)
    requires k < hi <= |t| && CountTo(t, k) <= CountTo(t, hi - 1) && j + CountTo(t, hi) - CountTo(t, k) <= |tags|
    ensures FillForward(t, k, hi, tags, j)
         == FillForward(t, k, hi - 1, tags, j)
          + if t[hi - 1] == PLACEHOLDER then tags[j + CountTo(t, hi - 1) - CountTo(t, k)] else [t[hi - 1]]
    decreases hi - k
  {
    var last := if t[hi - 1] == PLACEHOLDER then tags[j + CountTo(t, hi - 1) - CountTo(t, k)] else [t[hi - 1]];
    if k + 1 == hi {
      assert last + "" == "" + last;
    } else {
      CountBetween(t, k + 1, hi - 1);
      assert t[k] == PLACEHOLDER ==> j < |tags|;
      var next := if t[k] == PLACEHOLDER then j + 1 else j;
      var first := if t[k] == PLACEHOLDER then tags[j] else [t[k]];
      FillForwardLast(t, k + 1, hi, tags, next);
      assert FillForward(t, k, hi, tags, j) == first + FillForward(t, k + 1, hi, tags, next);
      assert FillForward(t, k, hi - 1, tags, j) == first + FillForward(t, k + 1, hi - 1, tags, next);
      Associates(first, FillForward(t, k + 1, hi - 1, tags, next), last);
    }
  }

  lemma {:induction false} CountBetween(t: string, k: nat, hi: nat)
    requires k <= hi <= |t|
    ensures CountTo(t, k) <= CountTo(t, hi)
  {
    if k < hi {
      CountBetween(t, k, hi - 1);
    }
  }

  lemma {:induction false} FillBothWays(t: string, hi: nat, tags: seq<string>, n: nat)
    requires hi <= |t| && CountTo(t, hi) <= n <= |tags|
    ensures FillTo(t, hi, tags, n) == FillForward(t, 0, hi, tags, n - CountTo(t, hi))
  {
    if hi > 0 {
      FillToChar(t, hi, tags, n);
      FillForwardLast(t, 0, hi, tags, n - CountTo(t, hi));
      FillBothWays(t, hi - 1, tags, if t[hi - 1] == PLACEHOLDER then n - 1 else n);
    }
  }

  /** Filling in backwards is filling in the last tags from the front. */
  lemma FilledForward(t: string, tags: seq<string>)
    requires CountTo(t, |t|) <= |tags|
    ensures Filled(t, tags) == FillForward(t, 0, |t|, tags, |tags| - CountTo(t, |t|))
  {
    FillBothWays(t, |t|, tags, |tags|);
  }

  predicate PlainTags(tags: seq<string>) {
    forall i | 0 <= i < |tags| :: FreeOf(tags[i], {PLACEHOLDER})
  }

  lemma PlainJoin(a: string, b: string)
    requires FreeOf(a, {PLACEHOLDER}) && FreeOf(b, {PLACEHOLDER})
    ensures FreeOf(a + b, {PLACEHOLDER})
  {
  }

  lemma {:induction false} FillIsPlain(t: string, hi: nat, tags: seq<string>, n: nat)
    requires hi <= |t| && CountTo(t, hi) <= n <= |tags| && PlainTags(tags)
    ensures FreeOf(FillTo(t, hi, tags, n), {PLACEHOLDER})
  {
    if hi > 0 {
      FillToChar(t, hi, tags, n);
      var rest := if t[hi - 1] == PLACEHOLDER then n - 1 else n;
      FillIsPlain(t, hi - 1, tags, rest);
      PlainJoin(FillTo(t, hi - 1, tags, rest), if t[hi - 1] == PLACEHOLDER then tags[n - 1] else [t[hi - 1]]);
    }
  }

  lemma HasPlace(t: string, hi: nat)
    requires hi <= |t| && CountTo(t, hi) > 0
    ensures FirstPlace(t) < hi && t[FirstPlace(t)] == PLACEHOLDER
  {
    PlacesCount(t, hi);
    FirstFromStops(t, 0, {PLACEHOLDER});
  }

  lemma MisfilledKeepsOne(t: string, tags: seq<string>)
    requires t != "" && t[|t| - 1] != PLACEHOLDER && 0 < CountTo(t, |t|) <= |tags|
    ensures !FreeOf(Misfilled(t, tags), {PLACEHOLDER})
  {
    TopPlaces(t);
    HasPlace(t, |t| - 1);
    var h := FirstPlace(t);
    assert forall i | 0 <= i < h :: t[i] != PLACEHOLDER by {
      FirstFromStops(t, 0, {PLACEHOLDER});
    }
    FillHead(t, |t| - 1, tags, |tags|, h);
    assert Misfilled(t, tags)[h] == t[h];
  }

  /** The name comes out right exactly when the template ends in a placeholder. */
  lemma OutcomeIsRight(t: string, tags: seq<string>)
    requires ValidTemplate(t) && CountTo(t, |t|) <= |tags| && PlainTags(tags)
    ensures Outcome(t, tags) == Filled(t, tags) <==> t[|t| - 1] == PLACEHOLDER
  {
    if t[|t| - 1] != PLACEHOLDER {
      MisfilledKeepsOne(t, tags);
      FillIsPlain(t, |t|, tags, |tags|);
    }
  }

  // ---------------------------------------------------------------------
  // Placeholders, the split and the tags, told apart from the loops
  // ---------------------------------------------------------------------

  /** Positions before hi, the last one first. */
  predicate Descending(p: seq<nat>, hi: nat) {
    && (forall j | 0 <= j < |p| :: p[j] < hi)
    && forall j, k | 0 <= j < k < |p| :: p[j] > p[k]
  }

  /** The positions of the placeholders before hi, and no others. */
  predicate PlacesOf(t: string, hi: nat, p: seq<nat>)
    requires hi <= |t|
  {
    Descending(p, hi) && forall i | 0 <= i < hi :: i in p <==> t[i] == PLACEHOLDER
  }

  lemma PlacesOfStep(t: string, hi: nat, p: seq<nat>)
    requires 0 < hi <= |t| && PlacesOf(t, hi - 1, p)
    ensures PlacesOf(t, hi, if t[hi - 1] == PLACEHOLDER then [hi - 1] + p else p)
  {
    DescendingCons(p, hi - 1);
    assert hi - 1 !in p;
  }

  /** The places that are recorded are just those of the placeholders, the last one first. */
  lemma {:induction false} PlacesAre(t: string, hi: nat)
    requires hi <= |t|
    ensures PlacesOf(t, hi, Places(t, hi))
  {
    if hi > 0 {
      PlacesAre(t, hi - 1);
      PlacesOfStep(t, hi, Places(t, hi - 1));
      PlacesStep(t, hi);
    }
  }

  lemma DescendingCons(p: seq<nat>, k: nat)
    requires Descending(p, k)
    ensures Descending([k] + p, k + 1)
    ensures forall i :: i in [k] + p <==> i == k || i in p
  {
  }

  /** Valid are a letter, and then word characters and one to five placeholders. */
  lemma ValidTemplatesAre(t: string)
    ensures ValidTemplate(t) <==>
            && t != "" && ('a' <= t[0] <= 'z' || 'A' <= t[0] <= 'Z')
            && (forall i | 0 < i < |t| :: IsWord(t[i]) || t[i] == '$')
            && |Places(t, |t|)| in {1, 2, 3, 4, 5}
  {
    PlacesCount(t, |t|);
  }

  predicate SplitsAt(t: string, k: nat) {
    k + 2 <= |t| && t[k] == '_' && t[k + 1] == '$'
  }

  /** The name of a template ends before the first underscore that a placeholder follows. */
  lemma {:induction false} SplitIsFirst(t: string, k: nat)
    requires k <= |t|
    ensures var r := SplitAt(t, k); (r < |t| <==> exists i | k <= i < |t| :: SplitsAt(t, i))
    ensures var r := SplitAt(t, k); r < |t| ==> SplitsAt(t, r) && forall i | k <= i < r :: !SplitsAt(t, i)
    decreases |t| - k
  {
    if k < |t| && !SplitsAt(t, k) {
      SplitIsFirst(t, k + 1);
    }
  }

  predicate Static(s: string) {
    '$' !in s
  }

  lemma LastPlace(t: string, a: string, b: string)
    requires t == a + "$" + b && Static(b)
    ensures LastBefore(t, |t|, {PLACEHOLDER}) == |a|
  {
    assert t[|a|] == '$' && forall i | |a| < i < |t| :: t[i] == b[i - |a| - 1];
    LastInIs(t, |a|, {PLACEHOLDER});
  }

  lemma NoPlace(a: string)
    requires Static(a)
    ensures LastBefore(a, |a|, {PLACEHOLDER}) == -1
  {
  }

  lemma {:induction false} FillToPrefix(t: string, u: string, hi: nat, tags: seq<string>, n: nat)
    requires hi <= |t| && hi <= |u| && t[..hi] == u[..hi] && n <= |tags|
    ensures FillTo(t, hi, tags, n) == FillTo(u, hi, tags, n)
  {
    assert forall i | 0 <= i < hi :: t[i] == t[..hi][i] == u[..hi][i] == u[i];
    SameLast(t, u, hi);
    var k := LastBefore(t, hi, {PLACEHOLDER});
    if k >= 0 && n > 0 {
      assert t[..k] == t[..hi][..k] && u[..k] == u[..hi][..k];
      assert t[k + 1..hi] == u[k + 1..hi];
      FillToPrefix(t, u, k, tags, n - 1);
    }
  }

  lemma {:induction false} SameLast(t: string, u: string, hi: nat)
    requires hi <= |t| && hi <= |u| && forall i | 0 <= i < hi :: t[i] == u[i]
    ensures LastBefore(t, hi, {PLACEHOLDER}) == LastBefore(u, hi, {PLACEHOLDER})
  {
    if hi > 0 && t[hi - 1] != PLACEHOLDER {
      SameLast(t, u, hi - 1);
    }
  }

  /** The last placeholder takes the last tag, and what is in front of it the tags before. */
  lemma FilledLast(a: string, b: string, tags: seq<string>, tag: string)
    requires Static(b)
    ensures Filled(a + "$" + b, tags + [tag]) == Filled(a, tags) + tag + b
  {
    var t, all := a + "$" + b, tags + [tag];
    LastPlace(t, a, b);
    assert t[|a| + 1..|t|] == b && t[..|a|] == a == a[..|a|];
    FillToPrefix(t, a, |a|, all, |tags|);
    assert all[..|tags|] == tags[..|tags|];
    FillToTags(a, |a|, all, tags, |tags|);
  }

  lemma {:induction false} FillToTags(t: string, hi: nat, tags: seq<string>, more: seq<string>, n: nat)
    requires hi <= |t| && n <= |tags| && n <= |more| && tags[..n] == more[..n]
    ensures FillTo(t, hi, tags, n) == FillTo(t, hi, more, n)
  {
    var k := LastBefore(t, hi, {PLACEHOLDER});
    if k >= 0 && n > 0 {
      assert tags[n - 1] == tags[..n][n - 1] == more[..n][n - 1] == more[n - 1];
      assert tags[..n - 1] == tags[..n][..n - 1] && more[..n - 1] == more[..n][..n - 1];
      FillToTags(t, k, tags, more, n - 1);
    }
  }

  /** A text without placeholders is left as it is, whatever the tags. */
  lemma FilledStatic(a: string, tags: seq<string>)
    requires Static(a)
    ensures Filled(a, tags) == a
  {
    NoPlace(a);
    assert a[..|a|] == a;
  }

  /** So the tags take the placeholders from the back, and tags in front that are too many are not used. */
  lemma FilledTwo(a: string, b: string, c: string, tags: seq<string>, x: string, y: string)
    requires Static(a) && Static(b) && Static(c)
    ensures Filled(a + "$" + b + "$" + c, tags + [x] + [y]) == a + x + b + y + c
  {
    FilledLast(a + "$" + b, c, tags + [x], y);
    FilledLast(a, b, tags, x);
    FilledStatic(a, tags);
  }
}
