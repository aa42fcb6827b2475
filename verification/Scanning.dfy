/**
 Cutting a field off either end of a text: walk_forwards_until and
 walk_backwards_until of packages/package.c. A field that comes out as NULL in
 the C code is the empty string here.
 */
module Scanning {
  import opened CText

  datatype Cut = Cut(found: bool, rest: string, field: string)

  /** The index of the first character from k on that is not a space. */
  function SkipFrom(s: string, k: nat): (r: nat)
    requires k <= |s|
    ensures k <= r <= |s|
    decreases |s| - k
  {
    if k < |s| && IsSpace(s[k]) then SkipFrom(s, k + 1) else k
  }

  /** The end of what precedes the spaces before index k. */
  function DropFrom(s: string, k: nat): (r: nat)
    requires k <= |s|
    ensures r <= k
  {
    if k > 0 && IsSpace(s[k - 1]) then DropFrom(s, k - 1) else k
  }

  /** The index of the first mark from k on, or |s|. */
  function FirstFrom(s: string, k: nat, marks: set<char>): (r: nat)
    requires k <= |s|
    ensures k <= r <= |s| && (r < |s| ==> s[r] in marks)
    decreases |s| - k
  {
    if k == |s| || s[k] in marks then k else FirstFrom(s, k + 1, marks)
  }

  /** The index of the last mark before k, or -1. */
  function LastBefore(s: string, k: nat, marks: set<char>): (r: int)
    requires k <= |s|
    ensures -1 <= r < k && (0 <= r ==> s[r] in marks)
  {
    if k == 0 then -1 else if s[k - 1] in marks then k - 1 else LastBefore(s, k - 1, marks)
  }

  function TrimLeft(s: string): (t: string)
    ensures |t| <= |s|
  {
    if s == "" || !IsSpace(s[0]) then s else s[SkipFrom(s, 0)..]
  }

  function TrimRight(s: string): (t: string)
    ensures |t| <= |s|
  {
    if s == "" || !IsSpace(s[|s| - 1]) then s else s[..DropFrom(s, |s|)]
  }

  function LastIn(s: string, marks: set<char>): (k: int)
    ensures -1 <= k < |s| && (0 <= k ==> s[k] in marks)
  {
    LastBefore(s, |s|, marks)
  }

  predicate Trimmed(s: string) {
    s != "" ==> !IsSpace(s[0]) && !IsSpace(s[|s| - 1])
  }

  predicate FreeOf(s: string, marks: set<char>) {
    forall i | 0 <= i < |s| :: s[i] !in marks
  }

  /** What precedes the first separator, unless a stop character comes earlier. */
  function CutFront(s: string, sep: char, stop: set<char>): Cut {
    var t := TrimLeft(s);
    var k := FirstFrom(t, 0, stop + {sep});
    if k < |t| && t[k] == sep then Cut(true, t[k + 1..], TrimRight(t[..k])) else Cut(false, s, "")
  }

  /** What follows the last separator, unless a stop character comes later; the text ends in no space. */
  function CutOff(t: string, sep: char, stop: set<char>): Cut {
    var k := LastIn(t, stop + {sep});
    if k >= 0 && t[k] == sep then Cut(true, t[..k], TrimLeft(t[k + 1..])) else Cut(false, t, "")
  }

  function CutBack(s: string, sep: char, stop: set<char>): Cut {
    var cut := CutOff(TrimRight(s), sep, stop);
    if cut.found then cut else Cut(false, s, "")
  }

  // ---------------------------------------------------------------------
  // Where the searches stop
  // ---------------------------------------------------------------------

  lemma {:induction false} SkipFromStops(s: string, k: nat)
    requires k <= |s|
    ensures var r := SkipFrom(s, k); (r < |s| ==> !IsSpace(s[r])) && forall i | k <= i < r :: IsSpace(s[i])
    decreases |s| - k
  {
    if k < |s| && IsSpace(s[k]) {
      SkipFromStops(s, k + 1);
    }
  }

  lemma {:induction false} DropFromStops(s: string, k: nat)
    requires k <= |s|
    ensures var r := DropFrom(s, k); (r > 0 ==> !IsSpace(s[r - 1])) && forall i | r <= i < k :: IsSpace(s[i])
  {
    if k > 0 && IsSpace(s[k - 1]) {
      DropFromStops(s, k - 1);
    }
  }

  lemma {:induction false} FirstFromStops(s: string, k: nat, marks: set<char>)
    requires k <= |s|
    ensures forall i | k <= i < FirstFrom(s, k, marks) :: s[i] !in marks
    decreases |s| - k
  {
    if k < |s| && s[k] !in marks {
      FirstFromStops(s, k + 1, marks);
    }
  }

  lemma {:induction false} LastBeforeStops(s: string, k: nat, marks: set<char>)
    requires k <= |s|
    ensures forall i | LastBefore(s, k, marks) < i < k :: s[i] !in marks
  {
    if k > 0 && s[k - 1] !in marks {
      LastBeforeStops(s, k - 1, marks);
    }
  }

  lemma LastInIs(s: string, k: int, marks: set<char>)
    requires -1 <= k < |s| && (0 <= k ==> s[k] in marks)
    requires forall i | k < i < |s| :: s[i] !in marks
    ensures LastIn(s, marks) == k
  {
    LastBeforeStops(s, |s|, marks);
  }

  lemma TrimLeftIs(s: string)
    ensures TrimLeft(s) == s[SkipFrom(s, 0)..]
  {
  }

  lemma TrimLeftStarts(s: string)
    ensures TrimLeft(s) != "" ==> !IsSpace(TrimLeft(s)[0])
  {
    SkipFromStops(s, 0);
  }

  lemma TrimRightEnds(s: string)
    ensures TrimRight(s) != "" ==> !IsSpace(TrimRight(s)[|TrimRight(s)| - 1])
  {
    DropFromStops(s, |s|);
  }

  lemma TrimRightOnce(t: string, c: char)
    requires t != "" && !IsSpace(t[|t| - 1]) && IsSpace(c)
    ensures TrimRight(t + [c]) == t
  {
    var s := t + [c];
    assert DropFrom(s, |s| - 1) == |s| - 1;
    assert DropFrom(s, |s|) == |t|;
  }

  // ---------------------------------------------------------------------
  // What is cut
  // ---------------------------------------------------------------------

  /** A field without marks, ended by its separator or by a stop character. */
  lemma CutFrontAt(a: string, c: char, rest: string, sep: char, stop: set<char>)
    requires FreeOf(a, stop + {sep}) && Trimmed(a) && c in stop + {sep} && !IsSpace(c)
    ensures CutFront(a + [c] + rest, sep, stop) == if c == sep then Cut(true, rest, a) else Cut(false, a + [c] + rest, "")
  {
    var s := a + [c] + rest;
    assert s[0] == if a == "" then c else a[0];
    assert s[..|a|] == a && s[|a| + 1..] == rest && s[|a|] == c;
    assert forall i | 0 <= i < |a| :: s[i] == a[i];
    FirstFromStops(s, 0, stop + {sep});
    assert FirstFrom(s, 0, stop + {sep}) == |a|;
  }

  lemma CutBackAt(rest: string, c: char, a: string, sep: char, stop: set<char>)
    requires FreeOf(a, stop + {sep}) && Trimmed(a) && c in stop + {sep} && !IsSpace(c)
    ensures CutBack(rest + [c] + a, sep, stop) == if c == sep then Cut(true, rest, a) else Cut(false, rest + [c] + a, "")
  {
    var s := rest + [c] + a;
    assert s[|s| - 1] == if a == "" then c else a[|a| - 1];
    assert s[..|rest|] == rest && s[|rest| + 1..] == a && s[|rest|] == c;
    assert forall i | |rest| < i < |s| :: s[i] == a[i - |rest| - 1];
    LastInIs(s, |rest|, stop + {sep});
  }

  /** A stop character before any separator hides the separator. */
  lemma CutFrontStops(s: string, j: nat, sep: char, stop: set<char>)
    requires j < |s| && s[j] in stop && !IsSpace(s[0])
    requires forall i | 0 <= i <= j :: s[i] != sep
    ensures CutFront(s, sep, stop) == Cut(false, s, "")
  {
    FirstFromStops(s, 0, stop + {sep});
  }

  lemma CutBackStops(s: string, j: nat, sep: char, stop: set<char>)
    requires j < |s| && s[j] in stop && !IsSpace(s[|s| - 1])
    requires forall i | j <= i < |s| :: s[i] != sep
    ensures CutBack(s, sep, stop) == Cut(false, s, "")
  {
    LastBeforeStops(s, |s|, stop + {sep});
  }

  /** No separator, no field. */
  lemma CutBackMisses(s: string, sep: char, stop: set<char>)
    requires FreeOf(s, {sep})
    ensures CutBack(s, sep, stop) == Cut(false, s, "")
  {
    var t := TrimRight(s);
    assert forall i | 0 <= i < |t| :: t[i] == s[i];
  }

  lemma TrimLeftKeeps(s: string, marks: set<char>)
    requires FreeOf(s, marks) && (s != "" ==> !IsSpace(s[|s| - 1]))
    ensures FreeOf(TrimLeft(s), marks) && Trimmed(TrimLeft(s))
  {
    TrimLeftStarts(s);
  }

  lemma TrimRightKeeps(s: string, marks: set<char>)
    requires FreeOf(s, marks) && (s != "" ==> !IsSpace(s[0]))
    ensures FreeOf(TrimRight(s), marks) && Trimmed(TrimRight(s))
  {
    TrimRightEnds(s);
  }

  /** A field has no mark in it, and no space at either end. */
  lemma CutFrontField(s: string, sep: char, stop: set<char>)
    ensures var f := CutFront(s, sep, stop).field; FreeOf(f, stop + {sep}) && Trimmed(f)
  {
    TrimLeftStarts(s);
    var t := TrimLeft(s);
    FirstFromStops(t, 0, stop + {sep});
    TrimRightKeeps(t[..FirstFrom(t, 0, stop + {sep})], stop + {sep});
  }

  lemma AfterLast(t: string, marks: set<char>)
    requires t != "" ==> !IsSpace(t[|t| - 1])
    ensures var a := t[LastIn(t, marks) + 1..]; FreeOf(a, marks) && (a != "" ==> !IsSpace(a[|a| - 1]))
  {
    LastBeforeStops(t, |t|, marks);
  }

  lemma CutOffField(t: string, sep: char, stop: set<char>)
    requires t != "" ==> !IsSpace(t[|t| - 1])
    ensures var f := CutOff(t, sep, stop).field; FreeOf(f, stop + {sep}) && Trimmed(f)
  {
    AfterLast(t, stop + {sep});
    TrimLeftKeeps(t[LastIn(t, stop + {sep}) + 1..], stop + {sep});
  }

  lemma CutBackField(s: string, sep: char, stop: set<char>)
    ensures var f := CutBack(s, sep, stop).field; FreeOf(f, stop + {sep}) && Trimmed(f)
  {
    TrimRightEnds(s);
    CutOffField(TrimRight(s), sep, stop);
  }

  // ---------------------------------------------------------------------
  // The loops
  // ---------------------------------------------------------------------

  method SkipSpaces(input: string, start: nat) returns (begin: nat)
    requires start <= |input|
    ensures begin == SkipFrom(input, start)
  {
    begin := start;
    while begin < |input| && IsSpace(input[begin])
      invariant start <= begin <= |input| && SkipFrom(input, start) == SkipFrom(input, begin)
    {
      begin := begin + 1;
    }
  }

  method DropSpaces(text: string) returns (kept: nat)
    ensures kept <= |text| && text[..kept] == TrimRight(text)
    ensures kept == 0 && text != "" ==> IsSpace(text[0])
  {
    kept := |text|;
    while kept > 0 && IsSpace(text[kept - 1])
      invariant kept <= |text| && DropFrom(text, |text|) == DropFrom(text, kept)
      invariant kept < |text| ==> IsSpace(text[kept])
    {
      kept := kept - 1;
    }
  }

  /** The for loop of walk_forwards_until. */
  method FindForwards(text: string, separator: char, stop: set<char>) returns (found: bool, ptr: nat)
    ensures ptr == FirstFrom(text, 0, stop + {separator})
    ensures found <==> ptr < |text| && text[ptr] == separator
  {
    found, ptr := false, 0;
    ghost var marks := stop + {separator};
    while ptr < |text|
      invariant ptr <= |text| && FirstFrom(text, 0, marks) == FirstFrom(text, ptr, marks)
    {
      if text[ptr] == separator {
        return true, ptr;
      } else if text[ptr] in stop {
        return;
      }
      ptr := ptr + 1;
    }
  }

  /** The for loop of walk_backwards_until. */
  method FindBackwards(text: string, separator: char, stop: set<char>) returns (found: bool, ptr: int)
    ensures ptr == LastIn(text, stop + {separator})
    ensures found <==> ptr >= 0 && text[ptr] == separator
  {
    found, ptr := false, |text| - 1;
    ghost var marks := stop + {separator};
    while ptr >= 0
      invariant -1 <= ptr < |text| && LastIn(text, marks) == LastBefore(text, ptr + 1, marks)
    {
      if text[ptr] == separator {
        return true, ptr;
      } else if text[ptr] in stop {
        return;
      }
      ptr := ptr - 1;
    }
  }

  /** A suffix is trimmed where it is. */
  lemma {:induction false} SkipFromSuffix(s: string, start: nat, k: nat)
    requires start <= k <= |s|
    ensures SkipFrom(s[start..], k - start) == SkipFrom(s, k) - start
    decreases |s| - k
  {
    if k < |s| && IsSpace(s[k]) {
      SkipFromSuffix(s, start, k + 1);
    }
  }

  /** walk_forwards_until, from offset start; next is where *start points afterwards. */
  method WalkForwardsUntil(input: string, start: nat, separator: char, stop: set<char>)
    returns (found: bool, next: nat, field: string)
    requires start <= |input|
    ensures next <= |input|
    ensures Cut(found, input[next..], field) == CutFront(input[start..], separator, stop)
  {
    next, field := start, "";
    var begin := SkipSpaces(input, start);
    SkipFromSuffix(input, start, start);
    TrimLeftIs(input[start..]);
    var text, end := input[begin..], 0;
    assert text == TrimLeft(input[start..]);
    found, end := FindForwards(text, separator, stop);
    if found {
      next := begin + end + 1;
      assert text[end + 1..] == input[next..];
      var fieldLen := DropSpaces(text[..end]);
      field := text[..end][..fieldLen];
    }
  }

  /** walk_backwards_until, once trailing spaces are out of the way. */
  method CutTrimmed(text: string, separator: char, stop: set<char>) returns (found: bool, begin: int, field: string)
    ensures -1 <= begin < |text| && (found ==> 0 <= begin)
    ensures CutOff(text, separator, stop) == if found then Cut(true, text[..begin], field) else Cut(false, text, field)
  {
    field := "";
    found, begin := FindBackwards(text, separator, stop);
    if found {
      var from := SkipSpaces(text, begin + 1);
      SkipFromSuffix(text, begin + 1, begin + 1);
      TrimLeftIs(text[begin + 1..]);
      field := text[from..];
    }
  }

  /**
   walk_backwards_until, over the first len characters of the input; left is *len
   afterwards. With nothing to read it looks at the first character of the input,
   which lies beyond len.
   */
  method WalkBackwardsUntil(input: string, len: nat, separator: char, stop: set<char>)
    returns (found: bool, left: nat, field: string)
    requires len <= |input| && !IsSpace(separator)
    ensures left <= len && input[..left] == CutBack(input[..len], separator, stop).rest
    ensures field == CutBack(input[..len], separator, stop).field
    ensures found <==> CutBack(input[..len], separator, stop).found || (len == 0 && At(input, 0) == separator)
  {
    var text := input[..len];
    var myLen := DropSpaces(text);
    var trimmed := text[..myLen];
    if myLen == 0 {
      found, field := At(input, 0) == separator, "";
      left := if found then 0 else len;
    } else {
      var begin;
      found, begin, field := CutTrimmed(trimmed, separator, stop);
      left := if found then begin else len;
      assert found ==> trimmed[..begin] == input[..left];
    }
  }
}
