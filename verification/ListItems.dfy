/** Items of list-strings: lcfgutils_string_finditem of utils/utils.c, and what it finds. */
module ListItems {
  import opened CText
  import opened Scanning

  /** The separators that resources/mutate.c allows between tags. */
  const SPACES := {' ', '\t', '\r', '\n'}

  // ---------------------------------------------------------------------
  // The items of a list
  // ---------------------------------------------------------------------

  function Word(w: string): seq<string> {
    if w == "" then [] else [w]
  }

  /** The maximal runs without a separator, in order. */
  function Items(s: string): seq<string> {
    var k := LastIn(s, SPACES);
    if k < 0 then Word(s) else Items(s[..k]) + Word(s[k + 1..])
  }

  predicate Plain(tag: string) {
    tag != "" && FreeOf(tag, SPACES)
  }

  lemma PlainItems(tag: string)
    requires FreeOf(tag, SPACES)
    ensures Items(tag) == Word(tag)
  {
    LastInIs(tag, -1, SPACES);
  }

  /** One more separator, and one more word. */
  lemma ItemsWord(a: string, c: char, w: string)
    requires c in SPACES && FreeOf(w, SPACES)
    ensures Items(a + [c] + w) == Items(a) + Word(w)
  {
    var s := a + [c] + w;
    assert s[|a|] == c;
    assert forall i | |a| < i < |s| :: s[i] == w[i - |a| - 1];
    LastInIs(s, |a|, SPACES);
    assert s[..|a|] == a && s[|a| + 1..] == w;
  }

  lemma CutAtLast(b: string) returns (x: string, c: char, w: string)
    requires LastIn(b, SPACES) >= 0
    ensures b == x + [c] + w && c in SPACES && FreeOf(w, SPACES) && |x| < |b|
  {
    var k := LastIn(b, SPACES);
    LastBeforeStops(b, |b|, SPACES);
    x, c, w := b[..k], b[k], b[k + 1..];
  }

  /** A separator cuts a list into two. */
  lemma {:induction false} ItemsJoin(a: string, c: char, b: string)
    requires c in SPACES
    ensures Items(a + [c] + b) == Items(a) + Items(b)
    decreases |b|
  {
    if LastIn(b, SPACES) < 0 {
      LastBeforeStops(b, |b|, SPACES);
      ItemsWord(a, c, b);
    } else {
      var x, d, w := CutAtLast(b);
      Regroup(a + [c], x, [d], w);
      ItemsWord(a + [c] + x, d, w);
      ItemsWord(x, d, w);
      ItemsJoin(a, c, x);
      Associates(Items(a), Items(x), Word(w));
    }
  }

  lemma Regroup(a: string, x: string, d: string, w: string)
    ensures a + (x + d + w) == (a + x) + d + w
  {
  }

  predicate Ends(s: string) { s == "" || s[|s| - 1] in SPACES }

  predicate Starts(s: string) { s == "" || s[0] in SPACES }

  /** What ends with a separator is itself a list. */
  lemma ItemsAfter(before: string, rest: string)
    requires Ends(before)
    ensures Items(before + rest) == Items(before) + Items(rest)
  {
    if before == "" {
      assert before + rest == rest;
      PlainItems("");
    } else {
      var a, c := before[..|before| - 1], before[|before| - 1];
      assert before == a + [c] + "" && before + rest == a + [c] + rest;
      ItemsJoin(a, c, rest);
      ItemsJoin(a, c, "");
      PlainItems("");
      assert Items(a) + [] == Items(a);
    }
  }

  lemma Units<T>(a: seq<T>)
    ensures a + [] == a && [] + a == a
  {
  }

  lemma CutHead(mid: string, after: string)
    requires after != ""
    ensures mid + after == mid + [after[0]] + after[1..] && after == "" + [after[0]] + after[1..]
  {
  }

  lemma ItemsBefore(mid: string, after: string)
    requires Starts(after)
    ensures Items(mid + after) == Items(mid) + Items(after)
  {
    PlainItems("");
    if after == "" {
      Units(mid);
      Units(Items(mid));
    } else {
      CutHead(mid, after);
      ItemsJoin(mid, after[0], after[1..]);
      ItemsJoin("", after[0], after[1..]);
      Units(Items(after[1..]));
    }
  }

  lemma ItemsAround(before: string, mid: string, after: string)
    requires Ends(before) && Starts(after)
    ensures Items(before + mid + after) == Items(before) + Items(mid) + Items(after)
  {
    ItemsAfter(before, mid);
    ItemsBeforeAll(before, mid, after);
  }

  lemma ItemsBeforeAll(before: string, mid: string, after: string)
    requires Starts(after)
    ensures Items(before + mid + after) == Items(before + mid) + Items(after)
  {
    ItemsBefore(before + mid, after);
  }

  // ---------------------------------------------------------------------
  // Finding an item
  // ---------------------------------------------------------------------

  predicate Occurs(s: string, i: int, needle: string) {
    0 <= i && i + |needle| <= |s| && s[i..i + |needle|] == needle
  }

  /** Neither side of the n characters at index i touches anything but a separator. */
  predicate Bounded(s: string, i: nat, n: nat)
    requires i + n <= |s|
  {
    (i == 0 || s[i - 1] in SPACES) && (i + n == |s| || s[i + n] in SPACES)
  }

  /** A whole item stands at index i. */
  predicate IsItem(s: string, i: int, tag: string) {
    Occurs(s, i, tag) && Bounded(s, i, |tag|)
  }

  /** strstr from index k on, as an index; -1 stands for NULL. */
  function StrStr(s: string, k: nat, needle: string): (r: int)
    ensures r == -1 || (k <= r && Occurs(s, r, needle))
    decreases |s| - k
  {
    if k + |needle| > |s| then -1
    else if Occurs(s, k, needle) then k
    else StrStr(s, k + 1, needle)
  }

  lemma {:induction false} StrStrFirst(s: string, k: nat, needle: string, i: nat)
    requires k <= i && Occurs(s, i, needle)
    ensures 0 <= StrStr(s, k, needle) <= i
    decreases |s| - k
  {
    if !Occurs(s, k, needle) {
      StrStrFirst(s, k + 1, needle, i);
    }
  }

  /** The search of lcfgutils_string_finditem with separators, given a match: the next one is looked for after all of it. */
  function Settle(s: string, m: int, needle: string): (r: int)
    requires m == -1 || (Occurs(s, m, needle) && (needle != "" || Bounded(s, m, 0)))
    ensures r == -1 || (0 <= m <= r && IsItem(s, r, needle))
    decreases if m < 0 then 0 else |s| - m + 1
  {
    if m < 0 || Bounded(s, m, |needle|) then m else Settle(s, StrStr(s, m + |needle|, needle), needle)
  }

  function FindFrom(s: string, k: nat, needle: string): int
    requires needle != ""
  {
    Settle(s, StrStr(s, k, needle), needle)
  }

  /** What the search for items ends for: see SearchEndsExactly. */
  predicate Searchable(s: string, needle: string) {
    needle != "" || s == "" || s[0] in SPACES
  }

  function FindItem(s: string, needle: string): int
    requires Searchable(s, needle)
  {
    if s == "" then -1 else Settle(s, StrStr(s, 0, needle), needle)
  }

  /** The loop of lcfgutils_string_finditem. */
  method SettleLoop(haystack: string, needle: string, first: int) returns (location: int)
    requires first == -1 || (Occurs(haystack, first, needle) && (needle != "" || Bounded(haystack, first, 0)))
    ensures location == Settle(haystack, first, needle)
  {
    location := first;
    while location >= 0 && !Bounded(haystack, location, |needle|)
      invariant location == -1 || (Occurs(haystack, location, needle) && (needle != "" || Bounded(haystack, location, 0)))
      invariant Settle(haystack, first, needle) == Settle(haystack, location, needle)
      decreases if location < 0 then 0 else |haystack| - location + 1
    {
      var next := StrStr(haystack, location + |needle|, needle);
      assert Settle(haystack, location, needle) == Settle(haystack, next, needle);
      location := next;
    }
  }

  /** lcfgutils_string_finditem; without separators it is strstr. */
  method StringFindItem(haystack: string, needle: string, withSeparators: bool) returns (location: int)
    requires withSeparators ==> Searchable(haystack, needle)
    ensures location == if withSeparators then FindItem(haystack, needle) else if haystack == "" then -1 else StrStr(haystack, 0, needle)
  {
    if haystack == "" {
      return -1;
    }
    var first := StrStr(haystack, 0, needle);
    if withSeparators {
      location := SettleLoop(haystack, needle, first);
    } else {
      location := first;
    }
  }

  // ---------------------------------------------------------------------
  // When the search ends
  // ---------------------------------------------------------------------

  /** The match at hand when the loop has looked for another one n times, or has stopped before; -1 for NULL. */
  function MatchAfter(s: string, needle: string, n: nat): (m: int)
    ensures m == -1 || Occurs(s, m, needle)
  {
    if n == 0 then StrStr(s, 0, needle)
    else
      var m := MatchAfter(s, needle, n - 1);
      if m < 0 || Bounded(s, m, |needle|) then m else StrStr(s, m + |needle|, needle)
  }

  predicate StopsAfter(s: string, needle: string, n: nat) {
    var m := MatchAfter(s, needle, n);
    m < 0 || Bounded(s, m, |needle|)
  }

  lemma {:induction false} StopsInTime(s: string, needle: string, n: nat) returns (k: nat)
    requires needle != ""
    ensures StopsAfter(s, needle, k)
    decreases var m := MatchAfter(s, needle, n); if m < 0 then 0 else |s| - m + 1
  {
    if StopsAfter(s, needle, n) {
      k := n;
    } else {
      k := StopsInTime(s, needle, n + 1);
    }
  }

  lemma {:induction false} StaysAtStart(s: string, n: nat)
    requires s != "" && s[0] !in SPACES
    ensures MatchAfter(s, "", n) == 0
  {
    if n > 0 {
      StaysAtStart(s, n - 1);
    }
  }

  /** The search ends just where the needle is not empty, or the list is or starts with a separator. */
  lemma SearchEndsExactly(s: string, needle: string)
    ensures s == "" || (exists n: nat :: StopsAfter(s, needle, n)) <==> Searchable(s, needle)
  {
    if needle != "" {
      var n := StopsInTime(s, needle, 0);
    } else if s != "" {
      assert StopsAfter(s, needle, 0) <==> s[0] in SPACES;
      if n: nat :| s[0] !in SPACES && StopsAfter(s, needle, n) {
        StaysAtStart(s, n);
      }
    }
  }

  // ---------------------------------------------------------------------
  // What the search finds
  // ---------------------------------------------------------------------

  predicate HasItem(s: string, needle: string) {
    exists i | 0 <= i <= |s| :: IsItem(s, i, needle)
  }

  /** No overlap of the needle with itself starts after one of its separators. */
  predicate Skippable(needle: string) {
    forall d | 0 < d < |needle| && needle[d - 1] in SPACES :: needle[d..] != needle[..|needle| - d]
  }

  lemma PlainIsSkippable(tag: string)
    requires Plain(tag)
    ensures Skippable(tag)
  {
  }

  lemma Overlap(s: string, m: nat, needle: string, d: nat)
    requires 0 < d < |needle| && Occurs(s, m, needle) && Occurs(s, m + d, needle)
    ensures s[m + d - 1] == needle[d - 1] && needle[d..] == needle[..|needle| - d]
  {
    var i, n := m + d, |needle|;
    assert s[m..m + n][d - 1] == s[i - 1];
    assert s[m..m + n][d..] == s[i..m + n] == s[i..i + n][..n - d];
  }

  /** After a failed match the next item starts behind all of it. */
  lemma Jumps(s: string, m: nat, needle: string, i: nat)
    requires Skippable(needle) && Occurs(s, m, needle) && !Bounded(s, m, |needle|) && IsItem(s, i, needle) && m <= i
    ensures m + |needle| <= i
  {
    if m < i < m + |needle| {
      Overlap(s, m, needle, i - m);
    }
  }

  /** Skipping a failed match whole misses no such item. */
  lemma {:induction false} SettleFirst(s: string, m: nat, needle: string, i: nat)
    requires needle != "" && Skippable(needle) && Occurs(s, m, needle) && IsItem(s, i, needle) && m <= i
    ensures 0 <= Settle(s, m, needle) <= i
    decreases |s| - m
  {
    if !Bounded(s, m, |needle|) {
      Jumps(s, m, needle, i);
      StrStrFirst(s, m + |needle|, needle, i);
      SettleFirst(s, StrStr(s, m + |needle|, needle), needle, i);
    }
  }

  lemma FindFromFirst(s: string, k: nat, needle: string, i: nat)
    requires needle != "" && Skippable(needle) && IsItem(s, i, needle) && k <= i
    ensures 0 <= FindFrom(s, k, needle) <= i
  {
    StrStrFirst(s, k, needle, i);
    SettleFirst(s, StrStr(s, k, needle), needle, i);
  }

  /** A list whose one item is missed: the needle, overlapping an occurrence that no separator precedes. */
  lemma OverlapIsMissed(needle: string, d: nat) returns (s: string)
    requires 0 < d < |needle| && needle[d - 1] in SPACES && needle[d..] == needle[..|needle| - d]
    ensures HasItem(s, needle) && FindItem(s, needle) == -1
  {
    var n, x := |needle|, if needle[0] == 'a' then 'b' else 'a';
    s := [x] + needle[..d] + needle;
    assert needle[..d] + needle[d..] == needle;
    assert s[1 + d..1 + d + n] == needle && s[d] == needle[d - 1];
    assert IsItem(s, 1 + d, needle);
    assert s[1..1 + n] == needle[..d] + needle[..n - d];
    assert Occurs(s, 1, needle) && s[0..n][0] != needle[0];
    assert StrStr(s, 1, needle) == 1 && StrStr(s, 0, needle) == 1;
    assert !Bounded(s, 1, n);
    assert StrStr(s, 1 + n, needle) == -1;
  }

  /**
   The search finds a needle in every list that has it as an item, and in no other
   one, exactly when the needle can be skipped.
   */
  lemma FindItemExactly(needle: string)
    requires needle != ""
    ensures (forall s: string :: FindItem(s, needle) >= 0 <==> HasItem(s, needle)) <==> Skippable(needle)
  {
    if Skippable(needle) {
      forall s: string ensures FindItem(s, needle) >= 0 <==> HasItem(s, needle) {
        if i :| 0 <= i <= |s| && IsItem(s, i, needle) {
          FindFromFirst(s, 0, needle, i);
        }
      }
    } else {
      var d :| 0 < d < |needle| && needle[d - 1] in SPACES && needle[d..] == needle[..|needle| - d];
      var s := OverlapIsMissed(needle, d);
    }
  }

  /** Such a needle: three characters, with a separator in the middle. */
  lemma FindItemMisses()
    ensures var s, needle := "xa a a", "a a"; IsItem(s, 3, needle) && FindItem(s, needle) == -1 && !Skippable(needle)
  {
    var s, needle := "xa a a", "a a";
    assert s[0..3] == "xa " && s[1..4] == "a a" && s[3..6] == "a a";
    assert StrStr(s, 1, needle) == 1 && StrStr(s, 0, needle) == 1;
    assert StrStr(s, 4, needle) == -1;
    assert needle[1] == ' ' && needle[2..] == needle[..1];
  }

  // ---------------------------------------------------------------------
  // Items and their positions
  // ---------------------------------------------------------------------

  /** A list around the item at an index. */
  lemma ItemAt(s: string, i: nat, tag: string) returns (before: string, after: string)
    requires IsItem(s, i, tag)
    ensures before == s[..i] && after == s[i + |tag|..] && s == before + tag + after
    ensures Ends(before) && Starts(after)
  {
    before, after := s[..i], s[i + |tag|..];
  }

  lemma PrefixItem(s: string, k: nat, tag: string, i: nat)
    requires k < |s| && s[k] in SPACES && IsItem(s[..k], i, tag)
    ensures IsItem(s, i, tag)
  {
    assert s[i..i + |tag|] == s[..k][i..i + |tag|];
  }

  lemma LastItem(s: string)
    requires s[LastIn(s, SPACES) + 1..] != ""
    ensures var k := LastIn(s, SPACES); IsItem(s, k + 1, s[k + 1..]) && Plain(s[k + 1..])
  {
    LastBeforeStops(s, |s|, SPACES);
  }

  lemma {:induction false} ItemPosition(s: string, tag: string) returns (i: nat)
    requires tag in Items(s)
    ensures IsItem(s, i, tag) && Plain(tag)
  {
    var k := LastIn(s, SPACES);
    if k >= 0 && tag in Items(s[..k]) {
      i := ItemPosition(s[..k], tag);
      PrefixItem(s, k, tag, i);
    } else {
      assert s[0..] == s;
      assert tag == s[k + 1..] && tag != "";
      LastItem(s);
      i := k + 1;
    }
  }

  lemma ItemAmong(s: string, i: nat, tag: string)
    requires Plain(tag) && IsItem(s, i, tag)
    ensures Items(s) == Items(s[..i]) + [tag] + Items(s[i + |tag|..])
  {
    var before, after := ItemAt(s, i, tag);
    ItemsAround(before, tag, after);
    PlainItems(tag);
  }

  /** A plain tag is found exactly when it is one of the items. */
  lemma FindsItems(s: string, tag: string)
    requires Plain(tag)
    ensures FindItem(s, tag) >= 0 <==> tag in Items(s)
  {
    if FindItem(s, tag) >= 0 {
      ItemAmong(s, FindItem(s, tag), tag);
    }
    if tag in Items(s) {
      var i := ItemPosition(s, tag);
      PlainIsSkippable(tag);
      FindFromFirst(s, 0, tag, i);
    }
  }

  /** What is found is the first such item: the list before it does not have it. */
  lemma FindsFirst(s: string, tag: string)
    requires Plain(tag) && FindItem(s, tag) >= 0
    ensures tag !in Items(s[..FindItem(s, tag)])
  {
    var i := FindItem(s, tag);
    var before := s[..i];
    if tag in Items(before) {
      var p := ItemPosition(before, tag);
      EarlierItem(s, i, tag, p);
      PlainIsSkippable(tag);
      FindFromFirst(s, 0, tag, p);
    }
  }

  lemma EarlierItem(s: string, i: nat, tag: string, p: nat)
    requires Plain(tag) && IsItem(s, i, tag) && IsItem(s[..i], p, tag)
    ensures p < i && IsItem(s, p, tag)
  {
    var before := s[..i];
    assert s[p..p + |tag|] == before[p..p + |tag|] == tag;
    assert s[p + |tag| - 1] == s[p..p + |tag|][|tag| - 1];
    assert p + |tag| < i ==> before[p + |tag|] == s[p + |tag|];
  }

  lemma ItemsArePlain(s: string)
    ensures forall tag | tag in Items(s) :: Plain(tag)
  {
    forall tag | tag in Items(s) ensures Plain(tag) {
      var i := ItemPosition(s, tag);
    }
  }

  // ---------------------------------------------------------------------
  // Taking items off the front
  // ---------------------------------------------------------------------

  lemma {:induction false} SeparatorsOnly(a: string)
    requires forall i | 0 <= i < |a| :: a[i] in SPACES
    ensures Items(a) == [] && Ends(a)
  {
    if a != "" {
      SeparatorsOnly(a[..|a| - 1]);
    }
  }

  lemma FirstItem(blank: string, token: string, rest: string)
    requires (forall i | 0 <= i < |blank| :: blank[i] in SPACES) && FreeOf(token, SPACES) && Starts(rest)
    ensures Items(blank + token + rest) == Word(token) + Items(rest)
  {
    SeparatorsOnly(blank);
    ItemsAround(blank, token, rest);
    PlainItems(token);
    Units(Word(token));
  }

  lemma TokenParts(s: string, k: nat, from: nat, next: nat)
    requires k <= from <= next <= |s| && (next == |s| || s[next] in SPACES)
    requires (forall i | k <= i < from :: s[i] in SPACES) && (forall i | from <= i < next :: s[i] !in SPACES)
    ensures Items(s[k..]) == Word(s[from..next]) + Items(s[next..]) && FreeOf(s[from..next], SPACES)
  {
    FirstItem(s[k..from], s[from..next], s[next..]);
    assert s[k..] == s[k..from] + s[from..next] + s[next..];
  }

  /** strtok_r: the next token from index k on, "" for NULL, and where to go on. */
  method NextToken(s: string, k: nat) returns (token: string, next: nat)
    requires k <= |s|
    ensures k <= next <= |s| && Items(s[k..]) == Word(token) + Items(s[next..])
    ensures if token == "" then Items(s[k..]) == [] else k < next && Plain(token)
  {
    var from := k;
    while from < |s| && s[from] in SPACES
      invariant k <= from <= |s| && forall i | k <= i < from :: s[i] in SPACES
    {
      from := from + 1;
    }
    next := from;
    while next < |s| && s[next] !in SPACES
      invariant from <= next <= |s| && forall i | from <= i < next :: s[i] !in SPACES
    {
      next := next + 1;
    }
    token := s[from..next];
    TokenParts(s, k, from, next);
    if token == "" {
      assert s[next..] == "";
      PlainItems("");
    }
  }

  /** Space, tab, carriage return and line feed separate items, and nothing else does. */
  lemma SeparatorsAre(s: string, c: char, w: string)
    requires Plain(w)
    ensures c in {' ', '\t', '\r', '\n'} ==> Items(s + [c] + w) == Items(s) + [w]
    ensures c !in {' ', '\t', '\r', '\n'} ==> Plain(w + [c])
  {
    if c in SPACES {
      ItemsJoin(s, c, w);
      PlainItems(w);
    }
  }
}
