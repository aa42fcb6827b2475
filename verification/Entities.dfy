/**
 Character references: the encoder of resources/resource.c and the in-place
 decoder of utils/entities.c. Bytes are characters below 256.
 */
module Entities {
  import opened CText
  import opened Buffers
  import opened Scanning
  import opened Merging

  const UNICODE_MAX := 0x10FFFF

  const ULONG := 0x1_0000_0000_0000_0000

  // ---------------------------------------------------------------------
  // UTF-8 (RFC 3629, section 3)
  // ---------------------------------------------------------------------

  /** putc_utf8. */
  function Utf8(cp: nat): (s: string)
    ensures |s| <= 4
  {
    if cp <= 0x7F then [cp as char]
    else if cp <= 0x7FF then [(0xC0 + cp / 0x40) as char, (0x80 + cp % 0x40) as char]
    else if cp <= 0xFFFF then
      [(0xE0 + cp / 0x1000) as char, (0x80 + cp / 0x40 % 0x40) as char, (0x80 + cp % 0x40) as char]
    else if cp <= UNICODE_MAX then
      [(0xF0 + cp / 0x40000) as char, (0x80 + cp / 0x1000 % 0x40) as char, (0x80 + cp / 0x40 % 0x40) as char,
       (0x80 + cp % 0x40) as char]
    else ""
  }

  predicate IsContinuation(c: char) { 0x80 <= c as int < 0xC0 }

  /** The code point that a sequence of bytes stands for by the table of section 3; -1 if it is in none of its rows. */
  function CodePoint(s: string): int {
    var b := (i: int) requires 0 <= i < |s| => s[i] as int;
    if |s| == 1 && b(0) < 0x80 then b(0)
    else if |s| == 2 && 0xC0 <= b(0) < 0xE0 && IsContinuation(s[1]) then (b(0) - 0xC0) * 0x40 + (b(1) - 0x80)
    else if |s| == 3 && 0xE0 <= b(0) < 0xF0 && IsContinuation(s[1]) && IsContinuation(s[2]) then
      (b(0) - 0xE0) * 0x1000 + (b(1) - 0x80) * 0x40 + (b(2) - 0x80)
    else if |s| == 4 && 0xF0 <= b(0) < 0xF8 && IsContinuation(s[1]) && IsContinuation(s[2]) && IsContinuation(s[3]) then
      (b(0) - 0xF0) * 0x40000 + (b(1) - 0x80) * 0x1000 + (b(2) - 0x80) * 0x40 + (b(3) - 0x80)
    else -1
  }

  /** The bytes say the code point, and no shorter row of the table could. */
  lemma Utf8Reads(cp: nat)
    requires cp <= UNICODE_MAX
    ensures CodePoint(Utf8(cp)) == cp
    ensures |Utf8(cp)| == if cp < 0x80 then 1 else if cp < 0x800 then 2 else if cp < 0x10000 then 3 else 4
  {
    assert cp == cp / 0x40 * 0x40 + cp % 0x40;
    assert cp / 0x40 == cp / 0x1000 * 0x40 + cp / 0x40 % 0x40;
    assert cp / 0x1000 == cp / 0x40000 * 0x40 + cp / 0x1000 % 0x40;
  }

  // ---------------------------------------------------------------------
  // References
  // ---------------------------------------------------------------------

  /** The value of a digit in base ten or sixteen, or -1. */
  function Digit(c: char, hex: bool): int {
    if IsDigit(c) then c as int - '0' as int
    else if hex && 'a' <= c <= 'f' then c as int - 'a' as int + 10
    else if hex && 'A' <= c <= 'F' then c as int - 'A' as int + 10
    else -1
  }

  /** The number that the digits from index lo up to hi make; None if there is anything else. */
  function Digits(s: string, lo: nat, hi: nat, hex: bool): Option<nat>
    requires lo <= hi <= |s|
  {
    if lo == hi then Some(0)
    else
      var high := Digits(s, lo, hi - 1, hex);
      var low := Digit(s[hi - 1], hex);
      if high == None || low < 0 then None else Some((if hex then 16 else 10) * high.value + low)
  }

  function SkipTo(s: string, lo: nat, hi: nat): (k: nat)
    requires lo <= hi <= |s|
    ensures lo <= k <= hi
    decreases hi - lo
  {
    if lo < hi && IsSpace(s[lo]) then SkipTo(s, lo + 1, hi) else lo
  }

  /** The result of strtoul for the digits of a number after its sign, which wraps a negative one; None is an overflow. */
  function Unsigned(value: nat, minus: bool): Option<nat> {
    if value >= ULONG then None else if minus && value > 0 then Some(ULONG - value) else Some(value)
  }

  /**
   strtoul over the text from index lo up to hi, as far as parse_entity accepts
   its result: after spaces, a sign and a hexadecimal prefix there are digits, and
   the value is a code point. Nothing at all counts as zero.
   */
  function Numeral(s: string, lo: nat, hi: nat, hex: bool): Option<nat>
    requires lo <= hi <= |s|
  {
    var sp := SkipTo(s, lo, hi);
    var minus := sp < hi && s[sp] == '-';
    var from := if sp < hi && (s[sp] == '-' || s[sp] == '+') then sp + 1 else sp;
    var start := if hex && from + 2 < hi && s[from] == '0' && s[from + 1] in {'x', 'X'} then from + 2 else from;
    var digits := Digits(s, start, hi, hex);
    if lo == hi then Some(0)
    else if start == hi || digits == None then None
    else
      var value := Unsigned(digits.value, minus);
      if value == None || value.value > UNICODE_MAX then None else value
  }

  /** What the reference at index k stands for, and where it ends. */
  function Reference(named: map<string, string>, s: string, k: nat): Option<(string, nat)>
    requires k < |s| && s[k] == '&'
  {
    var end := FirstFrom(s, k, {';'});
    if end == |s| then None
    else if s[k + 1] == '#' then
      var hex := s[k + 2] == 'x' || s[k + 2] == 'X';
      var cp := Numeral(s, if hex then k + 3 else k + 2, end, hex);
      if cp == None then None else Some((Utf8(cp.value), end + 1))
    else if s[k + 1..end] in named then Some((named[s[k + 1..end]], end + 1))
    else None
  }

  /** The decoded text from index k on. */
  function DecodeFrom(named: map<string, string>, s: string, k: nat): string
    requires k <= |s|
    decreases |s| - k
  {
    if k == |s| then ""
    else if s[k] != '&' then [s[k]] + DecodeFrom(named, s, k + 1)
    else
      match Reference(named, s, k)
      case Some((text, next)) => text + DecodeFrom(named, s, next)
      case None => ['&'] + DecodeFrom(named, s, k + 1)
  }

  function Decode(named: map<string, string>, s: string): string {
    DecodeFrom(named, s, 0)
  }

  /** No named reference is shorter than what it stands for. */
  predicate Fits(named: map<string, string>) {
    forall name | name in named :: |named[name]| <= |name| + 2
  }

  /** A code point above 0x7F needs two digits. */
  lemma NumeralBound(s: string, lo: nat, hi: nat, hex: bool)
    requires lo <= hi <= |s| && Numeral(s, lo, hi, hex).Some?
    ensures hi - lo <= 1 ==> Numeral(s, lo, hi, hex).value <= 0x7F
    ensures Numeral(s, lo, hi, hex).value <= UNICODE_MAX
  {
    if hi == lo + 1 {
      assert Digits(s, lo, lo, hex) == Some(0);
    }
  }

  /** A reference is at least as long as its text, so decoding in place never overtakes the reading. */
  lemma ReferenceShrinks(named: map<string, string>, s: string, k: nat)
    requires k < |s| && s[k] == '&' && Fits(named) && Reference(named, s, k).Some?
    ensures var (text, next) := Reference(named, s, k).value; |text| <= next - k && k + 2 <= next <= |s|
  {
    var end := FirstFrom(s, k, {';'});
    if s[k + 1] == '#' {
      var hex := s[k + 2] == 'x' || s[k + 2] == 'X';
      var lo := if hex then k + 3 else k + 2;
      NumeralBound(s, lo, end, hex);
      Utf8Reads(Numeral(s, lo, end, hex).value);
    }
  }

  lemma HeadOf(s: string, from: nat, to: nat)
    requires from < to <= |s|
    ensures s[from..to] == [s[from]] + s[from + 1..to]
  {
  }

  /** Text without an ampersand stands for itself. */
  lemma {:induction false} DecodePlain(named: map<string, string>, s: string, from: nat, to: nat)
    requires from <= to <= |s| && forall i | from <= i < to :: s[i] != '&'
    ensures DecodeFrom(named, s, from) == s[from..to] + DecodeFrom(named, s, to)
    decreases |s| - from
  {
    if from < to {
      DecodePlain(named, s, from + 1, to);
      Associates([s[from]], s[from + 1..to], DecodeFrom(named, s, to));
      HeadOf(s, from, to);
    }
  }

  // ---------------------------------------------------------------------
  // Decoding in place
  // ---------------------------------------------------------------------

  /** memmove towards the front of the buffer, where the text done stands. */
  method MoveDown(buf: array<char>, to: nat, from: nat, n: nat, ghost done: string, ghost text: string)
    requires to <= from && from + n <= buf.Length && buf[..to] == done && buf[from..from + n] == text
    modifies buf
    ensures buf[..to + n] == done + text
    ensures forall i | from + n <= i < buf.Length :: buf[i] == old(buf[i])
  {
    forall i | 0 <= i < n {
      buf[to + i] := buf[from + i];
    }
    assert forall i | 0 <= i < n :: buf[to + i] == text[i];
    assert forall i | 0 <= i < to :: buf[i] == done[i];
  }

  /** memcpy of a text that is not in the buffer; what lies beyond stays. */
  method PutText(buf: array<char>, to: nat, text: string, ghost done: string) returns (end: nat)
    requires to + |text| <= buf.Length && buf[..to] == done
    modifies buf
    ensures end == to + |text| && buf[..end] == done + text
    ensures forall i | end <= i < buf.Length :: buf[i] == old(buf[i])
  {
    Copy(buf, to, text);
    end := to + |text|;
    assert forall i | 0 <= i < to :: buf[i] == done[i];
  }

  /** From an index on, the buffer still holds the string that is decoded, and its terminator. */
  predicate Unread(buf: array<char>, s: string, from: nat)
    reads buf
  {
    && |s| < buf.Length && buf[|s|] == NUL
    && forall i | from <= i < |s| :: buf[i] == s[i]
  }

  /** strchr on the string at an index, as an index; its end stands for NULL. */
  method FindChar(buf: array<char>, from: nat, c: char, ghost s: string) returns (k: nat)
    requires from <= |s| && Unread(buf, s, from) && NulFree(s) && c != NUL
    ensures k == FirstFrom(s, from, {c})
  {
    k := from;
    while buf[k] != NUL && buf[k] != c
      invariant from <= k <= |s|
      invariant FirstFrom(s, from, {c}) == FirstFrom(s, k, {c})
      decreases |s| - k
    {
      k := k + 1;
    }
  }

  /** A number depends on nothing outside its range. */
  lemma {:induction false} NumeralSame(s: string, t: string, lo: nat, hi: nat, hex: bool)
    requires lo <= hi <= |s| && hi <= |t| && forall i | lo <= i < hi :: s[i] == t[i]
    ensures Numeral(s, lo, hi, hex) == Numeral(t, lo, hi, hex)
  {
    SkipSame(s, t, lo, hi);
    var sp := SkipTo(s, lo, hi);
    forall k | lo <= k <= hi ensures Digits(s, k, hi, hex) == Digits(t, k, hi, hex) {
      DigitsSame(s, t, k, hi, hex);
    }
  }

  lemma {:induction false} SkipSame(s: string, t: string, lo: nat, hi: nat)
    requires lo <= hi <= |s| && hi <= |t| && forall i | lo <= i < hi :: s[i] == t[i]
    ensures SkipTo(s, lo, hi) == SkipTo(t, lo, hi)
    decreases hi - lo
  {
    if lo < hi {
      SkipSame(s, t, lo + 1, hi);
    }
  }

  lemma {:induction false} DigitsSame(s: string, t: string, lo: nat, hi: nat, hex: bool)
    requires lo <= hi <= |s| && hi <= |t| && forall i | lo <= i < hi :: s[i] == t[i]
    ensures Digits(s, lo, hi, hex) == Digits(t, lo, hi, hex)
  {
    if lo < hi {
      DigitsSame(s, t, lo, hi - 1, hex);
    }
  }

  /** What parse_entity finds at index current: what to write, and where to go on; next == current when it finds nothing. */
  method LookUp(named: map<string, string>, buf: array<char>, current: nat, ghost s: string)
    returns (text: string, next: nat)
    requires current < |s| && Unread(buf, s, current) && NulFree(s) && s[current] == '&'
    ensures var r := Reference(named, s, current);
      if r.Some? then text == r.value.0 && next == r.value.1 else next == current
  {
    text, next := "", current;
    var end := FindChar(buf, current, ';', s);
    if buf[end] == NUL {
      return;
    }
    if buf[current + 1] == '#' {
      var hex := buf[current + 2] == 'x' || buf[current + 2] == 'X';
      var start := if hex then current + 3 else current + 2;
      NumeralSame(buf[..end], s, start, end, hex);
      var cp := Numeral(buf[..end], start, end, hex);
      if cp == None {
        return;
      }
      text := Utf8(cp.value);
    } else {
      assert buf[current + 1..end] == s[current + 1..end];
      if buf[current + 1..end] !in named {
        return;
      }
      text := named[buf[current + 1..end]];
    }
    next := end + 1;
  }

  /** Move the text before an ampersand, or before the end. */
  method MovePlain(named: map<string, string>, buf: array<char>, from: nat, current: nat, to: nat,
                   ghost done: string, ghost s: string)
    returns (end: nat, ghost more: string)
    requires to <= from <= |s| && Unread(buf, s, from) && current == FirstFrom(s, from, {'&'}) && buf[..to] == done
    modifies buf
    ensures end <= current && Unread(buf, s, current) && buf[..end] == more
    ensures done + DecodeFrom(named, s, from) == more + DecodeFrom(named, s, current)
  {
    FirstFromStops(s, from, {'&'});
    DecodePlain(named, s, from, current);
    ghost var plain := s[from..current];
    Associates(done, plain, DecodeFrom(named, s, current));
    MoveDown(buf, to, from, current - from, done, plain);
    end := to + (current - from);
    more := done + plain;
  }

  /** Write what a reference stands for, or else just its ampersand. */
  method WriteReference(named: map<string, string>, buf: array<char>, current: nat, to: nat,
                        ghost done: string, ghost s: string)
    returns (next: nat, end: nat, ghost more: string)
    requires Fits(named) && to <= current < |s| && Unread(buf, s, current) && NulFree(s) && s[current] == '&'
    requires buf[..to] == done
    modifies buf
    ensures end <= next <= |s| && current < next && Unread(buf, s, next) && buf[..end] == more
    ensures done + DecodeFrom(named, s, current) == more + DecodeFrom(named, s, next)
  {
    var text;
    text, next := LookUp(named, buf, current, s);
    if Reference(named, s, current).Some? {
      ReferenceShrinks(named, s, current);
    }
    if next == current {
      text, next := [buf[current]], current + 1;
    }
    assert DecodeFrom(named, s, current) == text + DecodeFrom(named, s, next);
    Associates(done, text, DecodeFrom(named, s, next));
    end := PutText(buf, to, text, done);
    more := done + text;
  }

  /**
   lcfgutils_decode_html_entities_utf8 in the buffer that holds the string s,
   which the decoded string replaces; n is its length.
   */
  method DecodeInPlace(named: map<string, string>, buf: array<char>, ghost s: string) returns (n: nat)
    requires Fits(named) && Unread(buf, s, 0) && NulFree(s)
    modifies buf
    ensures n <= |s| && buf[..n] == Decode(named, s) && buf[n] == NUL
  {
    var to: nat, from: nat := 0, 0;
    ghost var done := "";
    var current := FindChar(buf, from, '&', s);
    while buf[current] != NUL
      invariant to <= from <= |s| && current == FirstFrom(s, from, {'&'})
      invariant Unread(buf, s, from) && buf[..to] == done
      invariant Decode(named, s) == done + DecodeFrom(named, s, from)
      decreases |s| - from
    {
      to, done := MovePlain(named, buf, from, current, to, done, s);
      from, to, done := WriteReference(named, buf, current, to, done, s);
      current := FindChar(buf, from, '&', s);
    }
    n, done := MovePlain(named, buf, from, current, to, done, s);
    buf[n] := NUL;
  }

  // ---------------------------------------------------------------------
  // Encoding
  // ---------------------------------------------------------------------

  predicate IsUnsafe(c: char) { c in {'\r', '\n', '&'} }

  function EncodeChar(c: char): string {
    if c == '\r' then "&#xD;" else if c == '\n' then "&#xA;" else if c == '&' then "&#x26;" else [c]
  }

  /** The encoding of the first k characters. */
  function EncodeTo(s: string, k: nat): string
    requires k <= |s|
  {
    if k == 0 then "" else EncodeTo(s, k - 1) + EncodeChar(s[k - 1])
  }

  function Encode(s: string): string {
    EncodeTo(s, |s|)
  }

  lemma {:induction false} EncodeToPrefix(s: string, j: nat, k: nat)
    requires j <= k <= |s|
    ensures EncodeTo(s, j) <= EncodeTo(s, k)
  {
    if j < k {
      EncodeToPrefix(s, j, k - 1);
    }
  }

  /** Encoding leaves text alone exactly when nothing in it is unsafe. */
  lemma {:induction false} EncodeToGrows(s: string, k: nat)
    requires k <= |s|
    ensures |EncodeTo(s, k)| >= k
    ensures if exists i | 0 <= i < k :: IsUnsafe(s[i]) then |EncodeTo(s, k)| > k else EncodeTo(s, k) == s[..k]
  {
    if k > 0 {
      EncodeToGrows(s, k - 1);
      assert s[..k] == s[..k - 1] + [s[k - 1]];
    }
  }

  lemma EncodeGrows(s: string)
    ensures |Encode(s)| >= |s|
    ensures if exists i | 0 <= i < |s| :: IsUnsafe(s[i]) then |Encode(s)| > |s| else Encode(s) == s
  {
    EncodeToGrows(s, |s|);
    assert s[..|s|] == s;
  }

  lemma {:induction false} EncodeToIsSafe(s: string, k: nat)
    requires k <= |s|
    ensures FreeOf(EncodeTo(s, k), {'\r', '\n'})
  {
    if k > 0 {
      EncodeToIsSafe(s, k - 1);
    }
  }

  /** The encoded value has no line ends in it. */
  lemma EncodedIsSafe(s: string)
    ensures FreeOf(Encode(s), {'\r', '\n'})
  {
    EncodeToIsSafe(s, |s|);
  }

  /** lcfgresource_value_needs_encode. */
  method NeedsEncode(value: string) returns (needs: bool)
    ensures needs <==> Encode(value) != value
  {
    needs := false;
    var i := 0;
    EncodeGrows(value);
    while i < |value|
      invariant i <= |value| && forall j | 0 <= j < i :: !IsUnsafe(value[j])
    {
      if IsUnsafe(value[i]) {
        return true;
      }
      i := i + 1;
    }
  }

  /** The first pass of lcfgresource_enc_value. */
  method Extension(value: string) returns (extend: nat)
    ensures |value| + extend == |Encode(value)|
  {
    extend := 0;
    var i := 0;
    while i < |value|
      invariant i <= |value| && i + extend == |EncodeTo(value, i)|
    {
      extend := extend + |EncodeChar(value[i])| - 1;
      i := i + 1;
    }
  }

  /** lcfgresource_enc_value: the length is computed before anything is written. */
  method EncValue(value: string) returns (enc: array<char>)
    ensures fresh(enc) && enc.Length == |Encode(value)| + 1
    ensures enc[..|Encode(value)|] == Encode(value) && enc[|Encode(value)|] == NUL
  {
    var extend := Extension(value);
    var newLen := |value| + extend;
    enc := new char[newLen + 1](_ => NUL);
    if extend == 0 {
      EncodeGrows(value);
      var end := PutText(enc, 0, value, "");
      assert "" + value == value;
      return;
    }
    var to, i := 0, 0;
    ghost var done := "";
    while i < |value|
      invariant i <= |value| && done == EncodeTo(value, i) && to == |done| <= newLen
      invariant enc[..to] == done && fresh(enc)
    {
      EncodeToPrefix(value, i + 1, |value|);
      to := PutText(enc, to, EncodeChar(value[i]), done);
      done := done + EncodeChar(value[i]);
      i := i + 1;
    }
    enc[to] := NUL;
  }

  // ---------------------------------------------------------------------
  // Round trip
  // ---------------------------------------------------------------------

  lemma DecodeReference(named: map<string, string>, s: string, k: nat, text: string, next: nat)
    requires k < next <= |s| && s[k] == '&' && Reference(named, s, k) == Some((text, next))
    ensures DecodeFrom(named, s, k) == text + DecodeFrom(named, s, next)
  {
  }

  lemma ReferenceIs(named: map<string, string>, s: string, k: nat, end: nat, cp: nat)
    requires k + 3 <= end < |s| && s[k] == '&' && s[k + 1] == '#' && s[k + 2] == 'x' && s[end] == ';'
    requires forall i | k + 3 <= i < end :: s[i] != ';'
    requires Numeral(s, k + 3, end, true) == Some(cp)
    ensures Reference(named, s, k) == Some((Utf8(cp), end + 1))
  {
    FirstFromStops(s, k, {';'});
    assert FirstFrom(s, k, {';'}) == end;
  }

  lemma OneDigit(s: string, lo: nat, c: char)
    requires lo < |s| && s[lo] == c && Digit(c, true) >= 10
    ensures Numeral(s, lo, lo + 1, true) == Some(Digit(c, true))
  {
    assert Digits(s, lo, lo, true) == Some(0);
  }

  lemma TwoDigits(s: string, lo: nat)
    requires lo + 1 < |s| && s[lo] == '2' && s[lo + 1] == '6'
    ensures Numeral(s, lo, lo + 2, true) == Some(38)
  {
    assert Digits(s, lo, lo, true) == Some(0);
    assert Digits(s, lo, lo + 1, true) == Some(2);
  }

  predicate StandsAt(s: string, k: nat, text: string) {
    k + |text| <= |s| && forall i | 0 <= i < |text| :: s[k + i] == text[i]
  }

  /** An encoded unsafe character is a reference to it. */
  lemma UnsafeReference(named: map<string, string>, s: string, k: nat, c: char)
    requires IsUnsafe(c) && StandsAt(s, k, EncodeChar(c))
    ensures s[k] == '&' && Reference(named, s, k) == Some(([c], k + |EncodeChar(c)|))
  {
    var e, n := EncodeChar(c), |EncodeChar(c)|;
    assert e[0] == '&' && e[1] == '#' && e[2] == 'x' && e[n - 1] == ';' && IsAlnum(e[3]);
    if c == '&' {
      assert e[3] == '2' && e[4] == '6';
      TwoDigits(s, k + 3);
    } else {
      OneDigit(s, k + 3, s[k + 3]);
    }
    ReferenceIs(named, s, k, k + n - 1, c as nat);
  }

  /** What one character was encoded as is decoded to that character. */
  lemma DecodeChar(named: map<string, string>, s: string, k: nat, c: char)
    requires StandsAt(s, k, EncodeChar(c))
    ensures DecodeFrom(named, s, k) == [c] + DecodeFrom(named, s, k + |EncodeChar(c)|)
  {
    var next := k + |EncodeChar(c)|;
    if IsUnsafe(c) {
      assert s[k] == '&' && Reference(named, s, k) == Some(([c], next)) by {
        UnsafeReference(named, s, k, c);
      }
      DecodeReference(named, s, k, [c], next);
    } else {
      assert EncodeChar(c)[0] == c && s[k] == c && next == k + 1;
    }
  }

  lemma EncodeStep(v: string, k: nat)
    requires k < |v|
    ensures EncodedBetween(Encode(v), v[k], |EncodeTo(v, k)|, |EncodeTo(v, k + 1)|)
  {
    EncodeToPrefix(v, k + 1, |v|);
    var at, e, t := |EncodeTo(v, k)|, EncodeChar(v[k]), EncodeTo(v, k + 1);
    assert forall i | 0 <= i < |e| :: t[at + i] == e[i];
  }

  predicate EncodedBetween(s: string, c: char, at: nat, next: nat) {
    StandsAt(s, at, EncodeChar(c)) && next == at + |EncodeChar(c)|
  }

  /** The text s consists of the encodings of the characters of v, which start at the indices in ends. */
  predicate Encodes(s: string, v: string, ends: seq<nat>) {
    && |ends| == |v| + 1 && ends[|v|] == |s|
    && forall k | 0 <= k < |v| :: EncodedBetween(s, v[k], ends[k], ends[k + 1])
  }

  lemma EncodeEncodes(v: string) returns (ends: seq<nat>)
    ensures Encodes(Encode(v), v, ends) && ends[0] == 0
  {
    ends := seq(|v| + 1, k requires 0 <= k <= |v| => |EncodeTo(v, k)|);
    assert forall k | 0 <= k <= |v| :: ends[k] == |EncodeTo(v, k)|;
    forall k | 0 <= k < |v| ensures EncodedBetween(Encode(v), v[k], ends[k], ends[k + 1]) {
      EncodeStep(v, k);
    }
  }

  /** At index at, decoding yields c and goes on at next. */
  predicate Yields(named: map<string, string>, s: string, c: char, at: nat, next: nat) {
    at <= |s| && next <= |s| && DecodeFrom(named, s, at) == [c] + DecodeFrom(named, s, next)
  }

  lemma EncodedYields(named: map<string, string>, s: string, c: char, at: nat, next: nat)
    requires EncodedBetween(s, c, at, next)
    ensures Yields(named, s, c, at, next)
  {
    DecodeChar(named, s, at, c);
  }

  lemma {:induction false} DecodeEncodedFrom(named: map<string, string>, s: string, v: string, ends: seq<nat>, k: nat)
    requires Encodes(s, v, ends) && k <= |v|
    ensures ends[k] <= |s| && DecodeFrom(named, s, ends[k]) == v[k..|v|]
    decreases |v| - k
  {
    if k < |v| {
      var c, at, next := v[k], ends[k], ends[k + 1];
      assert Yields(named, s, c, at, next) by {
        assert EncodedBetween(s, c, at, next);
        EncodedYields(named, s, c, at, next);
      }
      assert v[k..|v|] == [c] + v[k + 1..|v|] by {
        HeadOf(v, k, |v|);
      }
      DecodeEncodedFrom(named, s, v, ends, k + 1);
    }
  }

  /** Decoding undoes encoding, whatever the named references. */
  lemma DecodeEncode(named: map<string, string>, v: string)
    ensures Decode(named, Encode(v)) == v
  {
    var ends := EncodeEncodes(v);
    DecodeEncodedFrom(named, Encode(v), v, ends, 0);
  }

  // ---------------------------------------------------------------------
  // Decoded text that is not a C string
  // ---------------------------------------------------------------------

  /** A numeric reference at index k that stands for zero, such as "&#0;" or "&#;". */
  predicate NulReference(s: string, k: nat)
    requires k < |s| && s[k] == '&'
  {
    var end := FirstFrom(s, k, {';'});
    && end < |s| && s[k + 1] == '#'
    && var hex := s[k + 2] == 'x' || s[k + 2] == 'X';
       Numeral(s, if hex then k + 3 else k + 2, end, hex) == Some(0)
  }

  /** A table whose texts are C strings, and whose names have no ampersand in them. */
  predicate NulFreeTable(named: map<string, string>) {
    forall name | name in named :: NulFree(named[name]) && '&' !in name
  }

  lemma {:induction false} DigitsNoAmpersand(s: string, lo: nat, hi: nat, hex: bool)
    requires lo <= hi <= |s| && Digits(s, lo, hi, hex).Some?
    ensures forall i | lo <= i < hi :: s[i] != '&'
  {
    if lo < hi {
      DigitsNoAmpersand(s, lo, hi - 1, hex);
    }
  }

  lemma {:induction false} SkipToSpaces(s: string, lo: nat, hi: nat)
    requires lo <= hi <= |s|
    ensures forall i | lo <= i < SkipTo(s, lo, hi) :: IsSpace(s[i])
    decreases hi - lo
  {
    if lo < hi && IsSpace(s[lo]) {
      SkipToSpaces(s, lo + 1, hi);
    }
  }

  lemma NumeralNoAmpersand(s: string, lo: nat, hi: nat, hex: bool)
    requires lo <= hi <= |s| && Numeral(s, lo, hi, hex).Some?
    ensures forall i | lo <= i < hi :: s[i] != '&'
  {
    if lo < hi {
      var sp := SkipTo(s, lo, hi);
      var from := if sp < hi && (s[sp] == '-' || s[sp] == '+') then sp + 1 else sp;
      var start := if hex && from + 2 < hi && s[from] == '0' && s[from + 1] in {'x', 'X'} then from + 2 else from;
      SkipToSpaces(s, lo, hi);
      DigitsNoAmpersand(s, start, hi, hex);
    }
  }

  lemma Utf8NulFree(cp: nat)
    requires cp <= UNICODE_MAX
    ensures NulFree(Utf8(cp)) <==> cp != 0
  {
    assert cp == 0 ==> Utf8(cp)[0] == NUL;
  }

  /** No reference starts inside another one, and a reference decodes to a NUL only where it stands for zero. */
  lemma ReferenceNulFree(named: map<string, string>, s: string, k: nat)
    requires k < |s| && s[k] == '&' && NulFreeTable(named)
    ensures Reference(named, s, k) == None ==> !NulReference(s, k)
    ensures Reference(named, s, k).Some? ==>
              var (text, next) := Reference(named, s, k).value;
              && k < next <= |s| && (NulFree(text) <==> !NulReference(s, k))
              && forall i | k < i < next :: s[i] != '&'
  {
    var end := FirstFrom(s, k, {';'});
    if Reference(named, s, k).Some? {
      if s[k + 1] == '#' {
        var hex := s[k + 2] == 'x' || s[k + 2] == 'X';
        var lo := if hex then k + 3 else k + 2;
        NumeralNoAmpersand(s, lo, end, hex);
        NumeralBound(s, lo, end, hex);
        Utf8NulFree(Numeral(s, lo, end, hex).value);
      } else {
        var name := s[k + 1..end];
        assert forall i | k < i < end :: s[i] == name[i - k - 1];
      }
    }
  }

  predicate NoNulReference(s: string, k: nat) {
    forall i | k <= i < |s| && s[i] == '&' :: !NulReference(s, i)
  }

  lemma {:induction false} DecodeFromNulFree(named: map<string, string>, s: string, k: nat)
    requires k <= |s| && NulFree(s) && NulFreeTable(named)
    ensures NulFree(DecodeFrom(named, s, k)) <==> NoNulReference(s, k)
    decreases |s| - k
  {
    if k < |s| {
      var text, next := [s[k]], k + 1;
      if s[k] == '&' {
        ReferenceNulFree(named, s, k);
        var r := Reference(named, s, k);
        if r.Some? {
          text, next := r.value.0, r.value.1;
        }
      }
      assert DecodeFrom(named, s, k) == text + DecodeFrom(named, s, next);
      DecodeFromNulFree(named, s, next);
      NulFreeConcat(text, DecodeFrom(named, s, next));
      assert NoNulReference(s, k) <==> (s[k] == '&' ==> !NulReference(s, k)) && NoNulReference(s, next);
    }
  }

  lemma NulFreeConcat(a: string, b: string)
    ensures NulFree(a + b) <==> NulFree(a) && NulFree(b)
  {
    if NulFree(a + b) {
      assert forall i | 0 <= i < |a| :: (a + b)[i] == a[i];
      assert forall i | 0 <= i < |b| :: (a + b)[|a| + i] == b[i];
    }
  }

  /**
   The decoded value is again a C string, as its readers take it to be, exactly when
   no numeric reference in the value stands for zero.
   */
  lemma DecodedNulFree(named: map<string, string>, s: string)
    requires NulFree(s) && NulFreeTable(named)
    ensures NulFree(Decode(named, s)) <==> NoNulReference(s, 0)
  {
    DecodeFromNulFree(named, s, 0);
  }

  /** An empty numeric reference is one that does. */
  lemma EmptyReferenceIsNul(named: map<string, string>)
    ensures NulReference("&#;", 0) && Decode(named, "&#;") == [NUL]
  {
    var s := "&#;";
    assert FirstFrom(s, 2, {';'}) == 2 && FirstFrom(s, 1, {';'}) == 2 && FirstFrom(s, 0, {';'}) == 2;
    assert Numeral(s, 2, 2, false) == Some(0);
    assert Reference(named, s, 0) == Some((Utf8(0), 3));
    DecodeReference(named, s, 0, Utf8(0), 3);
  }

  // ---------------------------------------------------------------------
  // What each kind of reference stands for
  // ---------------------------------------------------------------------

  function HexChar(d: nat, upper: bool): (c: char)
    requires d < 16
    ensures Digit(c, true) == d && IsAlnum(c) && c !in {'x', 'X'}
  {
    if d < 10 then DigitChar(d) else if upper then 'A' + (d - 10) as char else 'a' + (d - 10) as char
  }

  /** A number written in base sixteen. */
  function Hex(n: nat, upper: bool): (s: string)
    ensures s != "" && forall i | 0 <= i < |s| :: IsAlnum(s[i]) && s[i] !in {'x', 'X'}
  {
    if n < 16 then [HexChar(n, upper)] else Hex(n / 16, upper) + [HexChar(n % 16, upper)]
  }

  lemma StandsBefore(s: string, lo: nat, a: string, c: char)
    requires StandsAt(s, lo, a + [c])
    ensures StandsAt(s, lo, a) && lo + |a| < |s| && s[lo + |a|] == c
  {
    assert (a + [c])[|a|] == c;
    assert forall i | 0 <= i < |a| :: (a + [c])[i] == a[i];
  }

  lemma {:induction false} DecimalDigits(s: string, lo: nat, n: nat)
    requires StandsAt(s, lo, Decimal(n))
    ensures Digits(s, lo, lo + |Decimal(n)|, false) == Some(n)
  {
    assert Digits(s, lo, lo, false) == Some(0);
    if n >= 10 {
      StandsBefore(s, lo, Decimal(n / 10), DigitChar(n % 10));
      DecimalDigits(s, lo, n / 10);
    } else {
      StandsBefore(s, lo, "", DigitChar(n));
    }
  }

  lemma {:induction false} HexDigits(s: string, lo: nat, n: nat, upper: bool)
    requires StandsAt(s, lo, Hex(n, upper))
    ensures Digits(s, lo, lo + |Hex(n, upper)|, true) == Some(n)
  {
    assert Digits(s, lo, lo, true) == Some(0);
    if n >= 16 {
      StandsBefore(s, lo, Hex(n / 16, upper), HexChar(n % 16, upper));
      HexDigits(s, lo, n / 16, upper);
    } else {
      StandsBefore(s, lo, "", HexChar(n, upper));
    }
  }

  /** Digits at an index are the number that they write, if that is a code point. */
  lemma NumeralIs(s: string, lo: nat, digits: string, hex: bool, n: nat)
    requires digits != "" && StandsAt(s, lo, digits) && Digits(s, lo, lo + |digits|, hex) == Some(n)
    requires forall i | 0 <= i < |digits| :: IsAlnum(digits[i]) && digits[i] !in {'x', 'X'}
    ensures Numeral(s, lo, lo + |digits|, hex) == if n <= UNICODE_MAX then Some(n) else None
  {
    var hi := lo + |digits|;
    assert s[lo] == digits[0];
    assert SkipTo(s, lo, hi) == lo;
    if |digits| > 1 {
      assert s[lo + 1] == digits[1];
    }
  }

  /** The first semicolon from the ampersand on is the one behind the text. */
  lemma EndsAt(s: string, k: nat, text: string)
    requires StandsAt(s, k, text + ";") && ';' !in text
    ensures FirstFrom(s, k, {';'}) == k + |text|
  {
    StandsBefore(s, k, text, ';');
    FirstFromStops(s, k, {';'});
    forall i | k <= i < k + |text| ensures s[i] != ';' {
      assert s[k + (i - k)] == text[i - k];
    }
  }

  lemma StandsParts(s: string, k: nat, a: string, b: string)
    requires StandsAt(s, k, a + b)
    ensures StandsAt(s, k, a) && StandsAt(s, k + |a|, b)
  {
    assert forall i | 0 <= i < |a| :: (a + b)[i] == a[i];
    assert forall i | 0 <= i < |b| :: (a + b)[|a| + i] == b[i];
  }

  lemma PlainAlnum(s: string)
    requires forall i | 0 <= i < |s| :: IsAlnum(s[i])
    ensures ';' !in s
  {
  }

  /** "&#", a number in base ten and a semicolon stand for the character with that code point; greater numbers stand for nothing. */
  lemma DecimalReference(named: map<string, string>, s: string, k: nat, n: nat)
    requires StandsAt(s, k, "&#" + Decimal(n) + ";")
    ensures s[k] == '&' && Reference(named, s, k)
         == if n <= 0x10FFFF then Some((Utf8(n), k + |Decimal(n)| + 3)) else None
  {
    var d := Decimal(n);
    PlainAlnum(d);
    assert ';' !in "&#" + d;
    EndsAt(s, k, "&#" + d);
    StandsParts(s, k, "&#" + d, ";");
    StandsParts(s, k, "&#", d);
    assert s[k + 0] == "&#"[0] && s[k + 1] == "&#"[1] && s[k + 2 + 0] == d[0];
    DecimalDigits(s, k + 2, n);
    NumeralIs(s, k + 2, d, false, n);
  }

  /** "&#x" or "&#X" before a number in base sixteen, in small or capital letters. */
  lemma HexReference(named: map<string, string>, s: string, k: nat, n: nat, x: char, upper: bool)
    requires x in {'x', 'X'} && StandsAt(s, k, "&#" + [x] + Hex(n, upper) + ";")
    ensures s[k] == '&' && Reference(named, s, k)
         == if n <= 0x10FFFF then Some((Utf8(n), k + |Hex(n, upper)| + 4)) else None
  {
    var d, head := Hex(n, upper), "&#" + [x];
    PlainAlnum(d);
    assert ';' !in head + d;
    EndsAt(s, k, head + d);
    StandsParts(s, k, head + d, ";");
    StandsParts(s, k, head, d);
    assert s[k + 0] == head[0] && s[k + 1] == head[1] && s[k + 2] == head[2];
    HexDigits(s, k + 3, n, upper);
    NumeralIs(s, k + 3, d, true, n);
  }

  /** A name between ampersand and semicolon stands for its entry in the table, or for nothing. */
  lemma NamedReference(named: map<string, string>, s: string, k: nat, name: string)
    requires StandsAt(s, k, "&" + name + ";") && ';' !in name && (name == "" || name[0] != '#')
    ensures s[k] == '&' && Reference(named, s, k)
         == if name in named then Some((named[name], k + |name| + 2)) else None
  {
    assert ';' !in "&" + name;
    EndsAt(s, k, "&" + name);
    StandsParts(s, k, "&" + name, ";");
    StandsParts(s, k, "&", name);
    assert s[k + 0] == "&"[0];
    assert name != "" ==> s[k + 1 + 0] == name[0];
    assert s[k + 1..k + 1 + |name|] == name;
  }

  /** What stands for nothing is left as it is, one character at a time. */
  lemma OtherwiseKept(named: map<string, string>, s: string, k: nat)
    requires k < |s| && (s[k] == '&' ==> Reference(named, s, k) == None)
    ensures DecodeFrom(named, s, k) == [s[k]] + DecodeFrom(named, s, k + 1)
  {
  }

  /** Without a semicolon behind it an ampersand stands for nothing. */
  lemma UnendedReference(named: map<string, string>, s: string, k: nat)
    requires k < |s| && s[k] == '&' && forall i | k < i < |s| :: s[i] != ';'
    ensures Reference(named, s, k) == None
  {
  }

  /** The value of digits behind a sign, as strtoul and the limit on code points have it. */
  function SignedValue(sign: string, n: nat): Option<nat> {
    if n >= 0x1_0000_0000_0000_0000 then None
    else
      var value := if sign == "-" && n > 0 then 0x1_0000_0000_0000_0000 - n else n;
      if value <= 0x10FFFF then Some(value) else None
  }

  lemma {:induction false} SkipBlank(s: string, lo: nat, hi: nat, blank: nat)
    requires lo + blank <= hi <= |s| && forall i | lo <= i < lo + blank :: IsSpace(s[i])
    requires lo + blank < hi ==> !IsSpace(s[lo + blank])
    ensures SkipTo(s, lo, hi) == lo + blank
    decreases blank
  {
    if blank > 0 {
      SkipBlank(s, lo + 1, hi, blank - 1);
    }
  }

  /** Numbers may be preceded by spaces, a sign, and in base sixteen by "0x" or "0X"; a negative one wraps. */
  lemma NumeralSigned(s: string, lo: nat, hi: nat, blank: nat, sign: string, mark: string, hex: bool, n: nat)
    requires lo + blank + |sign| + |mark| < hi <= |s| && forall i | lo <= i < lo + blank :: IsSpace(s[i])
    requires sign in {"", "+", "-"} && StandsAt(s, lo + blank, sign)
    requires mark == "" || (hex && mark in {"0x", "0X"} && StandsAt(s, lo + blank + |sign|, mark))
    requires Digits(s, lo + blank + |sign| + |mark|, hi, hex) == Some(n)
    ensures Numeral(s, lo, hi, hex) == SignedValue(sign, n)
  {
    var sp := lo + blank;
    var from := sp + |sign|;
    var start := from + |mark|;
    DigitsAreDigits(s, start, hi, hex);
    assert Digit(s[start], hex) >= 0;
    assert sign != "" ==> s[sp + 0] == sign[0];
    assert mark != "" ==> s[from + 0] == mark[0] && s[from + 1] == mark[1];
    SkipBlank(s, lo, hi, blank);
    if hex && mark == "" && from + 1 < hi {
      assert Digit(s[from + 1], hex) >= 0;
    }
  }

  lemma {:induction false} DigitsAreDigits(s: string, lo: nat, hi: nat, hex: bool)
    requires lo <= hi <= |s| && Digits(s, lo, hi, hex).Some?
    ensures forall i | lo <= i < hi :: Digit(s[i], hex) >= 0
  {
    if lo < hi {
      DigitsAreDigits(s, lo, hi - 1, hex);
    }
  }

  /** Nothing with any other character in it is a number. */
  lemma NumeralCharacters(s: string, lo: nat, hi: nat, hex: bool)
    requires lo <= hi <= |s| && Numeral(s, lo, hi, hex).Some?
    ensures forall i | lo <= i < hi ::
              IsSpace(s[i]) || s[i] in {'+', '-'} || Digit(s[i], hex) >= 0 || (hex && s[i] in {'x', 'X'})
  {
    if lo < hi {
      var sp := SkipTo(s, lo, hi);
      var from := if sp < hi && (s[sp] == '-' || s[sp] == '+') then sp + 1 else sp;
      var start := if hex && from + 2 < hi && s[from] == '0' && s[from + 1] in {'x', 'X'} then from + 2 else from;
      SkipToSpaces(s, lo, hi);
      DigitsAreDigits(s, start, hi, hex);
    }
  }

  /** What a digit is worth in base ten and in base sixteen. */
  lemma DigitValues(d: nat)
    requires d < 16
    ensures d < 10 ==> Digit("0123456789"[d], false) == d
    ensures Digit("0123456789abcdef"[d], true) == d && Digit("0123456789ABCDEF"[d], true) == d
    ensures d >= 10 ==> Digit("0123456789abcdef"[d], false) < 0 && Digit("0123456789ABCDEF"[d], false) < 0
  {
  }

  // ---------------------------------------------------------------------
  // The encoded text
  // ---------------------------------------------------------------------

  lemma {:induction false} EncodeToSame(s: string, t: string, k: nat)
    requires k <= |s| && k <= |t| && s[..k] == t[..k]
    ensures EncodeTo(s, k) == EncodeTo(t, k)
  {
    if k > 0 {
      assert s[..k][k - 1] == t[..k][k - 1] && s[..k - 1] == s[..k][..k - 1] && t[..k - 1] == t[..k][..k - 1];
      EncodeToSame(s, t, k - 1);
    }
  }

  /** Texts are encoded character by character. */
  lemma {:induction false} EncodeJoin(s: string, c: char)
    ensures Encode(s + [c]) == Encode(s) + Encode([c])
  {
    var t := s + [c];
    assert t[..|s|] == s == s[..|s|];
    EncodeToSame(t, s, |s|);
    assert EncodeTo([c], 0) == "" && Encode([c]) == "" + EncodeChar(c);
    assert "" + EncodeChar(c) == EncodeChar(c);
  }

  /** Line ends and ampersands are encoded as references in base sixteen, and nothing else is. */
  lemma EncodedCharacters(c: char)
    ensures Encode("\r") == "&#xD;" && Encode("\n") == "&#xA;" && Encode("&") == "&#x26;"
    ensures c !in {'\r', '\n', '&'} ==> Encode([c]) == [c]
    ensures Encode("") == ""
  {
    OneEncoded('\r');
    OneEncoded('\n');
    OneEncoded('&');
    OneEncoded(c);
  }

  lemma OneEncoded(c: char)
    ensures Encode([c]) == EncodeChar(c)
  {
    assert EncodeTo([c], 0) == "" && Encode([c]) == "" + EncodeChar(c);
  }
}
