/** Tag edits on the values of string and list resources: resources/mutate.c, with the setters of resources/resource.c. */
module TagEdits {
  import opened CText
  import opened Buffers
  import opened Scanning
  import opened ListItems

  datatype ResourceType = StringType | IntegerType | BooleanType | ListType | PublishType | SubscribeType

  predicate IsString(t: ResourceType) { t == StringType || t == SubscribeType || t == PublishType }

  predicate HasTags(t: ResourceType) { IsString(t) || t == ListType }

  function Unsigned(v: string): string {
    if v != "" && v[0] == '-' then v[1..] else v
  }

  predicate ValidInteger(v: string) {
    var digits := Unsigned(v);
    && digits != "" && (digits[0] == '0' ==> digits == "0")
    && forall i | 0 <= i < |digits| :: IsDigit(digits[i])
  }

  predicate ValidBoolean(v: string) { v == "" || v == "yes" }

  /** A list has only word characters and spaces. */
  predicate ValidList(v: string) {
    forall i | 0 <= i < |v| :: IsWord(v[i]) || v[i] == ' '
  }

  lemma ValidListParts(v: string, i: nat, after: string, count: nat, newTag: string)
    requires i <= |v| && count <= |after| <= |v| && after == v[|v| - |after|..] && ValidList(v) && ValidList(newTag)
    ensures ValidList(v[..i] + newTag + after[count..])
  {
    assert forall k | 0 <= k < |after| :: after[k] == v[|v| - |after| + k];
  }

  predicate ValidValue(t: ResourceType, v: string) {
    match t
    case IntegerType => ValidInteger(v)
    case BooleanType => ValidBoolean(v)
    case ListType => ValidList(v)
    case _ => true
  }

  /** lcfgresource_valid_integer. */
  method IsValidInteger(v: string) returns (valid: bool)
    ensures valid <==> ValidInteger(v)
  {
    var start := if v != "" && v[0] == '-' then 1 else 0;
    ghost var digits := Unsigned(v);
    assert digits == v[start..];
    valid := start < |v| && (v[start] != '0' || v[start..] == "0");
    var i := start;
    while valid && i < |v|
      invariant start <= i <= |v|
      invariant valid ==> digits != "" && (digits[0] == '0' ==> digits == "0")
      invariant valid ==> forall k | 0 <= k < i - start :: IsDigit(digits[k])
      invariant !valid ==> !ValidInteger(v)
    {
      if !IsDigit(v[i]) {
        assert v[i] == digits[i - start] && !ValidInteger(v);
        valid := false;
      }
      i := i + 1;
    }
  }

  /** lcfgresource_valid_list. */
  method IsValidList(v: string) returns (valid: bool)
    ensures valid <==> ValidList(v)
  {
    valid := true;
    var i := 0;
    while valid && i < |v|
      invariant i <= |v|
      invariant if valid then forall k | 0 <= k < i :: IsWord(v[k]) || v[k] == ' ' else !ValidList(v)
    {
      if !IsWord(v[i]) && v[i] != ' ' {
        valid := false;
      }
      i := i + 1;
    }
  }

  /** lcfgresource_valid_value_for_type. */
  method IsValidValue(t: ResourceType, v: string) returns (valid: bool)
    ensures valid <==> ValidValue(t, v)
  {
    match t
    case IntegerType => valid := IsValidInteger(v);
    case BooleanType => valid := ValidBoolean(v);
    case ListType => valid := IsValidList(v);
    case _ => valid := true;
  }

  // ---------------------------------------------------------------------
  // What the edits make of a value
  // ---------------------------------------------------------------------

  /** The number of separators at the start. */
  function Separators(s: string): (n: nat)
    ensures n <= |s|
  {
    if s == "" || s[0] !in SPACES then 0 else 1 + Separators(s[1..])
  }

  /** The value with the item at index i replaced; replacing by nothing takes the separators after it along. */
  function ReplacedAt(v: string, i: nat, oldTag: string, newTag: string): string
    requires i + |oldTag| <= |v|
  {
    var after := v[i + |oldTag|..];
    if newTag == "" then v[..i] + after[Separators(after)..] else v[..i] + newTag + after
  }

  lemma ReplacedIs(v: string, i: nat, oldTag: string, newTag: string, count: nat)
    requires i + |oldTag| <= |v|
    requires count == if newTag == "" then Separators(v[i + |oldTag|..]) else 0
    ensures v[..i] + newTag + v[i + |oldTag|..][count..] == ReplacedAt(v, i, oldTag, newTag)
  {
    if newTag == "" {
      Units(v[..i]);
    }
  }

  function Appended(v: string, tag: string): string {
    v + (if Ends(v) then "" else " ") + tag
  }

  function Added(v: string, tag: string): string {
    if tag == "" || FindItem(v, tag) >= 0 then v else Appended(v, tag)
  }

  /** A tag may be added to a string always, to a list if it is valid there. */
  predicate Accepts(t: ResourceType, tag: string) {
    t == ListType ==> ValidList(tag)
  }

  /** Adding a tag succeeds if there is nothing to add, or it is accepted. */
  predicate CanAdd(t: ResourceType, v: string, tag: string) {
    tag == "" || FindItem(v, tag) >= 0 || Accepts(t, tag)
  }

  /** Tags added one after the other, up to the first that cannot be. */
  function AddedAll(t: ResourceType, v: string, tags: seq<string>): (bool, string)
    decreases |tags|
  {
    if tags == [] then (true, v)
    else if !CanAdd(t, v, tags[0]) then (false, v)
    else AddedAll(t, Added(v, tags[0]), tags[1..])
  }

  // ---------------------------------------------------------------------
  // Resources
  // ---------------------------------------------------------------------

  /** A resource; an unset value is "". */
  class Resource {
    const kind: ResourceType
    var value: string

    ghost predicate Valid()
      reads this
    {
      value == "" || ValidValue(kind, value)
    }

    constructor (kind: ResourceType)
      ensures Valid() && this.kind == kind && value == ""
    {
      this.kind, value := kind, "";
    }

    /** lcfgresource_set_value. */
    method SetValue(v: string) returns (ok: bool)
      modifies this
      ensures ok <==> ValidValue(kind, v)
      ensures value == if ok then v else old(value)
      ensures old(Valid()) ==> Valid()
    {
      ok := IsValidValue(kind, v);
      if ok {
        value := v;
      }
    }

    /** lcfgresource_value_has_tag. */
    method HasTag(tag: string) returns (has: bool)
      requires Searchable(value, tag)
      ensures has <==> FindItem(value, tag) >= 0
    {
      var location := StringFindItem(value, tag, true);
      has := location >= 0;
    }

    /** The text that replaces the value, in a buffer of the length that was computed for it. */
    method Build(before: string, middle: string, after: string, newLen: nat) returns (text: string)
      requires newLen == |before| + |middle| + |after|
      ensures text == before + middle + after
    {
      var buf := new char[newLen + 1](_ => NUL);
      var to := Put(buf, 0, before, "");
      assert "" + before == before;
      to := Put(buf, to, middle, before);
      to := Put(buf, to, after, before + middle);
      text := buf[..to];
    }

    /** The loop that counts separators after a removed tag. */
    method CountSeparators(v: string, from: nat) returns (n: nat)
      requires from <= |v|
      ensures n == Separators(v[from..])
    {
      n := 0;
      ghost var s := v[from..];
      while from + n < |v| && v[from + n] in SPACES
        invariant from + n <= |v| && s == v[from + n..]
        invariant Separators(v[from..]) == n + Separators(s)
      {
        s := s[1..];
        n := n + 1;
      }
    }

    /** lcfgresource_value_replace_tag; the empty new tag removes the old one. */
    method ReplaceTag(oldTag: string, newTag: string) returns (ok: bool)
      requires Valid()
      modifies this
      ensures Valid()
      ensures if !HasTags(kind) || oldTag == "" then !ok && value == old(value)
              else if oldTag == newTag then ok && value == old(value)
              else if !Accepts(kind, newTag) then !ok && value == old(value)
              else if FindItem(old(value), oldTag) < 0 then (ok <==> newTag == "") && value == old(value)
              else ok && value == ReplacedAt(old(value), FindItem(old(value), oldTag), oldTag, newTag)
    {
      if !HasTags(kind) || oldTag == "" {
        return false;
      }
      if oldTag == newTag {
        return true;
      }
      if kind == ListType {
        var valid := IsValidList(newTag);
        if !valid {
          return false;
        }
      }
      var location := StringFindItem(value, oldTag, true);
      if location < 0 {
        return newTag == "";
      }
      ReplaceAt(location, oldTag, newTag);
      ok := true;
    }

    /** The part of lcfgresource_value_replace_tag that follows when the old tag was found. */
    method ReplaceAt(location: nat, oldTag: string, newTag: string)
      requires Valid() && HasTags(kind) && Accepts(kind, newTag) && oldTag != "" && Occurs(value, location, oldTag)
      modifies this
      ensures Valid() && value == ReplacedAt(old(value), location, oldTag, newTag)
    {
      var before, after := value[..location], value[location + |oldTag|..];
      var count := 0;
      if newTag == "" {
        count := CountSeparators(value, location + |oldTag|);
      }
      var rest := after[count..];
      var newLen := |value| - (|oldTag| + count) + |newTag|;
      if kind == ListType {
        ValidListParts(value, location, after, count, newTag);
      }
      var text := Build(before, newTag, rest, newLen);
      ReplacedIs(value, location, oldTag, newTag, count);
      if newLen == 0 {
        assert text == "";
        value := "";
      } else {
        var ok := SetValue(text);
      }
    }

    /** lcfgresource_value_append_tag. */
    method AppendTag(tag: string) returns (ok: bool)
      requires Valid()
      modifies this
      ensures Valid()
      ensures if HasTags(kind) && tag == "" then ok && value == old(value)
              else if HasTags(kind) && Accepts(kind, tag) then ok && value == Appended(old(value), tag)
              else !ok && value == old(value)
    {
      if !HasTags(kind) {
        return false;
      }
      if tag == "" {
        return true;
      }
      if kind == ListType {
        var valid := IsValidList(tag);
        if !valid {
          return false;
        }
      }
      var newLen := |value| + |tag|;
      var separator := "";
      if |value| > 0 && value[|value| - 1] !in SPACES {
        separator := " ";
        newLen := newLen + 1;
      }
      var text := Build(value, separator, tag, newLen);
      ok := SetValue(text);
    }

    /** lcfgresource_value_add_tag. */
    method AddTag(tag: string) returns (ok: bool)
      requires Valid()
      modifies this
      ensures Valid()
      ensures ok <==> HasTags(kind) && CanAdd(kind, old(value), tag)
      ensures value == if ok then Added(old(value), tag) else old(value)
    {
      if !HasTags(kind) {
        return false;
      }
      if tag == "" {
        return true;
      }
      var has := HasTag(tag);
      ok := true;
      if !has {
        ok := AppendTag(tag);
      }
    }

    /**
     lcfgresource_value_add_tags: the items of the given string, which strtok_r cuts
     off one at a time, are added until one is not accepted.
     */
    method AddTags(tags: string) returns (ok: bool)
      requires Valid()
      modifies this
      ensures Valid()
      ensures if HasTags(kind) then (ok, value) == AddedAll(kind, old(value), Items(tags))
              else !ok && value == old(value)
    {
      if !HasTags(kind) {
        return false;
      }
      ok := true;
      assert tags[0..] == tags;
      var token, k := NextToken(tags, 0);
      ghost var left := Items(tags);
      while token != ""
        invariant ok && Valid() && k <= |tags| && left == Word(token) + Items(tags[k..])
        invariant token == "" ==> left == []
        invariant AddedAll(kind, old(value), Items(tags)) == AddedAll(kind, value, left)
        decreases |left|
      {
        assert left[0] == token && left[1..] == Items(tags[k..]);
        ok := AddTag(token);
        if !ok {
          return;
        }
        left := left[1..];
        token, k := NextToken(tags, k);
      }
    }
  }

  // ---------------------------------------------------------------------
  // What the edits do to the items
  // ---------------------------------------------------------------------

  lemma {:induction false} WithoutSeparators(s: string)
    ensures Items(s[Separators(s)..]) == Items(s)
  {
    if s != "" && s[0] in SPACES {
      WithoutSeparators(s[1..]);
      CutHead("", s);
      ItemsJoin("", s[0], s[1..]);
      PlainItems("");
      Units(Items(s[1..]));
      assert s[1..][Separators(s[1..])..] == s[Separators(s)..];
    }
  }

  lemma RemovedText(v: string, i: nat, oldTag: string)
    requires i + |oldTag| <= |v|
    ensures var after := v[i + |oldTag|..]; ReplacedAt(v, i, oldTag, "") == v[..i] + after[Separators(after)..]
  {
  }

  lemma ItemsApart(before: string, after: string)
    requires Ends(before)
    ensures Items(before + after[Separators(after)..]) == Items(before) + Items(after)
  {
    WithoutSeparators(after);
    ItemsAfter(before, after[Separators(after)..]);
  }

  /** A removed tag takes the separators after it along; the items on both sides stay. */
  lemma RemovesItem(v: string, i: nat, oldTag: string)
    requires i + |oldTag| <= |v| && Ends(v[..i])
    ensures Items(ReplacedAt(v, i, oldTag, "")) == Items(v[..i]) + Items(v[i + |oldTag|..])
  {
    RemovedText(v, i, oldTag);
    ItemsApart(v[..i], v[i + |oldTag|..]);
  }

  lemma ReplacesItem(v: string, i: nat, oldTag: string, newTag: string)
    requires i + |oldTag| <= |v| && Ends(v[..i]) && Starts(v[i + |oldTag|..]) && newTag != ""
    ensures Items(ReplacedAt(v, i, oldTag, newTag)) == Items(v[..i]) + Items(newTag) + Items(v[i + |oldTag|..])
  {
    ItemsAround(v[..i], newTag, v[i + |oldTag|..]);
  }

  /** Replacing the tag that was found replaces the first such item by all items of the new tag, and removing it removes just that item. */
  lemma ReplacesFirst(v: string, oldTag: string, newTag: string)
    requires Plain(oldTag) && FindItem(v, oldTag) >= 0
    ensures var i := FindItem(v, oldTag);
      var a, b := Items(v[..i]), Items(v[i + |oldTag|..]);
      && Items(v) == a + [oldTag] + b && oldTag !in a
      && Items(ReplacedAt(v, i, oldTag, newTag)) == a + Items(newTag) + b
  {
    var i := FindItem(v, oldTag);
    ItemAmong(v, i, oldTag);
    FindsFirst(v, oldTag);
    var before, after := ItemAt(v, i, oldTag);
    if newTag == "" {
      RemovesItem(v, i, oldTag);
      PlainItems("");
      Units(Items(before));
    } else {
      ReplacesItem(v, i, oldTag, newTag);
    }
  }

  /** Appending a tag appends its items. */
  lemma AppendsItems(v: string, tag: string)
    ensures Items(Appended(v, tag)) == Items(v) + Items(tag)
  {
    if Ends(v) {
      assert Appended(v, tag) == v + tag;
      ItemsAfter(v, tag);
    } else {
      ItemsJoin(v, ' ', tag);
    }
  }

  function AddMissing(xs: seq<string>, ts: seq<string>): seq<string>
    decreases |ts|
  {
    if ts == [] then xs else AddMissing(if ts[0] in xs then xs else xs + [ts[0]], ts[1..])
  }

  /** Adding tags appends just the missing ones, in order. */
  lemma {:induction false} AddsMissing(t: ResourceType, v: string, tags: seq<string>)
    requires (forall i | 0 <= i < |tags| :: Plain(tags[i])) && AddedAll(t, v, tags).0
    ensures Items(AddedAll(t, v, tags).1) == AddMissing(Items(v), tags)
    decreases |tags|
  {
    if tags != [] {
      FindsItems(v, tags[0]);
      AppendsItems(v, tags[0]);
      PlainItems(tags[0]);
      AddsMissing(t, Added(v, tags[0]), tags[1..]);
    }
  }

  lemma {:induction false} AddMissingHasAll(xs: seq<string>, ts: seq<string>)
    ensures forall x | x in xs || x in ts :: x in AddMissing(xs, ts)
    decreases |ts|
  {
    if ts != [] {
      var ys := if ts[0] in xs then xs else xs + [ts[0]];
      AddMissingHasAll(ys, ts[1..]);
      assert ts == [ts[0]] + ts[1..];
    }
  }

  /** Tags that are there already change nothing. */
  lemma {:induction false} AddsNothing(t: ResourceType, v: string, tags: seq<string>)
    requires forall i | 0 <= i < |tags| :: Plain(tags[i]) && tags[i] in Items(v)
    ensures AddedAll(t, v, tags) == (true, v)
    decreases |tags|
  {
    if tags != [] {
      FindsItems(v, tags[0]);
      AddsNothing(t, v, tags[1..]);
    }
  }

  /** Adding the same tags again leaves the value as it is. */
  lemma AddsOnce(t: ResourceType, v: string, tags: string)
    requires AddedAll(t, v, Items(tags)).0
    ensures var once := AddedAll(t, v, Items(tags)).1; AddedAll(t, once, Items(tags)) == (true, once)
  {
    ItemsArePlain(tags);
    AddsMissing(t, v, Items(tags));
    AddMissingHasAll(Items(v), Items(tags));
    AddsNothing(t, AddedAll(t, v, Items(tags)).1, Items(tags));
  }

  // ---------------------------------------------------------------------
  // The text of an edited value
  // ---------------------------------------------------------------------

  predicate Blank(s: string) {
    forall i | 0 <= i < |s| :: s[i] in SPACES
  }

  lemma {:induction false} SeparatorsThen(blank: string, rest: string)
    requires Blank(blank) && (rest != "" ==> rest[0] !in SPACES)
    ensures Separators(blank + rest) == |blank|
  {
    if blank == "" {
      assert blank + rest == rest;
    } else {
      assert (blank + rest)[1..] == blank[1..] + rest;
      SeparatorsThen(blank[1..], rest);
    }
  }

  /** A removed tag takes along just the separators that follow it. */
  lemma RemovedExactly(before: string, oldTag: string, blank: string, rest: string)
    requires Blank(blank) && (rest != "" ==> rest[0] !in SPACES)
    ensures ReplacedAt(before + oldTag + (blank + rest), |before|, oldTag, "") == before + rest
  {
    var v := before + oldTag + (blank + rest);
    assert v[|before| + |oldTag|..] == blank + rest && v[..|before|] == before;
    SeparatorsThen(blank, rest);
  }

  /** A replaced tag leaves all the text around it as it was. */
  lemma ReplacedExactly(before: string, oldTag: string, after: string, newTag: string)
    requires newTag != ""
    ensures ReplacedAt(before + oldTag + after, |before|, oldTag, newTag) == before + newTag + after
  {
    var v := before + oldTag + after;
    assert v[|before| + |oldTag|..] == after && v[..|before|] == before;
  }

  /** A tag is appended as it is, behind one space if the value does not end in a separator. */
  lemma AppendedExactly(v: string, c: char, tag: string)
    ensures Appended("", tag) == tag
    ensures Appended(v + [c], tag) == if c in SPACES then v + [c] + tag else v + [c] + " " + tag
  {
    assert "" + "" + tag == tag;
    assert v + [c] + "" == v + [c];
  }

  // ---------------------------------------------------------------------
  // Valid values
  // ---------------------------------------------------------------------

  function Number(d: string): nat
    requires AllDigits(d)
  {
    if d == "" then 0 else 10 * Number(d[..|d| - 1]) + DigitValue(d[|d| - 1])
  }

  lemma {:induction false} NumberPositive(d: string)
    requires AllDigits(d) && d != "" && d[0] != '0'
    ensures Number(d) > 0
  {
    if |d| > 1 {
      NumberPositive(d[..|d| - 1]);
    }
  }

  /** Digits without a leading zero are a number as it is written. */
  lemma {:induction false} DecimalOf(d: string)
    requires AllDigits(d) && d != "" && (d[0] == '0' ==> d == "0")
    ensures d == Decimal(Number(d))
  {
    var front, last := d[..|d| - 1], d[|d| - 1];
    assert d == front + [last];
    if front == "" {
      assert Number("") == 0 && Decimal(DigitValue(last)) == [last];
    } else {
      assert front[0] == d[0];
      NumberPositive(front);
      DecimalOf(front);
      DecimalMore(Number(front), last);
    }
  }

  lemma DecimalMore(n: nat, c: char)
    requires n > 0 && IsDigit(c)
    ensures Decimal(10 * n + DigitValue(c)) == Decimal(n) + [c]
  {
    var m := 10 * n + DigitValue(c);
    assert m / 10 == n && m % 10 == DigitValue(c);
  }

  /** Integers are just the numbers as they are written in base ten, and these behind a minus sign. */
  lemma IntegersExactly(v: string)
    ensures ValidInteger(v) <==> exists n: nat :: v == Decimal(n) || v == "-" + Decimal(n)
  {
    if ValidInteger(v) {
      var d := Unsigned(v);
      DecimalOf(d);
      assert v == d || v == "-" + d;
    }
    if n: nat :| v == Decimal(n) || v == "-" + Decimal(n) {
      DecimalZero(n);
      assert v == "-" + Decimal(n) ==> v[1..] == Decimal(n);
    }
  }

  lemma DecimalZero(n: nat)
    ensures Decimal(n)[0] == '0' ==> Decimal(n) == "0"
    ensures Decimal(n)[0] != '-'
  {
  }

  /** Lists are just the values of which the separators are spaces and the items consist of word characters. */
  lemma ListsExactly(v: string)
    ensures ValidList(v) <==> FreeOf(v, {'\t', '\r', '\n'}) && forall w | w in Items(v) :: ValidList(w)
  {
    if ValidList(v) {
      forall w | w in Items(v) ensures ValidList(w) {
        var i := ItemPosition(v, w);
        assert forall k | 0 <= k < |w| :: w[k] == v[i..i + |w|][k] == v[i + k];
      }
    } else {
      var i :| 0 <= i < |v| && !(IsWord(v[i]) || v[i] == ' ');
      if v[i] !in SPACES {
        var w, k := ItemHolding(v, i);
      }
    }
  }

  lemma LastWord(v: string, j: int)
    requires j == LastIn(v, SPACES)
    ensures j < 0 ==> Items(v) == Word(v)
    ensures j >= 0 ==> Items(v) == Items(v[..j]) + Word(v[j + 1..])
  {
  }

  /** Every character that is no separator is in some item. */
  lemma {:induction false} ItemHolding(v: string, i: nat) returns (w: string, k: nat)
    requires i < |v| && v[i] !in SPACES
    ensures w in Items(v) && k < |w| && w[k] == v[i]
  {
    var j := LastIn(v, SPACES);
    LastWord(v, j);
    if j < 0 {
      w, k := v, i;
    } else if i < j {
      w, k := ItemHolding(v[..j], i);
    } else {
      assert i != j;
      w, k := v[j + 1..], i - j - 1;
      assert Word(w) == [w];
    }
  }

  // ---------------------------------------------------------------------
  // When adding succeeds
  // ---------------------------------------------------------------------

  /** All tags can be added to a string; to a list exactly when those that are missing have word characters only. */
  lemma {:induction false} AddsExactly(t: ResourceType, v: string, tags: seq<string>)
    requires forall i | 0 <= i < |tags| :: Plain(tags[i])
    ensures AddedAll(t, v, tags).0 <==>
            t != ListType || forall i | 0 <= i < |tags| :: tags[i] in Items(v) || ValidList(tags[i])
    decreases |tags|
  {
    if tags != [] {
      var tag, rest := tags[0], tags[1..];
      FindsItems(v, tag);
      AppendsItems(v, tag);
      PlainItems(tag);
      AddsExactly(t, Added(v, tag), rest);
      assert tags == [tag] + rest;
      assert forall w :: w in Items(Added(v, tag)) <==> w in Items(v) || w == tag;
      if CanAdd(t, v, tag) && t == ListType {
        forall i | 0 <= i < |rest|
          ensures rest[i] in Items(Added(v, tag)) || ValidList(rest[i]) <==> rest[i] in Items(v) || ValidList(rest[i])
        {
          assert rest[i] == tags[i + 1];
        }
      }
    }
  }

  /** Which values each type takes, and which types have tags. */
  lemma ValuesByType(t: ResourceType, v: string)
    ensures t == BooleanType ==> (ValidValue(t, v) <==> v == "" || v == "yes")
    ensures t == IntegerType ==> (ValidValue(t, v) <==> exists n: nat :: v == Decimal(n) || v == "-" + Decimal(n))
    ensures t == ListType ==> (ValidValue(t, v) <==> forall i | 0 <= i < |v| :: IsWord(v[i]) || v[i] == ' ')
    ensures t in {StringType, PublishType, SubscribeType} ==> ValidValue(t, v)
    ensures HasTags(t) <==> t in {StringType, PublishType, SubscribeType, ListType}
  {
    IntegersExactly(v);
  }
}
