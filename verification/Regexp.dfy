/** grep.c's matcher. A C string is the sequence of its characters before the NUL. */
module Regexp {

  datatype Item = Lit(c: char) | Any | Star(c: char) | End

  /** The pattern read as a list of items: `*` binds to the character before it, and `$` is special
      only as the last character. */
  function Items(re: string): seq<Item> {
    if re == "" then []
    else if |re| > 1 && re[1] == '*' then [Star(re[0])] + Items(re[2..])
    else if re == "$" then [End]
    else [if re[0] == '.' then Any else Lit(re[0])] + Items(re[1..])
  }

  predicate Accepts(c: char, x: char) {
    c == '.' || x == c
  }

  /** The strings one item stands for. */
  ghost predicate Fits(item: Item, part: string) {
    match item
    case Lit(c) => part == [c]
    case Any => |part| == 1
    case Star(c) => c == '.' || forall i | 0 <= i < |part| :: part[i] == c
    case End => part == ""
  }

  ghost function Concat(parts: seq<string>): string {
    if parts == [] then "" else parts[0] + Concat(parts[1..])
  }

  /** `parts` are pieces of the text, one per item, that follow one another from its start, and reach
      its end if the last item says so. */
  ghost predicate Decomposes(items: seq<Item>, parts: seq<string>, text: string) {
    && |parts| == |items|
    && (forall i | 0 <= i < |items| :: Fits(items[i], parts[i]))
    && Concat(parts) <= text
    && (items != [] && items[|items| - 1].End? ==> Concat(parts) == text)
  }

  ghost predicate Meets(items: seq<Item>, text: string) {
    exists parts :: Decomposes(items, parts, text)
  }

  ghost predicate Found(re: string, text: string) {
    exists k :: 0 <= k <= |text| && Meets(Items(re), text[k..])
  }

  // --- reading a pattern ---

  /** How an item is written. */
  function Text(item: Item): string {
    match item
    case Lit(c) => [c]
    case Any => "."
    case Star(c) => [c, '*']
    case End => "$"
  }

  function Written(items: seq<Item>): string {
    if items == [] then "" else Text(items[0]) + Written(items[1..])
  }

  /** A dot is never literal; a $ is literal unless it is last; no item that is a single character stands
      before a *. */
  ghost predicate WellRead(items: seq<Item>) {
    && (forall i | 0 <= i < |items| :: items[i] != Lit('.'))
    && (forall i | 0 <= i < |items| :: items[i].End? ==> i == |items| - 1)
    && (forall i | 0 <= i < |items| :: items[i] == Lit('$') ==> i < |items| - 1)
    && (forall i | 0 <= i < |items| - 1 && (items[i].Lit? || items[i].Any?) ::
          items[i + 1] != Lit('*') && items[i + 1] != Star('*'))
  }

  lemma WrittenStarts(items: seq<Item>)
    requires items != []
    ensures Written(items) != "" && (Written(items)[0] == '*' <==> items[0] == Lit('*') || items[0] == Star('*'))
    ensures Written([items[0]] + items[1..]) == Text(items[0]) + Written(items[1..])
  {
    assert [items[0]] + items[1..] == items;
  }

  /** The items of a pattern are the one way to read it. */
  lemma {:induction false} ItemsIff(re: string, items: seq<Item>)
    ensures items == Items(re) <==> Written(items) == re && WellRead(items)
    decreases |re|
  {
    ItemsRead(re);
    if Written(items) == re && WellRead(items) { OneReading(re, items); }
  }

  lemma {:induction false} ItemsRead(re: string)
    ensures Written(Items(re)) == re && WellRead(Items(re))
    decreases |re|
  {
    if re == "" || re == "$" {
      assert re == "$" ==> Items(re)[1..] == [];
    } else {
      var items := Items(re);
      var n := if |re| > 1 && re[1] == '*' then 2 else 1;
      ItemsRead(re[n..]);
      assert items[1..] == Items(re[n..]);
      assert re == re[..n] + re[n..];
      assert Text(items[0]) == re[..n];
      ReadMore(items[0], items[1..]);
      assert items == [items[0]] + items[1..];
    }
  }

  lemma ReadMore(item: Item, rest: seq<Item>)
    requires WellRead(rest) && item != Lit('.') && (item.End? ==> rest == []) && (item == Lit('$') ==> rest != [])
    requires item.Lit? || item.Any? ==> rest == [] || Written(rest) == "" || Written(rest)[0] != '*'
    ensures WellRead([item] + rest)
  {
    var items := [item] + rest;
    if rest != [] { WrittenStarts(rest); }
    assert forall i | 0 < i < |items| :: items[i] == rest[i - 1];
  }

  lemma {:induction false} OneReading(re: string, items: seq<Item>)
    requires Written(items) == re && WellRead(items)
    ensures items == Items(re)
    decreases |re|
  {
    if items != [] {
      var rest := items[1..];
      var n := |Text(items[0])|;
      assert re[n..] == Written(rest);
      assert re[..n] == Text(items[0]);
      assert WellRead(rest) by {
        assert forall i | 0 <= i < |rest| :: rest[i] == items[i + 1];
      }
      OneReading(re[n..], rest);
      if rest != [] { WrittenStarts(rest); }
      assert items == [items[0]] + rest;
    }
  }

  // --- one item at a time ---

  lemma Front(item: Item, rest: seq<Item>, part: string, parts: seq<string>, text: string)
    requires Fits(item, part) && part <= text && Decomposes(rest, parts, text[|part|..])
    requires item.End? && rest == [] ==> part == text
    ensures Decomposes([item] + rest, [part] + parts, text)
  {
    var items, all := [item] + rest, [part] + parts;
    assert all[1..] == parts;
    assert Concat(all) == part + Concat(parts);
    assert text == part + text[|part|..];
  }

  lemma Back(item: Item, rest: seq<Item>, all: seq<string>, text: string)
    requires Decomposes([item] + rest, all, text)
    ensures all != [] && Fits(item, all[0]) && all[0] <= text
    ensures Decomposes(rest, all[1..], text[|all[0]|..])
    ensures item.End? && rest == [] ==> all[0] == text
  {
    var items, parts := [item] + rest, all[1..];
    assert items[0] == item && items[1..] == rest;
    assert Concat(all) == all[0] + Concat(parts);
    assert text == all[0] + text[|all[0]|..];
    forall i | 0 <= i < |rest| ensures Fits(rest[i], parts[i]) { assert rest[i] == items[i + 1]; }
  }

  lemma MeetsNothing(text: string)
    ensures Meets([], text)
  {
    assert Decomposes([], [], text);
  }

  lemma MeetsEnd(text: string)
    ensures Meets([End], text) <==> text == ""
  {
    assert [End] == [End] + [];
    if text == "" {
      assert Decomposes([], [], text);
      Front(End, [], "", [], text);
    } else if Meets([End], text) {
      var all :| Decomposes([End], all, text);
      Back(End, [], all, text);
    }
  }

  lemma MeetsOne(item: Item, rest: seq<Item>, text: string)
    requires item.Lit? || item.Any?
    ensures Meets([item] + rest, text) <==>
      text != "" && (item == Any || item == Lit(text[0])) && Meets(rest, text[1..])
  {
    if Meets([item] + rest, text) {
      var all :| Decomposes([item] + rest, all, text);
      Back(item, rest, all, text);
    }
    if text != "" && (item == Any || item == Lit(text[0])) && Meets(rest, text[1..]) {
      var parts :| Decomposes(rest, parts, text[1..]);
      Front(item, rest, [text[0]], parts, text);
    }
  }

  lemma StarSplits(c: char, rest: seq<Item>, text: string)
    requires Meets([Star(c)] + rest, text)
    ensures Meets(rest, text) || (text != "" && Accepts(c, text[0]) && Meets([Star(c)] + rest, text[1..]))
  {
    var all :| Decomposes([Star(c)] + rest, all, text);
    Back(Star(c), rest, all, text);
    var part := all[0];
    if part == "" {
      assert text[0..] == text;
    } else {
      assert text[1..][|part[1..]|..] == text[|part|..];
      Front(Star(c), rest, part[1..], all[1..], text[1..]);
    }
  }

  lemma StarGrows(c: char, rest: seq<Item>, text: string)
    requires text != "" && Accepts(c, text[0]) && Meets([Star(c)] + rest, text[1..])
    ensures Meets([Star(c)] + rest, text)
  {
    var all :| Decomposes([Star(c)] + rest, all, text[1..]);
    Back(Star(c), rest, all, text[1..]);
    var part := [text[0]] + all[0];
    assert text[1..][|all[0]|..] == text[|part|..];
    Front(Star(c), rest, part, all[1..], text);
  }

  lemma MeetsStar(c: char, rest: seq<Item>, text: string)
    ensures Meets([Star(c)] + rest, text) <==>
      Meets(rest, text) || (text != "" && Accepts(c, text[0]) && Meets([Star(c)] + rest, text[1..]))
  {
    if Meets([Star(c)] + rest, text) {
      StarSplits(c, rest, text);
    }
    if Meets(rest, text) {
      var parts :| Decomposes(rest, parts, text);
      assert text[0..] == text;
      Front(Star(c), rest, "", parts, text);
    }
    if text != "" && Accepts(c, text[0]) && Meets([Star(c)] + rest, text[1..]) {
      StarGrows(c, rest, text);
    }
  }

  // --- the matcher ---

  method Match(re: string, text: string) returns (found: bool)
    ensures re != "" && re[0] == '^' ==> (found <==> Meets(Items(re[1..]), text))
    ensures re == "" || re[0] != '^' ==> (found <==> Found(re, text))
  {
    if re != "" && re[0] == '^' {
      found := Matchhere(re[1..], text);
      return;
    }
    var k := 0;
    while true
      invariant 0 <= k <= |text|
      invariant forall j | 0 <= j < k :: !Meets(Items(re), text[j..])
      decreases |text| - k
    {
      found := Matchhere(re, text[k..]);
      if found || k == |text| {
        return;
      }
      k := k + 1;
    }
  }

  /** re at the beginning of text. */
  method Matchhere(re: string, text: string) returns (found: bool)
    ensures found <==> Meets(Items(re), text)
    decreases |re|, 0
  {
    if re == "" {
      MeetsNothing(text);
      return true;
    }
    if |re| > 1 && re[1] == '*' {
      found := Matchstar(re[0], re[2..], text);
      return;
    }
    if re[0] == '$' && |re| == 1 {
      assert re == "$";
      MeetsEnd(text);
      return text == "";
    }
    var item := if re[0] == '.' then Any else Lit(re[0]);
    MeetsOne(item, Items(re[1..]), text);
    if text != "" && (re[0] == '.' || re[0] == text[0]) {
      found := Matchhere(re[1..], text[1..]);
      return;
    }
    return false;
  }

  /** c*re at the beginning of text. */
  method Matchstar(c: char, re: string, text: string) returns (found: bool)
    ensures found <==> Meets([Star(c)] + Items(re), text)
    decreases |re|, 1
  {
    ghost var items := [Star(c)] + Items(re);
    var k := 0;
    assert text[0..] == text;
    while true
      invariant 0 <= k <= |text|
      invariant Meets(items, text) <==> Meets(items, text[k..])
      decreases |text| - k
    {
      MeetsStar(c, Items(re), text[k..]);
      found := Matchhere(re, text[k..]);
      if found || k == |text| || !(text[k] == c || c == '.') {
        return;
      }
      assert text[k..][1..] == text[k + 1..];
      k := k + 1;
    }
  }
}
