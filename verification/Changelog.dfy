/** Cleaning a section of the changelog: its bullets are collected once each and grouped by category. */
module Changelog {

  // A line is what the patterns of the script see in it.
  datatype Line = Heading(name: string) | Bullet(text: string) | Other

  datatype Option<T> = None | Some(value: T)

  const CHANGELOG_CATEGORIES: seq<string> := [
    "Highlights", "Compatibility", "Rendering and Display", "Audio", "Builds and Packaging", "Fixes",
    "Documentation and Tooling"]

  type Category = c: nat | c < 7

  const NONE_YET := "_None yet._"
  const NO_CHANGES := "No documented changes."

  datatype Item = Item(category: Category, text: string)

  /** The text processing of the script: normal form, key for comparison, placeholders, the category that
      a heading names, and the category guessed for a text under a heading that names none. */
  datatype Style = Style(
    normal: string -> string, key: string -> string, placeholder: string -> bool,
    canonical: string -> Option<Category>, guess: (string, Option<string>) -> Category)

  /** What the cleaning rests on: normal texts stay as they are, the placeholders that the script writes are
      placeholders to it, and the headings that it writes name their categories. */
  ghost predicate Sound(s: Style) {
    && (forall t :: s.normal(s.normal(t)) == s.normal(t))
    && s.placeholder(s.normal(NONE_YET)) && s.placeholder(s.normal(NO_CHANGES))
    && (forall c: Category :: s.canonical(CHANGELOG_CATEGORIES[c]) == Some(c))
  }

  function InferCategory(s: Style, text: string, heading: Option<string>): Category {
    if heading.Some? && s.canonical(heading.value).Some? then s.canonical(heading.value).value else s.guess(text, heading)
  }

  // ----- collecting items

  /** A text that may become an item, if its key has not been seen. */
  predicate Counts(s: Style, text: string) {
    text != "" && !s.placeholder(text) && s.key(text) != ""
  }

  function Keys(s: Style, items: seq<Item>): set<string> {
    set i | i in items :: s.key(i.text)
  }

  /** The heading that stands last among some lines. */
  function LastHeading(lines: seq<Line>, heading: Option<string>): Option<string> {
    if lines == [] then heading
    else
      var last := lines[|lines| - 1];
      if last.Heading? then Some(last.name) else LastHeading(lines[..|lines| - 1], heading)
  }

  /** The items after one more line. */
  function WithLine(s: Style, items: seq<Item>, heading: Option<string>, line: Line): seq<Item> {
    if !line.Bullet? then items
    else
      var text := s.normal(line.text);
      if Counts(s, text) && s.key(text) !in Keys(s, items) then items + [Item(InferCategory(s, text, heading), text)]
      else items
  }

  /** The items after these lines, which follow others with these items under this heading. */
  function Items(s: Style, lines: seq<Line>, items: seq<Item>, heading: Option<string>): seq<Item> {
    if lines == [] then items
    else
      var before := lines[..|lines| - 1];
      WithLine(s, Items(s, before, items, heading), LastHeading(before, heading), lines[|lines| - 1])
  }

  method ChangeItems(s: Style, lines: seq<Line>) returns (items: seq<Item>)
    ensures items == Items(s, lines, [], None)
  {
    items := [];
    var seen: set<string>, heading: Option<string> := {}, None;
    for i := 0 to |lines|
      invariant items == Items(s, lines[..i], [], None)
      invariant seen == Keys(s, items) && heading == LastHeading(lines[..i], None)
    {
      assert lines[..i + 1][..i] == lines[..i];
      match lines[i]
      case Heading(l) => heading := Some(l);
      case Other =>
      case Bullet(t) =>
        var text := s.normal(t);
        if text != "" && !s.placeholder(text) {
          var key := s.key(text);
          if key != "" && key !in seen {
            KeysNext(s, items, Item(InferCategory(s, text, heading), text));
            seen := seen + {key};
            items := items + [Item(InferCategory(s, text, heading), text)];
          }
        }
    }
    assert lines[..|lines|] == lines;
  }

  lemma KeysNext(s: Style, items: seq<Item>, item: Item)
    ensures Keys(s, items + [item]) == Keys(s, items) + {s.key(item.text)}
  {
    var more := items + [item];
    forall k | k in Keys(s, items) + {s.key(item.text)}
      ensures k in Keys(s, more)
    {
      if k == s.key(item.text) {
        assert item in more;
      } else {
        var i :| i in items && s.key(i.text) == k;
        assert i in more;
      }
    }
  }

  // ----- rendering items

  /** The texts of one category, in order. */
  function TextsOf(items: seq<Item>, c: Category): seq<string> {
    if items == [] then []
    else
      var last := items[|items| - 1];
      TextsOf(items[..|items| - 1], c) + (if last.category == c then [last.text] else [])
  }

  function Bullets(texts: seq<string>): seq<Line> {
    seq(|texts|, i requires 0 <= i < |texts| => Bullet(texts[i]))
  }

  function Block(items: seq<Item>, c: Category): seq<Line> {
    [Heading(CHANGELOG_CATEGORIES[c])]
    + (if TextsOf(items, c) != [] then Bullets(TextsOf(items, c)) else [Bullet(NONE_YET)])
  }

  /** The blocks of the first n categories, with an empty line between any two. */
  function Rendered(items: seq<Item>, includeEmpty: bool, n: nat): seq<Line>
    requires n <= 7
  {
    if n == 0 then []
    else
      var before := Rendered(items, includeEmpty, n - 1);
      if !includeEmpty && TextsOf(items, n - 1) == [] then before
      else before + (if before != [] then [Other] else []) + Block(items, n - 1)
  }

  lemma NothingRendered(items: seq<Item>, includeEmpty: bool)
    ensures Rendered(items, includeEmpty, 0) == []
  {
  }

  lemma RenderedNext(items: seq<Item>, includeEmpty: bool, c: Category)
    ensures var before := Rendered(items, includeEmpty, c);
      Rendered(items, includeEmpty, c + 1)
      == if !includeEmpty && TextsOf(items, c) == [] then before
         else before + (if before != [] then [Other] else []) + Block(items, c)
  {
  }

  method RenderItems(items: seq<Item>, includeEmpty: bool) returns (rendered: seq<Line>)
    ensures rendered == Rendered(items, includeEmpty, 7)
  {
    hide TextsOf, Rendered, Bullets;
    rendered := [];
    var c: nat := 0;
    assert Rendered(items, includeEmpty, 0) == [] by { NothingRendered(items, includeEmpty); }
    while c < 7
      invariant 0 <= c <= 7 && rendered == Rendered(items, includeEmpty, c)
    {
      RenderedNext(items, includeEmpty, c);
      var bullets := BulletsOf(items, c);
      if !includeEmpty && bullets == [] {
        c := c + 1;
        continue;
      }
      if rendered != [] {
        rendered := rendered + [Other];
      }
      var block := [Heading(CHANGELOG_CATEGORIES[c])];
      if bullets != [] {
        block := block + Bullets(bullets);
      } else {
        block := block + [Bullet(NONE_YET)];
      }
      rendered := rendered + block;
      c := c + 1;
    }
  }

  method BulletsOf(items: seq<Item>, c: Category) returns (texts: seq<string>)
    ensures texts == TextsOf(items, c)
  {
    texts := [];
    for i := 0 to |items|
      invariant texts == TextsOf(items[..i], c)
    {
      assert items[..i + 1][..i] == items[..i];
      if items[i].category == c {
        texts := texts + [items[i].text];
      }
    }
    assert items[..|items|] == items;
  }

  // ----- cleaning

  function Clean(s: Style, lines: seq<Line>, includeEmpty: bool): seq<Line> {
    var items := Items(s, lines, [], None);
    if items == [] && !includeEmpty then [Bullet(NO_CHANGES)] else Rendered(items, includeEmpty, 7)
  }

  method CleanSectionLines(s: Style, lines: seq<Line>, includeEmpty: bool) returns (cleaned: seq<Line>)
    ensures cleaned == Clean(s, lines, includeEmpty)
  {
    var items := ChangeItems(s, lines);
    if items == [] && !includeEmpty { return [Bullet(NO_CHANGES)]; }
    cleaned := RenderItems(items, includeEmpty);
  }

  // ----- what collecting keeps

  /** Items with normal texts that count, and with different keys. */
  ghost predicate Clear(s: Style, items: seq<Item>) {
    && (forall i :: 0 <= i < |items| ==> Counts(s, items[i].text) && s.normal(items[i].text) == items[i].text)
    && (forall i, j :: 0 <= i < j < |items| ==> s.key(items[i].text) != s.key(items[j].text))
  }

  lemma {:induction false} ItemsAreClear(s: Style, lines: seq<Line>, items: seq<Item>, heading: Option<string>)
    requires Sound(s) && Clear(s, items)
    ensures Clear(s, Items(s, lines, items, heading))
  {
    if lines != [] {
      ItemsAreClear(s, lines[..|lines| - 1], items, heading);
    }
  }

  lemma {:induction false} ItemsOfMore(s: Style, first: seq<Line>, second: seq<Line>, items: seq<Item>,
                                       heading: Option<string>)
    ensures LastHeading(first + second, heading) == LastHeading(second, LastHeading(first, heading))
    ensures Items(s, first + second, items, heading)
      == Items(s, second, Items(s, first, items, heading), LastHeading(first, heading))
  {
    if second == [] {
      assert first + second == first;
    } else {
      var rest := second[..|second| - 1];
      ItemsOfMore(s, first, rest, items, heading);
      assert (first + second)[..|first + second| - 1] == first + rest;
    }
  }

  // ----- cleaning what is clean

  /** The items with those of the first n categories in front, category by category. */
  function Grouped(items: seq<Item>, n: nat): seq<Item>
    requires n <= 7
  {
    if n == 0 then [] else Grouped(items, n - 1) + ItemsOf(items, n - 1)
  }

  function ItemsOf(items: seq<Item>, c: Category): seq<Item> {
    if items == [] then []
    else
      var last := items[|items| - 1];
      ItemsOf(items[..|items| - 1], c) + (if last.category == c then [last] else [])
  }

  lemma {:induction false} ItemsOfOneCategory(items: seq<Item>, c: Category)
    ensures |ItemsOf(items, c)| == |TextsOf(items, c)|
    ensures forall k :: 0 <= k < |ItemsOf(items, c)| ==>
      ItemsOf(items, c)[k] == Item(c, TextsOf(items, c)[k]) && ItemsOf(items, c)[k] in items
    ensures forall i :: i in items && i.category == c ==> i in ItemsOf(items, c)
  {
    if items != [] {
      var rest, last := items[..|items| - 1], items[|items| - 1];
      ItemsOfOneCategory(rest, c);
      assert items == rest + [last];
    }
  }

  lemma {:induction false} TextsOfBoth(items: seq<Item>, more: seq<Item>, c: Category)
    ensures TextsOf(items + more, c) == TextsOf(items, c) + TextsOf(more, c)
  {
    if more == [] {
      assert items + more == items;
    } else {
      TextsOfBoth(items, more[..|more| - 1], c);
      assert (items + more)[..|items + more| - 1] == items + more[..|more| - 1];
    }
  }

  lemma {:induction false} TextsOfOther(items: seq<Item>, c: Category, d: Category)
    ensures TextsOf(ItemsOf(items, d), c) == if c == d then TextsOf(items, c) else []
  {
    if items != [] {
      var rest, last := items[..|items| - 1], items[|items| - 1];
      TextsOfOther(rest, c, d);
      TextsOfBoth(ItemsOf(rest, d), if last.category == d then [last] else [], c);
      assert TextsOf([last], c) == (if last.category == c then [last.text] else []) by {
        assert [last][..0] == [];
      }
    }
  }

  lemma NoTexts(c: Category)
    ensures TextsOf([], c) == []
  {
  }

  /** Grouping does not change what a category holds. */
  lemma {:induction false} GroupedTexts(items: seq<Item>, n: nat, c: Category)
    requires n <= 7
    ensures TextsOf(Grouped(items, n), c) == if c < n then TextsOf(items, c) else []
  {
    hide TextsOf, ItemsOf;
    if n == 0 {
      assert TextsOf([], c) == [] by { NoTexts(c); }
    } else {
      GroupedTexts(items, n - 1, c);
      TextsOfBoth(Grouped(items, n - 1), ItemsOf(items, n - 1), c);
      TextsOfOther(items, c, n - 1);
    }
  }

  lemma {:induction false} SameTextsRender(items: seq<Item>, more: seq<Item>, includeEmpty: bool, n: nat)
    requires n <= 7 && forall c: Category :: TextsOf(more, c) == TextsOf(items, c)
    ensures Rendered(more, includeEmpty, n) == Rendered(items, includeEmpty, n)
  {
    if n > 0 {
      SameTextsRender(items, more, includeEmpty, n - 1);
    }
  }

  ghost predicate FromItems(items: seq<Item>, some: seq<Item>, n: nat) {
    forall k :: 0 <= k < |some| ==> some[k] in items && some[k].category < n
  }

  lemma {:induction false} GroupedAreItems(items: seq<Item>, n: nat)
    requires n <= 7
    ensures FromItems(items, Grouped(items, n), n)
  {
    if n > 0 {
      GroupedAreItems(items, n - 1);
      ItemsOfOneCategory(items, n - 1);
    }
  }

  /** Bullets of clear items under the heading of their category are collected as just these items. */
  lemma {:induction false} BulletsCollected(s: Style, items: seq<Item>, c: Category, got: seq<Item>, n: nat)
    requires Sound(s) && Clear(s, items) && FromItems(items, got, c) && n <= |TextsOf(items, c)|
    ensures n <= |ItemsOf(items, c)|
    ensures Items(s, Bullets(TextsOf(items, c))[..n], got, Some(CHANGELOG_CATEGORIES[c])) == got + ItemsOf(items, c)[..n]
    ensures LastHeading(Bullets(TextsOf(items, c))[..n], Some(CHANGELOG_CATEGORIES[c])) == Some(CHANGELOG_CATEGORIES[c])
  {
    hide Clear, FromItems, ItemsOf, TextsOf, Keys, Counts;
    ItemsOfOneCategory(items, c);
    var bullets, mine, heading := Bullets(TextsOf(items, c)), ItemsOf(items, c), Some(CHANGELOG_CATEGORIES[c]);
    if n == 0 {
      assert got + mine[..0] == got;
    } else {
      BulletsCollected(s, items, c, got, n - 1);
      assert bullets[..n][..n - 1] == bullets[..n - 1];
      var item := mine[n - 1];
      assert item in items && item == Item(c, TextsOf(items, c)[n - 1]) && bullets[n - 1] == Bullet(item.text);
      KeyIsNew(s, items, c, got, n);
      ItemIsClear(s, items, item);
      assert mine[..n] == mine[..n - 1] + [item];
      assert got + mine[..n - 1] + [item] == got + mine[..n];
    }
  }

  lemma {:induction false} OneCategoryInOrder(items: seq<Item>, c: Category)
    requires forall i, j :: 0 <= i < j < |items| ==> items[i].text != items[j].text
    ensures forall i, j :: 0 <= i < j < |ItemsOf(items, c)| ==> ItemsOf(items, c)[i] != ItemsOf(items, c)[j]
  {
    if items != [] {
      var rest, last := items[..|items| - 1], items[|items| - 1];
      OneCategoryInOrder(rest, c);
      ItemsOfOneCategory(rest, c);
      forall k | 0 <= k < |ItemsOf(rest, c)|
        ensures ItemsOf(rest, c)[k] != last
      {
        assert ItemsOf(rest, c)[k] in rest;
        var i :| 0 <= i < |rest| && rest[i] == ItemsOf(rest, c)[k];
        assert items[i].text != items[|items| - 1].text;
      }
    }
  }

  lemma ItemIsClear(s: Style, items: seq<Item>, item: Item)
    requires Clear(s, items) && item in items
    ensures Counts(s, item.text) && s.normal(item.text) == item.text
  {
    var i :| 0 <= i < |items| && items[i] == item;
  }

  lemma KeyIsNew(s: Style, items: seq<Item>, c: Category, got: seq<Item>, n: nat)
    requires Clear(s, items) && FromItems(items, got, c) && 0 < n <= |ItemsOf(items, c)|
    ensures s.key(ItemsOf(items, c)[n - 1].text) !in Keys(s, got + ItemsOf(items, c)[..n - 1])
  {
    ItemsOfOneCategory(items, c);
    OneCategoryInOrder(items, c);
    var mine := ItemsOf(items, c);
    var item := mine[n - 1];
    forall i | i in got + mine[..n - 1]
      ensures s.key(i.text) != s.key(item.text)
    {
      assert i in items && i != item by {
        if i in got {
          var k :| 0 <= k < |got| && got[k] == i;
          assert got[k] in items && got[k].category < c;
        } else {
          assert i in mine[..n - 1];
          var k :| 0 <= k < n - 1 && mine[k] == i;
          assert mine[k] != mine[n - 1];
        }
      }
      KeysTellApart(s, items, i, item);
    }
  }

  lemma KeysTellApart(s: Style, items: seq<Item>, a: Item, b: Item)
    requires Clear(s, items) && a in items && b in items && a != b
    ensures s.key(a.text) != s.key(b.text)
  {
    var i :| 0 <= i < |items| && items[i] == a;
    var j :| 0 <= j < |items| && items[j] == b;
    assert i < j || j < i;
  }

  lemma NoItems(s: Style, line: Line, got: seq<Item>, heading: Option<string>)
    requires !line.Bullet? || s.placeholder(s.normal(line.text))
    ensures Items(s, [line], got, heading) == got
  {
    assert [line][..0] == [];
  }

  /** A block of the rendering is collected as the items of its category. */
  lemma BlockCollected(s: Style, items: seq<Item>, c: Category, got: seq<Item>, heading: Option<string>)
    requires Sound(s) && Clear(s, items) && FromItems(items, got, c)
    ensures Items(s, Block(items, c), got, heading) == got + ItemsOf(items, c)
  {
    hide Clear, FromItems;
    var name, texts := CHANGELOG_CATEGORIES[c], TextsOf(items, c);
    var bullets := if texts != [] then Bullets(texts) else [Bullet(NONE_YET)];
    ItemsOfMore(s, [Heading(name)], bullets, got, heading);
    NoItems(s, Heading(name), got, heading);
    assert LastHeading([Heading(name)], heading) == Some(name);
    ItemsOfOneCategory(items, c);
    if texts != [] {
      BulletsCollected(s, items, c, got, |texts|);
      assert bullets[..|texts|] == bullets && ItemsOf(items, c)[..|texts|] == ItemsOf(items, c);
    } else {
      NoItems(s, Bullet(NONE_YET), got, Some(name));
      assert ItemsOf(items, c) == [] && got + [] == got;
    }
  }

  lemma NoLines(s: Style)
    ensures Items(s, [], [], None) == []
  {
  }

  /** The rendering is collected as the items, grouped by category. */
  lemma {:induction false} RenderedCollected(s: Style, items: seq<Item>, includeEmpty: bool, n: nat)
    requires Sound(s) && Clear(s, items) && n <= 7
    ensures Items(s, Rendered(items, includeEmpty, n), [], None) == Grouped(items, n)
  {
    hide Clear, Block, ItemsOf, Sound, TextsOf, Items;
    if n == 0 {
      assert Items(s, [], [], None) == [] by { NoLines(s); }
    } else {
      RenderedCollected(s, items, includeEmpty, n - 1);
      GroupedAreItems(items, n - 1);
      var before, got := Rendered(items, includeEmpty, n - 1), Grouped(items, n - 1);
      if !includeEmpty && TextsOf(items, n - 1) == [] {
        ItemsOfOneCategory(items, n - 1);
        assert got + ItemsOf(items, n - 1) == got;
      } else {
        var gap := if before != [] then [Other] else [];
        ItemsOfMore(s, before, gap, [], None);
        ItemsOfMore(s, before + gap, Block(items, n - 1), [], None);
        NoItems(s, Other, got, LastHeading(before, None));
        assert gap == [] ==> before + gap == before;
        assert Items(s, before + gap, [], None) == got;
        BlockCollected(s, items, n - 1, got, LastHeading(before + gap, None));
      }
    }
  }

  /** Cleaning lines that are clean already gives the same lines, and with either setting what that
      setting makes of the lines at first: no item is lost, duplicated or moved to another category. */
  lemma CleanTwice(s: Style, lines: seq<Line>, first: bool, second: bool)
    requires Sound(s)
    ensures Clean(s, Clean(s, lines, first), second) == Clean(s, lines, second)
  {
    var items := Items(s, lines, [], None);
    ItemsAreClear(s, lines, [], None);
    var cleaned := Clean(s, lines, first);
    if items == [] && !first {
      NoItems(s, Bullet(NO_CHANGES), [], None);
      assert Items(s, cleaned, [], None) == items;
    } else {
      RenderedCollected(s, items, first, 7);
      var grouped := Grouped(items, 7);
      assert Items(s, cleaned, [], None) == grouped;
      forall c: Category
        ensures TextsOf(grouped, c) == TextsOf(items, c)
      {
        GroupedTexts(items, 7, c);
      }
      SameTextsRender(items, grouped, second, 7);
      GroupedIfAny(items, grouped);
    }
  }

  lemma {:induction false} NothingGrouped(n: nat)
    requires n <= 7
    ensures Grouped([], n) == []
  {
    if n > 0 {
      NothingGrouped(n - 1);
    }
  }

  lemma GroupedIfAny(items: seq<Item>, grouped: seq<Item>)
    requires grouped == Grouped(items, 7) && forall c: Category :: TextsOf(grouped, c) == TextsOf(items, c)
    ensures grouped == [] <==> items == []
  {
    NothingGrouped(7);
    if items != [] {
      var last := items[|items| - 1];
      assert TextsOf(items, last.category) != [];
      assert TextsOf([], last.category) == [];
    }
  }
}
