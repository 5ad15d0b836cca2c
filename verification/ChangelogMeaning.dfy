/** What cleaning a section of the changelog means line by line: which bullets become items, under which
    category, and which lines the result has. */
module ChangelogMeaning {
  import opened Changelog

  // ----- which bullets become items

  /** The text of a bullet that may become an item: not empty in normal form, no placeholder, and with a key. */
  ghost predicate Offers(s: Style, lines: seq<Line>, i: int) {
    && 0 <= i < |lines| && lines[i].Bullet?
    && var text := s.normal(lines[i].text);
       text != "" && !s.placeholder(text) && s.key(text) != ""
  }

  ghost function KeyAt(s: Style, lines: seq<Line>, i: int): string
    requires Offers(s, lines, i)
  {
    s.key(s.normal(lines[i].text))
  }

  /** The first bullet of its key becomes an item. */
  ghost predicate Opens(s: Style, lines: seq<Line>, i: int) {
    Offers(s, lines, i) && forall j :: 0 <= j < i && Offers(s, lines, j) ==> KeyAt(s, lines, j) != KeyAt(s, lines, i)
  }

  /** The heading that line i stands under: the last one before it, if there is one. */
  ghost predicate Under(lines: seq<Line>, i: int, heading: Option<string>) {
    && 0 <= i <= |lines|
    && if heading.None? then forall j :: 0 <= j < i ==> !lines[j].Heading?
       else exists j :: 0 <= j < i && LastBefore(lines, j, i) && lines[j] == Heading(heading.value)
  }

  ghost predicate LastBefore(lines: seq<Line>, j: int, i: int) {
    0 <= j < i <= |lines| && lines[j].Heading? && forall k :: j < k < i ==> !lines[k].Heading?
  }

  /** The item of a bullet: its text in normal form, in the category that its heading names, or else in the one
      that is guessed. */
  ghost predicate ItemOf(s: Style, lines: seq<Line>, i: int, item: Item) {
    && 0 <= i < |lines| && lines[i].Bullet? && item.text == s.normal(lines[i].text)
    && exists heading :: Under(lines, i, heading) && item.category == CategoryUnder(s, item.text, heading)
  }

  ghost function CategoryUnder(s: Style, text: string, heading: Option<string>): Category {
    if heading.None? then s.guess(text, None)
    else if s.canonical(heading.value).None? then s.guess(text, heading)
    else s.canonical(heading.value).value
  }

  /** The places of the bullets that become items, in order. */
  ghost function Openings(s: Style, lines: seq<Line>, n: nat): seq<int>
    requires n <= |lines|
  {
    if n == 0 then [] else Openings(s, lines, n - 1) + if Opens(s, lines, n - 1) then [n - 1] else []
  }

  lemma {:induction false} HeadingAbove(lines: seq<Line>, n: nat)
    requires n <= |lines|
    ensures Under(lines, n, LastHeading(lines[..n], None))
    decreases n
  {
    if n > 0 {
      var before := lines[..n];
      assert before[..n - 1] == lines[..n - 1];
      HeadingAbove(lines, n - 1);
      var heading := LastHeading(lines[..n - 1], None);
      if lines[n - 1].Heading? {
        assert LastBefore(lines, n - 1, n);
      } else if heading.Some? {
        var j :| 0 <= j < n - 1 && LastBefore(lines, j, n - 1) && lines[j] == Heading(heading.value);
        assert LastBefore(lines, j, n);
      }
    }
  }

  /** The keys of the items so far are those of the bullets so far. */
  ghost predicate KeysSeen(s: Style, lines: seq<Line>, n: nat, items: seq<Item>) {
    forall k :: k in Keys(s, items) <==> exists i :: 0 <= i < n && Offers(s, lines, i) && KeyAt(s, lines, i) == k
  }

  lemma NextLine(s: Style, lines: seq<Line>, n: nat, items: seq<Item>)
    requires n < |lines| && KeysSeen(s, lines, n, items)
    ensures var heading := LastHeading(lines[..n], None);
      var more := WithLine(s, items, heading, lines[n]);
      && KeysSeen(s, lines, n + 1, more)
      && if Opens(s, lines, n) then more == items + [more[|items|]] && ItemOf(s, lines, n, more[|items|]) else more == items
  {
    hide Keys, Under;
    var heading := LastHeading(lines[..n], None);
    HeadingAbove(lines, n);
    if Offers(s, lines, n) {
      var text := s.normal(lines[n].text);
      var item := Item(InferCategory(s, text, heading), text);
      KeysNext(s, items, item);
      assert Under(lines, n, heading) && item.category == CategoryUnder(s, text, heading);
      assert Opens(s, lines, n) <==> s.key(text) !in Keys(s, items);
    }
  }

  lemma {:induction false} ItemsUpTo(s: Style, lines: seq<Line>, n: nat)
    requires n <= |lines|
    ensures KeysSeen(s, lines, n, Items(s, lines[..n], [], None))
    ensures |Items(s, lines[..n], [], None)| == |Openings(s, lines, n)|
    ensures forall k :: 0 <= k < |Openings(s, lines, n)| ==>
      ItemOf(s, lines, Openings(s, lines, n)[k], Items(s, lines[..n], [], None)[k])
    decreases n
  {
    hide ItemOf, Opens, WithLine, KeysSeen;
    if n == 0 {
      assert KeysSeen(s, lines, 0, Items(s, lines[..0], [], None)) by { NoKeys(s, lines); }
    } else {
      ItemsUpTo(s, lines, n - 1);
      assert lines[..n][..n - 1] == lines[..n - 1];
      NextLine(s, lines, n - 1, Items(s, lines[..n - 1], [], None));
    }
  }

  lemma NoKeys(s: Style, lines: seq<Line>)
    ensures Items(s, lines[..0], [], None) == [] && KeysSeen(s, lines, 0, [])
  {
  }

  /** The items are those of the first bullets of all keys, in the order of the lines. */
  lemma ItemsAreFirsts(s: Style, lines: seq<Line>)
    ensures var items, places := Items(s, lines, [], None), Openings(s, lines, |lines|);
      |items| == |places| && forall k :: 0 <= k < |places| ==> ItemOf(s, lines, places[k], items[k])
  {
    assert lines[..|lines|] == lines;
    ItemsUpTo(s, lines, |lines|);
  }

  lemma {:induction false} OpeningsAreFirsts(s: Style, lines: seq<Line>, n: nat)
    requires n <= |lines|
    ensures forall i :: i in Openings(s, lines, n) <==> 0 <= i < n && Opens(s, lines, i)
    ensures forall j, k :: 0 <= j < k < |Openings(s, lines, n)| ==> Openings(s, lines, n)[j] < Openings(s, lines, n)[k]
    decreases n
  {
    hide Opens;
    if n > 0 {
      OpeningsAreFirsts(s, lines, n - 1);
      var before := Openings(s, lines, n - 1);
      forall k | 0 <= k < |before|
        ensures before[k] < n - 1
      {
        assert before[k] in before;
      }
    }
  }

  // ----- which lines come out

  /** The heading of a category. */
  function NameOf(c: Category): string {
    if c == 0 then "Highlights"
    else if c == 1 then "Compatibility"
    else if c == 2 then "Rendering and Display"
    else if c == 3 then "Audio"
    else if c == 4 then "Builds and Packaging"
    else if c == 5 then "Fixes"
    else "Documentation and Tooling"
  }

  /** The heading of a category and a bullet for each of its items, or for none. */
  ghost function BlockOf(items: seq<Item>, c: Category): (b: seq<Line>)
    ensures b != []
  {
    [Heading(NameOf(c))]
    + if exists i :: i in items && i.category == c then Bullets(TextsOf(items, c)) else [Bullet("_None yet._")]
  }

  /** The blocks of the first n categories: all of them, or those with items. */
  ghost function BlocksOf(items: seq<Item>, includeEmpty: bool, n: nat): seq<seq<Line>>
    requires n <= 7
  {
    if n == 0 then []
    else
      BlocksOf(items, includeEmpty, n - 1) +
      if includeEmpty || exists i :: i in items && i.category == n - 1 then [BlockOf(items, n - 1)] else []
  }

  /** Blocks with an empty line between any two. */
  ghost function Spaced(blocks: seq<seq<Line>>): seq<Line> {
    if blocks == [] then []
    else
      var rest := blocks[..|blocks| - 1];
      (if rest == [] then [] else Spaced(rest) + [Other]) + blocks[|blocks| - 1]
  }

  lemma {:induction false} SomeTexts(items: seq<Item>, c: Category)
    ensures TextsOf(items, c) != [] <==> exists i :: i in items && i.category == c
  {
    if items != [] {
      var rest, last := items[..|items| - 1], items[|items| - 1];
      SomeTexts(rest, c);
      assert items == rest + [last];
    }
  }

  lemma BlocksAgree(items: seq<Item>, c: Category)
    ensures Block(items, c) == BlockOf(items, c)
  {
    hide TextsOf, Bullets;
    SomeTexts(items, c);
    assert CHANGELOG_CATEGORIES[c] == NameOf(c);
  }

  lemma {:induction false} RenderedIsSpaced(items: seq<Item>, includeEmpty: bool, n: nat)
    requires n <= 7
    ensures Rendered(items, includeEmpty, n) == Spaced(BlocksOf(items, includeEmpty, n))
    ensures Rendered(items, includeEmpty, n) == [] <==> BlocksOf(items, includeEmpty, n) == []
    decreases n
  {
    hide TextsOf, Bullets, BlockOf, Block, Rendered;
    if n == 0 {
      NothingRendered(items, includeEmpty);
    } else {
      var c := n - 1;
      RenderedIsSpaced(items, includeEmpty, n - 1);
      SomeTexts(items, c);
      BlocksAgree(items, c);
      var blocks := BlocksOf(items, includeEmpty, n - 1);
      var block, before := BlockOf(items, c), Rendered(items, includeEmpty, n - 1);
      RenderedNext(items, includeEmpty, c);
      if includeEmpty || TextsOf(items, c) != [] {
        assert (blocks + [block])[..|blocks|] == blocks;
        assert Spaced(blocks + [block]) == (if blocks == [] then [] else Spaced(blocks) + [Other]) + block;
        assert before == [] ==> before + [] + block == [] + block;
      } else {
        assert BlocksOf(items, includeEmpty, n) == blocks + [] == blocks;
      }
    }
  }

  /** Cleaning gives one bullet when there is nothing to say, and else the blocks of the items. */
  lemma CleanedLines(s: Style, lines: seq<Line>, includeEmpty: bool)
    ensures var items := Items(s, lines, [], None);
      Clean(s, lines, includeEmpty)
      == if items == [] && !includeEmpty then [Bullet("No documented changes.")]
         else Spaced(BlocksOf(items, includeEmpty, 7))
  {
    hide Rendered, Spaced, BlocksOf;
    RenderedIsSpaced(Items(s, lines, [], None), includeEmpty, 7);
  }
}
