/** The `MathEvns` preprocessor: `run` rewrites the content of every chapter
    of the book, at every depth, and leaves every other item as it was;
    `supports_renderer` accepts the HTML renderer only. */
module Preprocessor {

  import opened Results
  import Placeholders

  /** A chapter: its title, its markdown text, and the items nested under it. */
  datatype Chapter = Chapter(name: string, content: string, subItems: seq<BookItem>)

  /** An entry of the book: a chapter, or an item that carries no text. */
  datatype BookItem =
    | ChapterItem(chapter: Chapter)
    | Separator
    | PartTitle(title: string)

  datatype Book = Book(sections: seq<BookItem>)

  /** The closure body of `run` for one chapter: its new content is the
      rewritten text, or the error's message should the rewrite fail. That
      fallback never fires. */
  function NewContent(content: string): (r: string)
    ensures r == Placeholders.Expand(content)
  {
    match Placeholders.ReplacePlaceholders(content)
    case Ok(c) => c
    case Err(e) => ErrorToString(e)
  }

  /** An item after the walk. */
  function RewriteItem(item: BookItem): (r: BookItem)
    ensures r.ChapterItem? <==> item.ChapterItem?
    ensures !item.ChapterItem? ==> r == item
    ensures item.ChapterItem? ==>
              r.chapter.name == item.chapter.name
              && r.chapter.content == Placeholders.Expand(item.chapter.content)
              && |r.chapter.subItems| == |item.chapter.subItems|
    decreases item
  {
    match item
    case ChapterItem(ch) =>
      ChapterItem(ch.(content := NewContent(ch.content), subItems := RewriteItems(ch.subItems)))
    case _ => item
  }

  /** A list of items after the walk: each one rewritten where it stands. */
  function RewriteItems(items: seq<BookItem>): (r: seq<BookItem>)
    ensures |r| == |items|
    ensures forall i :: 0 <= i < |items| ==> r[i] == RewriteItem(items[i])
    decreases items
  {
    if items == [] then []
    else [RewriteItem(items[0])] + RewriteItems(items[1..])
  }

  /** One step of `book.for_each_mut(...)` with the closure of `run`: the
      items nested under a chapter are walked first, then the chapter's
      content is overwritten. Any other item is left as it is. */
  method WalkItem(item: BookItem) returns (r: BookItem)
    ensures r == RewriteItem(item)
    decreases item
  {
    r := item;
    match item {
      case ChapterItem(chapter) =>
        var subItems := WalkItems(chapter.subItems);
        var content := NewContent(chapter.content);
        r := ChapterItem(chapter.(content := content, subItems := subItems));
      case _ =>
    }
  }

  /** `for_each_mut` over a list of items: each item is visited in order and
      its slot of the sequence value is overwritten. */
  method WalkItems(items: seq<BookItem>) returns (out: seq<BookItem>)
    ensures out == RewriteItems(items)
    decreases items
  {
    out := items;
    var i := 0;
    while i < |out|
      invariant 0 <= i <= |out| == |items|
      invariant forall k :: 0 <= k < i ==> out[k] == RewriteItem(items[k])
      invariant out[i..] == items[i..]
    {
      assert out[i] == items[i];
      var item := WalkItem(items[i]);
      out := out[i := item];
      i := i + 1;
    }
    var rewritten := RewriteItems(items);
    assert |rewritten| == |out|;
  }

  /** `MathEvns::run`: the context is not consulted and the result is always `Ok`. */
  method Run(book: Book) returns (r: Result<Book, Error>)
    ensures r == Ok(Book(RewriteItems(book.sections)))
  {
    var sections := WalkItems(book.sections);
    r := Ok(Book(sections));
  }

  /** The book with every chapter's content blanked: what the walk must not change. */
  function EraseItem(item: BookItem): BookItem
    decreases item
  {
    match item
    case ChapterItem(ch) => ChapterItem(ch.(content := "", subItems := EraseItems(ch.subItems)))
    case _ => item
  }

  function EraseItems(items: seq<BookItem>): seq<BookItem>
    decreases items
  {
    if items == [] then [] else [EraseItem(items[0])] + EraseItems(items[1..])
  }

  /** The contents of all chapters, each chapter before the items nested under it. */
  function ItemContents(item: BookItem): seq<string>
    decreases item
  {
    match item
    case ChapterItem(ch) => [ch.content] + Contents(ch.subItems)
    case _ => []
  }

  function Contents(items: seq<BookItem>): seq<string>
    decreases items
  {
    if items == [] then [] else ItemContents(items[0]) + Contents(items[1..])
  }

  /** Each text expanded on its own. */
  function ExpandAll(texts: seq<string>): seq<string> {
    seq(|texts|, i requires 0 <= i < |texts| => Placeholders.Expand(texts[i]))
  }

  /** The walk changes no names, adds, drops or reorders no item, and leaves
      separators and part titles as they were: only contents change. */
  lemma {:induction false} RewriteItemKeepsShape(item: BookItem)
    ensures EraseItem(RewriteItem(item)) == EraseItem(item)
    decreases item
  {
    match item
    case ChapterItem(ch) => RewriteKeepsShape(ch.subItems);
    case _ =>
  }

  lemma {:induction false} RewriteKeepsShape(items: seq<BookItem>)
    ensures EraseItems(RewriteItems(items)) == EraseItems(items)
    decreases items
  {
    if items != [] {
      var r := RewriteItems(items);
      assert r == [RewriteItem(items[0])] + RewriteItems(items[1..]);
      assert r[1..] == RewriteItems(items[1..]);
      RewriteItemKeepsShape(items[0]);
      RewriteKeepsShape(items[1..]);
    }
  }

  /** The list of contents of all chapters, at every depth, after the walk is
      the list before it, each one expanded. */
  lemma {:induction false} RewriteItemContents(item: BookItem)
    ensures ItemContents(RewriteItem(item)) == ExpandAll(ItemContents(item))
    decreases item
  {
    match item
    case ChapterItem(ch) =>
      RewriteContents(ch.subItems);
      ExpandAllAppend([ch.content], Contents(ch.subItems));
    case _ =>
  }

  lemma {:induction false} RewriteContents(items: seq<BookItem>)
    ensures Contents(RewriteItems(items)) == ExpandAll(Contents(items))
    decreases items
  {
    if items != [] {
      var r := RewriteItems(items);
      assert r == [RewriteItem(items[0])] + RewriteItems(items[1..]);
      assert r[1..] == RewriteItems(items[1..]);
      RewriteItemContents(items[0]);
      RewriteContents(items[1..]);
      ExpandAllAppend(ItemContents(items[0]), Contents(items[1..]));
    }
  }

  lemma ExpandAllAppend(a: seq<string>, b: seq<string>)
    ensures ExpandAll(a + b) == ExpandAll(a) + ExpandAll(b)
  {
  }

  /** After `run`, no chapter of the book holds a marker. */
  lemma RunLeavesNoMarker(book: Book)
    ensures forall c :: c in Contents(RewriteItems(book.sections)) ==> !Placeholders.HasMarker(c)
  {
    RewriteContents(book.sections);
    forall c | c in Contents(RewriteItems(book.sections)) ensures !Placeholders.HasMarker(c) {
      var texts := Contents(book.sections);
      var i :| 0 <= i < |texts| && ExpandAll(texts)[i] == c;
      Placeholders.NoMarkerSurvives(texts[i]);
    }
  }

  /** Running the walk on its own output changes nothing. */
  lemma {:induction false} RewriteItemIdempotent(item: BookItem)
    ensures RewriteItem(RewriteItem(item)) == RewriteItem(item)
    decreases item
  {
    match item
    case ChapterItem(ch) =>
      RewriteIdempotent(ch.subItems);
      Placeholders.Idempotent(ch.content);
    case _ =>
  }

  lemma {:induction false} RewriteIdempotent(items: seq<BookItem>)
    ensures RewriteItems(RewriteItems(items)) == RewriteItems(items)
    decreases items
  {
    var r := RewriteItems(items);
    forall i | 0 <= i < |items| ensures RewriteItems(r)[i] == r[i] {
      RewriteItemIdempotent(items[i]);
    }
  }

  /** `MathEvns::supports_renderer`: the renderer's name is exactly "html". */
  function SupportsRenderer(renderer: string): bool {
    renderer == "html"
  }

  /** Exactly one renderer is supported; the comparison is case-sensitive. */
  lemma OnlyHtmlSupported(renderer: string)
    ensures SupportsRenderer("html")
    ensures SupportsRenderer(renderer) ==> renderer == "html"
    ensures !SupportsRenderer("HTML") && !SupportsRenderer("markdown")
  {
  }
}
