/** `decorate_chapters`: the recursive, in-place, pre-order visit of a book
    item and every chapter nested below it. The decorating closure is one of
    the two per-chapter decorations, chosen by a `Decoration` value. */
module Chapters {
  import opened Wrappers
  import opened Strings
  import opened Book
  import opened Page
  import opened Legacy

  /** The closure handed to the walk: the current decoration or the older
      footer-only one, with the settings it captures. */
  datatype Decoration = Full(ctx: PageContext) | FooterOnly(lctx: LegacyContext)

  /** What the closure turns a chapter's content into. */
  function Decorated(d: Decoration, path: Option<string>, content: string): (r: string)
    ensures path.None? ==> r == content
  {
    match d
    case Full(ctx) => DecoratePage(ctx, path, content)
    case FooterOnly(lctx) => LegacyDecorate(lctx, path, content)
  }

  /** A second application changes nothing: always for the footer-only
      decoration, and for the full one when no contributors token is left. */
  lemma DecoratedIdempotent(d: Decoration, path: Option<string>, content: string)
    requires d.Full? ==> !Contains(Decorated(d, path, content), ContributorsToken)
    ensures Decorated(d, path, Decorated(d, path, content)) == Decorated(d, path, content)
  {
    match d
    case Full(ctx) => DecoratePageIdempotent(ctx, path, content);
    case FooterOnly(lctx) => LegacyDecorateIdempotent(lctx, path, content);
  }

  /** `spec` gives, for each path and old content, the content that the
      closure `d` leaves. The walk is generic in the closure, as
      `decorate_chapters` is, and speaks only of `spec`; the trigger lets the
      decoration itself be unfolded only where a chapter is decorated. */
  ghost predicate Specifies(d: Decoration, spec: (Option<string>, string) -> string) {
    forall p, s {:trigger Decorated(d, p, s)} :: spec(p, s) == Decorated(d, p, s)
  }

  /** Calling the closure on one chapter. */
  method Apply(ch: Chapter, d: Decoration, ghost spec: (Option<string>, string) -> string)
    requires Specifies(d, spec)
    modifies ch
    ensures ch.content == spec(ch.path, old(ch.content))
  {
    assert spec(ch.path, ch.content) == Decorated(d, ch.path, ch.content);
    match d
    case Full(ctx) => ProcessChapter(ch, ctx);
    case FooterOnly(lctx) => LegacyProcessChapter(ch, lctx);
  }

  /** Decorates the item's chapter, then each sub-item in order, depth
      first. Separators and part titles are left alone. Returns, as a ghost
      value, the chapters in the order they were decorated: the tree's
      pre-order, which lists each chapter once, the parent before its
      children. Every chapter of the tree ends up decorated exactly once,
      nothing outside the tree is touched, and the tree shape is fixed. */
  method DecorateChapters(item: BookItem, d: Decoration, ghost spec: (Option<string>, string) -> string)
    returns (ghost visited: seq<Chapter>)
    requires Specifies(d, spec)
    requires item.ChapterItem? ==> item.ch.Valid()
    modifies ItemRepr(item)
    ensures item.ChapterItem? ==> visited == PreOrder(item.ch)
    ensures !item.ChapterItem? ==> visited == []
    ensures forall c :: c in ItemRepr(item) ==> c.content == spec(c.path, old(c.content))
    decreases ItemRepr(item), 0
  {
    if item.ChapterItem? {
      var ch := item.ch;
      Apply(ch, d, spec);
      assert ch !in ItemsRepr(ch.subItems) by {
        if ch in ItemsRepr(ch.subItems) {
          ItemsReprMember(ch.subItems, ch);
        }
      }
      ghost var below := DecorateBook(ch.subItems, d, spec);
      ItemsPreOrderIsBookPreOrder(ch, |ch.subItems|);
      assert ch.subItems[..|ch.subItems|] == ch.subItems;
      visited := [ch] + below;
      forall c | c in ch.Repr && c != ch
        ensures c.content == spec(c.path, old(c.content))
      {
        ItemsReprMember(ch.subItems, c);
      }
    } else {
      visited := [];
    }
  }

  /** The pre-order of a whole sequence of items. */
  ghost function BookPreOrder(items: seq<BookItem>): seq<Chapter>
    requires ValidItems(items)
    decreases |items|
  {
    if |items| == 0 then []
    else
      var last := items[|items| - 1];
      BookPreOrder(items[..|items| - 1]) + (if last.ChapterItem? then PreOrder(last.ch) else [])
  }

  /** The sub-items of a chapter, in the pre-order of their own trees. */
  lemma {:induction false} ItemsPreOrderIsBookPreOrder(ch: Chapter, n: nat)
    requires ch.Valid() && n <= |ch.subItems|
    ensures ValidItems(ch.subItems[..n])
    ensures ItemsPreOrder(ch, n) == BookPreOrder(ch.subItems[..n])
    decreases n
  {
    if n > 0 {
      ItemsPreOrderIsBookPreOrder(ch, n - 1);
      assert ch.subItems[..n][..n - 1] == ch.subItems[..n - 1];
    }
  }

  /** The walk applied to each item of a sequence in order: the `for` loop
      over a chapter's sub-items, and the book's top-level items. */
  method DecorateBook(items: seq<BookItem>, d: Decoration, ghost spec: (Option<string>, string) -> string)
    returns (ghost visited: seq<Chapter>)
    requires Specifies(d, spec)
    requires ValidItems(items)
    modifies ItemsRepr(items)
    ensures visited == BookPreOrder(items)
    ensures forall j, c :: 0 <= j < |items| && c in ItemRepr(items[j]) ==> c.content == spec(c.path, old(c.content))
    decreases ItemsRepr(items), 1
  {
    visited := [];
    var i := 0;
    while i < |items|
      invariant 0 <= i <= |items|
      invariant visited == BookPreOrder(items[..i])
      invariant forall j, c :: 0 <= j < i && c in ItemRepr(items[j]) ==> c.content == spec(c.path, old(c.content))
      invariant forall j, c :: i <= j < |items| && c in ItemRepr(items[j]) ==> c.content == old(c.content)
    {
      ItemsReprHasItem(items, i);
      ghost var itemVisited := DecorateChapters(items[i], d, spec);
      assert items[..i + 1][..i] == items[..i];
      visited := visited + itemVisited;
      i := i + 1;
    }
    assert items[..|items|] == items;
  }
}
