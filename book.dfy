/** The book as the preprocessor receives it: a sequence of items, each a
    chapter, a separator or a part title; a chapter carries its markdown
    content, an optional source path and nested sub-items. Only a chapter's
    content is ever changed, in place, so the content is the one mutable
    field and the tree shape is fixed. */
module Book {
  import opened Wrappers

  datatype BookItem = ChapterItem(ch: Chapter) | Separator | PartTitle(title: string)

  /** The chapters reachable from an item, the item's own chapter included. */
  ghost function ItemRepr(item: BookItem): set<Chapter> {
    if item.ChapterItem? then item.ch.Repr else {}
  }

  /** The chapters reachable from a sequence of items. */
  ghost function ItemsRepr(items: seq<BookItem>): set<Chapter>
    decreases |items|
  {
    if |items| == 0 then {} else ItemsRepr(items[..|items| - 1]) + ItemRepr(items[|items| - 1])
  }

  /** No chapter is reachable from two different items. */
  ghost predicate DisjointItems(items: seq<BookItem>) {
    forall i, j :: 0 <= i < j < |items| ==> ItemRepr(items[i]) !! ItemRepr(items[j])
  }

  class Chapter {
    const name: string
    var content: string
    /** The chapter's source file relative to the content directory; draft
        chapters have none. */
    const path: Option<string>
    const subItems: seq<BookItem>
    /** This chapter and every chapter nested below it. */
    ghost const Repr: set<Chapter>

    /** The chapters below form a tree: each sub-chapter owns a part of
        `Repr` not containing this chapter, and the parts are disjoint. */
    ghost predicate Valid()
      decreases Repr
    {
      && this in Repr
      && Repr == {this} + ItemsRepr(subItems)
      && DisjointItems(subItems)
      && forall i :: 0 <= i < |subItems| && subItems[i].ChapterItem? ==>
           && subItems[i].ch.Repr <= Repr
           && this !in subItems[i].ch.Repr
           && subItems[i].ch.Valid()
    }

    /** A chapter over already-built, disjoint sub-items. */
    constructor (name: string, content: string, path: Option<string>, subItems: seq<BookItem>)
      requires ValidItems(subItems)
      ensures Valid()
      ensures this.name == name && this.content == content && this.path == path && this.subItems == subItems
      ensures Repr == {this} + ItemsRepr(subItems)
    {
      this.name := name;
      this.content := content;
      this.path := path;
      this.subItems := subItems;
      this.Repr := {this} + ItemsRepr(subItems);
      new;
      forall i | 0 <= i < |subItems| && subItems[i].ChapterItem?
        ensures subItems[i].ch.Repr <= Repr
      {
        ItemsReprHasItem(subItems, i);
      }
    }
  }

  /** Each chapter item is a valid tree and no chapter is shared between items. */
  ghost predicate ValidItems(items: seq<BookItem>) {
    && DisjointItems(items)
    && forall i :: 0 <= i < |items| && items[i].ChapterItem? ==> items[i].ch.Valid()
  }

  /** Every item's chapters are among the chapters of the sequence. */
  lemma {:induction false} ItemsReprHasItem(items: seq<BookItem>, i: int)
    requires 0 <= i < |items|
    ensures ItemRepr(items[i]) <= ItemsRepr(items)
    decreases |items|
  {
    if i < |items| - 1 {
      ItemsReprHasItem(items[..|items| - 1], i);
    }
  }

  /** Extending a prefix by one item adds exactly that item's chapters. */
  lemma ItemsReprPrefix(items: seq<BookItem>, i: int)
    requires 0 <= i < |items|
    ensures ItemsRepr(items[..i + 1]) == ItemsRepr(items[..i]) + ItemRepr(items[i])
  {
    assert items[..i + 1][..i] == items[..i];
  }

  /** The chapters of a prefix are disjoint from those of every later item. */
  lemma {:induction false} ItemsReprPrefixDisjoint(items: seq<BookItem>, i: int, j: int)
    requires DisjointItems(items) && 0 <= i <= j < |items|
    ensures ItemsRepr(items[..i]) !! ItemRepr(items[j])
    decreases i
  {
    if i > 0 {
      ItemsReprPrefixDisjoint(items, i - 1, j);
      ItemsReprPrefix(items, i - 1);
    }
  }

  /** A chapter belongs to a prefix exactly when it belongs to one of its items. */
  lemma {:induction false} ItemsReprMember(items: seq<BookItem>, c: Chapter)
    requires c in ItemsRepr(items)
    ensures exists i :: 0 <= i < |items| && c in ItemRepr(items[i])
    decreases |items|
  {
    if c !in ItemRepr(items[|items| - 1]) {
      ItemsReprMember(items[..|items| - 1], c);
      var i :| 0 <= i < |items| - 1 && c in ItemRepr(items[..|items| - 1][i]);
      assert items[..|items| - 1][i] == items[i];
    }
  }

  /** The chapters of a tree in the order the walk visits them: a chapter,
      then the chapters of its sub-items, the items in order. */
  ghost function PreOrder(c: Chapter): seq<Chapter>
    requires c.Valid()
    decreases c.Repr, 1
  {
    [c] + ItemsPreOrder(c, |c.subItems|)
  }

  /** The pre-order of the first `n` sub-items of `c`. */
  ghost function ItemsPreOrder(c: Chapter, n: nat): seq<Chapter>
    requires c.Valid() && n <= |c.subItems|
    decreases c.Repr, 0, n
  {
    if n == 0 then []
    else
      ItemsPreOrder(c, n - 1)
        + (if c.subItems[n - 1].ChapterItem? then PreOrder(c.subItems[n - 1].ch) else [])
  }

  ghost predicate NoDuplicates(s: seq<Chapter>) {
    forall i, j :: 0 <= i < j < |s| ==> s[i] != s[j]
  }

  lemma AppendNoDuplicates(a: seq<Chapter>, b: seq<Chapter>)
    requires NoDuplicates(a) && NoDuplicates(b)
    requires forall x :: x in a ==> x !in b
    ensures NoDuplicates(a + b)
  {
    forall i, j | 0 <= i < j < |a + b| ensures (a + b)[i] != (a + b)[j] {
      if j < |a| {
        assert (a + b)[i] == a[i] && (a + b)[j] == a[j];
      } else if i < |a| {
        assert (a + b)[i] == a[i] && (a + b)[j] == b[j - |a|];
        assert a[i] in a;
      } else {
        assert (a + b)[i] == b[i - |a|] && (a + b)[j] == b[j - |a|];
      }
    }
  }

  /** The pre-order lists exactly the chapters of the tree. */
  lemma {:induction false} PreOrderMembers(c: Chapter)
    requires c.Valid()
    ensures forall x :: x in PreOrder(c) <==> x in c.Repr
    decreases c.Repr, 1
  {
    ItemsPreOrderMembers(c, |c.subItems|);
    assert c.subItems[..|c.subItems|] == c.subItems;
  }

  lemma {:induction false} ItemsPreOrderMembers(c: Chapter, n: nat)
    requires c.Valid() && n <= |c.subItems|
    ensures forall x :: x in ItemsPreOrder(c, n) <==> x in ItemsRepr(c.subItems[..n])
    decreases c.Repr, 0, n
  {
    if n > 0 {
      var item := c.subItems[n - 1];
      var tail := if item.ChapterItem? then PreOrder(item.ch) else [];
      assert ItemsPreOrder(c, n) == ItemsPreOrder(c, n - 1) + tail;
      ItemsPreOrderMembers(c, n - 1);
      if item.ChapterItem? {
        PreOrderMembers(item.ch);
      }
      ItemsReprPrefix(c.subItems, n - 1);
    }
  }

  /** The pre-order lists every chapter of the tree exactly once, the root
      first. */
  lemma {:induction false} PreOrderExactlyOnce(c: Chapter)
    requires c.Valid()
    ensures |PreOrder(c)| > 0 && PreOrder(c)[0] == c
    ensures forall x :: x in PreOrder(c) <==> x in c.Repr
    ensures NoDuplicates(PreOrder(c))
    decreases c.Repr, 1
  {
    PreOrderMembers(c);
    ItemsPreOrderNoDuplicates(c, |c.subItems|);
    ItemsPreOrderMembers(c, |c.subItems|);
    assert c.subItems[..|c.subItems|] == c.subItems;
    assert c !in ItemsRepr(c.subItems) by {
      if c in ItemsRepr(c.subItems) {
        ItemsReprMember(c.subItems, c);
      }
    }
    AppendNoDuplicates([c], ItemsPreOrder(c, |c.subItems|));
  }

  lemma {:induction false} ItemsPreOrderNoDuplicates(c: Chapter, n: nat)
    requires c.Valid() && n <= |c.subItems|
    ensures NoDuplicates(ItemsPreOrder(c, n))
    decreases c.Repr, 0, n
  {
    if n > 0 {
      var prev := ItemsPreOrder(c, n - 1);
      var item := c.subItems[n - 1];
      var tail := if item.ChapterItem? then PreOrder(item.ch) else [];
      assert ItemsPreOrder(c, n) == prev + tail;
      assert NoDuplicates(prev) by {
        ItemsPreOrderNoDuplicates(c, n - 1);
      }
      assert NoDuplicates(tail) && forall x :: x in tail ==> x in ItemRepr(item) by {
        if item.ChapterItem? {
          PreOrderExactlyOnce(item.ch);
        }
      }
      assert forall x :: x in prev ==> x !in ItemRepr(item) by {
        ItemsPreOrderBeforeItem(c, n - 1);
      }
      AppendNoDuplicates(prev, tail);
    }
  }

  /** No chapter listed for the first `n` sub-items belongs to sub-item `n`. */
  lemma ItemsPreOrderBeforeItem(c: Chapter, n: nat)
    requires c.Valid() && n < |c.subItems|
    ensures forall x :: x in ItemsPreOrder(c, n) ==> x !in ItemRepr(c.subItems[n])
  {
    ItemsPreOrderMembers(c, n);
    ItemsReprPrefixDisjoint(c.subItems, n, n);
  }
}
