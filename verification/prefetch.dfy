/**
 * Prefetch hints on hover (js/main.js, the `mouseenter` listener on every
 * `a[href^="http"]`).  The first time the pointer enters such an anchor
 * (the listener is registered with `once: true`), a `<link rel="prefetch">`
 * for its href is appended to the document head, unless the href is empty or
 * some `<link>` with that href is already in the document.
 */
module Prefetch {

  /** The link hrefs after hovering an anchor whose href is `href`. */
  function WithPrefetch(links: seq<string>, href: string): (r: seq<string>)
    ensures r == links || r == links + [href]
    ensures r != links <==> href != "" && href !in links
  {
    if href != "" && href !in links then links + [href] else links
  }

  /** The set of hrefs in a list of links. */
  function Hrefs(links: seq<string>): set<string> {
    set h | h in links
  }

  /** No href occurs twice. */
  predicate Distinct(links: seq<string>) {
    forall i, j :: 0 <= i < j < |links| ==> links[i] != links[j]
  }

  /** Hovering the same href again leaves the document unchanged. */
  lemma PrefetchIdempotent(links: seq<string>, href: string)
    ensures WithPrefetch(WithPrefetch(links, href), href) == WithPrefetch(links, href)
  {
  }

  /**
   * The set of link hrefs only grows: it gains the hovered href when that is
   * non-empty, and nothing else.
   */
  lemma PrefetchGrows(links: seq<string>, href: string)
    ensures Hrefs(links) <= Hrefs(WithPrefetch(links, href))
    ensures Hrefs(WithPrefetch(links, href)) == Hrefs(links) + (if href != "" then {href} else {})
  {
  }

  /** Hovering never introduces a duplicate href. */
  lemma PrefetchKeepsDistinct(links: seq<string>, href: string)
    requires Distinct(links)
    ensures Distinct(WithPrefetch(links, href))
  {
  }

  /** The link hrefs after hovering, in order, anchors with the given hrefs. */
  function HoverAll(links: seq<string>, hovered: seq<string>): (r: seq<string>)
    decreases |hovered|
  {
    if hovered == [] then links else HoverAll(WithPrefetch(links, hovered[0]), hovered[1..])
  }

  /**
   * On any document, a sequence of hovers keeps the old links in front,
   * appends one hint per distinct non-empty hovered href that the document
   * lacked and nothing else: the appended hrefs are distinct and none was
   * already present.
   */
  lemma {:induction false} HoverAllAppendsOncePerHref(links: seq<string>, hovered: seq<string>)
    ensures links <= HoverAll(links, hovered)
    ensures Hrefs(HoverAll(links, hovered)) == Hrefs(links) + (Hrefs(hovered) - {""})
    ensures Distinct(HoverAll(links, hovered)[|links|..])
    ensures forall k :: |links| <= k < |HoverAll(links, hovered)| ==> HoverAll(links, hovered)[k] !in links
    decreases |hovered|
  {
    if hovered != [] {
      var next := WithPrefetch(links, hovered[0]);
      var r := HoverAll(links, hovered);
      PrefetchGrows(links, hovered[0]);
      HoverAllAppendsOncePerHref(next, hovered[1..]);
      assert r == HoverAll(next, hovered[1..]);
      assert hovered == [hovered[0]] + hovered[1..];
      assert Hrefs(hovered) == {hovered[0]} + Hrefs(hovered[1..]);
      if next != links {
        assert next == links + [hovered[0]] && hovered[0] !in links;
        assert r[|links|] == hovered[0];
        forall k | |links| <= k < |r|
          ensures r[k] !in links
        {
          if k > |links| {
            assert r[k] !in next;
          }
        }
        forall a, b | |links| <= a < b < |r|
          ensures r[a] != r[b]
        {
          if a == |links| {
            assert r[b] !in next;
          } else {
            assert r[|next|..][a - |next|] == r[a] && r[|next|..][b - |next|] == r[b];
          }
        }
      }
    }
  }

  /** On a document without duplicate link hrefs, no sequence of hovers creates one. */
  lemma HoverAllKeepsDistinct(links: seq<string>, hovered: seq<string>)
    requires Distinct(links)
    ensures Distinct(HoverAll(links, hovered))
  {
    var r := HoverAll(links, hovered);
    HoverAllAppendsOncePerHref(links, hovered);
    forall a, b | 0 <= a < b < |r|
      ensures r[a] != r[b]
    {
      if b < |links| {
        assert r[a] == links[a] && r[b] == links[b];
      } else if a < |links| {
        assert r[a] == links[a];
        assert r[b] !in links;
      } else {
        assert r[|links|..][a - |links|] == r[a] && r[|links|..][b - |links|] == r[b];
      }
    }
  }

  class Prefetcher {
    /** The href of every `a[href^="http"]` anchor, in document order. */
    const anchors: seq<string>
    /** Whether each anchor's `once` listener is still registered. */
    var armed: seq<bool>
    /** The href of every `<link>` element of the document, in order; new hints go at the end of the head. */
    var links: seq<string>

    ghost predicate Valid()
      reads this
    {
      |armed| == |anchors|
    }

    /** The listeners as registered at load, over the document's existing links. */
    constructor (anchorHrefs: seq<string>, documentLinks: seq<string>)
      ensures Valid() && anchors == anchorHrefs && links == documentLinks
      ensures forall k :: 0 <= k < |armed| ==> armed[k]
    {
      anchors := anchorHrefs;
      armed := seq(|anchorHrefs|, k => true);
      links := documentLinks;
    }

    /** The pointer enters anchor `k`; its listener runs at most once. */
    method MouseEnter(k: nat)
      requires Valid() && k < |anchors|
      modifies this
      ensures Valid() && armed == old(armed)[k := false]
      ensures links == if old(armed[k]) then WithPrefetch(old(links), anchors[k]) else old(links)
      ensures Hrefs(old(links)) <= Hrefs(links)
    {
      if armed[k] {
        armed := armed[k := false];
        var href := anchors[k];
        if href != "" && href !in links {
          links := links + [href];
        }
      }
      PrefetchGrows(old(links), anchors[k]);
    }
  }
}
