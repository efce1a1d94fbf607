/** The link filter of `get_reference_links`: the search results' links
    that are present, non-empty and not used before, in result order, at
    most two of them. */
module References {
  import opened Text

  const MaxReferences: nat := 2

  /** One search result; `link` is absent when the item has no `link` key. */
  datatype SearchItem = SearchItem(link: Option<string>)

  /** The reply to the search request: `SearchFailed` when the request
      raised, otherwise its status code and its `items` (empty when the key
      is missing). */
  datatype SearchReply = SearchFailed | SearchReply(status: int, items: seq<SearchItem>)

  /** An item whose link the filter keeps. */
  predicate Fresh(item: SearchItem, used: seq<string>) {
    item.link.Some? && item.link.value != "" && item.link.value !in used
  }

  /** The links of the fresh items, in order. */
  function FreshLinks(items: seq<SearchItem>, used: seq<string>): seq<string>
    decreases |items|
  {
    if items == [] then []
    else
      var last := items[|items| - 1];
      FreshLinks(items[..|items| - 1], used) + (if Fresh(last, used) then [last.link.value] else [])
  }

  /** What the search step hands on: nothing on a failed request or a
      status other than 200, else the first two fresh links. */
  function SelectedLinks(reply: SearchReply, used: seq<string>): (r: seq<string>)
    ensures |r| <= MaxReferences
  {
    if reply.SearchFailed? || reply.status != 200 then []
    else PyPrefix(FreshLinks(reply.items, used), MaxReferences)
  }

  /** `get_reference_links` after the request: the loop that collects the
      fresh links, then the cut to two. */
  method GetReferenceLinks(reply: SearchReply, used: seq<string>) returns (links: seq<string>)
    ensures links == SelectedLinks(reply, used)
    ensures |links| <= MaxReferences
    ensures forall k :: 0 <= k < |links| ==> links[k] != "" && links[k] !in used
  {
    if reply.SearchFailed? || reply.status != 200 {
      return [];
    }
    var items := reply.items;
    var newLinks: seq<string> := [];
    var i := 0;
    while i < |items|
      invariant 0 <= i <= |items|
      invariant newLinks == FreshLinks(items[..i], used)
    {
      var link := items[i].link;
      if link.Some? && link.value != "" && link.value !in used {
        newLinks := newLinks + [link.value];
      }
      assert items[..i + 1][..i] == items[..i];
      i := i + 1;
    }
    assert items[..i] == items;
    links := PyPrefix(newLinks, MaxReferences);
    FreshLinksSound(items, used);
  }

  /** Every kept link is non-empty and was not used before. */
  lemma {:induction false} FreshLinksSound(items: seq<SearchItem>, used: seq<string>)
    ensures forall k :: 0 <= k < |FreshLinks(items, used)| ==>
      FreshLinks(items, used)[k] != "" && FreshLinks(items, used)[k] !in used
    decreases |items|
  {
    if items != [] {
      FreshLinksSound(items[..|items| - 1], used);
    }
  }

  /** Every fresh item's link is kept. */
  lemma {:induction false} FreshLinksComplete(items: seq<SearchItem>, used: seq<string>, i: nat)
    requires i < |items| && Fresh(items[i], used)
    ensures items[i].link.value in FreshLinks(items, used)
    decreases |items|
  {
    if i < |items| - 1 {
      FreshLinksComplete(items[..|items| - 1], used, i);
    }
  }

  /** The kept links come from the items in result order: `idx` gives,
      for each kept link, the strictly increasing position of the item it
      comes from. */
  lemma {:induction false} FreshLinksInOrder(items: seq<SearchItem>, used: seq<string>) returns (idx: seq<nat>)
    ensures |idx| == |FreshLinks(items, used)|
    ensures forall k :: 0 <= k < |idx| ==>
      idx[k] < |items| && Fresh(items[idx[k]], used) && items[idx[k]].link.value == FreshLinks(items, used)[k]
    ensures forall k :: 0 < k < |idx| ==> idx[k - 1] < idx[k]
    decreases |items|
  {
    if items == [] {
      idx := [];
    } else {
      var init := items[..|items| - 1];
      var last := items[|items| - 1];
      var idx' := FreshLinksInOrder(init, used);
      assert forall k :: 0 <= k < |idx'| ==> items[idx'[k]] == init[idx'[k]];
      if Fresh(last, used) {
        idx := idx' + [|items| - 1];
      } else {
        idx := idx';
      }
    }
  }

  /** A search step that finds something hands on fresh links only, and
      only when the request succeeded. */
  lemma {:induction false} SelectedLinksFromSuccess(reply: SearchReply, used: seq<string>)
    requires SelectedLinks(reply, used) != []
    ensures reply.SearchReply? && reply.status == 200
    ensures SelectedLinks(reply, used) <= FreshLinks(reply.items, used)
  {
  }
}
