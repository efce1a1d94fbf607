/** `assemble_html`: the body of a post is the generated article, then a
    reference list, then a tag line, then the signature. Nothing is
    escaped. */
module Html {
  import opened Text

  const ItemOpen: string := "<li><a href=\""
  const ItemMiddle: string := "\" target=\"_blank\" rel=\"nofollow noopener\">"
  const ItemClose: string := "</a></li>"
  const RefOpen: string := "<hr><h3>參考資料</h3><ul>"
  const RefClose: string := "</ul>"
  const TagOpen: string := "<p><em>標籤：</em>"
  const TagClose: string := "</p>"
  const TagSeparator: char := '、'
  const SigOpen: string := "<p style='color:#666;'>本文由 <strong>"
  const SigMiddle: string := "</strong> 提供，更多健康補充知識請見：<strong>"
  const SigClose: string := "</strong></p>"

  /** One list item: a link to `r` whose text is `r`. */
  function RefItem(r: string): string {
    ItemOpen + r + ItemMiddle + r + ItemClose
  }

  /** The list items of `refs`, in order. */
  function ListItems(refs: seq<string>): string
    decreases |refs|
  {
    if refs == [] then "" else RefItem(refs[0]) + ListItems(refs[1..])
  }

  /** The reference block: present only when there are references. */
  function RefBlock(refs: seq<string>): (r: string)
    ensures r == "" <==> refs == []
  {
    if refs == [] then "" else RefOpen + ListItems(refs) + RefClose
  }

  /** The tag line: present only when there are tags. */
  function TagBlock(tags: seq<string>): (r: string)
    ensures r == "" <==> tags == []
  {
    if tags == [] then "" else TagOpen + Join([TagSeparator], tags) + TagClose
  }

  /** The signature naming the brand and the site. */
  function Signature(brand: string, site: string): string {
    SigOpen + brand + SigMiddle + site + SigClose
  }

  /** `assemble_html(content_html, refs, brand, site_name, tags)`. */
  function AssembleHtml(content: string, refs: seq<string>, brand: string, site: string,
                        tags: seq<string>): string
  {
    content + RefBlock(refs) + TagBlock(tags) + Signature(brand, site)
  }

  /** The post starts with the article and ends with the signature; with
      neither references nor tags nothing lies between the two. */
  lemma {:induction false} AssembleLayout(content: string, refs: seq<string>, brand: string,
                                          site: string, tags: seq<string>)
    ensures StartsWith(AssembleHtml(content, refs, brand, site, tags), content)
    ensures EndsWith(AssembleHtml(content, refs, brand, site, tags), Signature(brand, site))
    ensures refs == [] && tags == [] ==>
      AssembleHtml(content, refs, brand, site, tags) == content + Signature(brand, site)
  {
    var rb, tb, sg := RefBlock(refs), TagBlock(tags), Signature(brand, site);
    Regroup4(content, rb, tb, sg);
    StartsWithConcat(content, rb + tb + sg);
    EndsWithConcat(content + rb + tb, sg);
    if refs == [] && tags == [] {
      assert content + rb + tb == content;
    }
  }

  lemma {:induction false} Regroup4(a: string, b: string, c: string, d: string)
    ensures a + b + c + d == a + (b + c + d)
  {
  }

  /** The list items of two lists one after the other. */
  lemma {:induction false} ListItemsAppend(a: seq<string>, b: seq<string>)
    ensures ListItems(a + b) == ListItems(a) + ListItems(b)
    decreases |a|
  {
    if a == [] {
      assert a + b == b;
    } else {
      assert (a + b)[1..] == a[1..] + b;
      ListItemsAppend(a[1..], b);
    }
  }

  /** The `k`-th reference has its own list item, right after the items of
      the references before it: one item per reference, in order. */
  lemma {:induction false} ListItemsAt(refs: seq<string>, k: nat)
    requires k < |refs|
    ensures ListItems(refs) == ListItems(refs[..k]) + RefItem(refs[k]) + ListItems(refs[k + 1..])
  {
    assert refs == refs[..k] + ([refs[k]] + refs[k + 1..]);
    ListItemsAppend(refs[..k], [refs[k]] + refs[k + 1..]);
    assert ([refs[k]] + refs[k + 1..])[1..] == refs[k + 1..];
  }

  /** Each reference appears in the post as a link, at a known position
      after the article. */
  lemma {:induction false} ReferenceLinked(content: string, refs: seq<string>, brand: string,
                                           site: string, tags: seq<string>, k: nat)
    requires k < |refs|
    ensures OccursAt(AssembleHtml(content, refs, brand, site, tags), RefItem(refs[k]),
                     |content| + |RefOpen| + |ListItems(refs[..k])|)
  {
    ListItemsAt(refs, k);
    var l1, item, l2 := ListItems(refs[..k]), RefItem(refs[k]), ListItems(refs[k + 1..]);
    var tb, sg := TagBlock(tags), Signature(brand, site);
    Regroup8(content, RefOpen, l1, item, l2, RefClose, tb, sg);
    OccursInMiddle(content + RefOpen + l1, item, l2 + RefClose + tb + sg);
  }

  lemma {:induction false} Regroup8(c: string, o: string, l1: string, it: string, l2: string,
                                    cl: string, tb: string, sg: string)
    ensures c + (o + (l1 + it + l2) + cl) + tb + sg == (c + o + l1) + it + (l2 + cl + tb + sg)
  {
  }

  /** The tag line can be read back: splitting the text between its opening
      and closing markup on "、" gives the tags, when no tag contains "、". */
  lemma {:induction false} TagsReadBack(tags: seq<string>)
    requires tags != []
    requires forall i :: 0 <= i < |tags| ==> TagSeparator !in tags[i]
    ensures TagBlock(tags) == TagOpen + Join([TagSeparator], tags) + TagClose
    ensures Split(Join([TagSeparator], tags), TagSeparator) == tags
  {
    SplitJoin(tags, TagSeparator);
  }

  /** The signature names the brand, then the site. */
  lemma {:induction false} SignatureNames(brand: string, site: string)
    ensures OccursAt(Signature(brand, site), brand, |SigOpen|)
    ensures OccursAt(Signature(brand, site), site, |SigOpen| + |brand| + |SigMiddle|)
  {
    var s := Signature(brand, site);
    assert s == SigOpen + brand + (SigMiddle + site + SigClose);
    assert s[|SigOpen|..|SigOpen| + |brand|] == brand;
    assert s == (SigOpen + brand + SigMiddle) + site + SigClose;
    assert s[|SigOpen| + |brand| + |SigMiddle|..|SigOpen| + |brand| + |SigMiddle| + |site|] == site;
  }
}
