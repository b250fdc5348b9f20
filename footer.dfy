/** The tutorial footer: the links to the previous and the next page. */
module TutorialFooter {

  import opened Options
  import opened Tutorial

  /** `pages.findIndex(i => i.link === currentLink)`. */
  function FindIndex(pages: seq<Page>, currentLink: string): (r: int)
    ensures -1 <= r < |pages|
    ensures r >= 0 ==> pages[r].link == currentLink && forall j :: 0 <= j < r ==> pages[j].link != currentLink
    ensures r == -1 <==> forall j :: 0 <= j < |pages| ==> pages[j].link != currentLink
  {
    if pages == [] then -1
    else if pages[0].link == currentLink then 0
    else
      var r := FindIndex(pages[1..], currentLink);
      if r == -1 then -1 else r + 1
  }

  /** `pages[k] ? pages[k] : null`: a read outside the array, negative indices
      included, is `undefined` and yields no page; a page object is always truthy. */
  function At(pages: seq<Page>, k: int): (r: Option<Page>)
    ensures r.Some? <==> 0 <= k < |pages|
    ensures r.Some? ==> r.value == pages[k]
  {
    if 0 <= k < |pages| then Some(pages[k]) else None
  }

  /** The previous and the next link of the footer. */
  datatype Links = Links(prev: Option<Page>, next: Option<Page>)

  /** `curr`, `prev` and `next` of the footer. */
  function Footer(pages: seq<Page>, currentLink: string): (r: Links)
    ensures forall k :: 0 <= k < |pages| && pages[k].link == currentLink &&
                        (forall j :: 0 <= j < k ==> pages[j].link != currentLink) ==>
              r.prev == (if k >= 1 then Some(pages[k - 1]) else None) &&
              r.next == (if k + 1 < |pages| then Some(pages[k + 1]) else None)
    ensures (forall j :: 0 <= j < |pages| ==> pages[j].link != currentLink) ==>
              r.prev == None && r.next == (if |pages| > 0 then Some(pages[0]) else None)
    ensures r.prev.Some? ==> r.prev.value in pages
    ensures r.next.Some? ==> r.next.value in pages
  {
    var curr := FindIndex(pages, currentLink);
    Links(At(pages, curr - 1), At(pages, curr + 1))
  }
}
