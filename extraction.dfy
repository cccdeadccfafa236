/** `findImages` in the popup (popup.js:17-67): the domain gate on the
    active tab, and the function injected into the listing page, which picks
    one URL per matched `<img>` and accumulates the distinct ones in the
    order they are first seen.

    The page is given as data: for each selector of the injected function,
    in order, the `<img>` elements `querySelectorAll` returns for it, plus the
    listing title the page lookup yields. */
module Extraction {
  import opened Text

  /** An `<img>` element: the `img.dataset` entries the injected function
      reads (absent when the attribute is missing) and `img.src`. */
  datatype Image = Image(
    originalImage: Option<string>,
    fullImage: Option<string>,
    zoom: Option<string>,
    srcZoom: Option<string>,
    src: Option<string>,
    imgSrc: string)

  /** The active tab, as far as the gate looks at it. */
  datatype Tab = Tab(url: Option<string>)

  /** The listing page: the elements each selector matches, the title the
      lookup finds, whether `executeScript` hands back a result, and the
      message it rejects with when the page cannot be scripted. */
  datatype Page = Page(groups: seq<seq<Image>>, title: Option<string>, answered: bool,
                       scriptError: Option<string>)

  /** `{images, title}` */
  datatype Listing = Listing(images: seq<string>, title: Option<string>)

  const WrongSite := "Please navigate to an Etsy listing page"

  // ---------------------------------------------------------------------------
  // Choosing one URL per element (popup.js:41-49)

  /** `possibleSources`, in order of preference. */
  function Sources(img: Image): seq<Option<string>>
  {
    [img.originalImage, img.fullImage, img.zoom, img.srcZoom, img.src, Some(img.imgSrc)]
  }

  /** `sources[k]` is the first truthy source. */
  predicate FirstTruthyAt(sources: seq<Option<string>>, k: int)
  {
    0 <= k < |sources| && Truthy(sources[k]) && forall j | 0 <= j < k :: !Truthy(sources[j])
  }

  /** `possibleSources.find(src => src) || img.src` */
  function ChooseUrl(img: Image): string
  {
    if Truthy(img.originalImage) then img.originalImage.value
    else if Truthy(img.fullImage) then img.fullImage.value
    else if Truthy(img.zoom) then img.zoom.value
    else if Truthy(img.srcZoom) then img.srcZoom.value
    else if Truthy(img.src) then img.src.value
    else img.imgSrc
  }

  /** The chosen URL is the first truthy source, and it is empty exactly
      when no source is truthy. */
  lemma ChooseUrlSpec(img: Image)
    ensures var url := ChooseUrl(img);
      && (url == "" <==> forall k | 0 <= k < 6 :: !Truthy(Sources(img)[k]))
      && (url != "" ==> exists k :: FirstTruthyAt(Sources(img), k) && Sources(img)[k] == Some(url))
  {
    var sources := Sources(img);
    if Truthy(sources[0]) {
      assert FirstTruthyAt(sources, 0);
    } else if Truthy(sources[1]) {
      assert FirstTruthyAt(sources, 1);
    } else if Truthy(sources[2]) {
      assert FirstTruthyAt(sources, 2);
    } else if Truthy(sources[3]) {
      assert FirstTruthyAt(sources, 3);
    } else if Truthy(sources[4]) {
      assert FirstTruthyAt(sources, 4);
    } else if Truthy(sources[5]) {
      assert FirstTruthyAt(sources, 5);
    }
  }

  // ---------------------------------------------------------------------------
  // First-seen accumulation (popup.js:38-54)

  /** The URLs chosen for the elements of one selector, in document order. */
  function Urls(elements: seq<Image>): (r: seq<string>)
    ensures |r| == |elements| && forall k | 0 <= k < |r| :: r[k] == ChooseUrl(elements[k])
  {
    seq(|elements|, k requires 0 <= k < |elements| => ChooseUrl(elements[k]))
  }

  /** The URLs chosen for every matched element: selector by selector, then
      element by element. */
  function Chosen(groups: seq<seq<Image>>): seq<string>
  {
    if groups == [] then [] else Chosen(groups[..|groups| - 1]) + Urls(groups[|groups| - 1])
  }

  /** Some element matched by some selector yields `url`. */
  predicate Yields(groups: seq<seq<Image>>, url: string)
  {
    exists s, e | 0 <= s < |groups| && 0 <= e < |groups[s]| :: ChooseUrl(groups[s][e]) == url
  }

  /** A URL is chosen exactly when some matched element yields it. */
  lemma {:induction false} ChosenMembers(groups: seq<seq<Image>>, url: string)
    ensures url in Chosen(groups) <==> Yields(groups, url)
  {
    if groups != [] {
      var last := |groups| - 1;
      var init, elements := groups[..last], groups[last];
      ChosenMembers(init, url);
      assert Chosen(groups) == Chosen(init) + Urls(elements);
      if url in Urls(elements) {
        var e :| 0 <= e < |elements| && Urls(elements)[e] == url;
        assert ChooseUrl(groups[last][e]) == url;
      } else if url in Chosen(init) {
        var s, e :| 0 <= s < |init| && 0 <= e < |init[s]| && ChooseUrl(init[s][e]) == url;
        assert init[s] == groups[s];
      }
      if Yields(groups, url) {
        var s, e :| 0 <= s < |groups| && 0 <= e < |groups[s]| && ChooseUrl(groups[s][e]) == url;
        if s < last {
          assert init[s] == groups[s];
          assert Yields(init, url);
        } else {
          assert Urls(elements)[e] == url;
        }
      }
    }
  }

  /** The non-empty URLs of `urls`, each once, in the order of their first
      occurrence: what `images` holds after `urls` went past the
      `imageUrl && !images.includes(imageUrl)` test. */
  function FirstSeen(urls: seq<string>): seq<string>
  {
    if urls == [] then []
    else
      var prefix, url := urls[..|urls| - 1], urls[|urls| - 1];
      FirstSeen(prefix) + (if url != "" && url !in prefix then [url] else [])
  }

  predicate NoDuplicates(s: seq<string>)
  {
    forall i, j | 0 <= i < j < |s| :: s[i] != s[j]
  }

  /** Exactly the non-empty URLs of `urls` are kept. */
  lemma {:induction false} FirstSeenMembers(urls: seq<string>)
    ensures forall url :: url in FirstSeen(urls) <==> url in urls && url != ""
  {
    if urls != [] {
      var prefix := urls[..|urls| - 1];
      FirstSeenMembers(prefix);
      assert urls == prefix + [urls[|urls| - 1]];
    }
  }

  /** No URL is kept twice. */
  lemma {:induction false} FirstSeenNoDuplicates(urls: seq<string>)
    ensures NoDuplicates(FirstSeen(urls))
  {
    if urls != [] {
      var prefix := urls[..|urls| - 1];
      FirstSeenNoDuplicates(prefix);
      FirstSeenMembers(prefix);
    }
  }

  /** Index of the first occurrence of `x` in `s`. */
  function FirstIndex(s: seq<string>, x: string): (p: nat)
    requires x in s
    ensures p < |s| && s[p] == x && x !in s[..p]
  {
    if s[0] == x then 0
    else
      var p := FirstIndex(s[1..], x) + 1;
      assert s[..p] == [s[0]] + s[1..][..p - 1];
      p
  }

  lemma FirstIndexUnique(s: seq<string>, x: string, p: int)
    requires 0 <= p < |s| && s[p] == x && x !in s[..p]
    ensures FirstIndex(s, x) == p
  {
    var q := FirstIndex(s, x);
    assert forall k | 0 <= k < p :: s[..p][k] == s[k];
    assert forall k | 0 <= k < q :: s[..q][k] == s[k];
  }

  lemma FirstIndexExtend(s: seq<string>, u: string, x: string)
    requires x in s
    ensures FirstIndex(s + [u], x) == FirstIndex(s, x)
  {
    var p := FirstIndex(s, x);
    assert (s + [u])[..p] == s[..p];
    FirstIndexUnique(s + [u], x, p);
  }

  /** `a` is first seen in `urls` before `b` is. */
  predicate SeenBefore(urls: seq<string>, a: string, b: string)
  {
    a in urls && b in urls && FirstIndex(urls, a) < FirstIndex(urls, b)
  }

  /** Kept URLs appear in the order in which they are first seen. */
  lemma {:induction false} FirstSeenOrder(urls: seq<string>, i: int, j: int)
    requires 0 <= i < j < |FirstSeen(urls)|
    ensures SeenBefore(urls, FirstSeen(urls)[i], FirstSeen(urls)[j])
  {
    var n := |urls| - 1;
    var prefix, url := urls[..n], urls[n];
    assert urls == prefix + [url];
    FirstSeenMembers(prefix);
    var before, r := FirstSeen(prefix), FirstSeen(urls);
    assert r[i] == before[i] && r[i] in prefix;
    FirstIndexExtend(prefix, url, r[i]);
    if j < |before| {
      FirstSeenOrder(prefix, i, j);
      FirstIndexExtend(prefix, url, r[j]);
    } else {
      assert r[j] == url && url !in prefix;
      FirstIndexUnique(urls, url, n);
    }
  }

  /** One more URL goes past the `includes` test. */
  lemma FirstSeenSnoc(seen: seq<string>, url: string)
    ensures FirstSeen(seen + [url]) ==
      FirstSeen(seen) + (if url != "" && url !in FirstSeen(seen) then [url] else [])
  {
    FirstSeenMembers(seen);
    assert (seen + [url])[..|seen|] == seen;
  }

  lemma UrlsSnoc(elements: seq<Image>, e: int)
    requires 0 <= e < |elements|
    ensures Urls(elements[..e + 1]) == Urls(elements[..e]) + [ChooseUrl(elements[e])]
  {
    var a, b := Urls(elements[..e + 1]), Urls(elements[..e]) + [ChooseUrl(elements[e])];
    assert forall k | 0 <= k < |a| :: a[k] == b[k];
  }

  lemma ChosenSnoc(groups: seq<seq<Image>>, s: int, e: int)
    requires 0 <= s < |groups| && 0 <= e < |groups[s]|
    ensures Chosen(groups[..s]) + Urls(groups[s][..e + 1])
         == Chosen(groups[..s]) + Urls(groups[s][..e]) + [ChooseUrl(groups[s][e])]
  {
    UrlsSnoc(groups[s], e);
    var p, u := Chosen(groups[..s]), Urls(groups[s][..e]);
    assert p + (u + [ChooseUrl(groups[s][e])]) == p + u + [ChooseUrl(groups[s][e])];
  }

  lemma ChosenNext(groups: seq<seq<Image>>, s: int)
    requires 0 <= s < |groups|
    ensures Chosen(groups[..s + 1]) == Chosen(groups[..s]) + Urls(groups[s][..|groups[s]|])
  {
    assert groups[s][..|groups[s]|] == groups[s];
    assert groups[..s + 1][..s] == groups[..s];
  }

  /** What the accumulated list holds, element by element. */
  lemma CollectedMembers(groups: seq<seq<Image>>)
    ensures forall url :: url in FirstSeen(Chosen(groups)) <==> url != "" && Yields(groups, url)
  {
    FirstSeenMembers(Chosen(groups));
    forall url
      ensures url in Chosen(groups) <==> Yields(groups, url)
    {
      ChosenMembers(groups, url);
    }
  }

  /** The injected function's two nested `forEach` loops (popup.js:38-54). */
  method CollectImages(groups: seq<seq<Image>>) returns (images: seq<string>)
    ensures images == FirstSeen(Chosen(groups))
    ensures NoDuplicates(images)
    ensures forall i, j | 0 <= i < j < |images| :: SeenBefore(Chosen(groups), images[i], images[j])
    ensures forall url :: url in images <==> url != "" && Yields(groups, url)
  {
    images := [];
    var s := 0;
    while s < |groups|
      invariant 0 <= s <= |groups|
      invariant images == FirstSeen(Chosen(groups[..s]))
    {
      var e := 0;
      assert Chosen(groups[..s]) + Urls(groups[s][..0]) == Chosen(groups[..s]);
      while e < |groups[s]|
        invariant 0 <= e <= |groups[s]|
        invariant images == FirstSeen(Chosen(groups[..s]) + Urls(groups[s][..e]))
      {
        var url := ChooseUrl(groups[s][e]);
        ChosenSnoc(groups, s, e);
        FirstSeenSnoc(Chosen(groups[..s]) + Urls(groups[s][..e]), url);
        if url != "" && url !in images {
          images := images + [url];
        }
        e := e + 1;
      }
      ChosenNext(groups, s);
      s := s + 1;
    }
    assert groups[..|groups|] == groups;
    FirstSeenNoDuplicates(Chosen(groups));
    CollectedMembers(groups);
    forall i, j | 0 <= i < j < |images|
      ensures SeenBefore(Chosen(groups), images[i], images[j])
    {
      FirstSeenOrder(Chosen(groups), i, j);
    }
  }

  // ---------------------------------------------------------------------------
  // The gate and the default (popup.js:17-23, 66)

  /** `tab?.url?.includes('etsy.com')` */
  predicate OnEtsy(tab: Option<Tab>)
  {
    tab.Some? && tab.value.url.Some? && Contains(tab.value.url.value, "etsy.com")
  }

  /** `findImages()`: `injected` tells whether `executeScript` was called. */
  method FindImages(tab: Option<Tab>, page: Page) returns (r: Result<Listing>, injected: bool)
    ensures !OnEtsy(tab) ==> r == Failure(WrongSite) && !injected
    ensures OnEtsy(tab) ==> injected
    ensures OnEtsy(tab) && page.scriptError.Some? ==> r == Failure(page.scriptError.value)
    ensures OnEtsy(tab) && page.scriptError.None? ==> r.Success?
    ensures OnEtsy(tab) && page.scriptError.None? && page.answered ==>
      r.value == Listing(FirstSeen(Chosen(page.groups)), page.title)
    ensures OnEtsy(tab) && page.scriptError.None? && !page.answered ==> r.value == Listing([], Some(""))
  {
    if !OnEtsy(tab) {
      return Failure(WrongSite), false;
    }
    injected := true;
    if page.scriptError.Some? {
      r := Failure(page.scriptError.value);   // `await executeScript(...)` rejects
    } else if page.answered {
      var images := CollectImages(page.groups);
      r := Success(Listing(images, page.title));
    } else {
      r := Success(Listing([], Some("")));
    }
  }
}
