/** The derived view of the photobook: the catalog filtered by the selected
    chapter, the number of pages, the slice shown on the current page and the
    page label. All of it is recomputed from the state on every render, so it
    is modelled as pure functions over any catalog. */
module Pager {
  import opened Catalog

  /** Photos shown on one page. */
  const PhotosPerPage: nat := 4

  // ---------------------------------------------------------------------------
  // Filtering
  // ---------------------------------------------------------------------------

  /** `photos.filter(p => p.category === c)`: the photos of chapter `c`, in
      catalog order. */
  function FilterBy(photos: seq<Photo>, c: string): (r: seq<Photo>)
    ensures |r| <= |photos|
    ensures forall p :: p in r ==> p in photos && p.category == c
    ensures forall p :: p in photos && p.category == c ==> p in r
  {
    if photos == [] then []
    else (if photos[0].category == c then [photos[0]] else []) + FilterBy(photos[1..], c)
  }

  /** The filtered catalog: everything for the "all" chapter, otherwise only
      the photos of the selected chapter. */
  function Filter(photos: seq<Photo>, selected: string): (r: seq<Photo>)
    ensures selected == AllCategory ==> r == photos
    ensures selected != AllCategory ==>
              forall p :: p in r <==> p in photos && p.category == selected
  {
    if selected == AllCategory then photos else FilterBy(photos, selected)
  }

  /** `r` is `s` with some elements dropped and the rest kept in order. */
  ghost predicate IsSubsequence(r: seq<Photo>, s: seq<Photo>)
    decreases |s|
  {
    if r == [] then true
    else if s == [] then false
    else (r[0] == s[0] && IsSubsequence(r[1..], s[1..])) || IsSubsequence(r, s[1..])
  }

  /** Filtering keeps the catalog's order: the result is a subsequence. */
  lemma {:induction false} FilterByIsSubsequence(photos: seq<Photo>, c: string)
    ensures IsSubsequence(FilterBy(photos, c), photos)
  {
    if photos != [] {
      FilterByIsSubsequence(photos[1..], c);
      var rest := FilterBy(photos[1..], c);
      if photos[0].category == c {
        assert FilterBy(photos, c) == [photos[0]] + rest;
        assert ([photos[0]] + rest)[1..] == rest;
      } else {
        assert FilterBy(photos, c) == rest;
      }
    }
  }

  /** Filtering keeps every photo of the chapter as many times as the catalog
      holds it, and no photo of another chapter. */
  lemma {:induction false} FilterByMultiplicity(photos: seq<Photo>, c: string, p: Photo)
    ensures multiset(FilterBy(photos, c))[p] == if p.category == c then multiset(photos)[p] else 0
  {
    if photos != [] {
      FilterByMultiplicity(photos[1..], c, p);
      assert photos == [photos[0]] + photos[1..];
    }
  }

  /** Filtering distributes over concatenation of catalogs: the photos of a
      chapter in `a + b` are those of `a` followed by those of `b`. */
  lemma {:induction false} FilterByAppend(a: seq<Photo>, b: seq<Photo>, c: string)
    ensures FilterBy(a + b, c) == FilterBy(a, c) + FilterBy(b, c)
  {
    if a == [] {
      assert a + b == b;
    } else {
      var head := if a[0].category == c then [a[0]] else [];
      assert (a + b)[0] == a[0];
      assert (a + b)[1..] == a[1..] + b;
      calc {
        FilterBy(a + b, c);
        head + FilterBy(a[1..] + b, c);
        { FilterByAppend(a[1..], b, c); }
        head + (FilterBy(a[1..], c) + FilterBy(b, c));
        (head + FilterBy(a[1..], c)) + FilterBy(b, c);
        FilterBy(a, c) + FilterBy(b, c);
      }
    }
  }

  /** A chapter none of whose photos is in the catalog filters to nothing. */
  lemma {:induction false} FilterByNone(photos: seq<Photo>, c: string)
    requires forall p :: p in photos ==> p.category != c
    ensures FilterBy(photos, c) == []
  {
    if photos != [] {
      assert photos[0] in photos;
      FilterByNone(photos[1..], c);
    }
  }

  /** When the "all" chapter is selected the filtered list is the catalog, and
      for any other chapter it is exactly the chapter's photos in catalog order,
      each as often as in the catalog. */
  lemma FilterCharacterized(photos: seq<Photo>, selected: string)
    ensures selected == AllCategory ==> Filter(photos, selected) == photos
    ensures selected != AllCategory ==>
              IsSubsequence(Filter(photos, selected), photos) &&
              forall p :: multiset(Filter(photos, selected))[p] ==
                          if p.category == selected then multiset(photos)[p] else 0
  {
    if selected != AllCategory {
      FilterByIsSubsequence(photos, selected);
      forall p ensures multiset(Filter(photos, selected))[p] ==
                       if p.category == selected then multiset(photos)[p] else 0
      {
        FilterByMultiplicity(photos, selected, p);
      }
    }
  }

  /** A subsequence holds each photo at most as often as the sequence it was
      taken from. */
  lemma {:induction false} SubsequenceMultiset(r: seq<Photo>, s: seq<Photo>)
    requires IsSubsequence(r, s)
    ensures multiset(r) <= multiset(s)
    decreases |s|
  {
    if r != [] {
      assert s == [s[0]] + s[1..];
      if r[0] == s[0] && IsSubsequence(r[1..], s[1..]) {
        SubsequenceMultiset(r[1..], s[1..]);
        assert r == [r[0]] + r[1..];
      } else {
        SubsequenceMultiset(r, s[1..]);
      }
    }
  }

  /** The chapter's photos in catalog order with exact multiplicities pin the
      filter down: any subsequence of the catalog that holds each photo of
      chapter `c` as often as the catalog does, and no other photo, is
      `FilterBy(s, c)`. */
  lemma {:induction false} FilterByUnique(r: seq<Photo>, s: seq<Photo>, c: string)
    requires IsSubsequence(r, s)
    requires forall p :: multiset(r)[p] == if p.category == c then multiset(s)[p] else 0
    ensures r == FilterBy(s, c)
    decreases |s|
  {
    if s != [] {
      var x, t := s[0], s[1..];
      assert s == [x] + t;
      if x.category == c {
        if !(r != [] && r[0] == x && IsSubsequence(r[1..], t)) {
          SubsequenceMultiset(r, t);
          assert false;
        }
        var rest := r[1..];
        assert r == [x] + rest;
        forall p: Photo ensures multiset(rest)[p] == if p.category == c then multiset(t)[p] else 0 {
        }
        FilterByUnique(rest, t, c);
      } else {
        assert r == [] || r[0] in multiset(r);
        assert IsSubsequence(r, t);
        forall p: Photo ensures multiset(r)[p] == if p.category == c then multiset(t)[p] else 0 {
        }
        FilterByUnique(r, t, c);
      }
    }
  }

  /** For a chapter other than "all", the filtered list is the only
      subsequence of the catalog with the chapter's exact multiplicities. */
  lemma FilterUnique(photos: seq<Photo>, selected: string, r: seq<Photo>)
    requires selected != AllCategory
    requires IsSubsequence(r, photos)
    requires forall p :: multiset(r)[p] == if p.category == selected then multiset(photos)[p] else 0
    ensures r == Filter(photos, selected)
  {
    FilterByUnique(r, photos, selected);
  }

  // ---------------------------------------------------------------------------
  // Pagination
  // ---------------------------------------------------------------------------

  /** `Math.ceil(n / photosPerPage)`: the number of pages needed for `n` photos. */
  function TotalPages(n: nat): (t: nat)
    ensures n <= t * PhotosPerPage < n + PhotosPerPage
    ensures t == 0 <==> n == 0
  {
    (n + PhotosPerPage - 1) / PhotosPerPage
  }

  /** `filtered.slice(p * photosPerPage, (p + 1) * photosPerPage)`: the photos
      on page `p`, empty when the page lies past the end of the list. */
  function Page(filtered: seq<Photo>, p: nat): (r: seq<Photo>)
    ensures |r| <= PhotosPerPage
    ensures forall i :: 0 <= i < |r| ==>
              p * PhotosPerPage + i < |filtered| && r[i] == filtered[p * PhotosPerPage + i]
    ensures |r| > 0 <==> p < TotalPages(|filtered|)
    ensures p + 1 < TotalPages(|filtered|) ==> |r| == PhotosPerPage
    ensures p + 1 == TotalPages(|filtered|) ==> p * PhotosPerPage + |r| == |filtered|
  {
    var lo := if p * PhotosPerPage <= |filtered| then p * PhotosPerPage else |filtered|;
    var hi := if (p + 1) * PhotosPerPage <= |filtered| then (p + 1) * PhotosPerPage else |filtered|;
    filtered[lo..hi]
  }

  /** The pages `p`, `p + 1`, ..., `TotalPages - 1`, concatenated in order. */
  function PagesFrom(filtered: seq<Photo>, p: nat): seq<Photo>
    decreases TotalPages(|filtered|) - p
  {
    if p >= TotalPages(|filtered|) then [] else Page(filtered, p) + PagesFrom(filtered, p + 1)
  }

  /** The pages from `p` on rebuild the filtered list from photo
      `p * PhotosPerPage` on. */
  lemma {:induction false} PagesFromIsSuffix(filtered: seq<Photo>, p: nat)
    requires p <= TotalPages(|filtered|)
    ensures p * PhotosPerPage <= |filtered| + PhotosPerPage
    ensures PagesFrom(filtered, p) ==
              if p * PhotosPerPage <= |filtered| then filtered[p * PhotosPerPage..] else []
    decreases TotalPages(|filtered|) - p
  {
    var t := TotalPages(|filtered|);
    if p < t {
      PagesFromIsSuffix(filtered, p + 1);
      var page := Page(filtered, p);
      var lo := p * PhotosPerPage;
      assert lo + |page| <= |filtered|;
      assert page == filtered[lo..lo + |page|];
      if p + 1 < t {
        assert filtered[lo..] == filtered[lo..lo + PhotosPerPage] + filtered[lo + PhotosPerPage..];
      } else {
        assert lo + |page| == |filtered|;
        assert filtered[lo..] == page;
      }
    }
  }

  /** Concatenating pages `0 .. TotalPages - 1` rebuilds the filtered list
      exactly: no photo is lost, repeated or reordered by paging. */
  lemma PagesRebuildFiltered(filtered: seq<Photo>)
    ensures PagesFrom(filtered, 0) == filtered
  {
    PagesFromIsSuffix(filtered, 0);
  }

  // ---------------------------------------------------------------------------
  // Page label and current-page range
  // ---------------------------------------------------------------------------

  /** `totalPages || 1`: the page count in the label, 1 for an empty chapter. */
  function DisplayedPageCount(t: nat): (d: nat)
    ensures d >= 1 && d >= t
    ensures t > 0 ==> d == t
    ensures t == 0 ==> d == 1
  {
    if t == 0 then 1 else t
  }

  /** The current page is between the first page and the last label page. */
  predicate InRange(p: int, t: nat)
  {
    0 <= p < DisplayedPageCount(t)
  }

  /** On a page in range, the "This chapter awaits..." message (the visible
      slice is empty) appears exactly when the filtered list is empty. */
  lemma EmptyChapterExactly(filtered: seq<Photo>, p: int)
    requires InRange(p, TotalPages(|filtered|))
    ensures |Page(filtered, p)| == 0 <==> |filtered| == 0
  {
  }

  // ---------------------------------------------------------------------------
  // The bundled catalog
  // ---------------------------------------------------------------------------

  /** The bundled catalog of eight photos shows two full pages under "all". */
  lemma BundledCatalogPages()
    ensures TotalPages(|Filter(Photos, AllCategory)|) == 2
    ensures |Page(Filter(Photos, AllCategory), 0)| == PhotosPerPage
    ensures |Page(Filter(Photos, AllCategory), 1)| == PhotosPerPage
  {
  }

  /** A two-photo catalog filtered to one chapter shows that chapter's single
      photo on a single page. */
  lemma TwoPhotoScenario()
    ensures Page(Filter([Photo(1, "sleepy"), Photo(2, "playing")], "sleepy"), 0) == [Photo(1, "sleepy")]
    ensures TotalPages(|Filter([Photo(1, "sleepy"), Photo(2, "playing")], "sleepy")|) == 1
  {
    var s := [Photo(1, "sleepy"), Photo(2, "playing")];
    assert FilterBy(s[1..], "sleepy") == [];
  }

  /** An empty chapter has no pages, an empty visible slice and the label
      "Page 1 of 1". */
  lemma EmptyChapterScenario(photos: seq<Photo>, c: string)
    requires c != AllCategory
    requires forall p :: p in photos ==> p.category != c
    ensures TotalPages(|Filter(photos, c)|) == 0
    ensures Page(Filter(photos, c), 0) == []
    ensures DisplayedPageCount(TotalPages(|Filter(photos, c)|)) == 1
  {
    FilterByNone(photos, c);
  }
}
