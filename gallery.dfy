/**
 * The gallery catalogue and the lightbox (assets/js/gallery.js): the image
 * records built from the file list, the category/search filter, and the
 * lightbox state whose `next`/`prev` wrap around inside the filtered list.
 */
module Gallery {
  import opened AsciiText
  import opened GalleryNames
  import opened Arith

  const ImageFolder: string := "fotos/"

  /** One catalogue record; the free-text description table carries no logic and is left out. */
  datatype Image = Image(id: int, file: string, src: string, title: string, category: string, meta: string)

  function MakeImage(index: nat, file: string): Image
  {
    Image(index, file, ImageFolder + file, FilenameToTitle(file), DeriveCategory(file), FilenameToMeta(file))
  }

  /** `imageFiles.map((file, index) => ({ id: index, file, src: IMAGE_FOLDER + file, ... }))` */
  function BuildImages(files: seq<string>): (images: seq<Image>)
    ensures |images| == |files|
    ensures forall k :: 0 <= k < |images| ==>
      images[k].id == k && images[k].file == files[k] && images[k].src == ImageFolder + files[k]
      && images[k].title == FilenameToTitle(files[k]) && images[k].category == DeriveCategory(files[k])
      && images[k].meta == FilenameToMeta(files[k])
  {
    seq(|files|, k requires 0 <= k < |files| => MakeImage(k, files[k]))
  }

  /** The catalogue invariant that makes an image id usable as an index into the catalogue. */
  predicate IdsAreIndices(images: seq<Image>)
  {
    forall k :: 0 <= k < |images| ==> images[k].id == k
  }

  predicate IdsIncreasing(s: seq<Image>)
  {
    forall i, j :: 0 <= i < j < |s| ==> s[i].id < s[j].id
  }

  lemma BuiltCatalogueIsIndexed(files: seq<string>)
    ensures IdsAreIndices(BuildImages(files))
    ensures forall k :: 0 <= k < |files| ==> DeriveCategory(files[k]) in Categories
  {
  }

  /** A member of an indexed catalogue sits at the index its id names. */
  lemma MemberAtItsId(images: seq<Image>, x: Image)
    requires IdsAreIndices(images) && x in images
    ensures 0 <= x.id < |images| && images[x.id] == x
  {
    var k :| 0 <= k < |images| && images[k] == x;
  }

  // ---------------------------------------------------------------------
  // Filtering
  // ---------------------------------------------------------------------

  predicate PassesFilter(img: Image, filter: string)
  {
    filter == "all" || img.category == filter
  }

  /** The query is already lower-cased by the search handler. */
  predicate PassesQuery(img: Image, query: string)
  {
    query == "" || Contains(ToLower(img.title), query) || Contains(ToLower(img.file), query)
  }

  predicate Passes(img: Image, filter: string, query: string)
  {
    PassesFilter(img, filter) && PassesQuery(img, query)
  }

  /** `a` is `b` with some elements left out, order kept. */
  predicate Subsequence(a: seq<Image>, b: seq<Image>)
  {
    if a == [] then true
    else if b == [] then false
    else (a[0] == b[0] && Subsequence(a[1..], b[1..])) || Subsequence(a, b[1..])
  }

  /** The test `getFiltered` applies to each image. */
  function Shows(filter: string, query: string): Image -> bool
  {
    img => Passes(img, filter, query)
  }

  /** `images.filter(keep)`: the images passing `keep`, in catalogue order. */
  function Filter(images: seq<Image>, keep: Image -> bool): (r: seq<Image>)
    ensures |r| <= |images|
    ensures forall i :: 0 <= i < |r| ==> r[i] in images && keep(r[i])
    ensures forall i :: 0 <= i < |images| && keep(images[i]) ==> images[i] in r
    ensures IdsIncreasing(images) ==> IdsIncreasing(r)
  {
    if images == [] then []
    else
      var rest := Filter(images[1..], keep);
      TailMembers(images, rest);
      TailKept(images, keep, rest);
      if keep(images[0]) then
        FirstBelowRest(images, rest);
        KeptInCons(images, keep, rest);
        [images[0]] + rest
      else rest
  }

  /** The filtered list keeps the catalogue order: it is the catalogue with some images left out. */
  lemma {:induction false} FilterIsSubsequence(images: seq<Image>, keep: Image -> bool)
    ensures Subsequence(Filter(images, keep), images)
  {
    if images != [] {
      var rest := Filter(images[1..], keep);
      FilterIsSubsequence(images[1..], keep);
      if keep(images[0]) {
        assert Filter(images, keep) == [images[0]] + rest;
        assert ([images[0]] + rest)[1..] == rest;
      } else {
        assert Filter(images, keep) == rest;
        SubsequenceOfTail(rest, images);
      }
    }
  }

  lemma SubsequenceOfTail(a: seq<Image>, b: seq<Image>)
    requires b != [] && Subsequence(a, b[1..])
    ensures Subsequence(a, b)
  {
  }

  /** `getFiltered()`: every image passing both the category test and the query test, in catalogue order. */
  function Filtered(images: seq<Image>, filter: string, query: string): (r: seq<Image>)
    ensures Subsequence(r, images)
    ensures forall i :: 0 <= i < |r| ==> r[i] in images && PassesFilter(r[i], filter) && PassesQuery(r[i], query)
    ensures forall i :: 0 <= i < |images| && PassesFilter(images[i], filter) && PassesQuery(images[i], query) ==> images[i] in r
  {
    FilterIsSubsequence(images, Shows(filter, query));
    Filter(images, Shows(filter, query))
  }

  lemma TailMembers(images: seq<Image>, rest: seq<Image>)
    requires images != [] && forall i :: 0 <= i < |rest| ==> rest[i] in images[1..]
    ensures forall i :: 0 <= i < |rest| ==> rest[i] in images
  {
    forall i | 0 <= i < |rest| ensures rest[i] in images {
      var m :| 0 <= m < |images[1..]| && images[1..][m] == rest[i];
      assert images[m + 1] == rest[i];
    }
  }

  lemma TailKept(images: seq<Image>, keep: Image -> bool, rest: seq<Image>)
    requires images != []
    requires forall i :: 0 <= i < |images[1..]| && keep(images[1..][i]) ==> images[1..][i] in rest
    ensures forall i :: 1 <= i < |images| && keep(images[i]) ==> images[i] in rest
  {
    forall i | 1 <= i < |images| && keep(images[i]) ensures images[i] in rest {
      assert images[i] == images[1..][i - 1];
    }
  }

  lemma KeptInCons(images: seq<Image>, keep: Image -> bool, rest: seq<Image>)
    requires images != []
    requires forall i :: 1 <= i < |images| && keep(images[i]) ==> images[i] in rest
    ensures forall i :: 0 <= i < |images| && keep(images[i]) ==> images[i] in [images[0]] + rest
  {
  }

  lemma FirstBelowRest(images: seq<Image>, rest: seq<Image>)
    requires images != [] && forall i :: 0 <= i < |rest| ==> rest[i] in images[1..]
    requires IdsIncreasing(images) ==> IdsIncreasing(rest)
    ensures IdsIncreasing(images) ==> IdsIncreasing([images[0]] + rest)
  {
    if IdsIncreasing(images) {
      forall j | 0 <= j < |rest| ensures images[0].id < rest[j].id {
        assert rest[j] in images[1..];
        var m :| 0 <= m < |images[1..]| && images[1..][m] == rest[j];
        assert images[m + 1] == rest[j];
      }
    }
  }

  /** A test every image passes keeps the whole catalogue. */
  lemma {:induction false} FilterKeepingAll(images: seq<Image>, keep: Image -> bool)
    requires forall i :: 0 <= i < |images| ==> keep(images[i])
    ensures Filter(images, keep) == images
  {
    if images != [] {
      FilterKeepingAll(images[1..], keep);
      assert [images[0]] + images[1..] == images;
    }
  }

  /** Filter "all" with an empty query shows the whole catalogue. */
  lemma FilterAllShowsEverything(images: seq<Image>)
    ensures Filtered(images, "all", "") == images
  {
    FilterKeepingAll(images, Shows("all", ""));
  }

  /** The text of the lightbox's meta line, `img.meta || img.category`. */
  function MetaText(img: Image): string
  {
    if img.meta != "" then img.meta else img.category
  }

  /**
   * For a built record the lightbox shows the meta line when there is one and the
   * category otherwise, so the meta text is never blank.
   */
  lemma MetaTextOfBuilt(files: seq<string>, k: nat)
    requires k < |files|
    ensures MetaText(BuildImages(files)[k]) ==
      if FilenameToMeta(files[k]) != "" then FilenameToMeta(files[k]) else DeriveCategory(files[k])
    ensures MetaText(BuildImages(files)[k]) != ""
  {
    assert DeriveCategory(files[k]) in Categories;
  }

  lemma IndexedIsIncreasing(images: seq<Image>)
    requires IdsAreIndices(images)
    ensures IdsIncreasing(images)
  {
  }

  /**
   * `list.findIndex(i => i.id === id)`. `GalleryNames.FindIndex` is the same search over
   * file-name parts with a test function; this one matches ids directly, so that lemmas
   * about positions need no lambda.
   */
  function FindById(s: seq<Image>, id: int): (r: int)
    ensures -1 <= r < |s|
    ensures r == -1 <==> forall j :: 0 <= j < |s| ==> s[j].id != id
    ensures 0 <= r ==> s[r].id == id && forall j :: 0 <= j < r ==> s[j].id != id
  {
    if s == [] then -1
    else if s[0].id == id then 0
    else
      var r := FindById(s[1..], id);
      if r == -1 then -1 else r + 1
  }

  /** In a list with increasing ids, looking up the id of position `k` finds `k`. */
  lemma FindOwnId(s: seq<Image>, k: nat)
    requires IdsIncreasing(s) && k < |s|
    ensures FindById(s, s[k].id) == k
  {
  }

  /** JavaScript's `%`, which truncates toward zero. */
  function JsRem(a: int, n: int): (r: int)
    requires n > 0
    ensures -n < r < n
    ensures 0 <= a ==> r == a % n
    ensures a <= 0 ==> r <= 0
    ensures (a - r) % n == 0
  {
    if a >= 0 then
      ModBounds(a, n);
      ModUnique(a - a % n, n, a / n, 0);
      a % n
    else
      ModBounds(-a, n);
      var q := (-a) / n;
      ModUnique(-(q * n), n, -q, 0);
      -((-a) % n)
  }

  /**
   * The filtered position `next()` moves to from filtered position `p` of a list of
   * length `n`; `p == -1` when the active image is not in the list.
   */
  function ForwardPos(p: int, n: int): (q: nat)
    requires n > 0 && -1 <= p < n
    ensures q < n
    ensures p == -1 ==> q == 0
  {
    if p + 1 == n then 0 else p + 1
  }

  /**
   * The filtered position `prev()` moves to. For a missing image it is the
   * second-to-last position, or 0 in a list of one.
   */
  function BackwardPos(p: int, n: int): (q: nat)
    requires n > 0 && -1 <= p < n
    ensures q < n
    ensures p == -1 ==> q == if n == 1 then 0 else n - 2
  {
    if p == -1 && n == 1 then 0
    else if p == 0 || p == -1 then p - 1 + n
    else p - 1
  }

  /**
   * The two positions are what the source's `(currentIdx + 1) % L` and
   * `(currentIdx - 1 + L) % L` compute with JavaScript's remainder; for a missing
   * image in a list of one the latter is `-1 % 1`, which is 0.
   */
  lemma StepsAreJsRemainders(p: int, n: int)
    requires n > 0 && -1 <= p < n
    ensures ForwardPos(p, n) == JsRem(p + 1, n)
    ensures BackwardPos(p, n) == JsRem(p - 1 + n, n)
  {
    if p + 1 == n { ModUnique(p + 1, n, 1, 0); } else { ModUnique(p + 1, n, 0, p + 1); }
    if p == -1 && n == 1 {
      assert JsRem(-1, 1) == -(1 % 1) == 0;
    } else if p == 0 || p == -1 {
      ModUnique(p - 1 + n, n, 0, p - 1 + n);
    } else {
      ModUnique(p - 1 + n, n, 1, p - 1);
    }
  }

  /** For a shown image the two steps are `(p + 1) mod L` and `(p - 1 + L) mod L`. */
  lemma StepsAreModular(p: int, n: int)
    requires n > 0 && 0 <= p < n
    ensures ForwardPos(p, n) == (p + 1) % n
    ensures BackwardPos(p, n) == (p - 1 + n) % n
  {
    StepsAreJsRemainders(p, n);
  }

  lemma BackwardUndoesForward(p: nat, n: nat)
    requires p < n
    ensures BackwardPos(ForwardPos(p, n), n) == p
    ensures ForwardPos(BackwardPos(p, n), n) == p
  {
  }

  /** `k` steps forward from position `p` land on `(p + k) mod n`. */
  lemma {:induction false} ForwardTimes(p: nat, n: nat, k: nat)
    requires p < n
    ensures ForwardIter(p, n, k) == (p + k) % n
  {
    if k > 0 {
      ForwardTimes(p, n, k - 1);
      ModSucc(p + k - 1, n);
    }
  }

  /** `n` steps forward in a list of length `n` come back to the start. */
  lemma ForwardFullCycle(p: nat, n: nat)
    requires p < n
    ensures ForwardIter(p, n, n) == p
  {
    ForwardTimes(p, n, n);
    ModUnique(p + n, n, 1, p);
  }

  /**
   * `ForwardPos` applied `k` times to `p`. It is `Iterate` specialised to positions,
   * kept apart because its contract carries the bound `q < n`, which `Iterate` over an
   * arbitrary step cannot state.
   */
  function ForwardIter(p: nat, n: nat, k: nat): (q: nat)
    requires p < n
    ensures q < n
  {
    if k == 0 then p else ForwardPos(ForwardIter(p, n, k - 1), n)
  }

  lemma ModSucc(a: nat, n: nat)
    requires n > 0
    ensures ForwardPos(a % n, n) == (a + 1) % n
  {
    ModBounds(a, n);
    var q, r := a / n, a % n;
    assert a == q * n + r;
    if r + 1 == n {
      assert a + 1 == (q + 1) * n + 0;
      ModUnique(a + 1, n, q + 1, 0);
    } else {
      ModUnique(a + 1, n, q, r + 1);
    }
  }

  // ---------------------------------------------------------------------
  // Lightbox navigation, as functions of the catalogue and the state
  // ---------------------------------------------------------------------

  /** The filtered position of catalogue image `active` in `f`, or -1. */
  function PositionIn(f: seq<Image>, active: nat): (p: int)
    ensures -1 <= p < |f|
  {
    FindById(f, active)
  }

  /**
   * The id `next()` moves to when `f` is the filtered list and `id` the active image's
   * id: the image after it in `f`, wrapping to the start, or the first image of `f`
   * when `id` is not in it. `ForwardPos` is the source's remainder (`StepsAreJsRemainders`).
   */
  function NextIn(f: seq<Image>, id: int): int
    requires f != []
  {
    var currentIdx := FindById(f, id);
    f[ForwardPos(currentIdx, |f|)].id
  }

  /** The id `prev()` moves to: the image before `id` in `f`, wrapping to the end. */
  function PrevIn(f: seq<Image>, id: int): int
    requires f != []
  {
    var currentIdx := FindById(f, id);
    f[BackwardPos(currentIdx, |f|)].id
  }

  /** The catalogue index `next()` moves to from `active`: a shown image, at the following filtered position. */
  function NextActive(images: seq<Image>, keep: Image -> bool, active: nat): (r: nat)
    requires IdsAreIndices(images) && active < |images| && Filter(images, keep) != []
    ensures r < |images| && keep(images[r])
    ensures r == Filter(images, keep)[ForwardPos(PositionIn(Filter(images, keep), active), |Filter(images, keep)|)].id
  {
    var filtered := Filter(images, keep);
    MemberAtItsId(images, filtered[ForwardPos(FindById(filtered, images[active].id), |filtered|)]);
    NextIn(filtered, images[active].id)
  }

  /** The catalogue index `prev()` moves to from `active`: a shown image, at the preceding filtered position. */
  function PrevActive(images: seq<Image>, keep: Image -> bool, active: nat): (r: nat)
    requires IdsAreIndices(images) && active < |images| && Filter(images, keep) != []
    ensures r < |images| && keep(images[r])
    ensures r == Filter(images, keep)[BackwardPos(PositionIn(Filter(images, keep), active), |Filter(images, keep)|)].id
  {
    var filtered := Filter(images, keep);
    MemberAtItsId(images, filtered[BackwardPos(FindById(filtered, images[active].id), |filtered|)]);
    PrevIn(filtered, images[active].id)
  }

  /** A shown image sits at a filtered position, and navigating from it is navigating from that position. */
  lemma VisiblePosition(images: seq<Image>, keep: Image -> bool, active: nat)
    requires IdsAreIndices(images) && active < |images| && keep(images[active])
    ensures Filter(images, keep) != []
    ensures 0 <= PositionIn(Filter(images, keep), active)
    ensures Filter(images, keep)[PositionIn(Filter(images, keep), active)].id == active
  {
    var f := Filter(images, keep);
    assert images[active] in f;
    var k :| 0 <= k < |f| && f[k] == images[active];
    assert f[k].id == active;
  }

  /** An image the filter hides has no filtered position. */
  lemma HiddenHasNoPosition(images: seq<Image>, keep: Image -> bool, active: nat)
    requires IdsAreIndices(images) && active < |images| && !keep(images[active])
    ensures PositionIn(Filter(images, keep), active) == -1
  {
    var f := Filter(images, keep);
    forall j | 0 <= j < |f| ensures f[j].id != active {
      MemberAtItsId(images, f[j]);
    }
  }

  /** Looking up the image at filtered position `q` gives back `q`. */
  lemma PositionOfImageAt(images: seq<Image>, keep: Image -> bool, q: nat)
    requires IdsAreIndices(images) && q < |Filter(images, keep)|
    ensures 0 <= Filter(images, keep)[q].id < |images|
    ensures PositionIn(Filter(images, keep), Filter(images, keep)[q].id) == q
  {
    IndexedIsIncreasing(images);
    FindOwnId(Filter(images, keep), q);
    MemberAtItsId(images, Filter(images, keep)[q]);
  }

  /** Moving forward and then back returns to the image that was shown. */
  lemma PrevAfterNext(images: seq<Image>, keep: Image -> bool, active: nat)
    requires IdsAreIndices(images) && active < |images| && keep(images[active])
    ensures Filter(images, keep) != []
    ensures PrevActive(images, keep, NextActive(images, keep, active)) == active
  {
    VisiblePosition(images, keep, active);
    var f := Filter(images, keep);
    var p := PositionIn(f, active);
    PositionOfImageAt(images, keep, ForwardPos(p, |f|));
    BackwardUndoesForward(p, |f|);
  }

  /** Moving back and then forward returns to the image that was shown. */
  lemma NextAfterPrev(images: seq<Image>, keep: Image -> bool, active: nat)
    requires IdsAreIndices(images) && active < |images| && keep(images[active])
    ensures Filter(images, keep) != []
    ensures NextActive(images, keep, PrevActive(images, keep, active)) == active
  {
    VisiblePosition(images, keep, active);
    var f := Filter(images, keep);
    var p := PositionIn(f, active);
    PositionOfImageAt(images, keep, BackwardPos(p, |f|));
    BackwardUndoesForward(p, |f|);
  }

  /** `next()` from the image at filtered position `q` shows the image at `ForwardPos(q)`. */
  lemma NextFromPosition(images: seq<Image>, keep: Image -> bool, q: nat)
    requires IdsAreIndices(images) && q < |Filter(images, keep)|
    ensures 0 <= Filter(images, keep)[q].id < |images|
    ensures NextActive(images, keep, Filter(images, keep)[q].id)
            == Filter(images, keep)[ForwardPos(q, |Filter(images, keep)|)].id
  {
    PositionOfImageAt(images, keep, q);
  }

  /** In a list with increasing ids, `next()` from the image at position `q` shows the image at `ForwardPos(q)`. */
  lemma NextInFrom(f: seq<Image>, q: nat)
    requires IdsIncreasing(f) && q < |f|
    ensures NextIn(f, f[q].id) == f[ForwardPos(q, |f|)].id
  {
    FindOwnId(f, q);
  }

  /** `step` applied `k` times to `x`. */
  function Iterate(step: int -> int, x: int, k: nat): int
  {
    if k == 0 then x else step(Iterate(step, x, k - 1))
  }

  /** The id shown after pressing `next()` `k` times over the filtered list `f`, starting at `id`. */
  function NextTimes(f: seq<Image>, id: int, k: nat): int
    requires f != []
  {
    Iterate(x => NextIn(f, x), id, k)
  }

  /** A step that moves every position of `f` to the following one moves `k` positions in `k` steps. */
  lemma {:induction false} IterateAlong(step: int -> int, f: seq<Image>, p: nat, k: nat)
    requires p < |f|
    requires forall q :: 0 <= q < |f| ==> step(f[q].id) == f[ForwardPos(q, |f|)].id
    ensures Iterate(step, f[p].id, k) == f[ForwardIter(p, |f|, k)].id
  {
    if k > 0 {
      IterateAlong(step, f, p, k - 1);
    }
  }

  /** In a list with increasing ids `next()` moves every position to the following one. */
  lemma NextStepsAlong(f: seq<Image>, p: nat, k: nat)
    requires IdsIncreasing(f) && p < |f|
    ensures NextTimes(f, f[p].id, k) == f[ForwardIter(p, |f|, k)].id
  {
    var step := x => NextIn(f, x);
    forall q | 0 <= q < |f| ensures step(f[q].id) == f[ForwardPos(q, |f|)].id {
      NextInFrom(f, q);
    }
    IterateAlong(step, f, p, k);
  }

  /** `k` moves forward from filtered position `p` show the image at filtered position `(p + k) mod L`. */
  lemma NextTimesPosition(f: seq<Image>, p: nat, k: nat)
    requires IdsIncreasing(f) && p < |f|
    ensures NextTimes(f, f[p].id, k) == f[(p + k) % |f|].id
  {
    NextStepsAlong(f, p, k);
    ForwardTimes(p, |f|, k);
  }

  /** `L` presses of `next()` over a list of length `L` come back to where they started. */
  lemma CycleReturnsIn(f: seq<Image>, p: nat)
    requires IdsIncreasing(f) && p < |f|
    ensures NextTimes(f, f[p].id, |f|) == f[p].id
  {
    NextStepsAlong(f, p, |f|);
    ForwardFullCycle(p, |f|);
  }

  /** The catalogue index `next()` moves to is the id `NextIn` gives over the filtered list. */
  lemma NextActiveIsNextIn(images: seq<Image>, keep: Image -> bool, active: nat)
    requires IdsAreIndices(images) && active < |images| && Filter(images, keep) != []
    ensures NextActive(images, keep, active) == NextIn(Filter(images, keep), active)
  {
    assert images[active].id == active;
  }

  /** As many presses of `next()` as there are shown images come back to the image shown first. */
  lemma NextCycleReturns(images: seq<Image>, keep: Image -> bool, active: nat)
    requires IdsAreIndices(images) && active < |images| && keep(images[active])
    ensures Filter(images, keep) != []
    ensures NextTimes(Filter(images, keep), active, |Filter(images, keep)|) == active
  {
    VisiblePosition(images, keep, active);
    IndexedIsIncreasing(images);
    CycleReturnsIn(Filter(images, keep), PositionIn(Filter(images, keep), active));
  }

  // ---------------------------------------------------------------------
  // The lightbox state
  // ---------------------------------------------------------------------

  /** The module variables `activeIndex`, `currentFilter` and `currentQuery` over a fixed catalogue. */
  class Lightbox {
    const images: seq<Image>
    var activeIndex: nat
    var currentFilter: string
    var currentQuery: string

    ghost predicate Valid()
      reads this
    {
      IdsAreIndices(images) && (images != [] ==> activeIndex < |images|)
    }

    constructor (files: seq<string>)
      ensures Valid()
      ensures images == BuildImages(files)
      ensures activeIndex == 0 && currentFilter == "all" && currentQuery == ""
    {
      images := BuildImages(files);
      activeIndex := 0;
      currentFilter := "all";
      currentQuery := "";
    }

    /** `getFiltered()` over the current state. */
    function Visible(): seq<Image>
      reads this
    {
      Filter(images, Shows(currentFilter, currentQuery))
    }

    /** `openLightbox(id)`: an id found in the catalogue becomes the active image; any other id changes nothing. */
    method OpenLightbox(id: int)
      requires Valid()
      modifies this`activeIndex
      ensures Valid()
      ensures 0 <= id < |images| ==> activeIndex == id
      ensures !(0 <= id < |images|) ==> activeIndex == old(activeIndex)
    {
      var idx := FindById(images, id);
      assert 0 <= id < |images| ==> images[id].id == id;
      if idx == -1 {
        return;
      }
      activeIndex := idx;
    }

    /**
     * The counter of `updateLightbox`: one plus the filtered position of the active
     * image (0 when the filter hides it) and the filtered length; nothing when the
     * catalogue is empty.
     */
    function Counter(): (c: Option<(int, nat)>)
      reads this
      requires Valid()
      ensures c.None? <==> images == []
      ensures c.Some? ==> c.value.1 == |Visible()|
      ensures c.Some? && Shows(currentFilter, currentQuery)(images[activeIndex]) ==>
                1 <= c.value.0 <= |Visible()| && Visible()[c.value.0 - 1].id == activeIndex
      ensures c.Some? && !Shows(currentFilter, currentQuery)(images[activeIndex]) ==> c.value.0 == 0
    {
      if images == [] then None
      else
        var filteredImages := Visible();
        var keep := Shows(currentFilter, currentQuery);
        if keep(images[activeIndex]) then
          VisiblePosition(images, keep, activeIndex);
          Some((FindById(filteredImages, images[activeIndex].id) + 1, |filteredImages|))
        else
          HiddenHasNoPosition(images, keep, activeIndex);
          Some((FindById(filteredImages, images[activeIndex].id) + 1, |filteredImages|))
    }

    /** `next()`: the following image of the filtered list, wrapping to its start. */
    method Next()
      requires Valid() && Visible() != []
      modifies this`activeIndex
      ensures Valid()
      ensures activeIndex == NextActive(images, Shows(currentFilter, currentQuery), old(activeIndex))
    {
      var filteredImages := Visible();
      var currentIdx := FindById(filteredImages, images[activeIndex].id);
      StepsAreJsRemainders(currentIdx, |filteredImages|);
      var nextIdx := JsRem(currentIdx + 1, |filteredImages|);
      MemberAtItsId(images, filteredImages[nextIdx]);
      activeIndex := filteredImages[nextIdx].id;
    }

    /** `prev()`: the preceding image of the filtered list, wrapping to its end. */
    method Prev()
      requires Valid() && Visible() != []
      modifies this`activeIndex
      ensures Valid()
      ensures activeIndex == PrevActive(images, Shows(currentFilter, currentQuery), old(activeIndex))
    {
      var filteredImages := Visible();
      var currentIdx := FindById(filteredImages, images[activeIndex].id);
      StepsAreJsRemainders(currentIdx, |filteredImages|);
      var prevIdx := JsRem(currentIdx - 1 + |filteredImages|, |filteredImages|);
      MemberAtItsId(images, filteredImages[prevIdx]);
      activeIndex := filteredImages[prevIdx].id;
    }

    /** The search box handler: the lower-cased input becomes the query. */
    method Search(value: string)
      requires Valid()
      modifies this`currentQuery
      ensures Valid()
      ensures currentQuery == ToLower(value)
    {
      currentQuery := ToLower(value);
    }

    /** A filter button: a category name, or "all". */
    method SelectFilter(filter: string)
      requires Valid()
      modifies this`currentFilter
      ensures Valid()
      ensures currentFilter == filter
    {
      currentFilter := filter;
    }
  }
}
