/**
 * The full-screen carousel: one image element per source, exactly one of them
 * opaque, moved by the previous/next controls. A move is refused while the
 * previous cross-fade is still running; a deferred callback releases that lock.
 * Autoplay is switched off in the script, so only the controls move it.
 */
module FullscreenCarousel {
  import opened Dom
  import opened Arith

  /** `(currentIndex + 1) % images.length`: one step forward, wrapping to 0 after the last image. */
  function NextIndex(i: nat, n: nat): (r: nat)
    requires i < n
    ensures r < n
    ensures r == if i + 1 == n then 0 else i + 1
  {
    if i + 1 == n then ModUnique(i + 1, n, 1, 0); (i + 1) % n
    else ModUnique(i + 1, n, 0, i + 1); (i + 1) % n
  }

  /** `(currentIndex - 1 + images.length) % images.length`: one step back, wrapping to the last image. */
  function PrevIndex(i: nat, n: nat): (r: nat)
    requires i < n
    ensures r < n
    ensures r == if i == 0 then n - 1 else i - 1
  {
    if i == 0 then ModUnique(i - 1 + n, n, 0, n - 1); (i - 1 + n) % n
    else ModUnique(i - 1 + n, n, 1, i - 1); (i - 1 + n) % n
  }

  /** A step back undoes a step forward, and the other way round. */
  lemma PrevUndoesNext(i: nat, n: nat)
    requires i < n
    ensures PrevIndex(NextIndex(i, n), n) == i
    ensures NextIndex(PrevIndex(i, n), n) == i
  {
  }

  /** With one image both steps land where they started, so `changeImage` refuses them. */
  lemma SingleImageStays(i: nat)
    requires i < 1
    ensures NextIndex(i, 1) == i && PrevIndex(i, 1) == i
  {
  }

  /** With two images or more, both steps move to another image. */
  lemma StepsMove(i: nat, n: nat)
    requires i < n && n > 1
    ensures NextIndex(i, n) != i && PrevIndex(i, n) != i
  {
  }

  /** The element at `current` is the only opaque one. */
  predicate OnlyShown(ops: seq<Opacity>, current: int)
  {
    0 <= current < |ops| && forall k :: 0 <= k < |ops| ==> (ops[k] == Shown <==> k == current)
  }

  /** The opacities the elements are created with: the first image opaque, the others transparent. */
  function InitialOpacities(n: nat): (ops: seq<Opacity>)
    ensures |ops| == n
    ensures n > 0 ==> OnlyShown(ops, 0)
  {
    seq(n, k => if k == 0 then Shown else Hidden)
  }

  /** The cross-fade of `changeImage`: the new image becomes opaque and the old one transparent. */
  function Crossfade(ops: seq<Opacity>, from: nat, to: nat): (r: seq<Opacity>)
    requires from < |ops| && to < |ops| && from != to
    ensures |r| == |ops|
    ensures r[to] == Shown && r[from] == Hidden
    ensures forall k :: 0 <= k < |ops| && k != from && k != to ==> r[k] == ops[k]
  {
    ops[to := Shown][from := Hidden]
  }

  /** The cross-fade hands the single opaque element from `from` to `to`. */
  lemma CrossfadeMovesShown(ops: seq<Opacity>, from: nat, to: nat)
    requires OnlyShown(ops, from) && to < |ops| && from != to
    ensures OnlyShown(Crossfade(ops, from, to), to)
  {
  }

  /** On a carousel showing `from`, the cross-fade changes the opacity of exactly two elements. */
  lemma CrossfadeChangesTwo(ops: seq<Opacity>, from: nat, to: nat)
    requires OnlyShown(ops, from) && to < |ops| && from != to
    ensures (set k | 0 <= k < |ops| && Crossfade(ops, from, to)[k] != ops[k]) == {from, to}
  {
    var r := Crossfade(ops, from, to);
    assert ops[from] == Shown && ops[to] == Hidden;
    assert r[from] != ops[from] && r[to] != ops[to];
  }

  /** Fading back restores every opacity. */
  lemma CrossfadeBack(ops: seq<Opacity>, from: nat, to: nat)
    requires OnlyShown(ops, from) && to < |ops| && from != to
    ensures Crossfade(Crossfade(ops, from, to), to, from) == ops
  {
    var r := Crossfade(Crossfade(ops, from, to), to, from);
    assert forall k :: 0 <= k < |ops| ==> r[k] == ops[k];
  }

  /** The closure state of `initCarousel`. */
  class Carousel {
    const images: seq<string>
    /** The opacity of each image element, by image index. */
    const elements: array<Opacity>
    var currentIndex: nat
    var isTransitioning: bool
    /** Lock-release callbacks scheduled and not yet run. */
    var pendingReleases: nat

    ghost predicate Valid()
      reads this, elements
    {
      elements.Length == |images| > 0
      && OnlyShown(elements[..], currentIndex)
      && pendingReleases == (if isTransitioning then 1 else 0)
    }

    constructor (images: seq<string>)
      requires images != []
      ensures Valid()
      ensures this.images == images && fresh(elements)
      ensures elements[..] == InitialOpacities(|images|)
      ensures currentIndex == 0 && !isTransitioning && pendingReleases == 0
    {
      this.images := images;
      elements := new Opacity[|images|](k => if k == 0 then Shown else Hidden);
      currentIndex := 0;
      isTransitioning := false;
      pendingReleases := 0;
      new;
      assert elements[..] == InitialOpacities(|images|);
    }

    /**
     * `changeImage(newIndex)`: refused while locked or when `newIndex` is already
     * shown; otherwise cross-fades to `newIndex`, takes the lock and schedules its release.
     */
    method ChangeImage(newIndex: nat)
      requires Valid() && newIndex < |images|
      modifies this, elements
      ensures Valid()
      ensures old(isTransitioning) || newIndex == old(currentIndex) ==>
                currentIndex == old(currentIndex) && isTransitioning == old(isTransitioning)
                && pendingReleases == old(pendingReleases) && elements[..] == old(elements[..])
      ensures !old(isTransitioning) && newIndex != old(currentIndex) ==>
                currentIndex == newIndex && isTransitioning && pendingReleases == old(pendingReleases) + 1
                && elements[..] == Crossfade(old(elements[..]), old(currentIndex), newIndex)
    {
      if isTransitioning || newIndex == currentIndex {
        return;
      }
      isTransitioning := true;
      CrossfadeMovesShown(elements[..], currentIndex, newIndex);
      elements[newIndex] := Shown;
      elements[currentIndex] := Hidden;
      currentIndex := newIndex;
      pendingReleases := pendingReleases + 1;
    }

    /** The deferred callback of `changeImage`: the only place the lock is released. */
    method TransitionTimeout()
      requires Valid() && pendingReleases > 0
      modifies this`isTransitioning, this`pendingReleases
      ensures Valid()
      ensures !isTransitioning && pendingReleases == old(pendingReleases) - 1
    {
      isTransitioning := false;
      pendingReleases := pendingReleases - 1;
    }

    /** `nextImage()`: change to the following image, wrapping. */
    method NextImage()
      requires Valid()
      modifies this, elements
      ensures Valid()
      ensures old(isTransitioning) || |images| == 1 ==>
                currentIndex == old(currentIndex) && isTransitioning == old(isTransitioning)
                && pendingReleases == old(pendingReleases) && elements[..] == old(elements[..])
      ensures !old(isTransitioning) && |images| > 1 ==>
                currentIndex == NextIndex(old(currentIndex), |images|) && isTransitioning
                && pendingReleases == old(pendingReleases) + 1
                && elements[..] == Crossfade(old(elements[..]), old(currentIndex), currentIndex)
    {
      var nextIndex := (currentIndex + 1) % |images|;
      assert nextIndex == NextIndex(currentIndex, |images|);
      if |images| > 1 { StepsMove(currentIndex, |images|); }
      ChangeImage(nextIndex);
    }

    /** `prevImage()`: change to the preceding image, wrapping. */
    method PrevImage()
      requires Valid()
      modifies this, elements
      ensures Valid()
      ensures old(isTransitioning) || |images| == 1 ==>
                currentIndex == old(currentIndex) && isTransitioning == old(isTransitioning)
                && pendingReleases == old(pendingReleases) && elements[..] == old(elements[..])
      ensures !old(isTransitioning) && |images| > 1 ==>
                currentIndex == PrevIndex(old(currentIndex), |images|) && isTransitioning
                && pendingReleases == old(pendingReleases) + 1
                && elements[..] == Crossfade(old(elements[..]), old(currentIndex), currentIndex)
    {
      var prevIndex := (currentIndex - 1 + |images|) % |images|;
      assert prevIndex == PrevIndex(currentIndex, |images|);
      if |images| > 1 { StepsMove(currentIndex, |images|); }
      ChangeImage(prevIndex);
    }
  }

  /** `initCarousel`: nothing for an empty image list; otherwise a carousel showing the first image, unlocked. */
  method InitCarousel(images: seq<string>) returns (c: Carousel?)
    ensures c == null <==> images == []
    ensures c != null ==> fresh(c) && fresh(c.elements) && c.Valid() && c.images == images
                          && c.currentIndex == 0 && !c.isTransitioning
                          && c.elements[..] == InitialOpacities(|images|)
  {
    if |images| == 0 {
      return null;
    }
    c := new Carousel(images);
  }

  /**
   * Pressing next, letting the cross-fade finish and pressing previous brings back
   * both the index and every element's opacity.
   */
  method NextThenPrev(c: Carousel)
    requires c.Valid() && !c.isTransitioning
    modifies c, c.elements
    ensures c.Valid()
    ensures c.currentIndex == old(c.currentIndex) && c.elements[..] == old(c.elements[..])
  {
    ghost var start := c.elements[..];
    ghost var from := c.currentIndex;
    c.NextImage();
    if c.pendingReleases > 0 {
      c.TransitionTimeout();
    }
    c.PrevImage();
    PrevUndoesNext(from, |c.images|);
    if |c.images| > 1 {
      CrossfadeBack(start, from, NextIndex(from, |c.images|));
    }
  }
}
