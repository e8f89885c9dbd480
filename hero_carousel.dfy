/**
 * The hero carousel: the distinct image sources in a shuffled order, shown on
 * two stacked layers that take turns, one opaque, one transparent. An
 * interval timer advances it; it is cleared when the page is hidden and a new
 * one is started when the page is shown again.
 */
module HeroCarousel {
  import opened Dom

  /** No source occurs twice. */
  predicate Distinct(s: seq<string>)
  {
    forall i, j :: 0 <= i < j < |s| ==> s[i] != s[j]
  }

  /** `Array.from(new Set(images))`: each source once, in the order of its first occurrence. */
  function Dedup(s: seq<string>): (u: seq<string>)
    ensures forall x :: x in u <==> x in s
    ensures Distinct(u)
    ensures |u| <= |s|
    decreases |s|
  {
    if s == [] then []
    else
      var init, last := s[..|s| - 1], s[|s| - 1];
      assert s == init + [last];
      var rest := Dedup(init);
      if last in rest then rest else rest + [last]
  }

  /** A list without duplicates is kept as it is. */
  lemma {:induction false} DedupOfDistinct(s: seq<string>)
    requires Distinct(s)
    ensures Dedup(s) == s
    decreases |s|
  {
    if s != [] {
      var init := s[..|s| - 1];
      DedupOfDistinct(init);
      assert s[|s| - 1] !in init;
      assert s == init + [s[|s| - 1]];
    }
  }

  lemma DedupIdempotent(s: seq<string>)
    ensures Dedup(Dedup(s)) == Dedup(s)
  {
    DedupOfDistinct(Dedup(s));
  }

  /** Sources added later never reorder the earlier ones: the first occurrence decides the place. */
  lemma {:induction false} DedupExtends(s: seq<string>, t: seq<string>)
    ensures Dedup(s) <= Dedup(s + t)
    decreases |t|
  {
    if t != [] {
      var init := t[..|t| - 1];
      DedupExtends(s, init);
      assert (s + t)[..|s + t| - 1] == s + init;
    } else {
      assert s + t == s;
    }
  }

  /** A non-empty source list has a non-empty set of distinct sources, beginning with its first source. */
  lemma DedupNonEmpty(s: seq<string>)
    requires s != []
    ensures Dedup(s) != [] && Dedup(s)[0] == s[0]
  {
    DedupExtends([s[0]], s[1..]);
    assert [s[0]] + s[1..] == s;
  }

  /** One of the two stacked layers: its background and its opacity. */
  datatype Layer = Layer(background: Background, opacity: Opacity)

  /** The values `cycle` reads and writes: `idx`, `showA` and the two layers. */
  datatype Frame = Frame(idx: nat, showA: bool, layerA: Layer, layerB: Layer)

  /** Exactly one of the two layers is opaque. */
  predicate OneLayerShown(f: Frame)
  {
    (f.layerA.opacity == Shown) != (f.layerB.opacity == Shown)
  }

  /** The source `cycle` shows next: `shuffled[idx % shuffled.length]`. */
  function NextSource(shuffled: seq<string>, idx: nat): (src: string)
    requires shuffled != []
    ensures src in shuffled
    ensures idx < |shuffled| ==> src == shuffled[idx]
  {
    shuffled[idx % |shuffled|]
  }

  /** The state after start-up: layer A shows the first source, layer B is blank and transparent. */
  function InitialFrame(shuffled: seq<string>): (f: Frame)
    requires shuffled != []
    ensures f.idx == 0 && f.showA && OneLayerShown(f)
    ensures f.layerA == Layer(Url(shuffled[0]), Shown)
    ensures f.layerB == Layer(NoImage, Hidden)
  {
    Frame(0, true, Layer(Url(shuffled[0]), Shown), Layer(NoImage, Hidden))
  }

  /**
   * One `cycle()`: the layer `showA` names gets the next source and becomes
   * opaque, the other becomes transparent and keeps its background; then
   * `showA` flips and `idx` grows by one.
   */
  function Cycled(shuffled: seq<string>, f: Frame): (g: Frame)
    requires shuffled != []
    ensures g.idx == f.idx + 1 && g.showA == !f.showA
    ensures OneLayerShown(g)
    ensures f.showA ==> g.layerA == Layer(Url(NextSource(shuffled, f.idx)), Shown)
                        && g.layerB == f.layerB.(opacity := Hidden)
    ensures !f.showA ==> g.layerB == Layer(Url(NextSource(shuffled, f.idx)), Shown)
                         && g.layerA == f.layerA.(opacity := Hidden)
  {
    var nextSrc := NextSource(shuffled, f.idx);
    if f.showA then
      Frame(f.idx + 1, false, Layer(Url(nextSrc), Shown), f.layerB.(opacity := Hidden))
    else
      Frame(f.idx + 1, true, f.layerA.(opacity := Hidden), Layer(Url(nextSrc), Shown))
  }

  /** The state after `k` calls of `cycle`. */
  function AfterCycles(shuffled: seq<string>, k: nat): Frame
    requires shuffled != []
  {
    if k == 0 then InitialFrame(shuffled) else Cycled(shuffled, AfterCycles(shuffled, k - 1))
  }

  /** The background of the opaque layer. */
  function ShownBackground(f: Frame): Background
  {
    if f.layerA.opacity == Shown then f.layerA.background else f.layerB.background
  }

  /** After `k` cycles `idx` is `k`, and `showA` says whether `k` is even. */
  lemma {:induction false} AfterCyclesCounters(shuffled: seq<string>, k: nat)
    requires shuffled != []
    ensures AfterCycles(shuffled, k).idx == k
    ensures AfterCycles(shuffled, k).showA == (k % 2 == 0)
  {
    if k > 0 {
      AfterCyclesCounters(shuffled, k - 1);
      ParityStep(k);
    }
  }

  /**
   * Exactly one layer is opaque: layer A at start-up and after an odd number of
   * cycles, layer B after an even number; and it shows the source of the last cycle.
   */
  lemma {:induction false} AfterCyclesShape(shuffled: seq<string>, k: nat)
    requires shuffled != []
    ensures OneLayerShown(AfterCycles(shuffled, k))
    ensures AfterCycles(shuffled, k).layerA.opacity == Shown <==> k == 0 || k % 2 == 1
    ensures ShownBackground(AfterCycles(shuffled, k))
            == Url(if k == 0 then shuffled[0] else NextSource(shuffled, k - 1))
  {
    if k > 0 {
      AfterCyclesCounters(shuffled, k - 1);
      CycledShape(shuffled, AfterCycles(shuffled, k - 1));
      ParityStep(k);
    }
  }

  lemma ParityStep(k: nat)
    requires k > 0
    ensures (k % 2 == 0) == ((k - 1) % 2 == 1)
  {
  }

  /** After one cycle the layer `showA` named is the opaque one, showing the next source. */
  lemma CycledShape(shuffled: seq<string>, f: Frame)
    requires shuffled != []
    ensures OneLayerShown(Cycled(shuffled, f))
    ensures Cycled(shuffled, f).layerA.opacity == Shown <==> f.showA
    ensures ShownBackground(Cycled(shuffled, f)) == Url(NextSource(shuffled, f.idx))
  {
  }

  /** The `k`-th cycle, counting from 0, shows `shuffled[k mod n]`. */
  lemma KthCycleShows(shuffled: seq<string>, k: nat)
    requires shuffled != []
    ensures ShownBackground(AfterCycles(shuffled, k + 1)) == Url(shuffled[k % |shuffled|])
  {
    AfterCyclesShape(shuffled, k + 1);
  }

  /** The first cycle shows again, on layer A, the source set at start-up. */
  lemma FirstCycleReshowsFirst(shuffled: seq<string>)
    requires shuffled != []
    ensures AfterCycles(shuffled, 1).layerA == InitialFrame(shuffled).layerA
  {
  }

  /** The closure state of `startCarousel`. */
  class Hero {
    const shuffled: seq<string>
    var idx: nat
    var showA: bool
    var layerA: Layer
    var layerB: Layer
    /** The handle last returned by `setInterval` and stored in `timer`. */
    var timer: nat
    /** The handles of the intervals that are running. */
    var intervals: set<nat>
    /** The handle the next `setInterval` returns. */
    var nextHandle: nat

    function CurrentFrame(): Frame
      reads this
    {
      Frame(idx, showA, layerA, layerB)
    }

    /** The layers hold exactly what `idx` cycles from start-up produce; handles are never reused. */
    ghost predicate Valid()
      reads this
    {
      shuffled != []
      && CurrentFrame() == AfterCycles(shuffled, idx)
      && timer < nextHandle
      && forall h :: h in intervals ==> h < nextHandle
    }

    constructor (shuffled: seq<string>)
      requires shuffled != []
      ensures Valid()
      ensures this.shuffled == shuffled && CurrentFrame() == InitialFrame(shuffled)
      ensures intervals == {timer}
    {
      this.shuffled := shuffled;
      idx := 0;
      showA := true;
      layerA := Layer(Url(shuffled[0]), Shown);
      layerB := Layer(NoImage, Hidden);
      timer := 0;
      intervals := {0};
      nextHandle := 1;
    }

    /** `cycle()`. */
    method Cycle()
      requires Valid()
      modifies this`idx, this`showA, this`layerA, this`layerB
      ensures Valid()
      ensures CurrentFrame() == Cycled(shuffled, old(CurrentFrame()))
    {
      var nextSrc := shuffled[idx % |shuffled|];
      if showA {
        layerA := Layer(Url(nextSrc), layerA.opacity);
        layerA := layerA.(opacity := Shown);
        layerB := layerB.(opacity := Hidden);
      } else {
        layerB := Layer(Url(nextSrc), layerB.opacity);
        layerA := layerA.(opacity := Hidden);
        layerB := layerB.(opacity := Shown);
      }
      showA := !showA;
      idx := idx + 1;
    }

    /** A running interval fires: it calls `cycle`. */
    method Tick(h: nat)
      requires Valid() && h in intervals
      modifies this`idx, this`showA, this`layerA, this`layerB
      ensures Valid()
      ensures CurrentFrame() == Cycled(shuffled, old(CurrentFrame()))
    {
      Cycle();
    }

    /**
     * The `visibilitychange` handler. Hidden clears the interval in `timer`;
     * shown starts a new interval and stores it in `timer`, without clearing
     * the one that may still be running.
     */
    method VisibilityChange(hidden: bool)
      requires Valid()
      modifies this`timer, this`intervals, this`nextHandle
      ensures Valid()
      ensures hidden ==> intervals == old(intervals) - {old(timer)} && timer == old(timer)
      ensures !hidden ==> timer !in old(intervals) && intervals == old(intervals) + {timer}
      ensures hidden && old(intervals) <= {old(timer)} ==> intervals == {}
      ensures !hidden && old(intervals) == {} ==> intervals == {timer}
    {
      if hidden {
        intervals := intervals - {timer};
      } else {
        timer := nextHandle;
        intervals := intervals + {timer};
        nextHandle := nextHandle + 1;
      }
    }
  }

  /**
   * `startCarousel`: nothing for an empty source list; otherwise the distinct
   * sources in the order `shuffled` (any permutation of them), layer A showing
   * the first, and one interval running.
   */
  method StartCarousel(images: seq<string>, shuffled: seq<string>) returns (h: Hero?)
    requires multiset(shuffled) == multiset(Dedup(images))
    ensures h == null <==> images == []
    ensures h != null ==> fresh(h) && h.Valid() && h.shuffled == shuffled
                          && h.CurrentFrame() == InitialFrame(shuffled) && h.intervals == {h.timer}
  {
    if |images| == 0 {
      return null;
    }
    DedupNonEmpty(images);
    assert images[0] in multiset(shuffled);
    h := new Hero(shuffled);
  }
}
