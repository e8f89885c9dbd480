# Photography portfolio scripts: gallery, full-screen carousel and hero carousel

This project models in Dafny the sequential logic of three browser scripts of a
photography portfolio site, and proves properties of that model.

- `assets/js/gallery.js` builds an image catalogue from a list of file names.
  Each record gets an id equal to its index, a source path under `fotos/`, a
  title, a category and a "place · year" meta line. The category, title and
  meta line all come from heuristics on the file name. The grid shows the
  images that pass the current category filter and the lower-cased search
  query. A lightbox shows one image, with a counter "position of total".
  Its `next` and `prev` buttons wrap around inside the *filtered* list.
- `assets/js/fullscreen-carousel.js` stacks one image element per source.
  Exactly one element is opaque. The previous/next controls cross-fade to the
  neighbouring image. A lock refuses further moves until a deferred callback
  releases it. Autoplay is disabled in the script.
- `assets/js/hero-carousel.js` removes duplicate sources and shuffles them.
  It then alternates two stacked layers on an interval timer. The timer is
  cleared when the page becomes hidden and is started again when the page
  becomes visible.

## Modules

| file | module | what it holds |
|---|---|---|
| `ascii_text.dfy` | `AsciiText` | the JavaScript string builtins the scripts use (`toLowerCase`, `toUpperCase`, `includes`, `split`, `join`, the `replace` pattern that removes digits), over ASCII, with first- and last-position helpers |
| `arith.dfy` | `Arith` | facts about Euclidean `%` for the wrap-around arithmetic |
| `dom.dfy` | `Dom` | the two style values the carousels write: opacity `'1'`/`'0'` and `background-image` |
| `gallery_names.dfy` | `GalleryNames` | `deriveCategory`, `filenameToTitle`, `filenameToMeta` as functions |
| `gallery.dfy` | `Gallery` | the catalogue records and `getFiltered` as functions; lightbox navigation as functions with their lemmas; the module variables `activeIndex`, `currentFilter`, `currentQuery` as class `Lightbox` |
| `fullscreen_carousel.dfy` | `FullscreenCarousel` | the closure state of `initCarousel` as class `Carousel`, with the opacities in an `array` updated in place |
| `hero_carousel.dfy` | `HeroCarousel` | the dedup as a function; the closure state of `startCarousel` as class `Hero`; the frames after `k` cycles as functions with their lemmas |

The timers become explicit events:
- `Carousel.TransitionTimeout` is the deferred lock release.
- `Hero.Tick` is an interval firing.
- `Hero.VisibilityChange(hidden)` is the `visibilitychange` handler.

These behaviours of the source are modelled as written:
- `prev()` from an image the current filter hides lands on the second-to-last
  filtered image. The source then computes `(-1 - 1 + L) % L`. With one shown
  image it computes `-1 % 1`, which in JavaScript is `-0`, that is position 0
  (`Gallery.BackwardPos`, `Gallery.StepsAreJsRemainders`). `next()` from a
  hidden image lands on the first filtered image.
- The lightbox counter shows position 0 for an image the filter hides
  (`Gallery.Lightbox.Counter`).
- The header comment of `assets/js/gallery.js` (lines 7-11) says that for
  `retrato_maria-barcelona-2024_01.jpg` the date and place meta line is
  inferred from the middle parts, "barcelona-2024". The code finds the place
  but loses the date: the part `2024_01` is not a bare year, so the meta line
  is "barcelona" alone (`GalleryNames.NamingExampleMeta`). The comment's
  title "maria barcelona 2024 01" also differs from the code, which keeps
  "retrato" and capitalises each word.
- A `visibilitychange` to visible starts a new interval without clearing the
  one that may still run, so two consecutive visible events leave two
  intervals running (`HeroCarousel.Hero.VisibilityChange`). No idempotence is
  claimed.

## Model

| member | source | states |
|---|---|---|
| AsciiText.ToLower | assets/js/gallery.js:135 | keeps the length, leaves no upper-case letter, lowers each upper-case letter and keeps every other character |
| AsciiText.ToLowerIdempotent | assets/js/gallery.js:135 | lower-casing twice is lower-casing once |
| AsciiText.Contains | assets/js/gallery.js:136-140 | `includes` is true exactly when the word occurs at some position |
| AsciiText.ContainsAny | assets/js/gallery.js:136-140 | a chain of `includes` joined by `||` is true exactly when one of the words occurs |
| AsciiText.Split | assets/js/gallery.js:154 | `split('-')` gives at least one part, no part holds the delimiter, and joining the parts with it gives the input back |
| AsciiText.SplitJoin | assets/js/gallery.js:154 | splitting a join of delimiter-free parts gives the parts back |
| AsciiText.StripDigits | assets/js/gallery.js:157 | removing `\d+` leaves no digit, keeps every other character, and adds nothing |
| AsciiText.StripDigitsAppend | assets/js/gallery.js:157 | digit removal distributes over concatenation, so the surviving characters keep their order |
| AsciiText.StripDigitsOfDigitFree | assets/js/gallery.js:157 | a string without digits is unchanged |
| GalleryNames.DeriveCategory | assets/js/gallery.js:134-142 | the category is always one of bodas, retrato, familia, calle, producto, varios |
| GalleryNames.VariosIffNoKeyword | assets/js/gallery.js:134-142 | "varios" exactly when no keyword of any rule occurs in the lower-cased name |
| GalleryNames.CategoryIgnoresCase | assets/js/gallery.js:135 | a name and its lower-case form get the same category |
| GalleryNames.WeddingRuleWins | assets/js/gallery.js:136 | a wedding keyword gives "bodas" whatever else the name contains (so "casado" with "retrato" is "bodas") |
| GalleryNames.PortraitRuleBeatsLater | assets/js/gallery.js:136-137 | without a wedding keyword, "retrato" wins over the family, street and product rules |
| GalleryNames.StripExtension | assets/js/gallery.js:145 | only the last "." and the non-empty tail after it are removed; the base is a prefix of the name |
| GalleryNames.DropSeparators | assets/js/gallery.js:146 | drops exactly the leading run of "-" and "_" characters |
| GalleryNames.CollapseSeparators | assets/js/gallery.js:146 | the result holds no "-" or "_", is no longer than the input, and equals it when it had none |
| GalleryNames.DropRun | assets/js/gallery.js:146 | a run of separators followed by a non-separator (or nothing) is dropped whole |
| GalleryNames.CollapsePrefix | assets/js/gallery.js:146 | a separator-free prefix passes through the collapse unchanged |
| GalleryNames.CollapseRun | assets/js/gallery.js:146 | a maximal run of "-"/"_" after a separator-free prefix becomes exactly one space |
| GalleryNames.CollapseJoinedWords | assets/js/gallery.js:146 | non-empty separator-free words joined by "-" collapse to the same words joined by single spaces |
| GalleryNames.CollapseKeepsContent | assets/js/gallery.js:146 | collapsing separator runs keeps every character that is neither separator nor space, in order |
| GalleryNames.CapitalizeWords | assets/js/gallery.js:147 | same length; a character changes only when it is a lower-case letter at a word start; every lower-case letter at a word start is upper-cased; each character equals the input's up to case |
| GalleryNames.FilenameToTitle | assets/js/gallery.js:144-149 | the title holds no "-" or "_" and is no longer than the base name, which is no longer than the file name |
| GalleryNames.TitleKeepsContent | assets/js/gallery.js:144-149 | up to case, the title keeps exactly the non-separator, non-space characters of the base name |
| GalleryNames.TitleOfJoinedWords | assets/js/gallery.js:144-149 | for a base name made of non-empty separator-free words joined by "-", the title is, up to case, those words joined by single spaces |
| GalleryNames.FindIndex | assets/js/gallery.js:155-156 | the position of the first part passing the test, or -1 exactly when none does |
| GalleryNames.Find | assets/js/gallery.js:155-156 | `find` gives nothing exactly when no part passes, otherwise the first passing part |
| GalleryNames.NonEmptyPieces | assets/js/gallery.js:159 | `filter(Boolean)` keeps only non-empty pieces of the input, keeps every non-empty piece, and changes nothing when no piece is empty |
| GalleryNames.NonEmptyPiecesAppend | assets/js/gallery.js:159 | `filter(Boolean)` distributes over concatenation, so the kept pieces keep their order |
| GalleryNames.CityPieceNonEmpty | assets/js/gallery.js:156-157 | a part naming a place is still non-empty once its digits are removed |
| GalleryNames.CityPieceEmptyIff | assets/js/gallery.js:156-157 | the place piece is empty exactly when no part names a place |
| GalleryNames.JoinTwoPieces | assets/js/gallery.js:159 | joining the two pieces leaves out an empty one and otherwise puts " · " between them |
| GalleryNames.FilenameToMeta | assets/js/gallery.js:151-160 | the meta line is empty exactly when no "-"-separated part is a 19xx/20xx year and none names a place |
| GalleryNames.PiecesOfDotFreeName | assets/js/gallery.js:153-158 | for a name without "·", the place piece holds no "·" and the year piece is empty or a year |
| GalleryNames.JoinedPiecesNotDangling | assets/js/gallery.js:159 | joining a "·"-free place piece and a year piece gives no " · " at either end |
| GalleryNames.MetaHasNoDanglingSeparator | assets/js/gallery.js:151-160 | for a name without "·", the meta line neither starts nor ends with " · " |
| GalleryNames.DotInNameCanDangle | assets/js/gallery.js:151-160 | for "playa · .jpg" the meta line is "playa · ", which ends with the separator |
| GalleryNames.MetaOfThreeParts | assets/js/gallery.js:151-160 | for a name "x-y-z.ext" with no year part, where y is the first part naming a place and has no digits, the meta line is y alone |
| GalleryNames.NamingExampleMeta | assets/js/gallery.js:151-160 | for "retrato_maria-barcelona-2024_01.jpg" the meta line is "barcelona": the part "2024_01" is not a year |
| Gallery.BuildImages | assets/js/gallery.js:162-178 | one record per file; record k has id k, the file, `fotos/` + file, and that file's title, category and meta line |
| Gallery.BuiltCatalogueIsIndexed | assets/js/gallery.js:162-178 | every built record's id is its index, and every category is a known category |
| Gallery.MemberAtItsId | assets/js/gallery.js:352 | a record of an indexed catalogue sits at the index its id names, so `activeIndex = filteredImages[i].id` is a valid index |
| Gallery.Filter | assets/js/gallery.js:204-208 | every kept record is in the catalogue and passes the test; every catalogue record passing it is kept; increasing ids stay increasing |
| Gallery.FilterIsSubsequence | assets/js/gallery.js:203-209 | the filtered list is the catalogue with some records left out, order kept |
| Gallery.Filtered | assets/js/gallery.js:203-209 | `getFiltered` is an order-preserving subsequence whose records pass both the category and the query test, and it holds every record that passes both |
| Gallery.FilterKeepingAll | assets/js/gallery.js:204-208 | a test every record passes keeps the whole catalogue |
| Gallery.FilterAllShowsEverything | assets/js/gallery.js:203-209 | filter "all" with the empty query shows the whole catalogue |
| Gallery.MetaTextOfBuilt | assets/js/gallery.js:331 | the lightbox meta text `img.meta \|\| img.category` of a built record is that file's meta line, or its category when the meta line is empty, and is never empty |
| Gallery.IndexedIsIncreasing | assets/js/gallery.js:170 | ids equal to indices are increasing |
| Gallery.FindById | assets/js/gallery.js:294 | `findIndex` by id: the first position holding the id, or -1 exactly when none does |
| Gallery.FindOwnId | assets/js/gallery.js:350 | with increasing ids, looking up the id at position k finds k |
| Gallery.JsRem | assets/js/gallery.js:351 | JavaScript's `%`: strictly between -n and n, congruent to the dividend modulo n, the Euclidean remainder for a non-negative dividend, never positive for a non-positive one |
| Gallery.ForwardPos | assets/js/gallery.js:351 | the next filtered position is in range, and is 0 when the active image is not in the list |
| Gallery.BackwardPos | assets/js/gallery.js:359 | the previous filtered position is in range; for a missing image it is L-2, or 0 when L is 1 |
| Gallery.StepsAreJsRemainders | assets/js/gallery.js:348-362 | the two positions are exactly `(currentIdx + 1) % L` and `(currentIdx - 1 + L) % L` under JavaScript's remainder, including currentIdx = -1 |
| Gallery.StepsAreModular | assets/js/gallery.js:348-362 | for a shown image at position p, `next` selects (p+1) mod L and `prev` selects (p-1+L) mod L |
| Gallery.BackwardUndoesForward | assets/js/gallery.js:348-362 | a step back undoes a step forward and the other way round |
| Gallery.ForwardTimes | assets/js/gallery.js:348-354 | k steps forward from p land on (p+k) mod L |
| Gallery.ForwardFullCycle | assets/js/gallery.js:348-354 | L steps forward come back to the start |
| Gallery.NextActive | assets/js/gallery.js:348-354 | `next` moves to a shown catalogue image, the one at the following filtered position |
| Gallery.PrevActive | assets/js/gallery.js:356-362 | `prev` moves to a shown catalogue image, the one at the preceding filtered position |
| Gallery.VisiblePosition | assets/js/gallery.js:339-341 | a shown image has a filtered position, and the record there is that image |
| Gallery.HiddenHasNoPosition | assets/js/gallery.js:340 | an image the filter hides has no filtered position |
| Gallery.PositionOfImageAt | assets/js/gallery.js:350 | looking up the image at filtered position q gives back q |
| Gallery.PrevAfterNext | assets/js/gallery.js:348-362 | from a shown image, `prev` after `next` restores `activeIndex` |
| Gallery.NextAfterPrev | assets/js/gallery.js:348-362 | from a shown image, `next` after `prev` restores `activeIndex` |
| Gallery.NextFromPosition | assets/js/gallery.js:348-354 | `next` from the image at filtered position q shows the image at the following position |
| Gallery.NextInFrom | assets/js/gallery.js:348-354 | in a list with increasing ids, `next` from position q moves to the following position |
| Gallery.NextTimesPosition | assets/js/gallery.js:348-354 | k presses of `next` from filtered position p show the image at (p+k) mod L |
| Gallery.CycleReturnsIn | assets/js/gallery.js:348-354 | L presses of `next` over a list of length L come back to the starting image |
| Gallery.NextActiveIsNextIn | assets/js/gallery.js:348-354 | the catalogue index `next` moves to is the id of the following image in the filtered list, so repeated presses are `NextTimes` over that list |
| Gallery.NextCycleReturns | assets/js/gallery.js:348-354 | from a shown image, as many presses of `next` as there are shown images come back to it |
| Gallery.Lightbox.constructor | assets/js/gallery.js:162-201 | the catalogue is built from the file list; the active index is 0, the filter "all", the query empty |
| Gallery.Lightbox.OpenLightbox | assets/js/gallery.js:293-297 | an id in the catalogue becomes the active index; any other id leaves it unchanged |
| Gallery.Lightbox.Counter | assets/js/gallery.js:339-341 | the total is the filtered length; a shown image's number n is in 1..L and the record at position n-1 is it; a hidden image's number is 0; no counter for an empty catalogue |
| Gallery.Lightbox.Next | assets/js/gallery.js:348-354 | the new active index is `NextActive` of the old one under the current filter and query |
| Gallery.Lightbox.Prev | assets/js/gallery.js:356-362 | the new active index is `PrevActive` of the old one under the current filter and query |
| Gallery.Lightbox.Search | assets/js/gallery.js:374-377 | the query becomes the lower-cased input; the catalogue and the active index are unchanged and the state stays valid |
| Gallery.Lightbox.SelectFilter | assets/js/gallery.js:270-282 | the filter becomes the button's category, or "all"; the catalogue and the active index are unchanged and the state stays valid |
| FullscreenCarousel.NextIndex | assets/js/fullscreen-carousel.js:152 | `(i + 1) % n` is in range: i+1, or 0 after the last image |
| FullscreenCarousel.PrevIndex | assets/js/fullscreen-carousel.js:158 | `(i - 1 + n) % n` is in range: i-1, or n-1 from the first image |
| FullscreenCarousel.PrevUndoesNext | assets/js/fullscreen-carousel.js:151-160 | a step back undoes a step forward and the other way round |
| FullscreenCarousel.SingleImageStays | assets/js/fullscreen-carousel.js:151-160 | with one image both steps give the current index, so `changeImage` refuses them |
| FullscreenCarousel.StepsMove | assets/js/fullscreen-carousel.js:151-160 | with two images or more both steps give another index |
| FullscreenCarousel.InitialOpacities | assets/js/fullscreen-carousel.js:112-116 | one opacity per image, and only the first image is opaque |
| FullscreenCarousel.Crossfade | assets/js/fullscreen-carousel.js:138-139 | the new image becomes opaque, the old one transparent, and every other element keeps its opacity |
| FullscreenCarousel.CrossfadeMovesShown | assets/js/fullscreen-carousel.js:138-142 | the cross-fade hands the single opaque element from the old index to the new one |
| FullscreenCarousel.CrossfadeChangesTwo | assets/js/fullscreen-carousel.js:138-139 | the set of elements whose opacity changes is exactly {old, new} |
| FullscreenCarousel.CrossfadeBack | assets/js/fullscreen-carousel.js:138-139 | fading back restores every opacity |
| FullscreenCarousel.Carousel.constructor | assets/js/fullscreen-carousel.js:99-116 | index 0, unlocked, no release pending, first element opaque and the others transparent |
| FullscreenCarousel.Carousel.ChangeImage | assets/js/fullscreen-carousel.js:125-148 | locked or same index: nothing changes; otherwise the cross-fade, the new index, the lock taken and one more release pending; the element at the index stays the only opaque one |
| FullscreenCarousel.Carousel.TransitionTimeout | assets/js/fullscreen-carousel.js:145-147 | the lock is released and the pending release consumed; at most one release is ever pending |
| FullscreenCarousel.Carousel.NextImage | assets/js/fullscreen-carousel.js:151-154 | locked or a single image: nothing changes; otherwise a cross-fade to `NextIndex` |
| FullscreenCarousel.Carousel.PrevImage | assets/js/fullscreen-carousel.js:157-160 | locked or a single image: nothing changes; otherwise a cross-fade to `PrevIndex` |
| FullscreenCarousel.InitCarousel | assets/js/fullscreen-carousel.js:95-116 | no carousel exactly for an empty image list; otherwise the initial state |
| FullscreenCarousel.NextThenPrev | assets/js/fullscreen-carousel.js:151-160 | next, the lock release, then prev restore the index and every opacity |
| HeroCarousel.Dedup | assets/js/hero-carousel.js:30 | the same set of sources, no duplicates, and no longer than the input |
| HeroCarousel.DedupOfDistinct | assets/js/hero-carousel.js:30 | a list without duplicates is kept as it is |
| HeroCarousel.DedupIdempotent | assets/js/hero-carousel.js:30 | removing duplicates twice is removing them once |
| HeroCarousel.DedupExtends | assets/js/hero-carousel.js:30 | appending sources never reorders the earlier distinct sources: the first occurrence decides the place |
| HeroCarousel.DedupNonEmpty | assets/js/hero-carousel.js:26-30 | a non-empty list has distinct sources, beginning with its first source |
| HeroCarousel.NextSource | assets/js/hero-carousel.js:49 | `shuffled[idx % n]` is one of the sources, and is `shuffled[idx]` while idx < n |
| HeroCarousel.InitialFrame | assets/js/hero-carousel.js:34-71 | idx 0, showA, layer A opaque and showing the first source, layer B transparent with no background, so A is the only opaque layer |
| HeroCarousel.Cycled | assets/js/hero-carousel.js:48-67 | idx grows by one and showA flips; the layer showA named gets the next source and is opaque, the other turns transparent and keeps its background |
| HeroCarousel.AfterCyclesCounters | assets/js/hero-carousel.js:65-66 | after k cycles idx is k and showA says whether k is even |
| HeroCarousel.CycledShape | assets/js/hero-carousel.js:52-64 | after a cycle exactly one layer is opaque: A if showA was set before, and it shows the next source |
| HeroCarousel.AfterCyclesShape | assets/js/hero-carousel.js:48-71 | after k cycles exactly one layer is opaque: A at start-up and after an odd count; it shows the source of the last cycle |
| HeroCarousel.KthCycleShows | assets/js/hero-carousel.js:48-66 | the k-th cycle, counting from 0, shows `shuffled[k mod n]` |
| HeroCarousel.FirstCycleReshowsFirst | assets/js/hero-carousel.js:49-71 | the first cycle shows again, on layer A, the source set at start-up |
| HeroCarousel.Hero.constructor | assets/js/hero-carousel.js:41-74 | the initial frame, one interval running, stored in `timer` |
| HeroCarousel.Hero.Cycle | assets/js/hero-carousel.js:48-67 | the new frame is `Cycled` of the old one, so it stays the frame after idx cycles |
| HeroCarousel.Hero.Tick | assets/js/hero-carousel.js:74 | a running interval firing performs one `cycle` |
| HeroCarousel.Hero.VisibilityChange | assets/js/hero-carousel.js:77-83 | hidden clears the interval in `timer`, so none runs if it was the only one; visible starts a fresh interval and stores it in `timer` |
| HeroCarousel.StartCarousel | assets/js/hero-carousel.js:25-84 | nothing exactly for an empty list; otherwise the shuffled distinct sources, the initial frame and one interval |

## Left out

- DOM construction and styling are not modelled: cards, grid, filter buttons, controls, class names, transition durations, the lightbox show/hide classes and `closeLightbox` with its 150 ms hide. Opacities and backgrounds are values.
- The fields `updateLightbox` writes other than the counter and the meta text are not modelled: image source, alt text, title, description and the download link. Each copies one record field. The meta text falls back to the category when the meta line is empty; `Gallery.MetaTextOfBuilt` states it.
- `photoDescriptions` and the `description` field of a record are left out: a static table without logic.
- Preloading (`preloadImages`, `preload`) is left out: it is network I/O that changes no state the scripts read.
- Real timers and their millisecond constants are left out. The lock release, the interval tick and the visibility change are explicit methods that a caller invokes.
- Where the image lists come from (`pickImages`, `getImages`, the `window.PORTFOLIO_*` globals, `imageFiles`) is left out: the lists are parameters.
- Keyboard and click wiring, the Ctrl/Cmd+K shortcut and `navigator.platform` are left out: they only call the modelled operations.
- The fullscreen carousel's disabled autoplay is not modelled, because the script has none.
- The random shuffle is not modelled, because it is nondeterministic. `HeroCarousel.StartCarousel` takes `shuffled` as a parameter, required to be a permutation of the distinct sources.
- Unicode is left out: `toLowerCase`, `toUpperCase` and the regular expressions are modelled over ASCII letters and digits.
- Gallery.Lightbox.Next: requires a non-empty filtered list, because there the source computes `x % 0` and then reads a field of `undefined`, a crash.
- Gallery.Lightbox.Prev: requires a non-empty filtered list, for the same reason.
- GalleryNames.MetaHasNoDanglingSeparator: proved only for file names without "·". A place part that itself ends in " · " leaves the separator dangling, as `GalleryNames.DotInNameCanDangle` shows for "playa · .jpg".
- HeroCarousel.Hero.VisibilityChange: does not claim that starting is idempotent. A visible event without a prior hidden one adds a second running interval, as the source does.
