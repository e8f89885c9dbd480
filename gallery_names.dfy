/**
 * The filename heuristics of the gallery: a category from keywords, a
 * human title, and a "place · year" meta line, all derived from the file
 * name of a photograph (assets/js/gallery.js, deriveCategory,
 * filenameToTitle, filenameToMeta).
 */
module GalleryNames {
  import opened AsciiText

  datatype Option<T> = None | Some(value: T)

  // ---------------------------------------------------------------------
  // Category
  // ---------------------------------------------------------------------

  /** Every value deriveCategory can return. */
  const Categories: seq<string> := ["bodas", "retrato", "familia", "calle", "producto", "varios"]

  /** Keywords of the five rules, tried in this order. */
  const BodasWords: seq<string> := ["boda", "casado", "anillo"]
  const RetratoWords: seq<string> := ["retrato"]
  const FamiliaWords: seq<string> := ["embaraz"]
  const CalleWords: seq<string> := ["playa", "calle"]
  const ProductoWords: seq<string> := ["producto", "hamburguesa", "pizza", "marca"]

  const Keywords: seq<string> := BodasWords + RetratoWords + FamiliaWords + CalleWords + ProductoWords

  /** The first rule whose keyword occurs in the lower-cased name decides; otherwise "varios". */
  function DeriveCategory(filename: string): (r: string)
    ensures r in Categories
  {
    var name := ToLower(filename);
    if ContainsAny(name, BodasWords) then "bodas"
    else if ContainsAny(name, RetratoWords) then "retrato"
    else if ContainsAny(name, FamiliaWords) then "familia"
    else if ContainsAny(name, CalleWords) then "calle"
    else if ContainsAny(name, ProductoWords) then "producto"
    else "varios"
  }

  lemma ContainsAnyAppend(s: string, a: seq<string>, b: seq<string>)
    ensures ContainsAny(s, a + b) <==> ContainsAny(s, a) || ContainsAny(s, b)
  {
    if ContainsAny(s, a + b) {
      var k :| 0 <= k < |a + b| && Contains(s, (a + b)[k]);
      if k >= |a| { assert (a + b)[k] == b[k - |a|]; }
    }
    if ContainsAny(s, a) {
      var k :| 0 <= k < |a| && Contains(s, a[k]);
      assert (a + b)[k] == a[k];
    }
    if ContainsAny(s, b) {
      var k :| 0 <= k < |b| && Contains(s, b[k]);
      assert (a + b)[|a| + k] == b[k];
    }
  }

  /** "varios" is returned exactly when no keyword of any rule occurs. */
  lemma VariosIffNoKeyword(filename: string)
    ensures DeriveCategory(filename) == "varios" <==> !ContainsAny(ToLower(filename), Keywords)
  {
    var name := ToLower(filename);
    ContainsAnyAppend(name, BodasWords, RetratoWords);
    ContainsAnyAppend(name, BodasWords + RetratoWords, FamiliaWords);
    ContainsAnyAppend(name, BodasWords + RetratoWords + FamiliaWords, CalleWords);
    ContainsAnyAppend(name, BodasWords + RetratoWords + FamiliaWords + CalleWords, ProductoWords);
  }

  /** Matching ignores letter case: the name and its lower-case form get the same category. */
  lemma CategoryIgnoresCase(filename: string)
    ensures DeriveCategory(ToLower(filename)) == DeriveCategory(filename)
  {
    ToLowerIdempotent(filename);
  }

  /** The wedding rule is tried first: a wedding keyword wins over every later rule. */
  lemma WeddingRuleWins(filename: string, k: nat)
    requires k < |BodasWords| && Contains(ToLower(filename), BodasWords[k])
    ensures DeriveCategory(filename) == "bodas"
  {
  }

  /** The portrait rule beats the family, street and product rules. */
  lemma PortraitRuleBeatsLater(filename: string)
    requires !ContainsAny(ToLower(filename), BodasWords) && Contains(ToLower(filename), "retrato")
    ensures DeriveCategory(filename) == "retrato"
  {
    assert RetratoWords[0] == "retrato";
  }

  // ---------------------------------------------------------------------
  // Title
  // ---------------------------------------------------------------------

  /** `filename.replace(/\.[^.]+$/, '')`: drop the last "." and the non-empty tail after it. */
  function StripExtension(filename: string): (base: string)
    ensures base <= filename
    ensures base != filename ==>
      |filename| - |base| >= 2 && filename[|base|] == '.' && '.' !in filename[|base| + 1..]
    ensures base == filename ==> '.' !in filename || filename[|filename| - 1] == '.'
  {
    var k := LastIndexOf(filename, '.');
    if 0 <= k < |filename| - 1 then filename[..k] else filename
  }

  predicate IsSeparator(c: char) { c == '-' || c == '_' }

  /** Drops the run of separators at the front of `s`. */
  function DropSeparators(s: string): (r: string)
    ensures |r| <= |s| && r == s[|s| - |r|..]
    ensures r == [] || !IsSeparator(r[0])
    ensures forall i :: 0 <= i < |s| - |r| ==> IsSeparator(s[i])
  {
    if s != [] && IsSeparator(s[0]) then
      var r := DropSeparators(s[1..]);
      assert s[1..][|s| - 1 - |r|..] == s[|s| - |r|..];
      assert forall i :: 1 <= i < |s| - |r| ==> s[i] == s[1..][i - 1];
      r
    else s
  }

  /** `s.replace(/[-_]+/g, ' ')`: every maximal run of "-" and "_" becomes one space. */
  function CollapseSeparators(s: string): (r: string)
    ensures |r| <= |s|
    ensures forall i :: 0 <= i < |r| ==> !IsSeparator(r[i])
    ensures (forall i :: 0 <= i < |s| ==> !IsSeparator(s[i])) ==> r == s
    decreases |s|
  {
    if s == [] then []
    else if IsSeparator(s[0]) then [' '] + CollapseSeparators(DropSeparators(s[1..]))
    else [s[0]] + CollapseSeparators(s[1..])
  }

  /** What a title must keep: the characters other than separators and spaces. */
  function Content(s: string): string
  {
    if s == [] then []
    else if IsSeparator(s[0]) || s[0] == ' ' then Content(s[1..])
    else [s[0]] + Content(s[1..])
  }

  lemma {:induction false} ContentOfSeparatorRun(s: string)
    ensures Content(DropSeparators(s)) == Content(s)
    decreases |s|
  {
    if s != [] && IsSeparator(s[0]) {
      ContentOfSeparatorRun(s[1..]);
    }
  }

  /** Collapsing separator runs keeps every other character, in order. */
  lemma {:induction false} CollapseKeepsContent(s: string)
    ensures Content(CollapseSeparators(s)) == Content(s)
    decreases |s|
  {
    if s == [] {
    } else if IsSeparator(s[0]) {
      var t := DropSeparators(s[1..]);
      CollapseKeepsContent(t);
      ContentOfSeparatorRun(s[1..]);
      assert Content([' '] + CollapseSeparators(t)) == Content(CollapseSeparators(t));
    } else {
      CollapseKeepsContent(s[1..]);
      assert ([s[0]] + CollapseSeparators(s[1..]))[1..] == CollapseSeparators(s[1..]);
    }
  }

  /** Position `i` of `s` is where the regular expression `\b(\w)` matches. */
  predicate AtWordStart(s: string, i: int)
    requires 0 <= i < |s|
  {
    IsWordChar(s[i]) && (i == 0 || !IsWordChar(s[i - 1]))
  }

  /**
   * `s.replace(/\b(\w)/g, (m, c) => c.toUpperCase())`: the first word character
   * after a word boundary is upper-cased; nothing else changes.
   */
  function CapitalizeWords(s: string): (r: string)
    ensures |r| == |s|
    ensures forall i :: 0 <= i < |s| && r[i] != s[i] ==> IsLower(s[i]) && AtWordStart(s, i)
    ensures forall i :: 0 <= i < |s| && AtWordStart(s, i) ==> !IsLower(r[i])
    ensures forall i :: 0 <= i < |s| ==> LowerChar(r[i]) == LowerChar(s[i])
  {
    seq(|s|, i requires 0 <= i < |s| => if AtWordStart(s, i) then UpperChar(s[i]) else s[i])
  }

  lemma {:induction false} ContentOfLower(s: string)
    ensures Content(ToLower(s)) == ToLower(Content(s))
    decreases |s|
  {
    if s != [] {
      ContentOfLower(s[1..]);
      ToLowerCons(s[0], s[1..]);
      assert [s[0]] + s[1..] == s;
      var t := ToLower(s);
      assert t == [LowerChar(s[0])] + ToLower(s[1..]);
      assert t[1..] == ToLower(s[1..]);
      if !(IsSeparator(s[0]) || s[0] == ' ') {
        ToLowerCons(s[0], Content(s[1..]));
      }
    }
  }

  /** The title shown for a photograph. */
  function FilenameToTitle(filename: string): (title: string)
    ensures forall i :: 0 <= i < |title| ==> title[i] != '-' && title[i] != '_'
    ensures |title| <= |StripExtension(filename)| <= |filename|
  {
    CapitalizeWords(CollapseSeparators(StripExtension(filename)))
  }

  /** Up to letter case, the title keeps exactly the non-separator, non-space characters of the base name. */
  lemma TitleKeepsContent(filename: string)
    ensures ToLower(Content(FilenameToTitle(filename))) == ToLower(Content(StripExtension(filename)))
  {
    var collapsed := CollapseSeparators(StripExtension(filename));
    var title := CapitalizeWords(collapsed);
    assert ToLower(title) == ToLower(collapsed);
    ContentOfLower(title);
    ContentOfLower(collapsed);
    CollapseKeepsContent(StripExtension(filename));
  }

  /** No character of `s` is a separator. */
  predicate SeparatorFree(s: string)
  {
    forall i :: 0 <= i < |s| ==> !IsSeparator(s[i])
  }

  /** One step of the collapsing, from the front. */
  lemma CollapseStep(s: string)
    requires s != []
    ensures CollapseSeparators(s) == if IsSeparator(s[0]) then [' '] + CollapseSeparators(DropSeparators(s[1..]))
                                     else [s[0]] + CollapseSeparators(s[1..])
  {
  }

  /** A separator-free prefix passes through the collapsing unchanged. */
  lemma {:induction false} CollapsePrefix(a: string, rest: string)
    requires SeparatorFree(a)
    ensures CollapseSeparators(a + rest) == a + CollapseSeparators(rest)
    decreases |a|
  {
    if a == [] {
      assert a + rest == rest;
    } else {
      CollapseKeptHead(a, rest);
      CollapsePrefix(a[1..], rest);
      ConsOfTail(a, CollapseSeparators(rest));
    }
  }

  /** A run of separators in front of a part that does not begin with one is dropped whole. */
  lemma {:induction false} DropRun(run: string, b: string)
    requires forall i :: 0 <= i < |run| ==> IsSeparator(run[i])
    requires b == [] || !IsSeparator(b[0])
    ensures DropSeparators(run + b) == b
    decreases |run|
  {
    if run == [] {
      assert run + b == b;
    } else {
      TailOfAppend(run, b);
      DropRun(run[1..], b);
    }
  }

  /** A maximal run of "-" and "_" between two parts becomes exactly one space. */
  lemma CollapseRun(a: string, run: string, b: string)
    requires SeparatorFree(a)
    requires run != [] && forall i :: 0 <= i < |run| ==> IsSeparator(run[i])
    requires b == [] || !IsSeparator(b[0])
    ensures CollapseSeparators(a + run + b) == a + " " + CollapseSeparators(b)
  {
    AppendAssoc(a, run, b);
    CollapsePrefix(a, run + b);
    CollapseLeadingRun(run, b);
    AppendAssoc(a, " ", CollapseSeparators(b));
  }

  lemma CollapseKeptHead(a: string, rest: string)
    requires a != [] && !IsSeparator(a[0])
    ensures CollapseSeparators(a + rest) == [a[0]] + CollapseSeparators(a[1..] + rest)
  {
    TailOfAppend(a, rest);
    CollapseStep(a + rest);
  }

  lemma CollapseLeadingRun(run: string, b: string)
    requires run != [] && forall i :: 0 <= i < |run| ==> IsSeparator(run[i])
    requires b == [] || !IsSeparator(b[0])
    ensures CollapseSeparators(run + b) == " " + CollapseSeparators(b)
  {
    TailOfAppend(run, b);
    DropRun(run[1..], b);
    CollapseStep(run + b);
  }

  /** A joined list starts with the first character of its first part. */
  lemma JoinHead(parts: seq<string>, sep: string)
    requires |parts| >= 1 && parts[0] != []
    ensures Join(parts, sep) != [] && Join(parts, sep)[0] == parts[0][0]
  {
  }

  /** Words joined by "-" come out joined by single spaces. */
  lemma {:induction false} CollapseJoinedWords(words: seq<string>)
    requires |words| >= 1
    requires forall k :: 0 <= k < |words| ==> words[k] != [] && SeparatorFree(words[k])
    ensures CollapseSeparators(Join(words, "-")) == Join(words, " ")
    decreases |words|
  {
    if |words| == 1 {
      CollapsePrefix(words[0], []);
      assert words[0] + [] == words[0];
    } else {
      var rest := Join(words[1..], "-");
      JoinHead(words[1..], "-");
      assert IsSeparator("-"[0]);
      CollapseRun(words[0], "-", rest);
      CollapseJoinedWords(words[1..]);
    }
  }

  /**
   * A base name made of words joined by "-" gets, up to letter case, the title
   * of those words joined by single spaces.
   */
  lemma TitleOfJoinedWords(filename: string, words: seq<string>)
    requires StripExtension(filename) == Join(words, "-")
    requires |words| >= 1
    requires forall k :: 0 <= k < |words| ==> words[k] != [] && SeparatorFree(words[k])
    ensures ToLower(FilenameToTitle(filename)) == ToLower(Join(words, " "))
  {
    CollapseJoinedWords(words);
    var collapsed := CollapseSeparators(StripExtension(filename));
    assert ToLower(CapitalizeWords(collapsed)) == ToLower(collapsed);
  }

  // ---------------------------------------------------------------------
  // Meta line
  // ---------------------------------------------------------------------

  const MetaSeparator: string := " · "

  /** Words that mark a part as a place (matched case-sensitively). */
  const CityWords: seq<string> := ["barcelona", "madrid", "sevilla", "valencia", "bilbao", "playa"]

  /** `/^(19|20)\d{2}$/.test(p)` */
  predicate IsYear(p: string)
  {
    |p| == 4 && ((p[0] == '1' && p[1] == '9') || (p[0] == '2' && p[1] == '0')) && IsDigit(p[2]) && IsDigit(p[3])
  }

  /** `/barcelona|madrid|sevilla|valencia|bilbao|playa/.test(p)` */
  predicate IsCityPart(p: string)
  {
    ContainsAny(p, CityWords)
  }

  /** The position of the first part passing `test`, or -1 (`findIndex`). */
  function FindIndex(parts: seq<string>, test: string -> bool): (k: int)
    ensures -1 <= k < |parts|
    ensures k == -1 <==> forall j :: 0 <= j < |parts| ==> !test(parts[j])
    ensures 0 <= k ==> test(parts[k]) && forall j :: 0 <= j < k ==> !test(parts[j])
  {
    if parts == [] then -1
    else if test(parts[0]) then 0
    else
      var k := FindIndex(parts[1..], test);
      if k == -1 then -1 else k + 1
  }

  /** `parts.find(test)`: the first part passing `test`. */
  function Find(parts: seq<string>, test: string -> bool): (r: Option<string>)
    ensures r.None? <==> forall k :: 0 <= k < |parts| ==> !test(parts[k])
    ensures r.Some? ==> r.value == parts[FindIndex(parts, test)]
  {
    var k := FindIndex(parts, test);
    if k == -1 then None else Some(parts[k])
  }

  /** `base.split('-')` of the base name. */
  function MetaParts(filename: string): seq<string>
  {
    Split(StripExtension(filename), '-')
  }

  function CityPiece(filename: string): string
  {
    var city := Find(MetaParts(filename), IsCityPart);
    if city.Some? then StripDigits(city.value) else ""
  }

  function YearPiece(filename: string): string
  {
    var year := Find(MetaParts(filename), IsYear);
    if year.Some? then year.value else ""
  }

  /** `.filter(Boolean)`: the non-empty strings, in order. */
  function NonEmptyPieces(pieces: seq<string>): (r: seq<string>)
    ensures |r| <= |pieces|
    ensures forall k :: 0 <= k < |r| ==> r[k] != "" && r[k] in pieces
    ensures forall k :: 0 <= k < |pieces| && pieces[k] != "" ==> pieces[k] in r
    ensures (forall k :: 0 <= k < |pieces| ==> pieces[k] != "") ==> r == pieces
  {
    if pieces == [] then []
    else
      var rest := NonEmptyPieces(pieces[1..]);
      assert forall k :: 1 <= k < |pieces| ==> pieces[k] == pieces[1..][k - 1];
      assert forall x :: x in pieces[1..] ==> x in pieces;
      if pieces[0] == "" then rest
      else
        assert [pieces[0]] + pieces[1..] == pieces;
        [pieces[0]] + rest
  }

  /** Empty pieces are dropped piece by piece: the kept ones keep their order. */
  lemma {:induction false} NonEmptyPiecesAppend(a: seq<string>, b: seq<string>)
    ensures NonEmptyPieces(a + b) == NonEmptyPieces(a) + NonEmptyPieces(b)
    decreases |a|
  {
    if a == [] {
      assert a + b == b;
    } else {
      assert (a + b)[0] == a[0] && (a + b)[1..] == a[1..] + b;
      NonEmptyPiecesAppend(a[1..], b);
    }
  }

  /** A part naming a place is not empty once its digits are removed. */
  lemma CityPieceNonEmpty(p: string)
    requires IsCityPart(p)
    ensures StripDigits(p) != ""
  {
    var k :| 0 <= k < |CityWords| && Contains(p, CityWords[k]);
    var i :| OccursAt(p, CityWords[k], i);
    assert p[i] == p[i..i + |CityWords[k]|][0] == CityWords[k][0];
    assert !IsDigit(p[i]);
  }

  /** The meta line: the digit-free place part and the year part, joined by " · ", empty pieces omitted. */
  function FilenameToMeta(filename: string): (r: string)
    ensures r == "" <==> forall k :: 0 <= k < |MetaParts(filename)| ==>
                           !IsYear(MetaParts(filename)[k]) && !IsCityPart(MetaParts(filename)[k])
  {
    CityPieceEmptyIff(filename);
    JoinTwoPieces(CityPiece(filename), YearPiece(filename));
    Join(NonEmptyPieces([CityPiece(filename), YearPiece(filename)]), MetaSeparator)
  }

  /** Joining two pieces with the empty ones left out. */
  lemma JoinTwoPieces(first: string, second: string)
    ensures Join(NonEmptyPieces([first, second]), MetaSeparator) ==
      if first == "" then second
      else if second == "" then first
      else first + MetaSeparator + second
  {
    assert [first, second][1..] == [second];
    assert NonEmptyPieces([second]) == if second == "" then [] else [second] by {
      assert [second][1..] == [];
    }
    if first != "" && second != "" {
      assert NonEmptyPieces([first, second]) == [first, second];
      assert [first, second][1..] == [second];
    }
  }

  lemma CityPieceEmptyIff(filename: string)
    ensures CityPiece(filename) == "" <==> Find(MetaParts(filename), IsCityPart).None?
  {
    var c := Find(MetaParts(filename), IsCityPart);
    if c.Some? { CityPieceNonEmpty(c.value); }
  }

  lemma {:induction false} CharOfPartInJoin(parts: seq<string>, sep: string, k: nat, c: char)
    requires k < |parts| && c in parts[k]
    ensures c in Join(parts, sep)
    decreases |parts|
  {
    if |parts| > 1 {
      if k > 0 {
        CharOfPartInJoin(parts[1..], sep, k - 1, c);
      }
    }
  }

  predicate EndsWith(s: string, suffix: string)
  {
    |suffix| <= |s| && s[|s| - |suffix|..] == suffix
  }

  /** Without a "·" in the file name, the place piece has none, and the year piece is empty or a year. */
  lemma PiecesOfDotFreeName(filename: string)
    requires '·' !in filename
    ensures '·' !in CityPiece(filename)
    ensures YearPiece(filename) == "" || IsYear(YearPiece(filename))
  {
    var parts := MetaParts(filename);
    var base := StripExtension(filename);
    assert forall i :: 0 <= i < |base| ==> base[i] == filename[i];
    forall k | 0 <= k < |parts| ensures '·' !in parts[k] {
      if '·' in parts[k] { CharOfPartInJoin(parts, "-", k, '·'); }
    }
  }

  /** Joining a "·"-free place piece and a year piece leaves no separator at either end. */
  lemma JoinedPiecesNotDangling(city: string, year: string)
    requires '·' !in city && (year == "" || IsYear(year))
    ensures !(MetaSeparator <= Join(NonEmptyPieces([city, year]), MetaSeparator))
    ensures !EndsWith(Join(NonEmptyPieces([city, year]), MetaSeparator), MetaSeparator)
  {
    JoinTwoPieces(city, year);
    var r := Join(NonEmptyPieces([city, year]), MetaSeparator);
    if city != "" && year != "" {
      assert r == city + MetaSeparator + year;
      assert r[1] == (if |city| >= 2 then city[1] else ' ');
      assert r[|r| - 2] == year[2];
    } else if city != "" {
      assert r == city;
      if |r| >= 3 { assert r[1] in city; assert r[|r| - 2] in city; }
    }
  }

  /**
   * When the file name holds no "·", the meta line never begins or ends with the
   * separator; only a place part that carried a "·" of its own could produce one.
   */
  lemma MetaHasNoDanglingSeparator(filename: string)
    requires '·' !in filename
    ensures !(MetaSeparator <= FilenameToMeta(filename))
    ensures !EndsWith(FilenameToMeta(filename), MetaSeparator)
  {
    PiecesOfDotFreeName(filename);
    JoinedPiecesNotDangling(CityPiece(filename), YearPiece(filename));
  }

  /** The example file name below: a place part that ends in " · ". */
  const DanglingExample: string := "playa · .jpg"

  lemma DanglingExampleParts()
    ensures MetaParts(DanglingExample) == ["playa · "]
  {
    ExampleBase();
    var p := "playa · ";
    assert forall i :: 0 <= i < |p| ==> p[i] != '-';
    SplitWithoutDelimiter(p, '-');
  }

  lemma ExampleBase()
    ensures StripExtension(DanglingExample) == "playa · "
  {
    var f := DanglingExample;
    assert f[8] == '.' && '.' !in f[9..];
    assert LastIndexOf(f, '.') == 8;
  }

  lemma DanglingExamplePieces()
    ensures CityPiece(DanglingExample) == "playa · " && YearPiece(DanglingExample) == ""
  {
    DanglingExampleParts();
    var p := "playa · ";
    assert OccursAt(p, CityWords[5], 0);
    assert IsCityPart(p);
    assert !IsYear(p);
    ExamplePlaceHasNoDigits();
  }

  lemma ExamplePlaceHasNoDigits()
    ensures StripDigits("playa · ") == "playa · "
  {
    var p := "playa · ";
    assert forall i :: 0 <= i < |p| ==> !IsDigit(p[i]);
    StripDigitsOfDigitFree(p);
  }

  /** Without that hypothesis the claim fails: a place part ending in " · " leaves the separator dangling. */
  lemma DotInNameCanDangle()
    ensures FilenameToMeta(DanglingExample) == "playa · "
    ensures EndsWith(FilenameToMeta(DanglingExample), MetaSeparator)
  {
    DanglingExamplePieces();
    JoinTwoPieces("playa · ", "");
  }

  /** The example file name from the header of the script, "retrato_maria-barcelona-2024_01.jpg". */
  const NamingExample: string := "retrato_maria" + "-" + "barcelona" + "-" + "2024_01" + "." + "jpg"

  /** The last "." before a dot-free, non-empty extension ends the base name. */
  lemma StripExtensionOf(base: string, ext: string)
    requires ext != "" && '.' !in ext
    ensures StripExtension(base + "." + ext) == base
  {
    var f := base + "." + ext;
    assert f[|base|] == '.' && f[|base| + 1..] == ext;
    assert f[..|base|] == base;
  }

  lemma JoinThree(x: string, y: string, z: string, sep: string)
    ensures Join([x, y, z], sep) == x + sep + y + sep + z
  {
    assert [x, y, z][1..] == [y, z];
    assert [y, z][1..] == [z];
    assert Join([z], sep) == z;
    assert Join([y, z], sep) == y + sep + z;
  }

  /** A base name that joins dash-free parts with "-" splits back into them. */
  lemma PartsOfJoinedBase(filename: string, parts: seq<string>)
    requires |parts| >= 1 && StripExtension(filename) == Join(parts, "-")
    requires forall k :: 0 <= k < |parts| ==> '-' !in parts[k]
    ensures MetaParts(filename) == parts
  {
    SplitJoin(parts, '-');
  }

  /** With the first of three parts failing the test and the second passing it, `find` picks the second. */
  lemma FindSecondOfThree(parts: seq<string>, test: string -> bool)
    requires |parts| == 3 && !test(parts[0]) && test(parts[1])
    ensures FindIndex(parts, test) == 1
  {
  }

  /**
   * A name "x-y-z.ext" whose first part names no place, whose second part is a
   * digit-free place and which has no year part gets the meta line `y`.
   */
  lemma MetaOfThreeParts(x: string, y: string, z: string, ext: string)
    requires ext != "" && '.' !in ext
    requires '-' !in x && '-' !in y && '-' !in z
    requires !IsCityPart(x) && IsCityPart(y)
    requires !IsYear(x) && !IsYear(y) && !IsYear(z)
    requires forall i :: 0 <= i < |y| ==> !IsDigit(y[i])
    ensures FilenameToMeta(x + "-" + y + "-" + z + "." + ext) == y
  {
    var f := x + "-" + y + "-" + z + "." + ext;
    MetaPartsOfThree(x, y, z, ext);
    CityOfThree(f, [x, y, z]);
    NoYearOfThree(f, [x, y, z]);
    StripDigitsOfDigitFree(y);
    JoinTwoPieces(y, "");
  }

  lemma CityOfThree(filename: string, parts: seq<string>)
    requires MetaParts(filename) == parts && |parts| == 3
    requires !IsCityPart(parts[0]) && IsCityPart(parts[1])
    ensures CityPiece(filename) == StripDigits(parts[1])
  {
    FindSecondOfThree(parts, IsCityPart);
  }

  lemma NoYearOfThree(filename: string, parts: seq<string>)
    requires MetaParts(filename) == parts && |parts| == 3
    requires !IsYear(parts[0]) && !IsYear(parts[1]) && !IsYear(parts[2])
    ensures YearPiece(filename) == ""
  {
    FindNoneOfThree(parts, IsYear);
  }

  lemma FindNoneOfThree(parts: seq<string>, test: string -> bool)
    requires |parts| == 3 && !test(parts[0]) && !test(parts[1]) && !test(parts[2])
    ensures Find(parts, test).None?
  {
    assert forall k :: 0 <= k < |parts| ==> !test(parts[k]);
  }

  lemma MetaPartsOfThree(x: string, y: string, z: string, ext: string)
    requires ext != "" && '.' !in ext
    requires '-' !in x && '-' !in y && '-' !in z
    ensures MetaParts(x + "-" + y + "-" + z + "." + ext) == [x, y, z]
  {
    StripExtensionOf(x + "-" + y + "-" + z, ext);
    JoinThree(x, y, z, "-");
    PartsOfJoinedBase(x + "-" + y + "-" + z + "." + ext, [x, y, z]);
  }

  /** A part holding none of the letters "b", "d", "s", "v", "p" names no place. */
  lemma NoPlaceLetters(p: string)
    requires 'b' !in p && 'd' !in p && 's' !in p && 'v' !in p && 'p' !in p
    ensures !IsCityPart(p)
  {
    MissingCharNotContained(p, CityWords[0], 0);
    MissingCharNotContained(p, CityWords[1], 2);
    MissingCharNotContained(p, CityWords[2], 0);
    MissingCharNotContained(p, CityWords[3], 0);
    MissingCharNotContained(p, CityWords[4], 0);
    MissingCharNotContained(p, CityWords[5], 0);
  }

  lemma NamingExampleFirstPart()
    ensures '-' !in "retrato_maria" && !IsCityPart("retrato_maria")
  {
    var p := "retrato_maria";
    assert forall i :: 0 <= i < |p| ==> p[i] != 'b' && p[i] != 'd' && p[i] != 's' && p[i] != 'v' && p[i] != 'p' && p[i] != '-';
    NoPlaceLetters(p);
  }

  lemma NamingExampleOtherParts()
    ensures '-' !in "barcelona" && '-' !in "2024_01" && '.' !in "jpg"
    ensures IsCityPart("barcelona")
    ensures forall i :: 0 <= i < |"barcelona"| ==> !IsDigit("barcelona"[i])
  {
    var p, q := "barcelona", "2024_01";
    assert forall i :: 0 <= i < |p| ==> p[i] != '-' && !IsDigit(p[i]);
    assert forall i :: 0 <= i < |q| ==> q[i] != '-';
    assert OccursAt(p, CityWords[0], 0);
  }

  /**
   * For the header's example the meta line is "barcelona": the place is
   * found, but the last part "2024_01" is no bare year, so the date is lost.
   */
  lemma NamingExampleMeta()
    ensures FilenameToMeta(NamingExample) == "barcelona"
  {
    NamingExampleFirstPart();
    NamingExampleOtherParts();
    MetaOfThreeParts("retrato_maria", "barcelona", "2024_01", "jpg");
  }
}
