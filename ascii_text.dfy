/**
 * The handful of JavaScript string builtins the portfolio scripts rely on
 * (`toLowerCase`, `toUpperCase` on one character, `includes`, `split`,
 * `join`, digit removal by `replace`), stated over ASCII, with helpers for
 * the first and last position of a character. Regular-expression character
 * classes without the `u` flag (`\w`, `\d`) are ASCII-only, so they are
 * exact here.
 */
module AsciiText {

  predicate IsUpper(c: char) { 'A' <= c <= 'Z' }
  predicate IsLower(c: char) { 'a' <= c <= 'z' }
  predicate IsDigit(c: char) { '0' <= c <= '9' }

  /** The regular-expression class `\w`. */
  predicate IsWordChar(c: char) { IsUpper(c) || IsLower(c) || IsDigit(c) || c == '_' }

  function LowerChar(c: char): (r: char)
    ensures !IsUpper(r)
    ensures IsUpper(c) ==> IsLower(r) && r as int == c as int + 32
    ensures !IsUpper(c) ==> r == c
  {
    if IsUpper(c) then (c as int + 32) as char else c
  }

  function UpperChar(c: char): (r: char)
    ensures !IsLower(r)
    ensures IsLower(c) ==> IsUpper(r) && LowerChar(r) == c
    ensures !IsLower(c) ==> r == c
  {
    if IsLower(c) then (c as int - 32) as char else c
  }

  /** `s.toLowerCase()`: every upper-case letter lowered, everything else kept. */
  function ToLower(s: string): (r: string)
    ensures |r| == |s|
    ensures forall i :: 0 <= i < |r| ==> !IsUpper(r[i])
    ensures forall i :: 0 <= i < |r| ==> if IsUpper(s[i]) then r[i] as int == s[i] as int + 32 else r[i] == s[i]
  {
    seq(|s|, i requires 0 <= i < |s| => LowerChar(s[i]))
  }

  /** A string with no upper-case letter is its own lower-case form. */
  lemma ToLowerOfLower(s: string)
    requires forall i :: 0 <= i < |s| ==> !IsUpper(s[i])
    ensures ToLower(s) == s
  {
  }

  lemma ToLowerIdempotent(s: string)
    ensures ToLower(ToLower(s)) == ToLower(s)
  {
    ToLowerOfLower(ToLower(s));
  }

  /** Lowering works character by character, from the front. */
  lemma ToLowerCons(c: char, s: string)
    ensures ToLower([c] + s) == [LowerChar(c)] + ToLower(s)
  {
    var l, r := ToLower([c] + s), [LowerChar(c)] + ToLower(s);
    forall i | 0 <= i < |l| ensures l[i] == r[i] {
      if i > 0 {
        assert ([c] + s)[i] == s[i - 1];
      }
    }
  }

  /** `w` occurs in `s` starting at position `i`. */
  predicate OccursAt(s: string, w: string, i: int)
  {
    0 <= i && i + |w| <= |s| && s[i..i + |w|] == w
  }

  /** `s.includes(w)`; the empty word occurs everywhere. */
  function Contains(s: string, w: string): (r: bool)
    ensures r <==> exists i :: OccursAt(s, w, i)
    decreases |s|
  {
    if |w| > |s| then
      assert forall i :: !OccursAt(s, w, i);
      false
    else if s[..|w|] == w then
      assert OccursAt(s, w, 0);
      true
    else
      var rest := Contains(s[1..], w);
      ShiftOccurrence(s, w);
      rest
  }

  /** An occurrence past position 0 is an occurrence in the tail, and back. */
  lemma ShiftOccurrence(s: string, w: string)
    requires |s| > 0 && !OccursAt(s, w, 0)
    ensures (exists i :: OccursAt(s, w, i)) <==> (exists i :: OccursAt(s[1..], w, i))
  {
    forall i | OccursAt(s, w, i)
      ensures OccursAt(s[1..], w, i - 1)
    {
      assert s[1..][i - 1..i - 1 + |w|] == s[i..i + |w|];
    }
    forall i | OccursAt(s[1..], w, i)
      ensures OccursAt(s, w, i + 1)
    {
      assert s[1..][i..i + |w|] == s[i + 1..i + 1 + |w|];
    }
  }

  /** A word with a character `s` lacks does not occur in `s`. */
  lemma MissingCharNotContained(s: string, w: string, i: nat)
    requires i < |w| && w[i] !in s
    ensures !Contains(s, w)
  {
  }

  /** Some word of `ws` occurs in `s` (a chain of `includes` joined by `||`). */
  function ContainsAny(s: string, ws: seq<string>): (r: bool)
    ensures r <==> exists k :: 0 <= k < |ws| && Contains(s, ws[k])
  {
    if ws == [] then false
    else Contains(s, ws[0]) || ContainsAny(s, ws[1..])
  }

  /** The first position of `c` in `s`, or -1; a helper behind `Split`. */
  function IndexOf(s: string, c: char): (r: int)
    ensures -1 <= r < |s|
    ensures r == -1 <==> c !in s
    ensures 0 <= r ==> s[r] == c && c !in s[..r]
  {
    if s == [] then -1
    else if s[0] == c then 0
    else
      var i := IndexOf(s[1..], c);
      assert s[1..] == s[1..][..];
      if i == -1 then -1
      else
        assert s[..i + 1] == [s[0]] + s[1..][..i];
        i + 1
  }

  /** The last position of `c` in `s`, or -1; a helper for matching a final extension. */
  function LastIndexOf(s: string, c: char): (r: int)
    ensures -1 <= r < |s|
    ensures r == -1 <==> c !in s
    ensures 0 <= r ==> s[r] == c && c !in s[r + 1..]
  {
    if s == [] then -1
    else if s[|s| - 1] == c then |s| - 1
    else
      var i := LastIndexOf(s[..|s| - 1], c);
      assert s == s[..|s| - 1] + [s[|s| - 1]];
      if i >= 0 then
        assert s[i + 1..] == s[..|s| - 1][i + 1..] + [s[|s| - 1]];
        i
      else -1
  }

  /** `parts.join(sep)`. */
  function Join(parts: seq<string>, sep: string): string
  {
    if parts == [] then ""
    else if |parts| == 1 then parts[0]
    else parts[0] + sep + Join(parts[1..], sep)
  }

  /** `s.split(d)` for a one-character delimiter: never empty, and joining the parts back gives `s`. */
  function Split(s: string, d: char): (parts: seq<string>)
    ensures |parts| >= 1
    ensures forall k :: 0 <= k < |parts| ==> d !in parts[k]
    ensures Join(parts, [d]) == s
    decreases |s|
  {
    var i := IndexOf(s, d);
    if i == -1 then [s]
    else
      var rest := Split(s[i + 1..], d);
      var parts := [s[..i]] + rest;
      assert parts[1..] == rest;
      assert Join(parts, [d]) == s[..i] + [d] + Join(rest, [d]);
      assert s == s[..i] + [d] + s[i + 1..];
      assert d !in s[..i];
      parts
  }

  /** The other round trip: splitting a join of delimiter-free parts gives the parts back. */
  lemma {:induction false} SplitJoin(parts: seq<string>, d: char)
    requires |parts| >= 1
    requires forall k :: 0 <= k < |parts| ==> d !in parts[k]
    ensures Split(Join(parts, [d]), d) == parts
    decreases |parts|
  {
    if |parts| == 1 {
    } else {
      var s := Join(parts, [d]);
      var tail := Join(parts[1..], [d]);
      assert s == parts[0] + [d] + tail;
      assert s[..|parts[0]|] == parts[0];
      assert s[|parts[0]|] == d;
      assert IndexOf(s, d) == |parts[0]|;
      assert s[|parts[0]| + 1..] == tail;
      SplitJoin(parts[1..], d);
    }
  }

  /** `s.replace(/\d+/g, '')`: every decimal digit removed. */
  function StripDigits(s: string): (r: string)
    ensures |r| <= |s|
    ensures forall i :: 0 <= i < |r| ==> !IsDigit(r[i])
    ensures forall c :: c in s && !IsDigit(c) ==> c in r
    ensures forall c :: c in r ==> c in s
  {
    if s == [] then []
    else if IsDigit(s[0]) then StripDigits(s[1..])
    else [s[0]] + StripDigits(s[1..])
  }

  /** Digits are removed piece by piece: what survives keeps its order. */
  lemma {:induction false} StripDigitsAppend(a: string, b: string)
    ensures StripDigits(a + b) == StripDigits(a) + StripDigits(b)
    decreases |a|
  {
    if a == [] {
      assert a + b == b;
    } else {
      TailOfAppend(a, b);
      StripDigitsAppend(a[1..], b);
    }
  }

  lemma TailOfAppend(a: string, b: string)
    requires a != []
    ensures (a + b)[0] == a[0] && (a + b)[1..] == a[1..] + b
  {
  }

  lemma AppendAssoc(a: string, b: string, c: string)
    ensures a + b + c == a + (b + c)
  {
  }

  lemma ConsOfTail(a: string, b: string)
    requires a != []
    ensures [a[0]] + (a[1..] + b) == a + b
  {
    assert [a[0]] + a[1..] == a;
  }

  /** A string without the delimiter splits into itself alone. */
  lemma SplitWithoutDelimiter(s: string, d: char)
    requires forall i :: 0 <= i < |s| ==> s[i] != d
    ensures Split(s, d) == [s]
  {
    assert d !in s;
  }

  /** A string without digits is left as it is. */
  lemma {:induction false} StripDigitsOfDigitFree(s: string)
    requires forall i :: 0 <= i < |s| ==> !IsDigit(s[i])
    ensures StripDigits(s) == s
  {
    if s != [] {
      StripDigitsOfDigitFree(s[1..]);
      assert [s[0]] + s[1..] == s;
    }
  }
}
