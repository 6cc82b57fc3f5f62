/**
 * The pieces of Go's `strings` package that the template code relies on, for a
 * separator of one character: `strings.Split`, `strings.SplitN(s, sep, 2)`,
 * `strings.Contains` and an ASCII-only `strings.ToLower`.
 */
module Text {

  /** The index of the first `c` in `s`, or `|s|` when `s` has none. */
  function FirstIndex(s: string, c: char): (i: nat)
    ensures i <= |s|
    ensures i < |s| ==> s[i] == c
    ensures i == |s| <==> c !in s
    ensures c !in s[..i]
    decreases |s|
  {
    if |s| == 0 then 0
    else if s[0] == c then 0
    else 1 + FirstIndex(s[1..], c)
  }

  /** `FirstIndex` is the position of a `c` with no `c` before it. */
  lemma {:induction false} FirstIndexAt(s: string, c: char, i: nat)
    requires i < |s| && s[i] == c && c !in s[..i]
    ensures FirstIndex(s, c) == i
    decreases i
  {
    if i > 0 {
      assert s[0] in s[..i];
      assert s[1..][..i - 1] == s[1..i];
      FirstIndexAt(s[1..], c, i - 1);
    }
  }

  /** The inverse of `Split`: the parts glued back together with `sep` between them. */
  function Join(parts: seq<string>, sep: char): string
    decreases |parts|
  {
    if |parts| == 0 then ""
    else if |parts| == 1 then parts[0]
    else parts[0] + [sep] + Join(parts[1..], sep)
  }

  /**
   * `strings.Split(s, string(sep))`: every piece between two consecutive
   * separators, so a string with n separators gives n + 1 pieces.
   */
  function Split(s: string, sep: char): (parts: seq<string>)
    ensures |parts| >= 1
    ensures parts[0] == s[..FirstIndex(s, sep)]
    ensures |parts| == 1 <==> sep !in s
    decreases |s|
  {
    var i := FirstIndex(s, sep);
    if i == |s| then [s] else [s[..i]] + Split(s[i + 1..], sep)
  }

  /** No piece of `Split` contains the separator. */
  lemma {:induction false} SplitPiecesHaveNoSeparator(s: string, sep: char, k: nat)
    requires k < |Split(s, sep)|
    ensures sep !in Split(s, sep)[k]
    decreases |s|
  {
    var i := FirstIndex(s, sep);
    if i < |s| && k > 0 {
      var rest := s[i + 1..];
      assert Split(s, sep)[k] == Split(rest, sep)[k - 1];
      SplitPiecesHaveNoSeparator(rest, sep, k - 1);
    }
  }

  /** One step of `Split` on a string that has a separator. */
  lemma SplitStep(s: string, sep: char)
    requires sep in s
    ensures var i := FirstIndex(s, sep);
            s == s[..i] + [sep] + s[i + 1..] && Split(s, sep) == [s[..i]] + Split(s[i + 1..], sep)
  {
    var i := FirstIndex(s, sep);
    SliceAround(s, i);
  }

  /** A string is the text before index `i`, the character at `i` and the text after it. */
  lemma SliceAround(s: string, i: nat)
    requires i < |s|
    ensures s == s[..i] + [s[i]] + s[i + 1..]
  {
  }

  /** Splitting and joining again gives back the original string. */
  lemma {:induction false} SplitJoin(s: string, sep: char)
    ensures Join(Split(s, sep), sep) == s
    decreases |s|
  {
    if sep in s {
      var i := FirstIndex(s, sep);
      var rest := s[i + 1..];
      SplitStep(s, sep);
      SplitJoin(rest, sep);
      var parts := Split(s, sep);
      assert parts[0] == s[..i] && parts[1..] == Split(rest, sep);
    }
  }

  /**
   * When `s` has a separator, the second piece of `Split` is the text after
   * the first separator, cut at the next separator (or at the end of `s`).
   */
  lemma SplitSecond(s: string, sep: char)
    requires sep in s
    ensures var rest := s[FirstIndex(s, sep) + 1..];
            |Split(s, sep)| >= 2 && Split(s, sep)[1] == rest[..FirstIndex(rest, sep)]
  {
    var rest := s[FirstIndex(s, sep) + 1..];
    SplitStep(s, sep);
    assert Split(s, sep)[1] == Split(rest, sep)[0];
  }

  /**
   * `strings.SplitN(s, string(sep), 2)`: `s` cut at its first separator into
   * two pieces, or `[s]` when it has none. The second piece keeps any later
   * separators.
   */
  function SplitAtFirst(s: string, sep: char): (parts: seq<string>)
    ensures 1 <= |parts| <= 2
    ensures |parts| == 2 <==> sep in s
    ensures |parts| == 1 ==> parts[0] == s
    ensures |parts| == 2 ==> sep !in parts[0] && s == parts[0] + [sep] + parts[1]
  {
    var i := FirstIndex(s, sep);
    if i == |s| then [s] else [s[..i], s[i + 1..]]
  }

  /** `sub` occurs in `s` starting at index `i`. */
  predicate OccursAt(s: string, sub: string, i: nat)
  {
    i + |sub| <= |s| && s[i..i + |sub|] == sub
  }

  /** `strings.Contains(s, sub)`. */
  function Contains(s: string, sub: string): (r: bool)
    ensures r <==> exists i: nat :: OccursAt(s, sub, i)
    decreases |s|
  {
    if sub <= s then
      assert OccursAt(s, sub, 0);
      true
    else if |s| == 0 then
      false
    else
      ContainsShift(s, sub);
      Contains(s[1..], sub)
  }

  /** When `sub` is not a prefix of `s`, its occurrences in `s` are those in `s[1..]`, shifted by one. */
  lemma ContainsShift(s: string, sub: string)
    requires |s| > 0 && !(sub <= s)
    ensures (exists i: nat :: OccursAt(s, sub, i)) <==> (exists i: nat :: OccursAt(s[1..], sub, i))
  {
    if i: nat :| OccursAt(s, sub, i) {
      assert i > 0;
      assert s[1..][i - 1..i - 1 + |sub|] == s[i..i + |sub|];
      assert OccursAt(s[1..], sub, i - 1);
    }
    if i: nat :| OccursAt(s[1..], sub, i) {
      assert s[i + 1..i + 1 + |sub|] == s[1..][i..i + |sub|];
      assert OccursAt(s, sub, i + 1);
    }
  }

  predicate IsUpperAscii(c: char)
  {
    'A' <= c <= 'Z'
  }

  function LowerChar(c: char): char
  {
    if IsUpperAscii(c) then (c as int + 32) as char else c
  }

  /**
   * `strings.ToLower` restricted to ASCII: upper-case letters become lower-case,
   * every other character is kept.
   */
  function LowerAscii(s: string): (r: string)
    ensures |r| == |s|
    ensures forall i :: 0 <= i < |r| ==> !IsUpperAscii(r[i])
    ensures forall i :: 0 <= i < |r| && IsUpperAscii(s[i]) ==> r[i] == (s[i] as int + 32) as char
    ensures forall i :: 0 <= i < |r| && !IsUpperAscii(s[i]) ==> r[i] == s[i]
  {
    seq(|s|, i requires 0 <= i < |s| => LowerChar(s[i]))
  }

  /** The two characters are equal, or one is an upper-case ASCII letter and the other its lower-case form. */
  predicate SameIgnoringAsciiCase(x: char, y: char)
  {
    x == y
    || (IsUpperAscii(x) && y as int == x as int + 32)
    || (IsUpperAscii(y) && x as int == y as int + 32)
  }

  /** The strings differ at most in the case of ASCII letters. */
  predicate EqualFoldAscii(a: string, b: string)
  {
    |a| == |b| && forall i :: 0 <= i < |a| ==> SameIgnoringAsciiCase(a[i], b[i])
  }

  /** Strings that differ only in the case of ASCII letters lower-case to the same string. */
  lemma LowerAsciiEqualFold(a: string, b: string)
    requires EqualFoldAscii(a, b)
    ensures LowerAscii(a) == LowerAscii(b)
  {
    var la, lb := LowerAscii(a), LowerAscii(b);
    forall i | 0 <= i < |a|
      ensures la[i] == lb[i]
    {
      assert SameIgnoringAsciiCase(a[i], b[i]);
    }
  }
}
