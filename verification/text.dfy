/**
 * The pieces of Rust's `str` API the web crate relies on: `split` on a set of
 * separator characters, `trim`, lowercasing, and the decimal text of a `u64`
 * both ways (`format!("{}", n)` and `str::parse::<u64>`).
 */
module Text {
  import opened Wrappers

  // ---------------------------------------------------------------------
  // split
  // ---------------------------------------------------------------------

  predicate FreeOf(piece: string, seps: set<char>) {
    forall i :: 0 <= i < |piece| ==> piece[i] !in seps
  }

  /**
   * `s.split(pattern)` where the pattern matches any character of `seps`:
   * always at least one piece, empty pieces kept, no piece holds a separator.
   */
  function Split(s: string, seps: set<char>): (r: seq<string>)
    ensures |r| >= 1
    ensures forall i :: 0 <= i < |r| ==> FreeOf(r[i], seps)
    decreases |s|
  {
    if s == [] then [""]
    else
      var rest := Split(s[1..], seps);
      if s[0] in seps then [""] + rest
      else [[s[0]] + rest[0]] + rest[1..]
  }

  /** Concatenates the pieces with `sep` between neighbours. */
  function JoinWith(pieces: seq<string>, sep: string): string
    requires |pieces| >= 1
  {
    if |pieces| == 1 then pieces[0] else pieces[0] + sep + JoinWith(pieces[1..], sep)
  }

  /** Splitting on one character loses nothing: joining the pieces back gives the input. */
  lemma {:induction false} SplitThenJoin(s: string, c: char)
    ensures JoinWith(Split(s, {c}), [c]) == s
    decreases |s|
  {
    if s != [] {
      var rest := Split(s[1..], {c});
      SplitThenJoin(s[1..], c);
      if s[0] == c {
        assert Split(s, {c}) == [""] + rest;
        assert ([""] + rest)[1..] == rest;
        assert s == [c] + s[1..];
      } else {
        var r := Split(s, {c});
        assert r == [[s[0]] + rest[0]] + rest[1..];
        if |rest| == 1 {
          assert s == [s[0]] + rest[0];
        } else {
          assert r[1..] == rest[1..];
          assert JoinWith(rest, [c]) == rest[0] + [c] + JoinWith(rest[1..], [c]);
          assert s == [s[0]] + s[1..];
        }
      }
    }
  }

  /** A string without separators is a single piece. */
  lemma {:induction false} SplitFree(a: string, seps: set<char>)
    requires FreeOf(a, seps)
    ensures Split(a, seps) == [a]
    decreases |a|
  {
    if a != [] {
      SplitFree(a[1..], seps);
      assert [a[0]] + a[1..] == a;
    }
  }

  /** A separator-free prefix followed by a separator is the first piece. */
  lemma {:induction false} SplitAfterFreeIn(a: string, b: string, c: char, seps: set<char>)
    requires c in seps && FreeOf(a, seps)
    ensures Split(a + [c] + b, seps) == [a] + Split(b, seps)
    decreases |a|
  {
    var s := a + [c] + b;
    if a == [] {
      assert s[1..] == b;
    } else {
      assert s[1..] == a[1..] + [c] + b;
      SplitAfterFreeIn(a[1..], b, c, seps);
      assert [a[0]] + a[1..] == a;
    }
  }

  lemma SplitAfterFree(a: string, b: string, c: char)
    requires FreeOf(a, {c})
    ensures Split(a + [c] + b, {c}) == [a] + Split(b, {c})
  {
    SplitAfterFreeIn(a, b, c, {c});
  }

  /** Joining separator-free pieces with one character and splitting on it gives the pieces back. */
  lemma {:induction false} JoinThenSplit(pieces: seq<string>, c: char)
    requires |pieces| >= 1
    requires forall i :: 0 <= i < |pieces| ==> FreeOf(pieces[i], {c})
    ensures Split(JoinWith(pieces, [c]), {c}) == pieces
    decreases |pieces|
  {
    if |pieces| == 1 {
      SplitFree(pieces[0], {c});
    } else {
      JoinThenSplit(pieces[1..], c);
      SplitAfterFree(pieces[0], JoinWith(pieces[1..], [c]), c);
      assert [pieces[0]] + pieces[1..] == pieces;
    }
  }

  // ---------------------------------------------------------------------
  // trim
  // ---------------------------------------------------------------------

  /** `char::is_whitespace`: the Unicode White_Space property. */
  predicate IsWhitespace(c: char) {
    || ('\U{0009}' <= c <= '\U{000D}')
    || c == ' ' || c == '\U{0085}' || c == '\U{00A0}' || c == '\U{1680}'
    || ('\U{2000}' <= c <= '\U{200A}')
    || c == '\U{2028}' || c == '\U{2029}' || c == '\U{202F}' || c == '\U{205F}' || c == '\U{3000}'
  }

  predicate AllWhitespace(s: string) {
    forall i :: 0 <= i < |s| ==> IsWhitespace(s[i])
  }

  /** `trim_start`. */
  function TrimStart(s: string): string
    decreases |s|
  {
    if s != [] && IsWhitespace(s[0]) then TrimStart(s[1..]) else s
  }

  /** `trim_end`. */
  function TrimEnd(s: string): string
    decreases |s|
  {
    if s != [] && IsWhitespace(s[|s| - 1]) then TrimEnd(s[..|s| - 1]) else s
  }

  /** `trim`: the longest infix that neither starts nor ends with whitespace. */
  function Trim(s: string): string {
    TrimEnd(TrimStart(s))
  }

  /** `trim_start` drops the leading whitespace and nothing else. */
  lemma {:induction false} TrimStartMeaning(s: string)
    ensures |TrimStart(s)| <= |s|
    ensures TrimStart(s) == s[|s| - |TrimStart(s)|..]
    ensures AllWhitespace(s[..|s| - |TrimStart(s)|])
    ensures TrimStart(s) == [] || !IsWhitespace(TrimStart(s)[0])
    decreases |s|
  {
    if s != [] && IsWhitespace(s[0]) {
      var r := TrimStart(s[1..]);
      assert TrimStart(s) == r;
      TrimStartMeaning(s[1..]);
      var k := |s| - |r|;
      assert r == s[k..] by {
        assert s[1..][k - 1..] == s[k..];
      }
      assert AllWhitespace(s[..k]) by {
        forall j | 0 <= j < k ensures IsWhitespace(s[..k][j]) {
          if j > 0 {
            assert s[..k][j] == s[1..][..k - 1][j - 1];
          }
        }
      }
    }
  }

  /** `trim_end` drops the trailing whitespace and nothing else. */
  lemma {:induction false} TrimEndMeaning(s: string)
    ensures |TrimEnd(s)| <= |s|
    ensures TrimEnd(s) == s[..|TrimEnd(s)|]
    ensures AllWhitespace(s[|TrimEnd(s)|..])
    ensures TrimEnd(s) == [] || !IsWhitespace(TrimEnd(s)[|TrimEnd(s)| - 1])
    decreases |s|
  {
    if s != [] && IsWhitespace(s[|s| - 1]) {
      var init := s[..|s| - 1];
      var r := TrimEnd(init);
      assert TrimEnd(s) == r;
      TrimEndMeaning(init);
      var k := |r|;
      assert r == s[..k] by {
        assert init[..k] == s[..k];
      }
      assert AllWhitespace(s[k..]) by {
        forall j | 0 <= j < |s| - k ensures IsWhitespace(s[k..][j]) {
          if j < |s| - 1 - k {
            assert s[k..][j] == init[k..][j];
          }
        }
      }
    }
  }

  /** The whitespace after an infix of a suffix is the whitespace after the same infix of the whole. */
  lemma WhitespaceTail(s: string, i: nat, k: nat)
    requires i <= |s| && k <= |s| - i
    requires AllWhitespace(s[i..][k..])
    ensures AllWhitespace(s[i + k..])
  {
    var tail := s[i + k..];
    forall j | 0 <= j < |tail| ensures IsWhitespace(tail[j]) {
      assert tail[j] == s[i..][k..][j];
    }
  }

  /** `trim` keeps an infix of its input and removes only whitespace around it. */
  lemma TrimInfix(s: string, i: nat)
    requires i == |s| - |TrimStart(s)|
    ensures i + |Trim(s)| <= |s| && Trim(s) == s[i..i + |Trim(s)|]
    ensures AllWhitespace(s[..i]) && AllWhitespace(s[i + |Trim(s)|..])
    ensures Trim(s) == [] || (!IsWhitespace(Trim(s)[0]) && !IsWhitespace(Trim(s)[|Trim(s)| - 1]))
  {
    var u := TrimStart(s);
    var t := TrimEnd(u);
    TrimStartMeaning(s);
    TrimEndMeaning(u);
    assert t == s[i..][..|t|];
    assert s[i..][..|t|] == s[i..i + |t|];
    WhitespaceTail(s, i, |t|);
    if t != [] {
      assert t[0] == u[0];
    }
  }

  // ---------------------------------------------------------------------
  // lowercase
  // ---------------------------------------------------------------------

  function LowerChar(c: char): char {
    if 'A' <= c <= 'Z' then (c as int + 32) as char else c
  }

  /** `to_lowercase`, restricted to the ASCII letters. */
  function Lower(s: string): string {
    seq(|s|, i requires 0 <= i < |s| => LowerChar(s[i]))
  }

  lemma LowerHasNoUpper(s: string)
    ensures |Lower(s)| == |s|
    ensures forall i :: 0 <= i < |s| ==> !('A' <= Lower(s)[i] <= 'Z')
    ensures forall i :: 0 <= i < |s| && !('A' <= s[i] <= 'Z') ==> Lower(s)[i] == s[i]
  {
  }

  /** Lowercasing twice is lowercasing once. */
  lemma LowerIdempotent(s: string)
    ensures Lower(Lower(s)) == Lower(s)
  {
    LowerHasNoUpper(s);
    LowerHasNoUpper(Lower(s));
  }

  // ---------------------------------------------------------------------
  // decimal text of a u64
  // ---------------------------------------------------------------------

  const U64_MAX: nat := 0xFFFF_FFFF_FFFF_FFFF

  predicate IsDigit(c: char) {
    '0' <= c <= '9'
  }

  predicate AllDigits(s: string) {
    forall i :: 0 <= i < |s| ==> IsDigit(s[i])
  }

  function DigitChar(d: nat): char
    requires d < 10
  {
    ('0' as int + d) as char
  }

  /** `format!("{}", n)` for a non-negative integer: no sign, no leading zero. */
  function Decimal(n: nat): (r: string)
    ensures |r| >= 1 && AllDigits(r)
    ensures |r| > 1 ==> r[0] != '0'
    decreases n
  {
    if n < 10 then [DigitChar(n)] else Decimal(n / 10) + [DigitChar(n % 10)]
  }

  /** The number a string of decimal digits stands for. */
  function DigitsValue(s: string): nat
    requires AllDigits(s)
    decreases |s|
  {
    if s == [] then 0 else DigitsValue(s[..|s| - 1]) * 10 + (s[|s| - 1] as int - '0' as int)
  }

  /**
   * `s.parse::<u64>()`: an optional leading '+', then at least one decimal
   * digit and nothing else, with a value that fits in 64 bits.
   */
  function ParseU64(s: string): Option<nat> {
    if s == [] then None
    else
      var digits := if s[0] == '+' then s[1..] else s;
      if digits == [] || !AllDigits(digits) then None
      else if DigitsValue(digits) > U64_MAX then None
      else Some(DigitsValue(digits))
  }

  lemma {:induction false} DecimalValue(n: nat)
    ensures DigitsValue(Decimal(n)) == n
    decreases n
  {
    if n >= 10 {
      DecimalValue(n / 10);
      var d := Decimal(n);
      assert d[..|d| - 1] == Decimal(n / 10);
    }
  }

  /** Parsing the printed form of a u64 gives the number back. */
  lemma DecimalRoundTrip(n: nat)
    requires n <= U64_MAX
    ensures ParseU64(Decimal(n)) == Some(n)
  {
    DecimalValue(n);
  }
}
