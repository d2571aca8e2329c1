/** The string operations of Rust's `str` that the handlers rely on, on
    strings as sequences of Unicode scalar values. */
module Text {
  import opened Common

  /** Rust's `char::is_whitespace`: the Unicode White_Space property, by code point. */
  predicate IsWhitespace(c: char) {
    var n := c as int;
    (9 <= n <= 13) || n == 32 || n == 0x85 || n == 0xA0 || n == 0x1680
    || (0x2000 <= n <= 0x200A) || n == 0x2028 || n == 0x2029 || n == 0x202F
    || n == 0x205F || n == 0x3000
  }

  predicate StartsWith(s: string, prefix: string) {
    |prefix| <= |s| && s[..|prefix|] == prefix
  }

  predicate EndsWith(s: string, suffix: string) {
    |suffix| <= |s| && s[|s| - |suffix|..] == suffix
  }

  /** `str::trim_start`: drops the leading whitespace and nothing else. */
  function TrimStart(s: string): (r: string)
    ensures |r| <= |s| && r == s[|s| - |r|..]
    ensures forall i :: 0 <= i < |s| - |r| ==> IsWhitespace(s[i])
    ensures r == [] || !IsWhitespace(r[0])
  {
    if s != [] && IsWhitespace(s[0]) then
      var r := TrimStart(s[1..]);
      assert forall i :: 1 <= i < |s| - |r| ==> s[i] == s[1..][i - 1];
      r
    else
      s
  }

  /** `str::trim_end`: drops the trailing whitespace and nothing else. */
  function TrimEnd(s: string): (r: string)
    ensures |r| <= |s| && r == s[..|r|]
    ensures forall i :: |r| <= i < |s| ==> IsWhitespace(s[i])
    ensures r == [] || !IsWhitespace(r[|r| - 1])
  {
    if s != [] && IsWhitespace(s[|s| - 1]) then
      var r := TrimEnd(s[..|s| - 1]);
      assert forall i :: |r| <= i < |s| - 1 ==> s[i] == s[..|s| - 1][i];
      r
    else
      s
  }

  /** `r` is the slice of `s` at offset `i`, and everything around it is whitespace. */
  predicate TrimmedAt(s: string, r: string, i: int) {
    && 0 <= i <= |s| - |r| && r == s[i..i + |r|]
    && (forall j :: 0 <= j < i ==> IsWhitespace(s[j]))
    && (forall j :: i + |r| <= j < |s| ==> IsWhitespace(s[j]))
  }

  /** `str::trim`: drops the leading and the trailing whitespace and nothing else. */
  function Trim(s: string): (r: string)
    ensures r == [] || (!IsWhitespace(r[0]) && !IsWhitespace(r[|r| - 1]))
    ensures exists i :: TrimmedAt(s, r, i)
  {
    TrimSlice(s);
    TrimEnd(TrimStart(s))
  }

  lemma TrimSlice(s: string)
    ensures TrimmedAt(s, TrimEnd(TrimStart(s)), |s| - |TrimStart(s)|)
  {
    var t := TrimStart(s);
    SliceTrimmed(s, t, TrimEnd(t), |s| - |t|);
  }

  /** Trimming a prefix of whitespace and then a suffix of whitespace leaves a slice of the input. */
  lemma SliceTrimmed(s: string, t: string, r: string, i: nat)
    requires i <= |s| && t == s[i..] && |r| <= |t| && r == t[..|r|]
    requires forall k :: 0 <= k < i ==> IsWhitespace(s[k])
    requires forall k :: |r| <= k < |t| ==> IsWhitespace(t[k])
    ensures TrimmedAt(s, r, i)
  {
    forall j | i + |r| <= j < |s|
      ensures IsWhitespace(s[j])
    {
      assert s[j] == t[j - i];
    }
  }

  /** `str::find` with a `char` pattern: the index of the first occurrence. */
  function FindChar(s: string, c: char): (r: Option<nat>)
    ensures r.None? <==> c !in s
    ensures r.Some? ==> r.value < |s| && s[r.value] == c && c !in s[..r.value]
  {
    if s == [] then None
    else if s[0] == c then Some(0)
    else
      match FindChar(s[1..], c)
      case None => None
      case Some(i) =>
        assert s[..i + 1] == [s[0]] + s[1..][..i];
        Some(i + 1)
  }

  /** `k` copies of `s`, one after another. */
  function Repeat(s: string, k: nat): string {
    if k == 0 then [] else Repeat(s, k - 1) + s
  }

  /** `str::trim_end_matches` with a non-empty string pattern: strips every
      trailing copy of `suffix`. */
  function TrimEndMatches(s: string, suffix: string): (r: string)
    requires |suffix| > 0
    ensures |r| <= |s| && s[..|r|] == r
    ensures !EndsWith(r, suffix)
    decreases |s|
  {
    if EndsWith(s, suffix) then
      var r := TrimEndMatches(s[..|s| - |suffix|], suffix);
      assert s[..|s| - |suffix|][..|r|] == s[..|r|];
      r
    else
      s
  }

  /** How many trailing copies of `suffix` `TrimEndMatches` strips. */
  function CopiesStripped(s: string, suffix: string): nat
    requires |suffix| > 0
    decreases |s|
  {
    if EndsWith(s, suffix) then CopiesStripped(s[..|s| - |suffix|], suffix) + 1 else 0
  }

  /** What `TrimEndMatches` removes is a whole number of copies of the suffix,
      and at least one when the input ended with it. */
  lemma {:induction false} TrimEndMatchesStripsCopies(s: string, suffix: string)
    requires |suffix| > 0
    ensures s == TrimEndMatches(s, suffix) + Repeat(suffix, CopiesStripped(s, suffix))
    ensures CopiesStripped(s, suffix) >= 1 <==> EndsWith(s, suffix)
    decreases |s|
  {
    if EndsWith(s, suffix) {
      var t := s[..|s| - |suffix|];
      TrimEndMatchesStripsCopies(t, suffix);
      assert CopiesStripped(s, suffix) == CopiesStripped(t, suffix) + 1;
      assert TrimEndMatches(s, suffix) == TrimEndMatches(t, suffix);
      assert s == t + suffix;
      RepeatSnoc(TrimEndMatches(t, suffix), suffix, CopiesStripped(t, suffix), t, s);
    } else {
      assert TrimEndMatches(s, suffix) == s && CopiesStripped(s, suffix) == 0;
      assert Repeat(suffix, 0) == [] && s + [] == s;
    }
  }

  lemma RepeatSnoc(r: string, suffix: string, k: nat, t: string, s: string)
    requires t == r + Repeat(suffix, k) && s == t + suffix
    ensures s == r + Repeat(suffix, k + 1)
  {
    assert Repeat(suffix, k + 1) == Repeat(suffix, k) + suffix;
  }

  /** `str::split` with a `char` separator: every piece, empty ones included. */
  function Split(s: string, sep: char): (r: seq<string>)
    ensures |r| >= 1
    ensures forall i :: 0 <= i < |r| ==> sep !in r[i]
    decreases |s|
  {
    match FindChar(s, sep)
    case None => [s]
    case Some(i) => [s[..i]] + Split(s[i + 1..], sep)
  }

  /** The inverse of `Split`: the pieces glued back with the separator. */
  function Join(parts: seq<string>, sep: char): string
    requires |parts| >= 1
  {
    if |parts| == 1 then parts[0] else parts[0] + [sep] + Join(parts[1..], sep)
  }

  /** Splitting loses nothing: joining the pieces gives the input back. */
  lemma {:induction false} SplitJoin(s: string, sep: char)
    ensures Join(Split(s, sep), sep) == s
    decreases |s|
  {
    var f := FindChar(s, sep);
    if f.Some? {
      var i := f.value;
      var rest := s[i + 1..];
      var parts := Split(s, sep);
      assert parts == [s[..i]] + Split(rest, sep);
      assert parts[1..] == Split(rest, sep);
      SplitJoin(rest, sep);
      assert Join(parts, sep) == s[..i] + [sep] + rest;
      assert s == s[..i] + [sep] + rest;
    }
  }

  function LowerChar(c: char): char {
    if 'A' <= c <= 'Z' then (c as int + 32) as char else c
  }

  /** `str::to_lowercase`, on ASCII letters. */
  function Lower(s: string): (r: string)
    ensures |r| == |s|
  {
    seq(|s|, i requires 0 <= i < |s| => LowerChar(s[i]))
  }

  /** Lowercasing yields "true" exactly for the sixteen casings of "true". */
  lemma LowerIsTrue(e: string)
    ensures Lower(e) == "true" <==>
      (|e| == 4 && e[0] in "tT" && e[1] in "rR" && e[2] in "uU" && e[3] in "eE")
  {
    var l := Lower(e);
    if |e| == 4 {
      assert l[0] == LowerChar(e[0]) && l[1] == LowerChar(e[1]);
      assert l[2] == LowerChar(e[2]) && l[3] == LowerChar(e[3]);
      if l == "true" {
        assert l[0] == 't' && l[1] == 'r' && l[2] == 'u' && l[3] == 'e';
      }
    }
  }

  function DigitChar(d: nat): char
    requires d < 10
  {
    ('0' as int + d) as char
  }

  /** `usize::to_string`: the decimal digits of `n`, without leading zeros. */
  function Decimal(n: nat): (r: string)
    ensures |r| >= 1
    ensures forall i :: 0 <= i < |r| ==> '0' <= r[i] <= '9'
    ensures |r| > 1 ==> r[0] != '0'
  {
    if n < 10 then [DigitChar(n)] else Decimal(n / 10) + [DigitChar(n % 10)]
  }

  /** The number a string of decimal digits denotes. */
  function DecimalValue(s: string): nat
    requires forall i :: 0 <= i < |s| ==> '0' <= s[i] <= '9'
  {
    if s == [] then 0
    else DecimalValue(s[..|s| - 1]) * 10 + (s[|s| - 1] as int - '0' as int)
  }

  /** Reading the digits back gives the number: distinct pages get distinct query values. */
  lemma {:induction false} DecimalRoundTrip(n: nat)
    ensures DecimalValue(Decimal(n)) == n
  {
    if n >= 10 {
      DecimalRoundTrip(n / 10);
      var d := Decimal(n);
      assert d[..|d| - 1] == Decimal(n / 10);
    }
  }
}
