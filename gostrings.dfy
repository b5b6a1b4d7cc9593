/** The handful of Go `strings` and `strconv` functions the transform calls,
    specialised to the tokens it uses: `strings.LastIndex(s, "(?)")`,
    `strings.Count(s, "?")`, `strings.Replace(s, "?", new, 1)`, `strings.Repeat`
    and `strconv.Itoa` on non-negative numbers; and `strings.HasPrefix`, which
    only the MySQL classifier calls. Go counts
    offsets in UTF-8 bytes and the model in characters; every token searched
    for is ASCII, and UTF-8 never puts an ASCII byte inside a multi-byte
    character, so each cut falls between the same two characters either way. */
module GoStrings {

  /** The expansion marker `(?)` starts at offset `j` of `s`. */
  predicate MarkerAt(s: string, j: int) {
    0 <= j && j + 3 <= |s| && s[j] == '(' && s[j + 1] == '?' && s[j + 2] == ')'
  }

  /** `strings.LastIndex(s, "(?)")`: the offset of the last marker, or -1. */
  function LastMarker(s: string): (i: int)
    ensures -1 <= i
    ensures i >= 0 ==> MarkerAt(s, i)
    ensures forall j :: i < j ==> !MarkerAt(s, j)
    decreases |s|
  {
    if |s| < 3 then -1
    else if MarkerAt(s, |s| - 3) then |s| - 3
    else
      var t := s[..|s| - 1];
      assert forall j :: MarkerAt(s, j) && j < |s| - 3 ==> MarkerAt(t, j);
      LastMarker(t)
  }

  /** Two markers never overlap: `(` can be neither the `?` nor the `)` of another. */
  lemma MarkersApart(s: string, i: int, j: int)
    requires MarkerAt(s, i) && MarkerAt(s, j) && i < j
    ensures i + 3 <= j
  {
  }

  /** `strings.HasPrefix(s, p)`. */
  predicate HasPrefix(s: string, p: string) {
    |p| <= |s| && s[..|p|] == p
  }

  /** `strings.Count(s, string(c))`: the number of occurrences of `c`. */
  function Count(s: string, c: char): (n: nat)
    ensures n <= |s|
  {
    if s == [] then 0
    else (if s[0] == c then 1 else 0) + Count(s[1..], c)
  }

  /** A character that never occurs is counted zero times. */
  lemma {:induction false} CountAbsent(s: string, c: char)
    requires forall j :: 0 <= j < |s| ==> s[j] != c
    ensures Count(s, c) == 0
  {
    if s != [] {
      CountAbsent(s[1..], c);
    }
  }

  lemma {:induction false} CountConcat(a: string, b: string, c: char)
    ensures Count(a + b, c) == Count(a, c) + Count(b, c)
  {
    if a == [] {
      assert a + b == b;
    } else {
      assert (a + b)[1..] == a[1..] + b;
      CountConcat(a[1..], b, c);
    }
  }

  /** `strings.Replace(s, string(c), r, 1)`: the first `c` becomes `r`. */
  function ReplaceFirst(s: string, c: char, r: string): string {
    if s == [] then []
    else if s[0] == c then r + s[1..]
    else [s[0]] + ReplaceFirst(s[1..], c, r)
  }

  /** Replacing the first `c` of `s` splices `r` in at the first occurrence and
      leaves the text on both sides untouched. */
  lemma {:induction false} ReplaceFirstAt(s: string, c: char, r: string, j: nat)
    requires j < |s| && s[j] == c && Count(s[..j], c) == 0
    ensures ReplaceFirst(s, c, r) == s[..j] + r + s[j + 1..]
  {
    if j > 0 {
      assert s[0] != c by { assert s[..j][0] == s[0]; }
      assert s[1..][..j - 1] == s[..j][1..];
      ReplaceFirstAt(s[1..], c, r, j - 1);
      assert s[..j] == [s[0]] + s[1..][..j - 1];
    }
  }

  /** A prefix free of `c` is skipped by the replacement. */
  lemma {:induction false} ReplaceFirstSkip(a: string, b: string, c: char, r: string)
    requires Count(a, c) == 0
    ensures ReplaceFirst(a + b, c, r) == a + ReplaceFirst(b, c, r)
  {
    if a != [] {
      assert a[0] != c;
      assert (a + b)[1..] == a[1..] + b;
      ReplaceFirstSkip(a[1..], b, c, r);
    } else {
      assert a + b == b;
    }
  }

  /** The offset of the first `c` in `s`, when there is one. */
  lemma {:induction false} FirstOccurrence(s: string, c: char) returns (j: nat)
    requires Count(s, c) > 0
    ensures j < |s| && s[j] == c && Count(s[..j], c) == 0
  {
    if s[0] == c {
      j := 0;
    } else {
      var k := FirstOccurrence(s[1..], c);
      j := k + 1;
      assert s[..j] == [s[0]] + s[1..][..k];
      CountConcat([s[0]], s[1..][..k], c);
    }
  }

  /** `strings.Repeat(s, n)`. */
  function Repeat(s: string, n: nat): (r: string)
    ensures |r| == |s| * n
  {
    if n == 0 then [] else Repeat(s, n - 1) + s
  }

  function Digit(d: nat): (c: char)
    requires d < 10
    ensures '0' <= c <= '9'
  {
    "0123456789"[d]
  }

  /** `strconv.Itoa(n)` for `n >= 0`: the shortest decimal numeral of `n`. */
  function Itoa(n: nat): (s: string)
    ensures |s| > 0
    ensures forall j :: 0 <= j < |s| ==> '0' <= s[j] <= '9'
    ensures |s| > 1 ==> s[0] != '0'
    decreases n
  {
    if n < 10 then [Digit(n)] else Itoa(n / 10) + [Digit(n % 10)]
  }

  /** Reads a string of decimal digits back as a number. */
  function ParseDecimal(s: string): nat
    requires forall j :: 0 <= j < |s| ==> '0' <= s[j] <= '9'
  {
    if s == [] then 0
    else 10 * ParseDecimal(s[..|s| - 1]) + ((s[|s| - 1] as int) - ('0' as int))
  }

  /** `Itoa` is undone by reading the numeral back. */
  lemma {:induction false} ItoaRoundTrip(n: nat)
    ensures ParseDecimal(Itoa(n)) == n
  {
    if n >= 10 {
      ItoaRoundTrip(n / 10);
      var s := Itoa(n);
      assert s[..|s| - 1] == Itoa(n / 10);
    }
  }

  /** A numeral never contains the placeholder character. */
  lemma ItoaHasNoQuestion(n: nat)
    ensures Count(Itoa(n), '?') == 0
  {
    CountAbsent(Itoa(n), '?');
  }
}
