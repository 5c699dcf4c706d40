/** Python string operations used across the modelled code: whitespace splitting and joining,
    stripping, ASCII case folding, prefixes and suffixes, substring search, decimal rendering. */
module Text {

  /** The characters for which Python's str.isspace holds. */
  predicate IsSpace(c: char) {
    '\t' <= c <= '\r' || '\U{1c}' <= c <= ' ' || c == '\U{85}' || c == '\U{a0}' || c == '\U{1680}'
    || '\U{2000}' <= c <= '\U{200a}' || c == '\U{2028}' || c == '\U{2029}' || c == '\U{202f}'
    || c == '\U{205f}' || c == '\U{3000}'
  }

  /** A non-empty run without whitespace, as str.split produces. */
  predicate IsWord(s: string) {
    s != "" && forall i :: 0 <= i < |s| ==> !IsSpace(s[i])
  }

  function FirstWord(s: string): (w: string)
    ensures |w| <= |s| && w == s[..|w|]
    ensures forall i :: 0 <= i < |w| ==> !IsSpace(w[i])
    ensures |w| < |s| ==> IsSpace(s[|w|])
  {
    if s == "" || IsSpace(s[0]) then "" else [s[0]] + FirstWord(s[1..])
  }

  /** str.split() */
  function Split(s: string): (words: seq<string>)
    ensures forall i :: 0 <= i < |words| ==> IsWord(words[i])
    decreases |s|
  {
    if s == "" then []
    else if IsSpace(s[0]) then Split(s[1..])
    else var w := FirstWord(s); [w] + Split(s[|w|..])
  }

  /** ' '.join(words) */
  function Join(words: seq<string>): string {
    if |words| == 0 then ""
    else if |words| == 1 then words[0]
    else words[0] + " " + Join(words[1..])
  }

  lemma {:induction false} FirstWordOf(w: string, rest: string)
    requires forall i :: 0 <= i < |w| ==> !IsSpace(w[i])
    requires rest == "" || IsSpace(rest[0])
    ensures FirstWord(w + rest) == w
  {
    if w == "" {
      assert w + rest == rest;
    } else {
      assert (w + rest)[1..] == w[1..] + rest;
      FirstWordOf(w[1..], rest);
    }
  }

  /** Joining words with single spaces loses nothing: splitting gives the same words back. */
  lemma {:induction false} SplitOfJoin(words: seq<string>)
    requires forall i :: 0 <= i < |words| ==> IsWord(words[i])
    ensures Split(Join(words)) == words
  {
    if |words| == 1 {
      FirstWordOf(words[0], "");
      assert words[0] + "" == words[0];
      assert words[0][|words[0]|..] == "";
    } else if |words| > 1 {
      var w, tail := words[0], Join(words[1..]);
      var s := Join(words);
      assert s == w + (" " + tail);
      FirstWordOf(w, " " + tail);
      assert s[0] == w[0];
      assert s[|w|..] == " " + tail;
      assert (" " + tail)[1..] == tail;
      SplitOfJoin(words[1..]);
    }
  }

  /** One space stands between any two neighbours, and none elsewhere. */
  lemma {:induction false} JoinConcat(a: seq<string>, b: seq<string>)
    ensures a != [] && b != [] ==> Join(a + b) == Join(a) + " " + Join(b)
  {
    if a == [] || b == [] {
    } else if |a| == 1 {
      assert (a + b)[1..] == b;
    } else {
      assert (a + b)[1..] == a[1..] + b;
      JoinConcat(a[1..], b);
      assert a[0] + " " + (Join(a[1..]) + " " + Join(b)) == (a[0] + " " + Join(a[1..])) + " " + Join(b);
    }
  }

  lemma {:induction false} FirstWordGoesOn(a: string, c: char, b: string)
    requires IsSpace(c)
    ensures FirstWord(a + ([c] + b)) == FirstWord(a)
  {
    if a == "" {
      assert a + ([c] + b) == [c] + b;
    } else {
      assert (a + ([c] + b))[1..] == a[1..] + ([c] + b);
      FirstWordGoesOn(a[1..], c, b);
    }
  }

  /** Any whitespace separates: what stands before it and behind it is split by itself. */
  lemma {:induction false} SplitAtSpace(a: string, c: char, b: string)
    requires IsSpace(c)
    ensures Split(a + ([c] + b)) == Split(a) + Split(b)
    decreases |a|
  {
    var s := a + ([c] + b);
    if a == "" {
      assert s == [c] + b && s[1..] == b;
    } else if IsSpace(a[0]) {
      assert s[1..] == a[1..] + ([c] + b);
      SplitAtSpace(a[1..], c, b);
    } else {
      var w := FirstWord(a);
      FirstWordGoesOn(a, c, b);
      assert s[|w|..] == a[|w|..] + ([c] + b);
      SplitAtSpace(a[|w|..], c, b);
    }
  }

  lemma {:induction false} SplitOfWord(w: string)
    requires IsWord(w)
    ensures Split(w) == [w]
  {
    FirstWordOf(w, "");
    assert w + "" == w && w[|w|..] == "";
  }

  /** str.strip() */
  function Strip(s: string): (r: string)
    ensures r == "" || (!IsSpace(r[0]) && !IsSpace(r[|r| - 1]))
  {
    if s == "" then ""
    else if IsSpace(s[0]) then Strip(s[1..])
    else if IsSpace(s[|s| - 1]) then Strip(s[..|s| - 1])
    else s
  }

  /** Stripping removes whitespace only, at both ends. */
  lemma {:induction false} StripExactly(s: string) returns (before: string, after: string)
    ensures s == before + Strip(s) + after
    ensures forall c :: c in before || c in after ==> IsSpace(c)
    decreases |s|
  {
    before, after := "", "";
    if s == "" {
    } else if IsSpace(s[0]) {
      before, after := StripExactly(s[1..]);
      before := [s[0]] + before;
      assert s == [s[0]] + s[1..];
    } else if IsSpace(s[|s| - 1]) {
      before, after := StripExactly(s[..|s| - 1]);
      after := after + [s[|s| - 1]];
      assert s == s[..|s| - 1] + [s[|s| - 1]];
    }
  }

  function LowerChar(c: char): char {
    if 'A' <= c <= 'Z' then c - 'A' + 'a' else c
  }

  function UpperChar(c: char): char {
    if 'a' <= c <= 'z' then c - 'a' + 'A' else c
  }

  /** str.lower() on ASCII letters. */
  function Lower(s: string): string {
    seq(|s|, i requires 0 <= i < |s| => LowerChar(s[i]))
  }

  /** str.upper() on ASCII letters. */
  function Upper(s: string): string {
    seq(|s|, i requires 0 <= i < |s| => UpperChar(s[i]))
  }

  predicate StartsWith(s: string, prefix: string) {
    prefix <= s
  }

  predicate EndsWith(s: string, suffix: string) {
    |suffix| <= |s| && s[|s| - |suffix|..] == suffix
  }

  predicate OccursAt(needle: string, s: string, at: int) {
    0 <= at && at + |needle| <= |s| && s[at..at + |needle|] == needle
  }

  /** needle in s */
  predicate Contains(s: string, needle: string) {
    exists at :: 0 <= at <= |s| && OccursAt(needle, s, at)
  }

  ghost predicate NoDup(ts: seq<string>) {
    forall i, j :: 0 <= i < j < |ts| ==> ts[i] != ts[j]
  }

  // ---- decimal rendering ----

  function Digit(d: nat): char
    requires d < 10
  {
    '0' + d as char
  }

  /** f'{n}' for a natural number. */
  function Decimal(n: nat): (s: string)
    ensures s != ""
  {
    if n < 10 then [Digit(n)] else Decimal(n / 10) + [Digit(n % 10)]
  }

  /** The number a digit string denotes. */
  function Parse(s: string): int {
    if s == "" then 0 else 10 * Parse(s[..|s| - 1]) + (s[|s| - 1] as int - '0' as int)
  }

  lemma {:induction false} ParseOfDecimal(n: nat)
    ensures Parse(Decimal(n)) == n
  {
    if n < 10 {
      assert Decimal(n)[..0] == "";
    } else {
      ParseOfDecimal(n / 10);
      assert Decimal(n)[..|Decimal(n)| - 1] == Decimal(n / 10);
    }
  }

  function Zeros(n: nat): string {
    seq(n, i => '0')
  }

  /** f'{n:05d}' */
  function Padded(n: nat): string {
    var s := Decimal(n);
    if |s| < 5 then Zeros(5 - |s|) + s else s
  }

  lemma {:induction false} ParseAfterZeros(k: nat, s: string)
    ensures Parse(Zeros(k) + s) == Parse(s)
    decreases |s|, k
  {
    if s != "" {
      assert (Zeros(k) + s)[..|Zeros(k) + s| - 1] == Zeros(k) + s[..|s| - 1];
      ParseAfterZeros(k, s[..|s| - 1]);
    } else if k > 0 {
      assert Zeros(k) + s == Zeros(k);
      assert Zeros(k)[..k - 1] == Zeros(k - 1) + "";
      ParseAfterZeros(k - 1, "");
    } else {
      assert Zeros(0) + s == "";
    }
  }

  lemma {:induction false} ParseOfPadded(n: nat)
    ensures Parse(Padded(n)) == n
  {
    ParseOfDecimal(n);
    if |Decimal(n)| < 5 { ParseAfterZeros(5 - |Decimal(n)|, Decimal(n)); }
  }

  /** Neither the plain nor the five-digit rendering maps two numbers to one string. */
  lemma {:induction false} RenderingsAreInjective(m: nat, n: nat)
    ensures Decimal(m) == Decimal(n) ==> m == n
    ensures Padded(m) == Padded(n) ==> m == n
  {
    ParseOfDecimal(m);
    ParseOfDecimal(n);
    ParseOfPadded(m);
    ParseOfPadded(n);
  }

  predicate Digits(s: string) {
    forall i :: 0 <= i < |s| ==> '0' <= s[i] <= '9'
  }

  lemma {:induction false} DecimalExactly(n: nat)
    ensures Digits(Decimal(n)) && Parse(Decimal(n)) == n && (n > 0 ==> Decimal(n)[0] != '0')
  {
    ParseOfDecimal(n);
    if n >= 10 { DecimalExactly(n / 10); }
  }

  /** The five-digit rendering of n: at least five digits that denote n, and more only as far as n needs them. */
  lemma {:induction false} PaddedExactly(n: nat)
    ensures var s := Padded(n);
            Digits(s) && Parse(s) == n && |s| >= 5 && (|s| > 5 ==> s[0] != '0')
  {
    DecimalExactly(n);
    ParseOfPadded(n);
    assert n == 0 ==> |Decimal(n)| == 1;
  }
}
