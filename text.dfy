/**
 Text rendering the commands rely on: decimal indices (`{}` on a `usize`),
 `str::repeat`, `[String]::join`, and `{:?}` on strings and string vectors.
 */
module Text {
  import opened Wrappers

  /** The decimal digit for `d`. */
  function Digit(d: nat): (c: char)
    requires d < 10
    ensures '0' <= c <= '9' && c as int - '0' as int == d
  {
    ('0' as int + d) as char
  }

  ghost predicate AllDigits(s: string) {
    forall i :: 0 <= i < |s| ==> '0' <= s[i] <= '9'
  }

  /** `n` written in decimal, without leading zeros. */
  function NatToString(n: nat): (s: string)
    ensures |s| >= 1 && AllDigits(s)
    ensures |s| > 1 ==> s[0] != '0'
    decreases n
  {
    if n < 10 then [Digit(n)] else NatToString(n / 10) + [Digit(n % 10)]
  }

  /** The number a string of decimal digits denotes. */
  function DecimalValue(s: string): nat
    requires AllDigits(s)
    decreases |s|
  {
    if s == [] then 0
    else DecimalValue(s[..|s| - 1]) * 10 + (s[|s| - 1] as int - '0' as int)
  }

  /** Reading the printed index back gives the index: the rendering loses nothing. */
  lemma {:induction false} DecimalRoundTrip(n: nat)
    ensures DecimalValue(NatToString(n)) == n
    decreases n
  {
    if n >= 10 {
      var s := NatToString(n);
      assert s[..|s| - 1] == NatToString(n / 10);
      DecimalRoundTrip(n / 10);
    }
  }

  /** Distinct indices are printed differently. */
  lemma NatToStringInjective(m: nat, n: nat)
    requires NatToString(m) == NatToString(n)
    ensures m == n
  {
    DecimalRoundTrip(m);
    DecimalRoundTrip(n);
  }

  /** `c` repeated `n` times, as `str::repeat`. */
  function Repeat(c: char, n: nat): (s: string)
    ensures |s| == n
    ensures forall i :: 0 <= i < n ==> s[i] == c
    decreases n
  {
    if n == 0 then [] else [c] + Repeat(c, n - 1)
  }

  /** The strings of `xs` with `sep` between neighbours, as `join`. */
  function Join(xs: seq<string>, sep: string): string
    decreases |xs|
  {
    if xs == [] then []
    else if |xs| == 1 then xs[0]
    else xs[0] + sep + Join(xs[1..], sep)
  }

  /** The first position of `c` in `s`. */
  function IndexOf(s: string, c: char): (r: Option<nat>)
    ensures r.Some? ==> r.value < |s| && s[r.value] == c && c !in s[..r.value]
    ensures r.None? ==> c !in s
    decreases |s|
  {
    if s == [] then None
    else if s[0] == c then Some(0)
    else match IndexOf(s[1..], c)
      case None => None
      case Some(i) => assert s[1..][..i] == s[1..i + 1]; Some(i + 1)
  }

  /** `s` cut at every occurrence of `c`; the inverse of `Join` with separator `[c]`. */
  function Split(s: string, c: char): (parts: seq<string>)
    ensures |parts| >= 1
    decreases |s|
  {
    match IndexOf(s, c)
    case None => [s]
    case Some(i) => [s[..i]] + Split(s[i + 1..], c)
  }

  /** The first `c` in `p + [c] + q` is the one after `p` when `p` has none. */
  lemma {:induction false} IndexOfAfter(p: string, c: char, q: string)
    requires c !in p
    ensures IndexOf(p + [c] + q, c) == Some(|p|)
    decreases |p|
  {
    if p != [] {
      assert (p + [c] + q)[1..] == p[1..] + [c] + q;
      IndexOfAfter(p[1..], c, q);
    }
  }

  /**
   Joining with a one-character separator that none of the parts contains
   can be undone: the parts are recovered exactly, in order.
   */
  lemma {:induction false} SplitJoin(xs: seq<string>, c: char)
    requires xs != []
    requires forall k :: 0 <= k < |xs| ==> c !in xs[k]
    ensures Split(Join(xs, [c]), c) == xs
    decreases |xs|
  {
    if |xs| > 1 {
      var s := Join(xs, [c]);
      var n := |xs[0]|;
      assert s == xs[0] + [c] + Join(xs[1..], [c]);
      IndexOfAfter(xs[0], c, Join(xs[1..], [c]));
      assert s[..n] == xs[0];
      assert s[n + 1..] == Join(xs[1..], [c]);
      SplitJoin(xs[1..], c);
    }
  }

  /** One character as `{:?}` shows it inside a quoted string. */
  function EscapeChar(c: char): string {
    if c == '"' then "\\\""
    else if c == '\\' then "\\\\"
    else if c == '\n' then "\\n"
    else if c == '\r' then "\\r"
    else if c == '\t' then "\\t"
    else if c == '\0' then "\\0"
    else [c]
  }

  function Escape(s: string): string
    decreases |s|
  {
    if s == [] then [] else EscapeChar(s[0]) + Escape(s[1..])
  }

  /** The character an escape letter stands for. */
  function Unescaped(e: char): char {
    if e == 'n' then '\n'
    else if e == 'r' then '\r'
    else if e == 't' then '\t'
    else if e == '0' then '\0'
    else e
  }

  /** Reads an escaped body back; the inverse of `Escape`. */
  function Unescape(e: string): string
    decreases |e|
  {
    if e == [] then []
    else if e[0] == '\\' && |e| >= 2 then [Unescaped(e[1])] + Unescape(e[2..])
    else [e[0]] + Unescape(e[1..])
  }

  /** The escaping `{:?}` applies is reversible: distinct strings print distinctly. */
  lemma {:induction false} UnescapeEscape(s: string)
    ensures Unescape(Escape(s)) == s
    decreases |s|
  {
    if s != [] {
      var rest := Escape(s[1..]);
      assert Escape(s) == EscapeChar(s[0]) + rest;
      UnescapeEscape(s[1..]);
      if |EscapeChar(s[0])| == 2 {
        assert (EscapeChar(s[0]) + rest)[2..] == rest;
      } else {
        assert (EscapeChar(s[0]) + rest)[1..] == rest;
      }
    }
  }

  /** A string as `{:?}` shows it. */
  function DebugStr(s: string): string {
    "\"" + Escape(s) + "\""
  }

  /** A vector of strings as `{:?}` shows it: `["a", "b"]`. */
  function DebugList(xs: seq<string>): string {
    "[" + Join(seq(|xs|, i requires 0 <= i < |xs| => DebugStr(xs[i])), ", ") + "]"
  }
}
