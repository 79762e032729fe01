/**
 * The string operations the sidecar relies on, as Python defines them:
 * `str.split()` with no separator, `" ".join`, `str.strip(chars)`,
 * the concatenation that `writelines` performs, and `str(int)`.
 */
module Text {

  /** The characters Python's `str.split()` without a separator treats as whitespace. */
  predicate IsSpace(c: char) {
    || c == ' '
    || '\t' <= c <= '\r'
    || '\U{1c}' <= c <= '\U{1f}'
    || c == '\U{85}' || c == '\U{a0}' || c == '\U{1680}'
    || '\U{2000}' <= c <= '\U{200a}'
    || c == '\U{2028}' || c == '\U{2029}' || c == '\U{202f}' || c == '\U{205f}' || c == '\U{3000}'
  }

  /** A field as `str.split()` produces it: non-empty and free of whitespace. */
  predicate IsToken(w: string) {
    w != [] && forall i :: 0 <= i < |w| ==> !IsSpace(w[i])
  }

  predicate AllTokens(ts: seq<string>) {
    forall i :: 0 <= i < |ts| ==> IsToken(ts[i])
  }

  /** Length of the maximal run of non-whitespace that starts `s`. */
  function WordLength(s: string): (n: nat)
    requires s != [] && !IsSpace(s[0])
    ensures 0 < n <= |s|
    ensures forall i :: 0 <= i < n ==> !IsSpace(s[i])
    ensures n == |s| || IsSpace(s[n])
    decreases |s|
  {
    if |s| == 1 || IsSpace(s[1]) then 1 else 1 + WordLength(s[1..])
  }

  /** `s.split()`: the maximal runs of non-whitespace characters, in order. */
  function Split(s: string): seq<string>
    decreases |s|
  {
    if s == [] then []
    else if IsSpace(s[0]) then Split(s[1..])
    else
      var n := WordLength(s);
      [s[..n]] + Split(s[n..])
  }

  /** `sep.join(ts)`. */
  function Join(ts: seq<string>, sep: string): string {
    if ts == [] then ""
    else if |ts| == 1 then ts[0]
    else ts[0] + sep + Join(ts[1..], sep)
  }

  /** Every field `Split` produces is a token. */
  lemma {:induction false} SplitYieldsTokens(s: string)
    ensures AllTokens(Split(s))
    decreases |s|
  {
    if s == [] {
    } else if IsSpace(s[0]) {
      SplitYieldsTokens(s[1..]);
    } else {
      var n := WordLength(s);
      SplitYieldsTokens(s[n..]);
      assert Split(s) == [s[..n]] + Split(s[n..]);
    }
  }

  /** A token followed by a space and more text splits into that token and the rest's fields. */
  lemma SplitAfterToken(t: string, rest: string)
    requires IsToken(t)
    ensures Split(t + " " + rest) == [t] + Split(rest)
  {
    var s := t + " " + rest;
    assert s[|t|] == ' ';
    var n := WordLength(s);
    assert n == |t|;
    assert s[..n] == t;
    assert s[n..] == " " + rest;
    assert (" " + rest)[1..] == rest;
  }

  /** A single token splits into itself. */
  lemma SplitOfToken(t: string)
    requires IsToken(t)
    ensures Split(t) == [t]
  {
    var n := WordLength(t);
    assert t[..n] == t;
    assert t[n..] == [];
  }

  /** Round trip: joining tokens with single spaces and splitting again gives back the tokens. */
  lemma {:induction false} SplitJoin(ts: seq<string>)
    requires AllTokens(ts)
    ensures Split(Join(ts, " ")) == ts
  {
    if ts == [] {
    } else if |ts| == 1 {
      SplitOfToken(ts[0]);
    } else {
      SplitJoin(ts[1..]);
      SplitAfterToken(ts[0], Join(ts[1..], " "));
      assert ts == [ts[0]] + ts[1..];
    }
  }

  /** Whitespace after a word does not change the word's length. */
  lemma {:induction false} WordLengthTrailingSpace(s: string, c: char)
    requires s != [] && !IsSpace(s[0]) && IsSpace(c)
    ensures WordLength(s + [c]) == WordLength(s)
    decreases |s|
  {
    var w := s + [c];
    if |s| > 1 && !IsSpace(s[1]) {
      assert w[1..] == s[1..] + [c];
      WordLengthTrailingSpace(s[1..], c);
    }
  }

  /**
   * A trailing whitespace character, such as the `"\n"` that ends every line
   * a file iteration yields, does not change the fields of `split()`.
   */
  lemma {:induction false} SplitTrailingSpace(s: string, c: char)
    requires IsSpace(c)
    ensures Split(s + [c]) == Split(s)
    decreases |s|
  {
    var w := s + [c];
    if s == [] {
      assert w == [c];
    } else if IsSpace(s[0]) {
      assert w[1..] == s[1..] + [c];
      SplitTrailingSpace(s[1..], c);
    } else {
      var n := WordLength(s);
      WordLengthTrailingSpace(s, c);
      assert w[..n] == s[..n];
      assert w[n..] == s[n..] + [c];
      SplitTrailingSpace(s[n..], c);
    }
  }

  predicate AllIn(s: string, cs: set<char>) {
    forall i :: 0 <= i < |s| ==> s[i] in cs
  }

  /** `s.lstrip(cs)`: drops the longest prefix made of characters of `cs`. */
  function StripLeft(s: string, cs: set<char>): (r: string)
    ensures |r| <= |s| && r == s[|s| - |r|..]
    ensures AllIn(s[..|s| - |r|], cs)
    ensures r == [] || r[0] !in cs
    decreases |s|
  {
    if s != [] && s[0] in cs then StripLeft(s[1..], cs) else s
  }

  /** `s.rstrip(cs)`: drops the longest suffix made of characters of `cs`. */
  function StripRight(s: string, cs: set<char>): (r: string)
    ensures |r| <= |s| && r == s[..|r|]
    ensures AllIn(s[|r|..], cs)
    ensures r == [] || r[|r| - 1] !in cs
    decreases |s|
  {
    if s != [] && s[|s| - 1] in cs then StripRight(s[..|s| - 1], cs) else s
  }

  /** `s.strip(cs)`. */
  function Strip(s: string, cs: set<char>): string {
    StripRight(StripLeft(s, cs), cs)
  }

  lemma {:induction false} StripLeftOf(l: string, x: string, cs: set<char>)
    requires AllIn(l, cs)
    requires x == [] || x[0] !in cs
    ensures StripLeft(l + x, cs) == x
    decreases |l|
  {
    if l != [] {
      assert (l + x)[0] == l[0];
      assert (l + x)[1..] == l[1..] + x;
      StripLeftOf(l[1..], x, cs);
    }
  }

  lemma {:induction false} StripRightOf(x: string, r: string, cs: set<char>)
    requires AllIn(r, cs)
    requires x == [] || x[|x| - 1] !in cs
    ensures StripRight(x + r, cs) == x
    decreases |r|
  {
    if r != [] {
      var s := x + r;
      assert s[|s| - 1] == r[|r| - 1];
      assert s[..|s| - 1] == x + r[..|r| - 1];
      StripRightOf(x, r[..|r| - 1], cs);
    } else {
      assert x + r == x;
    }
  }

  /**
   * `strip` removes exactly the surrounding characters of `cs`: a core whose
   * first and last characters are outside `cs`, wrapped in any characters of
   * `cs`, comes back unchanged.
   */
  lemma StripUnwraps(l: string, m: string, r: string, cs: set<char>)
    requires AllIn(l, cs) && AllIn(r, cs)
    requires m == [] || (m[0] !in cs && m[|m| - 1] !in cs)
    ensures Strip(l + m + r, cs) == m
  {
    assert l + m + r == l + (m + r);
    if m == [] {
      assert m + r == r;
      assert AllIn(l + r, cs) by {
        forall i | 0 <= i < |l + r| ensures (l + r)[i] in cs {
          if i < |l| { assert (l + r)[i] == l[i]; } else { assert (l + r)[i] == r[i - |l|]; }
        }
      }
      assert l + r == (l + r) + [];
      StripLeftOf(l + r, [], cs);
      assert StripLeft(l + m + r, cs) == [];
    } else {
      assert (m + r)[0] == m[0];
      StripLeftOf(l, m + r, cs);
      StripRightOf(m, r, cs);
    }
  }

  /** What `writelines` puts in the file: the lines one after the other. */
  function Concat(ls: seq<string>): string {
    if ls == [] then "" else Concat(ls[..|ls| - 1]) + ls[|ls| - 1]
  }

  lemma ConcatAppend(ls: seq<string>, l: string)
    ensures Concat(ls + [l]) == Concat(ls) + l
  {
    assert (ls + [l])[..|ls + [l]| - 1] == ls;
  }

  function Digit(d: nat): char
    requires d < 10
  {
    "0123456789"[d]
  }

  function NatDecimal(n: nat): (r: string)
    ensures r != []
    ensures forall i :: 0 <= i < |r| ==> '0' <= r[i] <= '9'
  {
    if n < 10 then [Digit(n)] else NatDecimal(n / 10) + [Digit(n % 10)]
  }

  /** `str(n)` for an integer `n`. */
  function Decimal(n: int): string {
    if n < 0 then "-" + NatDecimal(-n) else NatDecimal(n)
  }
}
