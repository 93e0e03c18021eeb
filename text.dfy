/**
 * The string primitives the core borrows from Python: the whitespace class
 * shared by `str.strip()` and the regular-expression escape `\s`, stripping,
 * `sep.join(parts)`, splitting at a character, and decimal rendering of
 * integers.
 */
module Text {

  /**
   * Python's `str.isspace()` for one character (also what `\s` matches):
   * tab to carriage return, the four separators 0x1C-0x1F, space, next line,
   * no-break space, and the Unicode space separators.
   */
  predicate IsSpace(c: char) {
    var x := c as int;
    || 0x09 <= x <= 0x0D || 0x1C <= x <= 0x20
    || x == 0x85 || x == 0xA0 || x == 0x1680
    || 0x2000 <= x <= 0x200A
    || x == 0x2028 || x == 0x2029 || x == 0x202F || x == 0x205F || x == 0x3000
  }

  predicate AllSpace(s: string) {
    forall i :: 0 <= i < |s| ==> IsSpace(s[i])
  }

  /** Number of whitespace characters at the start of `s`. */
  function LeadingSpaces(s: string): (n: nat)
    ensures n <= |s| && AllSpace(s[..n])
    ensures n < |s| ==> !IsSpace(s[n])
  {
    if s != [] && IsSpace(s[0]) then
      var rest := s[1..];
      var m := LeadingSpaces(rest);
      assert s[..m + 1] == [s[0]] + rest[..m];
      AllSpaceConcat([s[0]], rest[..m]);
      assert m < |rest| ==> s[m + 1] == rest[m];
      m + 1
    else 0
  }

  /** Number of whitespace characters at the end of `s`. */
  function TrailingSpaces(s: string): (n: nat)
    ensures n <= |s| && AllSpace(s[|s| - n..])
    ensures n < |s| ==> !IsSpace(s[|s| - 1 - n])
  {
    if s != [] && IsSpace(s[|s| - 1]) then
      var init := s[..|s| - 1];
      var m := TrailingSpaces(init);
      assert s[|s| - (m + 1)..] == init[|init| - m..] + [s[|s| - 1]];
      AllSpaceConcat(init[|init| - m..], [s[|s| - 1]]);
      assert m < |init| ==> s[|s| - 1 - (m + 1)] == init[|init| - 1 - m];
      m + 1
    else 0
  }

  /** Python's `s.strip()`: `s` with its leading and trailing whitespace removed. */
  function Strip(s: string): string {
    var n := LeadingSpaces(s);
    var u := s[n..];
    u[..|u| - TrailingSpaces(u)]
  }

  /** The stripped text neither starts nor ends with whitespace. */
  lemma StripEnds(s: string)
    ensures var r := Strip(s); r != [] ==> !IsSpace(r[0]) && !IsSpace(r[|r| - 1])
  {
    var n := LeadingSpaces(s);
    var u := s[n..];
    var t := TrailingSpaces(u);
    var r := u[..|u| - t];
    assert Strip(s) == r;
    if r != [] {
      assert n < |s| && t < |u|;
      var first, last := s[n], u[|u| - 1 - t];
      assert !IsSpace(first) && !IsSpace(last);
      assert r[0] == first && r[|r| - 1] == last;
    }
  }

  /** Stripping leaves nothing exactly when the text is all whitespace. */
  lemma StripEmpty(s: string)
    ensures Strip(s) == [] <==> AllSpace(s)
  {
    var n := LeadingSpaces(s);
    var u := s[n..];
    var t := TrailingSpaces(u);
    if |u| - t == 0 {
      assert s == s[..n] + u[|u| - t..];
      AllSpaceConcat(s[..n], u[|u| - t..]);
    } else {
      assert !IsSpace(s[n]);
    }
  }

  lemma AllSpaceConcat(a: string, b: string)
    requires AllSpace(a) && AllSpace(b)
    ensures AllSpace(a + b)
  {
    assert forall i :: 0 <= i < |a + b| ==> (a + b)[i] == if i < |a| then a[i] else b[i - |a|];
  }

  lemma {:induction false} LeadingSpacesAfterSpace(w: string, t: string)
    requires AllSpace(w)
    ensures LeadingSpaces(w + t) == |w| + LeadingSpaces(t)
  {
    if w != [] {
      assert (w + t)[1..] == w[1..] + t;
      LeadingSpacesAfterSpace(w[1..], t);
    } else {
      assert w + t == t;
    }
  }

  /** A prefix of whitespace is covered by the leading whitespace count. */
  lemma {:induction false} LeadingSpacesCover(t: string, n: nat)
    requires n <= |t| && AllSpace(t[..n])
    ensures n <= LeadingSpaces(t)
  {
    if n > 0 {
      assert t[..n][0] == t[0];
      assert t[1..][..n - 1] == t[..n][1..];
      LeadingSpacesCover(t[1..], n - 1);
    }
  }

  /** Whitespace in front of a text never shows after stripping. */
  lemma StripIgnoresLeadingSpace(w: string, t: string)
    requires AllSpace(w)
    ensures Strip(w + t) == Strip(t)
  {
    LeadingSpacesAfterSpace(w, t);
    assert (w + t)[|w| + LeadingSpaces(t)..] == t[LeadingSpaces(t)..];
  }

  /**
   * `r` is a piece of `s` at or after offset `k` that whitespace alone
   * separates from `k` and from the end of `s`.
   */
  predicate FramedAfter(s: string, k: nat, r: string) {
    exists i :: k <= i <= |s| - |r| && s[i..i + |r|] == r && AllSpace(s[k..i]) && AllSpace(s[i + |r|..])
  }

  /** Stripping what follows offset `k` of `s` leaves a piece framed by whitespace. */
  lemma StripFramed(s: string, k: nat)
    requires k <= |s|
    ensures FramedAfter(s, k, Strip(s[k..]))
  {
    var t := s[k..];
    var n := LeadingSpaces(t);
    var u := t[n..];
    var r := u[..|u| - TrailingSpaces(u)];
    assert Strip(t) == r;
    assert t[n..n + |r|] == r;
    assert t[n + |r|..] == u[|u| - TrailingSpaces(u)..];
    ShiftFrame(s, k, t, r, n);
  }

  lemma ShiftFrame(s: string, k: nat, t: string, r: string, i: nat)
    requires k <= |s| && t == s[k..]
    requires i <= |t| - |r| && t[i..i + |r|] == r && AllSpace(t[..i]) && AllSpace(t[i + |r|..])
    ensures FramedAfter(s, k, r)
  {
    assert s[k + i..k + i + |r|] == r;
    assert s[k..k + i] == t[..i];
    assert s[k + i + |r|..] == t[i + |r|..];
  }

  /** Python's `sep.join(parts)`. */
  function Join(sep: string, parts: seq<string>): string {
    if |parts| == 0 then ""
    else if |parts| == 1 then parts[0]
    else parts[0] + sep + Join(sep, parts[1..])
  }

  /** Position of the first `c` in `s`, or `|s|` when there is none (Python's `index`). */
  function IndexOf<T(==)>(s: seq<T>, c: T): (i: nat)
    ensures i <= |s| && c !in s[..i]
    ensures i < |s| ==> s[i] == c
  {
    if s == [] then 0
    else if s[0] == c then 0
    else
      var i := 1 + IndexOf(s[1..], c);
      assert s[..i] == [s[0]] + s[1..][..i - 1];
      i
  }

  /** Python's `s.split(c)` for a one-character separator. */
  function Split(s: string, c: char): (parts: seq<string>)
    ensures |parts| >= 1
    decreases |s|
  {
    var i := IndexOf(s, c);
    if i == |s| then [s] else [s[..i]] + Split(s[i + 1..], c)
  }

  /** Joining lines that hold no separator and splitting again gives the lines back. */
  lemma {:induction false} SplitJoin(parts: seq<string>, c: char)
    requires |parts| >= 1
    requires forall k :: 0 <= k < |parts| ==> c !in parts[k]
    ensures Split(Join([c], parts), c) == parts
  {
    var s := Join([c], parts);
    if |parts| == 1 {
      assert s == parts[0];
      var i := IndexOf(s, c);
    } else {
      var rest := Join([c], parts[1..]);
      assert s == parts[0] + [c] + rest;
      var i := IndexOf(s, c);
      assert s[|parts[0]|] == c;
      assert s[..i] == parts[0];
      assert s[i + 1..] == rest;
      SplitJoin(parts[1..], c);
    }
  }

  function DigitChar(d: nat): char
    requires d < 10
  {
    "0123456789"[d]
  }

  /** Decimal text of a natural number, as `str(n)` gives it. */
  function NatText(n: nat): (s: string)
    ensures |s| >= 1
    ensures forall k :: 0 <= k < |s| ==> '0' <= s[k] <= '9'
  {
    if n < 10 then [DigitChar(n)] else NatText(n / 10) + [DigitChar(n % 10)]
  }

  /** Decimal text of an integer, with a minus sign when it is negative. */
  function IntText(i: int): string {
    if i < 0 then "-" + NatText(-i) else NatText(i)
  }
}
