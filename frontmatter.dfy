/**
 * The header delimiter recognised by both `FRONTMATTER_PATTERN`s: the
 * validator's `^---\s*\n(.*?)\n---\s*\n` and the parser's
 * `^---\s*\n(.*?)\n---\s*\n(.*)$`, both compiled with DOTALL and MULTILINE and
 * applied with `match`, i.e. anchored at offset 0.
 *
 * Rather than a regular-expression engine, the model states which match the
 * engine's backtracking order selects: the greedy `\s*` of the opening line is
 * tried from its longest choice down, then the lazy block from its shortest
 * choice up, and the closing line's greedy `\s*` takes the longest choice that
 * still ends at a newline.
 */
module Frontmatter {
  import opened Text
  import opened Values

  /** `---` at offset `i`. */
  predicate DashesAt(s: string, i: int) {
    0 <= i && i + 3 <= |s| && s[i] == '-' && s[i + 1] == '-' && s[i + 2] == '-'
  }

  /** `---\s*\n` at offset 0 can end just before offset `o`. */
  predicate OpensAt(s: string, o: int) {
    4 <= o <= |s| && DashesAt(s, 0) && s[o - 1] == '\n' && AllSpace(s[3..o - 1])
  }

  /** `\s*\n` at offset `q` can end with the newline at offset `j`. */
  predicate NewlineInRun(s: string, q: int, j: int) {
    0 <= q <= j < |s| && s[j] == '\n' && AllSpace(s[q..j])
  }

  /**
   * The greedy `\s*\n` at offset `q`: the last newline of the run of
   * whitespace that begins at `q`, if that run holds a newline at all
   * (`LastNewlineInRunIsLast`).
   */
  function LastNewlineInRun(s: string, q: nat): (r: Option<nat>)
    ensures r.Some? ==> NewlineInRun(s, q, r.value)
    decreases |s| - q
  {
    if q < |s| && IsSpace(s[q]) then
      match LastNewlineInRun(s, q + 1)
      case Some(j) =>
        assert s[q..j] == [s[q]] + s[q + 1..j];
        Some(j)
      case None => if s[q] == '\n' then Some(q) else None
    else None
  }

  /** No newline that `\s*\n` at `q` could end with lies beyond the one chosen. */
  lemma {:induction false} LastNewlineInRunIsLast(s: string, q: nat, j: int)
    requires NewlineInRun(s, q, j)
    ensures LastNewlineInRun(s, q).Some? && j <= LastNewlineInRun(s, q).value
    decreases |s| - q
  {
    if q < j {
      assert s[q..j][0] == s[q];
      assert s[q + 1..j] == s[q..j][1..];
      LastNewlineInRunIsLast(s, q + 1, j);
    }
  }

  /**
   * `\n---\s*\n` at offset `p`: a line holding `---` and trailing whitespace,
   * where that whitespace reaches a newline. A `---` at the very end of the
   * text, or one followed on its line by anything but whitespace, never closes.
   */
  predicate ClosesAt(s: string, p: int) {
    0 <= p && p + 4 <= |s| && s[p] == '\n' && DashesAt(s, p + 1) && LastNewlineInRun(s, p + 4).Some?
  }

  /** The lazy `(.*?)`: the first closing delimiter at or after `p`. */
  function FirstClose(s: string, p: nat): (r: Option<nat>)
    ensures r.Some? ==> p <= r.value && ClosesAt(s, r.value)
                        && forall q :: p <= q < r.value ==> !ClosesAt(s, q)
    ensures r.None? ==> forall q :: p <= q ==> !ClosesAt(s, q)
    decreases |s| - p
  {
    if p + 4 > |s| then None
    else if ClosesAt(s, p) then Some(p)
    else FirstClose(s, p + 1)
  }

  /**
   * Offsets of a match: `s[..open]` is the opening delimiter, `s[open..close]`
   * the captured block, `s[close..end]` the closing delimiter and `s[end..]`
   * whatever follows it.
   */
  datatype Header = Header(open: nat, close: nat, end: nat)

  /** No opening choice ending in `(lo, hi]` leads to any closing delimiter. */
  ghost predicate NoHeaderBetween(s: string, lo: int, hi: int) {
    forall o, q :: lo < o <= hi && o <= q && OpensAt(s, o) ==> !ClosesAt(s, q)
  }

  /** One more opening choice that leads nowhere extends the range. */
  lemma NoHeaderExtend(s: string, lo: int, o: int)
    requires NoHeaderBetween(s, lo, o - 1)
    requires OpensAt(s, o) ==> forall q :: o <= q ==> !ClosesAt(s, q)
    ensures NoHeaderBetween(s, lo, o)
  {
  }

  /** Once no opening choice lies beyond `hi`, nothing beyond it matters. */
  lemma NoHeaderBeyond(s: string, lo: int, hi: int)
    requires NoHeaderBetween(s, lo, hi)
    requires forall o :: OpensAt(s, o) ==> o <= hi
    ensures NoHeaderBetween(s, lo, |s|)
  {
  }

  /**
   * Backtracking into the opening `\s*`: the candidate ends `o`, `o - 1`, ...,
   * `4` are tried in that order, and the first one from which a closing
   * delimiter can be found wins.
   */
  function HeaderFrom(s: string, o: nat): (r: Option<Header>)
    requires o <= |s|
    ensures r.Some? ==> 4 <= r.value.open <= o && r.value.open <= r.value.close
                        && r.value.close + 4 < r.value.end <= |s|
    decreases o
  {
    if o < 4 then None
    else if s[o - 1] == '\n' && FirstClose(s, o).Some? then
      var c := FirstClose(s, o).value;
      Some(Header(o, c, LastNewlineInRun(s, c + 4).value + 1))
    else HeaderFrom(s, o - 1)
  }

  /**
   * What the backtracking over the candidate ends up to `o` finds: a real
   * opening delimiter, the first closing delimiter after it, and the end of
   * that closing delimiter's last newline.
   */
  lemma {:induction false} HeaderFromDelimits(s: string, o: nat)
    requires DashesAt(s, 0) && 3 <= o <= |s| && AllSpace(s[3..o])
    ensures var r := HeaderFrom(s, o);
            r.Some? ==>
              && OpensAt(s, r.value.open) && ClosesAt(s, r.value.close)
              && (forall q :: r.value.open <= q < r.value.close ==> !ClosesAt(s, q))
              && LastNewlineInRun(s, r.value.close + 4) == Some(r.value.end - 1)
  {
    HeaderFromOpens(s, o);
    HeaderFromFirstClose(s, o);
    HeaderFromEnd(s, o);
  }

  /** The chosen candidate end is a real opening delimiter. */
  lemma {:induction false} HeaderFromOpens(s: string, o: nat)
    requires DashesAt(s, 0) && 3 <= o <= |s| && AllSpace(s[3..o])
    ensures HeaderFrom(s, o).Some? ==> OpensAt(s, HeaderFrom(s, o).value.open)
    decreases o
  {
    if o >= 4 {
      assert s[3..o - 1] == s[3..o][..o - 4];
      if !(s[o - 1] == '\n' && FirstClose(s, o).Some?) {
        HeaderFromOpens(s, o - 1);
      }
    }
  }

  /** The block ends at the first closing delimiter after the opening one. */
  lemma {:induction false} HeaderFromFirstClose(s: string, o: nat)
    requires o <= |s|
    ensures HeaderFrom(s, o).Some? ==> FirstClose(s, HeaderFrom(s, o).value.open) == Some(HeaderFrom(s, o).value.close)
    decreases o
  {
    if o >= 4 && !(s[o - 1] == '\n' && FirstClose(s, o).Some?) {
      HeaderFromFirstClose(s, o - 1);
    }
  }

  /** The match ends just after the last newline of the closing delimiter's whitespace. */
  lemma {:induction false} HeaderFromEnd(s: string, o: nat)
    requires o <= |s|
    ensures HeaderFrom(s, o).Some? ==>
              LastNewlineInRun(s, HeaderFrom(s, o).value.close + 4) == Some(HeaderFrom(s, o).value.end - 1)
    decreases o
  {
    if o >= 4 && !(s[o - 1] == '\n' && FirstClose(s, o).Some?) {
      HeaderFromEnd(s, o - 1);
    }
  }

  /** The candidate ends above the one chosen, or all of them when none is, lead nowhere. */
  lemma {:induction false} HeaderFromLongest(s: string, o: nat)
    requires o <= |s|
    ensures var r := HeaderFrom(s, o);
            && (r.Some? ==> NoHeaderBetween(s, r.value.open, o))
            && (r.None? ==> NoHeaderBetween(s, 0, o))
    decreases o
  {
    if o >= 4 && !(s[o - 1] == '\n' && FirstClose(s, o).Some?) {
      HeaderFromLongest(s, o - 1);
      var r := HeaderFrom(s, o - 1);
      NoHeaderExtend(s, if r.Some? then r.value.open else 0, o);
    }
  }

  /**
   * `FRONTMATTER_PATTERN.match(s)` (validation.py): after `---`, the opening
   * `\s*` first takes the whole run of whitespace, then backs off. Which match
   * this is is `MatchHeaderDelimits` and `MatchHeaderLongest`.
   */
  function MatchHeader(s: string): (r: Option<Header>)
    ensures r.Some? ==> r.value.open <= r.value.close && r.value.close + 4 < r.value.end <= |s|
  {
    if !DashesAt(s, 0) then None else HeaderFrom(s, 3 + LeadingSpaces(s[3..]))
  }

  /** An opening delimiter never reaches past the run of whitespace after `---`. */
  lemma OpeningWithinRun(s: string, o: int)
    requires OpensAt(s, o)
    ensures o <= 3 + LeadingSpaces(s[3..])
  {
    assert s[3..o] == s[3..o - 1] + [s[o - 1]];
    AllSpaceConcat(s[3..o - 1], [s[o - 1]]);
    assert s[3..][..o - 3] == s[3..o];
    LeadingSpacesCover(s[3..], o - 3);
  }

  /**
   * When `MatchHeader` matches, the opening delimiter ends at a newline after
   * `---` and whitespace only, the block runs up to the FIRST closing
   * delimiter after it, and the closing delimiter takes all of the whitespace
   * after its `---` up to the last newline in it.
   */
  lemma MatchHeaderDelimits(s: string)
    ensures var r := MatchHeader(s);
            r.Some? ==>
              && OpensAt(s, r.value.open) && ClosesAt(s, r.value.close)
              && (forall q :: r.value.open <= q < r.value.close ==> !ClosesAt(s, q))
              && LastNewlineInRun(s, r.value.close + 4) == Some(r.value.end - 1)
  {
    if DashesAt(s, 0) {
      var run := LeadingSpaces(s[3..]);
      assert s[3..3 + run] == s[3..][..run];
      HeaderFromDelimits(s, 3 + run);
    }
  }

  /**
   * The match takes the longest opening delimiter that leads to a closing
   * one: no longer opening choice leads to any closing delimiter. And
   * `MatchHeader` fails exactly when no pair of opening and closing
   * delimiters exists at all.
   */
  lemma MatchHeaderLongest(s: string)
    ensures MatchHeader(s).Some? ==> NoHeaderBetween(s, MatchHeader(s).value.open, |s|)
    ensures MatchHeader(s).None? <==> NoHeaderBetween(s, 0, |s|)
  {
    MatchHeaderDelimits(s);
    if DashesAt(s, 0) {
      var run := LeadingSpaces(s[3..]);
      HeaderFromLongest(s, 3 + run);
      forall o | OpensAt(s, o) ensures o <= 3 + run {
        OpeningWithinRun(s, o);
      }
      var r := HeaderFrom(s, 3 + run);
      NoHeaderBeyond(s, if r.Some? then r.value.open else 0, 3 + run);
    }
  }

  /** The delimiter lines, as the two halves of the pattern around the block see them. */
  predicate IsOpeningLine(x: string) {
    |x| >= 4 && DashesAt(x, 0) && AllSpace(x[3..]) && x[|x| - 1] == '\n'
  }

  predicate IsClosingLine(x: string) {
    |x| >= 5 && x[0] == '\n' && DashesAt(x, 1) && AllSpace(x[4..]) && x[|x| - 1] == '\n'
  }

  /** The four pieces of a text that carries a header. */
  datatype Parts = Parts(opening: string, block: string, closing: string, rest: string)

  /** Offset at which the text after the closing delimiter begins. */
  function RestStart(p: Parts): nat {
    |p.opening| + |p.block| + |p.closing|
  }

  /**
   * `CommandParser.FRONTMATTER_PATTERN.match(s)` (parser.py): the validator's
   * pattern followed by `(.*)$`, which under DOTALL always takes the rest of
   * the text, so the two patterns accept the same texts and capture the same
   * block. The pieces put back together give the text; which pieces they
   * are is `SplitFrontmatterIsMatch`.
   */
  function SplitFrontmatter(s: string): (r: Option<Parts>)
    ensures r.Some? ==> s == r.value.opening + r.value.block + r.value.closing + r.value.rest
    ensures r.Some? ==> IsOpeningLine(r.value.opening) && IsClosingLine(r.value.closing)
  {
    match MatchHeader(s)
    case None => None
    case Some(h) =>
      HeaderPieces(s, h);
      Some(Parts(s[..h.open], s[h.open..h.close], s[h.close..h.end], s[h.end..]))
  }

  /** The pieces are cut at the offsets of the match `MatchHeader` describes. */
  lemma SplitFrontmatterIsMatch(s: string)
    ensures SplitFrontmatter(s).Some? <==> MatchHeader(s).Some?
    ensures SplitFrontmatter(s).Some? ==>
              var h := MatchHeader(s).value;
              var p := SplitFrontmatter(s).value;
              && p.opening == s[..h.open] && p.block == s[h.open..h.close]
              && p.closing == s[h.close..h.end] && p.rest == s[h.end..]
  {
  }

  lemma HeaderPieces(s: string, h: Header)
    requires MatchHeader(s) == Some(h)
    ensures s == s[..h.open] + s[h.open..h.close] + s[h.close..h.end] + s[h.end..]
    ensures IsOpeningLine(s[..h.open]) && IsClosingLine(s[h.close..h.end])
  {
    MatchHeaderDelimits(s);
    DelimiterPieces(s, h);
  }

  lemma DelimiterPieces(s: string, h: Header)
    requires OpensAt(s, h.open) && h.open <= h.close && h.close + 4 < h.end <= |s|
    requires s[h.close] == '\n' && DashesAt(s, h.close + 1)
    requires AllSpace(s[h.close + 4..h.end - 1]) && s[h.end - 1] == '\n'
    ensures s == s[..h.open] + s[h.open..h.close] + s[h.close..h.end] + s[h.end..]
    ensures IsOpeningLine(s[..h.open]) && IsClosingLine(s[h.close..h.end])
  {
    var opening, closing := s[..h.open], s[h.close..h.end];
    assert opening[3..] == s[3..h.open - 1] + [s[h.open - 1]];
    AllSpaceConcat(s[3..h.open - 1], [s[h.open - 1]]);
    assert closing[4..] == s[h.close + 4..h.end - 1] + [s[h.end - 1]];
    AllSpaceConcat(s[h.close + 4..h.end - 1], [s[h.end - 1]]);
  }

  /**
   * A header whose block is empty needs a blank line: `---`, a newline and
   * `---` straight away is not a header when nothing after it holds a newline.
   */
  lemma EmptyBlockNeedsBlankLine(body: string)
    requires '\n' !in body
    ensures MatchHeader("---\n---\n" + body).None?
  {
    var s := "---\n---\n" + body;
    MatchHeaderLongest(s);
    forall o, q | o <= q && OpensAt(s, o) ensures !ClosesAt(s, q) {
    }
  }
}
