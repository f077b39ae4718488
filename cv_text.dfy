/**
  Character-voice extraction from an artist string.

  The pattern is the regular expression `\(CV[:.]\s*(.+?)\)` applied globally:
  every non-overlapping match, left to right, contributes its capture group, and
  the captures are joined with `/`. The matcher below spells out the
  backtracking semantics of that one pattern: the greedy `\s*` takes the longest
  whitespace run and gives characters back one at a time when no name can follow,
  and the lazy `.+?` takes one character and then stops at the first `)`.
*/
module CvText {
  import opened Base

  // ---------------------------------------------------------------------------
  // Character classes
  // ---------------------------------------------------------------------------

  /** ECMAScript LineTerminator: the characters `.` does not match. */
  predicate IsLineTerminator(c: char) {
    c == '\n' || c == '\r' || c == '\U{2028}' || c == '\U{2029}'
  }

  /** ECMAScript `\s`: WhiteSpace (TAB, VT, FF, ZWNBSP and category Zs) or LineTerminator. */
  predicate IsWhiteSpace(c: char) {
    IsLineTerminator(c) || c == '\t' || c == '\U{B}' || c == '\U{C}' || c == '\U{FEFF}'
    || c == ' ' || c == '\U{A0}' || c == '\U{1680}' || ('\U{2000}' <= c <= '\U{200A}')
    || c == '\U{202F}' || c == '\U{205F}' || c == '\U{3000}'
  }

  // ---------------------------------------------------------------------------
  // Declarative meaning of one match
  // ---------------------------------------------------------------------------

  /**
    One match: the pattern begins at `at` (the `(`), the captured name is
    `s[start..end]`, and the closing `)` is `s[end]`.
  */
  datatype Span = Span(at: nat, start: nat, end: nat)

  /** The literal part `\(CV[:.]` of the pattern occurs at index `i`. */
  predicate HeaderAt(s: string, i: nat) {
    i + 4 <= |s| && s[i] == '(' && s[i + 1] == 'C' && s[i + 2] == 'V'
    && (s[i + 3] == ':' || s[i + 3] == '.')
  }

  /** Every character of `s[lo..hi]` is matched by `\s`. */
  ghost predicate AllWhiteSpace(s: string, lo: nat, hi: nat) {
    lo <= hi <= |s| && forall j :: lo <= j < hi ==> IsWhiteSpace(s[j])
  }

  /**
    `(.+?)\)` matches from index `a` capturing `s[a..b]`: the name has at least
    one character, none of them is a line terminator, and `s[b]` is the first `)`
    after the name's first character.
  */
  ghost predicate LazyName(s: string, a: nat, b: nat) {
    a < b < |s| && s[b] == ')' && !IsLineTerminator(s[a])
    && forall j :: a < j < b ==> s[j] != ')' && !IsLineTerminator(s[j])
  }

  /**
    The match the regular-expression engine reports when it tries index `sp.at`:
    header, then whitespace up to the name, a lazily closed name, and no name
    could follow a longer whitespace prefix (the greedy `\s*` is tried longest first).
  */
  ghost predicate MatchSpec(s: string, sp: Span) {
    HeaderAt(s, sp.at) && AllWhiteSpace(s, sp.at + 4, sp.start) && LazyName(s, sp.start, sp.end)
    && forall a, b :: sp.start < a && AllWhiteSpace(s, sp.at + 4, a) ==> !LazyName(s, a, b)
  }

  // ---------------------------------------------------------------------------
  // The matcher
  // ---------------------------------------------------------------------------

  /** Length of the longest run of `\s` characters starting at `p`. */
  function WhiteSpaceRun(s: string, p: nat): (n: nat)
    requires p <= |s|
    ensures p + n <= |s|
    decreases |s| - p
  {
    if p < |s| && IsWhiteSpace(s[p]) then 1 + WhiteSpaceRun(s, p + 1) else 0
  }

  /** Index of the first `)` at or after `e`, unless a line terminator or the end comes first. */
  function CloseParenFrom(s: string, e: nat): (r: Option<nat>)
    ensures r.Some? ==> e <= r.value < |s|
    decreases |s| - e
  {
    if e >= |s| then None
    else if s[e] == ')' then Some(e)
    else if IsLineTerminator(s[e]) then None
    else CloseParenFrom(s, e + 1)
  }

  /** `(.+?)\)` tried at index `a`: the index of the closing `)`, if any. */
  function LazyEnd(s: string, a: nat): (r: Option<nat>)
    ensures r.Some? ==> a < r.value < |s|
  {
    if a < |s| && !IsLineTerminator(s[a]) then CloseParenFrom(s, a + 1) else None
  }

  /**
    Backtracking through `\s*`: the name is tried at `p + k`, then `p + k - 1`,
    down to `p`, and the first that can be closed wins.
  */
  function TryName(s: string, at: nat, p: nat, k: nat): (r: Option<Span>)
    requires p + k <= |s|
    ensures r.Some? ==> r.value.at == at && p <= r.value.start <= p + k && r.value.start < r.value.end < |s|
    decreases k
  {
    match LazyEnd(s, p + k)
    case Some(b) => Some(Span(at, p + k, b))
    case None => if k == 0 then None else TryName(s, at, p, k - 1)
  }

  /** The match the engine finds when it tries the pattern at index `i`, if any. */
  function MatchAt(s: string, i: nat): (r: Option<Span>)
    ensures r.Some? ==> r.value.at == i && i + 4 <= r.value.start < r.value.end < |s|
  {
    if HeaderAt(s, i) then TryName(s, i, i + 4, WhiteSpaceRun(s, i + 4)) else None
  }

  /** The matcher of the pattern on `s`: the match found when it is tried at each index. */
  function Matcher(s: string): (m: nat -> Option<Span>)
    ensures ValidMatcher(|s|, m)
  {
    (i: nat) => MatchAt(s, i)
  }

  /** The global scan of `matchAll` with the pattern's matcher, from `pos`. */
  function Scan(s: string, pos: nat): (r: seq<Span>)
    ensures forall k :: 0 <= k < |r| ==> r[k].start < r[k].end < |s|
  {
    ScanWithInBounds(|s|, Matcher(s), pos);
    ScanWith(|s|, Matcher(s), pos)
  }

  /** The capture group of each of `spans`, in order. */
  function CaptureTexts(s: string, spans: seq<Span>): (names: seq<string>)
    requires forall k :: 0 <= k < |spans| ==> spans[k].start <= spans[k].end <= |s|
    ensures |names| == |spans|
  {
    seq(|spans|, k requires 0 <= k < |spans| => s[spans[k].start..spans[k].end])
  }

  /** The capture group of every match, in order. */
  function Captures(s: string): (names: seq<string>)
    ensures |names| == |Scan(s, 0)|
  {
    CaptureTexts(s, Scan(s, 0))
  }

  /** `Array.prototype.join`: the parts with `sep` between consecutive ones. */
  function Join(parts: seq<string>, sep: string): (r: string)
    ensures |sep| > 0 ==> (r == "" <==> parts == [] || parts == [""])
  {
    if |parts| == 0 then ""
    else if |parts| == 1 then parts[0]
    else parts[0] + sep + Join(parts[1..], sep)
  }

  /** `extractCVs`: the names of all character voices in `artist`, joined with `/`. */
  function ExtractCVs(artist: string): string {
    Join(Captures(artist), "/")
  }

  /** `artist.match(RE_CV)` is non-null: the pattern matches somewhere. */
  ghost predicate HasMatch(s: string) {
    exists i :: 0 <= i < |s| && MatchAt(s, i).Some?
  }

  // ---------------------------------------------------------------------------
  // One match
  // ---------------------------------------------------------------------------

  /** `WhiteSpaceRun` is the longest whitespace run: all whitespace, and not followed by whitespace. */
  lemma {:induction false} WhiteSpaceRunIsLongest(s: string, p: nat)
    requires p <= |s|
    ensures AllWhiteSpace(s, p, p + WhiteSpaceRun(s, p))
    ensures p + WhiteSpaceRun(s, p) == |s| || !IsWhiteSpace(s[p + WhiteSpaceRun(s, p)])
    decreases |s| - p
  {
    if p < |s| && IsWhiteSpace(s[p]) {
      WhiteSpaceRunIsLongest(s, p + 1);
    }
  }

  /** `CloseParenFrom` finds the first `)` from `e` on, and fails when a line terminator or the end comes first. */
  lemma {:induction false} CloseParenFromIsFirst(s: string, e: nat)
    ensures CloseParenFrom(s, e).Some? ==> s[CloseParenFrom(s, e).value] == ')'
    ensures CloseParenFrom(s, e).Some? ==>
      forall j :: e <= j < CloseParenFrom(s, e).value ==> s[j] != ')' && !IsLineTerminator(s[j])
    ensures CloseParenFrom(s, e).None? ==>
      forall b :: e <= b < |s| && s[b] == ')' ==> exists j :: e <= j < b && IsLineTerminator(s[j])
    decreases |s| - e
  {
    if e < |s| && s[e] != ')' && !IsLineTerminator(s[e]) {
      CloseParenFromIsFirst(s, e + 1);
    }
  }

  /** `LazyEnd` decides the lazy name: it returns the closing `)` exactly when there is one. */
  lemma LazyEndIff(s: string, a: nat, b: nat)
    ensures LazyEnd(s, a) == Some(b) <==> LazyName(s, a, b)
  {
    CloseParenFromIsFirst(s, a + 1);
  }

  /** `TryName` returns the name after the longest whitespace prefix (up to `p + k`) that can be closed. */
  lemma {:induction false} TryNameIsLongestPrefix(s: string, at: nat, p: nat, k: nat)
    requires p + k <= |s|
    ensures TryName(s, at, p, k).Some? ==>
      LazyName(s, TryName(s, at, p, k).value.start, TryName(s, at, p, k).value.end)
    ensures TryName(s, at, p, k).Some? ==>
      forall a, b :: TryName(s, at, p, k).value.start < a <= p + k ==> !LazyName(s, a, b)
    ensures TryName(s, at, p, k).None? ==> forall a, b :: p <= a <= p + k ==> !LazyName(s, a, b)
    decreases k
  {
    forall a: nat, b: nat | a == p + k
      ensures LazyEnd(s, p + k) == Some(b) <==> LazyName(s, a, b)
    {
      LazyEndIff(s, p + k, b);
    }
    if LazyEnd(s, p + k).None? && k > 0 {
      TryNameIsLongestPrefix(s, at, p, k - 1);
    }
  }

  /** The closing `)` of a name is unique. */
  lemma LazyNameUnique(s: string, a: nat, b: nat, b': nat)
    requires LazyName(s, a, b) && LazyName(s, a, b')
    ensures b == b'
  {
  }

  /** The matcher finds exactly the match the declarative meaning describes. */
  lemma MatchAtIff(s: string, i: nat, sp: Span)
    ensures MatchAt(s, i) == Some(sp) <==> sp.at == i && MatchSpec(s, sp)
  {
    if HeaderAt(s, i) {
      var p := i + 4;
      var w := WhiteSpaceRun(s, p);
      WhiteSpaceRunIsLongest(s, p);
      TryNameIsLongestPrefix(s, i, p, w);
      // No whitespace prefix is longer than the greedy run.
      forall a | p + w < a <= |s|
        ensures !AllWhiteSpace(s, p, a)
      {
        assert !IsWhiteSpace(s[p + w]);
      }
      if MatchAt(s, i) == Some(sp) {
        assert AllWhiteSpace(s, p, sp.start);
      }
      if sp.at == i && MatchSpec(s, sp) {
        var r := TryName(s, i, p, w);
        assert sp.start <= p + w;
        assert LazyName(s, sp.start, sp.end);
        assert r.Some?;
        var found := r.value;
        assert AllWhiteSpace(s, p, found.start);
        assert found.start == sp.start;
        LazyNameUnique(s, sp.start, sp.end, found.end);
      }
    }
  }

  /** No whitespace is left at the head of a name when a name can follow the whole run. */
  lemma WhiteSpaceDroppedGreedily(s: string, sp: Span)
    requires MatchAt(s, sp.at) == Some(sp)
    requires LazyEnd(s, sp.at + 4 + WhiteSpaceRun(s, sp.at + 4)).Some?
    ensures sp.start == sp.at + 4 + WhiteSpaceRun(s, sp.at + 4)
    ensures !IsWhiteSpace(s[sp.start])
  {
    var q := sp.at + 4 + WhiteSpaceRun(s, sp.at + 4);
    WhiteSpaceRunIsLongest(s, sp.at + 4);
    MatchAtIff(s, sp.at, sp);
    var b := LazyEnd(s, q).value;
    LazyEndIff(s, q, b);
    assert AllWhiteSpace(s, sp.at + 4, q);
    assert LazyName(s, q, b);
    assert sp.start >= q;
  }

  // ---------------------------------------------------------------------------
  // The global scan
  // ---------------------------------------------------------------------------

  /**
    A matcher on a text of length `n`: at each index, the match found there, if
    any, which begins at that index and closes before `n`.
  */
  ghost predicate ValidMatcher(n: nat, m: nat -> Option<Span>) {
    forall i: nat :: m(i).Some? ==>
      m(i).value.at == i && i <= m(i).value.start && m(i).value.start < m(i).value.end < n
  }

  /**
    The loop of `matchAll`, whatever the pattern: from `pos`, find the next
    index where the matcher `m` reports a match and resume right after that
    match's closing character.
  */
  function ScanWith(n: nat, m: nat -> Option<Span>, pos: nat): seq<Span>
    requires ValidMatcher(n, m)
    decreases n - pos
  {
    if pos >= n then []
    else match m(pos)
      case Some(sp) => [sp] + ScanWith(n, m, sp.end + 1)
      case None => ScanWith(n, m, pos + 1)
  }

  /** `m` reports no match at any index of `[lo, hi)`. */
  ghost predicate NoneIn(m: nat -> Option<Span>, lo: nat, hi: nat) {
    forall j: nat :: lo <= j < hi ==> m(j).None?
  }

  /**
    `spans` are the left-to-right, non-overlapping matches `m` reports from
    `pos`: the first is reported at the leftmost index from `pos` where `m`
    matches, the rest are those from right after it, and with no span left no
    index from `pos` has a match.
  */
  ghost predicate IsScanOf(n: nat, m: nat -> Option<Span>, pos: nat, spans: seq<Span>)
    decreases |spans|
  {
    if spans == [] then
      NoneIn(m, pos, n)
    else
      pos <= spans[0].at && NoneIn(m, pos, spans[0].at) && m(spans[0].at) == Some(spans[0])
      && IsScanOf(n, m, spans[0].end + 1, spans[1..])
  }

  /**
    Span `k` of the scan is the match reported at its index, and span `k + 1`
    begins after span `k`'s `)`: the matches do not overlap.
  */
  lemma {:induction false} ScanWithSpan(n: nat, m: nat -> Option<Span>, pos: nat, k: nat)
    requires ValidMatcher(n, m) && k < |ScanWith(n, m, pos)|
    ensures pos <= ScanWith(n, m, pos)[k].at
    ensures m(ScanWith(n, m, pos)[k].at) == Some(ScanWith(n, m, pos)[k])
    ensures k + 1 < |ScanWith(n, m, pos)| ==> ScanWith(n, m, pos)[k].end < ScanWith(n, m, pos)[k + 1].at
    decreases n - pos
  {
    var r := ScanWith(n, m, pos);
    match m(pos)
    case Some(sp) =>
      var t := ScanWith(n, m, sp.end + 1);
      assert r == [sp] + t;
      if k > 0 {
        ScanWithSpan(n, m, sp.end + 1, k - 1);
        assert r[k] == t[k - 1];
      } else if |t| > 0 {
        ScanWithSpan(n, m, sp.end + 1, 0);
        assert r[1] == t[0];
      }
    case None =>
      ScanWithSpan(n, m, pos + 1, k);
  }

  /** Every span of the scan lies inside the text. */
  lemma ScanWithInBounds(n: nat, m: nat -> Option<Span>, pos: nat)
    requires ValidMatcher(n, m)
    ensures forall k :: 0 <= k < |ScanWith(n, m, pos)| ==>
      ScanWith(n, m, pos)[k].start < ScanWith(n, m, pos)[k].end < n
  {
    forall k | 0 <= k < |ScanWith(n, m, pos)|
      ensures ScanWith(n, m, pos)[k].start < ScanWith(n, m, pos)[k].end < n
    {
      ScanWithSpan(n, m, pos, k);
    }
  }

  /** The scan moves past indices where nothing matches. */
  lemma {:induction false} ScanWithSkips(n: nat, m: nat -> Option<Span>, lo: nat, hi: nat)
    requires ValidMatcher(n, m) && lo <= hi && NoneIn(m, lo, hi)
    ensures ScanWith(n, m, lo) == ScanWith(n, m, hi)
    decreases hi - lo
  {
    if lo < hi && lo < n {
      assert m(lo).None?;
      ScanWithSkips(n, m, lo + 1, hi);
    }
  }

  /** The scan finds nothing exactly when no index from `pos` has a match. */
  lemma {:induction false} ScanWithEmptyIff(n: nat, m: nat -> Option<Span>, pos: nat)
    requires ValidMatcher(n, m)
    ensures ScanWith(n, m, pos) == [] <==> NoneIn(m, pos, n)
    decreases n - pos
  {
    if pos < n && m(pos).None? {
      ScanWithEmptyIff(n, m, pos + 1);
    }
  }

  /** The scan is a sequence of all left-to-right, non-overlapping matches. */
  lemma {:induction false} ScanWithIsScanOf(n: nat, m: nat -> Option<Span>, pos: nat)
    requires ValidMatcher(n, m)
    ensures IsScanOf(n, m, pos, ScanWith(n, m, pos))
    decreases n - pos
  {
    if pos < n {
      match m(pos)
      case Some(sp) =>
        ScanWithIsScanOf(n, m, sp.end + 1);
        assert ScanWith(n, m, pos) == [sp] + ScanWith(n, m, sp.end + 1);
        assert ([sp] + ScanWith(n, m, sp.end + 1))[1..] == ScanWith(n, m, sp.end + 1);
      case None =>
        ScanWithIsScanOf(n, m, pos + 1);
    }
  }

  /** No other sequence is one: all left-to-right, non-overlapping matches are the scan. */
  lemma {:induction false} ScanOfIsScanWith(n: nat, m: nat -> Option<Span>, pos: nat, spans: seq<Span>)
    requires ValidMatcher(n, m) && IsScanOf(n, m, pos, spans)
    ensures spans == ScanWith(n, m, pos)
    decreases |spans|
  {
    if spans == [] {
      ScanWithEmptyIff(n, m, pos);
    } else {
      var sp := spans[0];
      ScanWithSkips(n, m, pos, sp.at);
      ScanOfIsScanWith(n, m, sp.end + 1, spans[1..]);
      assert spans == [sp] + spans[1..];
    }
  }

  /** No match begins at any index of `[lo, hi)`. */
  ghost predicate NoMatchIn(s: string, lo: nat, hi: nat) {
    forall sp: Span :: lo <= sp.at < hi ==> !MatchSpec(s, sp)
  }

  /**
    `spans` are all left-to-right, non-overlapping matches of the pattern in `s`
    from `pos`: the first is the match at the leftmost index from `pos` where
    the pattern matches, the rest are those from right after its `)`, and with
    no match left the whole remainder has none.
  */
  ghost predicate IsGlobalScan(s: string, pos: nat, spans: seq<Span>)
    decreases |spans|
  {
    if spans == [] then
      NoMatchIn(s, pos, |s|)
    else
      pos <= spans[0].at && NoMatchIn(s, pos, spans[0].at) && MatchSpec(s, spans[0])
      && IsGlobalScan(s, spans[0].end + 1, spans[1..])
  }

  /** The matcher reports exactly the match the declarative meaning describes. */
  lemma MatcherIff(s: string, i: nat, sp: Span)
    ensures Matcher(s)(i) == Some(sp) <==> sp.at == i && MatchSpec(s, sp)
  {
    MatchAtIff(s, i, sp);
  }

  /** `NoMatchIn` in terms of the matcher. */
  lemma NoMatchInIff(s: string, lo: nat, hi: nat)
    ensures NoMatchIn(s, lo, hi) <==> NoneIn(Matcher(s), lo, hi)
  {
    forall sp: Span | lo <= sp.at < hi {
      MatcherIff(s, sp.at, sp);
    }
    forall j: nat | lo <= j < hi && Matcher(s)(j).Some? {
      MatcherIff(s, j, Matcher(s)(j).value);
    }
  }

  /** The declarative global scan is the scan of the pattern's matcher. */
  lemma {:induction false} GlobalScanIffScanOf(s: string, pos: nat, spans: seq<Span>)
    ensures IsGlobalScan(s, pos, spans) <==> IsScanOf(|s|, Matcher(s), pos, spans)
    decreases |spans|
  {
    if spans == [] {
      NoMatchInIff(s, pos, |s|);
    } else {
      var sp := spans[0];
      NoMatchInIff(s, pos, sp.at);
      MatcherIff(s, sp.at, sp);
      GlobalScanIffScanOf(s, sp.end + 1, spans[1..]);
    }
  }

  /**
    The scan is exactly the sequence of all left-to-right, non-overlapping
    matches: it is one, and no other sequence is.
  */
  lemma ScanIsGlobalScan(s: string, pos: nat, spans: seq<Span>)
    ensures spans == Scan(s, pos) <==> IsGlobalScan(s, pos, spans)
  {
    GlobalScanIffScanOf(s, pos, spans);
    ScanWithIsScanOf(|s|, Matcher(s), pos);
    if IsScanOf(|s|, Matcher(s), pos, spans) {
      ScanOfIsScanWith(|s|, Matcher(s), pos, spans);
    }
  }

  /**
    Span `k` of the scan is the match at its index, and span `k + 1` begins
    after span `k`'s `)`.
  */
  lemma ScanSpanIsMatch(s: string, pos: nat, k: nat)
    requires k < |Scan(s, pos)|
    ensures MatchAt(s, Scan(s, pos)[k].at) == Some(Scan(s, pos)[k])
    ensures k + 1 < |Scan(s, pos)| ==> Scan(s, pos)[k].end < Scan(s, pos)[k + 1].at
  {
    ScanWithSpan(|s|, Matcher(s), pos, k);
  }

  /** The scan finds nothing exactly when the pattern matches at no index from `pos`. */
  lemma ScanEmptyIff(s: string, pos: nat)
    ensures Scan(s, pos) == [] <==> forall j :: pos <= j < |s| ==> MatchAt(s, j).None?
  {
    ScanWithEmptyIff(|s|, Matcher(s), pos);
    forall j: nat ensures Matcher(s)(j) == MatchAt(s, j) {
    }
  }

  /** A match at `pos` is reported and the scan resumes after its `)`. */
  lemma ScanAtMatch(s: string, pos: nat, sp: Span)
    requires MatchAt(s, pos) == Some(sp)
    ensures Scan(s, pos) == [sp] + Scan(s, sp.end + 1)
  {
    assert Matcher(s)(pos) == MatchAt(s, pos);
  }

  /** The scan skips a stretch where neither `(CV:` nor `(CV.` begins. */
  lemma ScanSkipsNoHeader(s: string, lo: nat, hi: nat)
    requires lo <= hi && forall j :: lo <= j < hi ==> !HeaderAt(s, j)
    ensures Scan(s, lo) == Scan(s, hi)
  {
    forall j: nat | lo <= j < hi
      ensures Matcher(s)(j).None?
    {
      assert Matcher(s)(j) == MatchAt(s, j);
    }
    ScanWithSkips(|s|, Matcher(s), lo, hi);
  }


  // ---------------------------------------------------------------------------
  // Properties of extractCVs
  // ---------------------------------------------------------------------------

  /**
    Each captured name is a non-empty piece of the input, free of line
    terminators, immediately followed by `)`, with no `)` after its first character.
  */
  lemma CaptureIsClosedName(s: string, k: nat)
    requires k < |Captures(s)|
    ensures var sp := Scan(s, 0)[k];
      Captures(s)[k] == s[sp.start..sp.end] && Captures(s)[k] != ""
      && sp.end < |s| && s[sp.end] == ')'
      && (forall j :: 1 <= j < |Captures(s)[k]| ==> Captures(s)[k][j] != ')')
      && (forall j :: 0 <= j < |Captures(s)[k]| ==> !IsLineTerminator(Captures(s)[k][j]))
  {
    var sp := Scan(s, 0)[k];
    ScanSpanIsMatch(s, 0, k);
    MatchAtIff(s, sp.at, sp);
    var name := Captures(s)[k];
    forall j | 0 <= j < |name|
      ensures !IsLineTerminator(name[j]) && (j >= 1 ==> name[j] != ')')
    {
      assert name[j] == s[sp.start + j];
    }
  }

  /** Each captured name is preceded by `(CV`, then `:` or `.`, then only whitespace. */
  lemma CaptureFollowsHeader(s: string, k: nat)
    requires k < |Captures(s)|
    ensures var sp := Scan(s, 0)[k];
      sp.at + 4 <= sp.start && s[sp.at..sp.at + 3] == "(CV" && s[sp.at + 3] in ":."
      && forall j :: sp.at + 4 <= j < sp.start ==> IsWhiteSpace(s[j])
  {
    var sp := Scan(s, 0)[k];
    ScanSpanIsMatch(s, 0, k);
    MatchAtIff(s, sp.at, sp);
  }

  /**
    `extractCVs` joins with `/` the capture groups of exactly the
    left-to-right, non-overlapping matches of the pattern.
  */
  lemma ExtractCVsJoinsAllMatches(s: string, spans: seq<Span>)
    requires IsGlobalScan(s, 0, spans)
    ensures forall k :: 0 <= k < |spans| ==> spans[k].start <= spans[k].end <= |s|
    ensures ExtractCVs(s) == Join(CaptureTexts(s, spans), "/")
  {
    ScanIsGlobalScan(s, 0, spans);
  }

  /** Every captured name is non-empty. */
  lemma CapturesNonEmpty(s: string)
    ensures forall k :: 0 <= k < |Captures(s)| ==> Captures(s)[k] != ""
  {
    forall k | 0 <= k < |Captures(s)| {
      CaptureIsClosedName(s, k);
    }
  }

  /** The result is non-empty exactly when the pattern matches: the dialogs' detection test. */
  lemma ExtractCVsNonEmptyIffMatch(s: string)
    ensures ExtractCVs(s) != "" <==> HasMatch(s)
  {
    ScanEmptyIff(s, 0);
    CapturesNonEmpty(s);
    if HasMatch(s) {
      var i :| 0 <= i < |s| && MatchAt(s, i).Some?;
      assert Captures(s) != [];
      assert Captures(s)[0] != "";
    }
  }

  /** `pat` occurs in `s` at index `i`. */
  predicate OccursAt(s: string, pat: string, i: nat) {
    i + |pat| <= |s| && s[i..i + |pat|] == pat
  }

  /** Without `(CV:` or `(CV.` in the input the result is empty. */
  lemma NoMarkerNoVoices(s: string)
    requires forall i :: !OccursAt(s, "(CV:", i) && !OccursAt(s, "(CV.", i)
    ensures ExtractCVs(s) == ""
  {
    forall j | 0 <= j < |s|
      ensures MatchAt(s, j).None?
    {
      assert !OccursAt(s, "(CV:", j) && !OccursAt(s, "(CV.", j);
      if j + 4 <= |s| {
        assert s[j..j + 4] == [s[j], s[j + 1], s[j + 2], s[j + 3]];
      }
    }
    ScanEmptyIff(s, 0);
  }

  /** Matching is case-sensitive. */
  lemma LowerCaseMarkerIgnored()
    ensures ExtractCVs("(cv: X)") == ""
  {
    var s := "(cv: X)";
    forall i: nat
      ensures !OccursAt(s, "(CV:", i) && !OccursAt(s, "(CV.", i)
    {
      if i + 4 <= |s| {
        assert s[i..i + 4][1] == s[i + 1] != 'C';
      }
    }
    NoMarkerNoVoices(s);
  }

  /** The scan of the two-voice credit from just after the first `)`. */
  lemma TwoVoicesSecondMatch()
    ensures Scan("A (CV: B) & C (CV. D)", 9) == [Span(14, 19, 20)]
  {
    var s := "A (CV: B) & C (CV. D)";
    assert WhiteSpaceRun(s, 18) == 1;
    assert MatchAt(s, 14) == Some(Span(14, 19, 20));
    ScanAtMatch(s, 14, Span(14, 19, 20));
    assert Scan(s, 21) == [];
    assert forall j :: 9 <= j < 14 ==> !HeaderAt(s, j);
    ScanSkipsNoHeader(s, 9, 14);
  }

  /** The scan of the two-voice credit from the start. */
  lemma TwoVoicesFirstMatch()
    ensures Scan("A (CV: B) & C (CV. D)", 0) == [Span(2, 7, 8)] + Scan("A (CV: B) & C (CV. D)", 9)
  {
    var s := "A (CV: B) & C (CV. D)";
    assert WhiteSpaceRun(s, 6) == 1;
    assert MatchAt(s, 2) == Some(Span(2, 7, 8));
    ScanAtMatch(s, 2, Span(2, 7, 8));
    assert !HeaderAt(s, 0) && !HeaderAt(s, 1);
    ScanSkipsNoHeader(s, 0, 2);
  }

  /** The two names captured from the two-voice credit. */
  lemma TwoVoicesCaptures()
    ensures Captures("A (CV: B) & C (CV. D)") == ["B", "D"]
  {
    var s := "A (CV: B) & C (CV. D)";
    assert s[7..8] == "B" && s[19..20] == "D";
    TwoVoicesFirstMatch();
    TwoVoicesSecondMatch();
    assert Scan(s, 0) == [Span(2, 7, 8), Span(14, 19, 20)];
    assert Captures(s) == [s[7..8], s[19..20]];
  }

  /** Two voices, one marked with `:` and one with `.`, joined in order. */
  lemma TwoVoicesExample()
    ensures ExtractCVs("A (CV: B) & C (CV. D)") == "B/D"
  {
    TwoVoicesCaptures();
    var names: seq<string> := ["B", "D"];
    assert names[1..] == ["D"];
    assert Join(names, "/") == "B/D";
  }

  /** The whitespace after the separator is taken greedily and is not part of the name. */
  lemma LeadingWhiteSpaceExample()
    ensures ExtractCVs("(CV:   Name)") == "Name"
  {
    var s := "(CV:   Name)";
    assert WhiteSpaceRun(s, 4) == 3;
    assert MatchAt(s, 0) == Some(Span(0, 7, 11));
    ScanAtMatch(s, 0, Span(0, 7, 11));
    assert Scan(s, 12) == [];
    assert s[7..11] == "Name";
    assert Captures(s) == [s[7..11]];
  }

  /**
    When no name follows the whole whitespace run, `\s*` gives a character
    back and `.` takes it: the name is then the space itself.
  */
  lemma BacktrackingExample()
    ensures ExtractCVs("(CV: )") == " "
  {
    var s := "(CV: )";
    assert WhiteSpaceRun(s, 4) == 1;
    assert LazyEnd(s, 5).None?;
    assert MatchAt(s, 0) == Some(Span(0, 4, 5));
    ScanAtMatch(s, 0, Span(0, 4, 5));
    assert Scan(s, 6) == [];
    assert s[4..5] == " ";
    assert Captures(s) == [s[4..5]];
  }
}
