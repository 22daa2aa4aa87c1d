/** The pattern table of the reference fetcher.  Each compiled pattern is
    one constructor of `Pattern`; `MatchAt` says where a match of it that
    starts at a given position ends, written out by hand for that pattern,
    and `Search`, `FindAll`, `Split` and `Sub` are the scanning operations
    of Python's `re` module built on it.  Where a pattern is compiled with
    IGNORECASE its literal parts are compared after ASCII lower-casing. */
module Regex {
  import opened Wrappers
  import opened PyStr

  // ---------------------------------------------------------------------
  // Character classes and runs
  // ---------------------------------------------------------------------

  /** One character of the URL pattern: `[a-zA-Z]`, `[0-9]`, the range
      `$`..`_` (which already holds `@ . & +`), or one of `! * ( ) ,`.
      The `%XX` escape adds nothing: `%` and hexadecimal digits are
      single URL characters already. */
  predicate IsUrlChar(c: char) {
    IsAlpha(c) || IsDigit(c) || ('$' <= c <= '_')
    || c == '!' || c == '*' || c == '(' || c == ')' || c == ','
  }

  /** One character of an arXiv identifier: `[\w\.\/\-]`. */
  predicate IsArxivIdChar(c: char) {
    IsWordChar(c) || c == '.' || c == '/' || c == '-'
  }

  datatype CharClass = Whitespace | NonWhitespace | UrlChar | Digit | ArxivIdChar | NotBraceOrNewline

  predicate InClass(cls: CharClass, c: char) {
    match cls
    case Whitespace => IsSpace(c)
    case NonWhitespace => !IsSpace(c)
    case UrlChar => IsUrlChar(c)
    case Digit => IsDigit(c)
    case ArxivIdChar => IsArxivIdChar(c)
    case NotBraceOrNewline => c != '}' && c != '\n'
  }

  /** End of the longest run of `cls` characters starting at `i`. */
  function RunEnd(s: string, i: nat, cls: CharClass): (e: nat)
    requires i <= |s|
    ensures i <= e <= |s|
    ensures forall k :: i <= k < e ==> InClass(cls, s[k])
    ensures e == |s| || !InClass(cls, s[e])
    decreases |s| - i
  {
    if i < |s| && InClass(cls, s[i]) then RunEnd(s, i + 1, cls) else i
  }

  /** `lit` (written in lower case) occurs at `p` when case is ignored. */
  predicate StartsAtIgnoringCase(s: string, p: nat, lit: string) {
    p + |lit| <= |s| && forall k :: 0 <= k < |lit| ==> LowerChar(s[p + k]) == lit[k]
  }

  /** End of the last digit in `s[lo..hi]`, if there is one. */
  function LastDigitEnd(s: string, lo: nat, hi: nat): (r: Option<nat>)
    requires lo <= hi <= |s|
    ensures r.Some? ==> lo < r.value <= hi && IsDigit(s[r.value - 1])
    ensures r.Some? ==> forall k :: r.value <= k < hi ==> !IsDigit(s[k])
    ensures r.None? ==> forall k :: lo <= k < hi ==> !IsDigit(s[k])
    decreases hi - lo
  {
    if hi == lo then None
    else if IsDigit(s[hi - 1]) then Some(hi)
    else LastDigitEnd(s, lo, hi - 1)
  }

  // ---------------------------------------------------------------------
  // The patterns
  // ---------------------------------------------------------------------

  datatype Pattern =
    | Urls                // http[s]?://(?:[a-zA-Z]|[0-9]|[$-_@.&+]|[!*\(\),]|(?:%[0-9a-fA-F][0-9a-fA-F]))+
    | Bibitems            // \\bibitem\{.+?\}
    | EndTheBibliography  // \\end\{thebibliography}
    | Doi                 // (?<=doi)/?:?\s?[0-9\.]{7}/\S*[0-9]      (IGNORECASE)
    | DoiPnas             // (?<=doi).?10.1073/pnas\.\d+             (IGNORECASE)
    | DoiJsb              // 10\.1083/jcb\.\d{9}                      (IGNORECASE)
    | CleanDoi            // ^/
    | CleanDoiFabse       // ^10.1096
    | CleanDoiJcb         // ^10.1083
    | CleanDoiLen         // \d\.\d
    | ArXiv               // arXiv:\s*([\w\.\/\-]+)                  (IGNORECASE)

  const BibitemOpen: string := "\\bibitem{"
  const EndMarker: string := "\\end{thebibliography}"

  /** The position after a URL scheme at `p`: `https://` when it is
      there, otherwise `http://`. */
  function SchemeEnd(s: string, p: nat): (n: nat)
    ensures n == p + 7 || n == p + 8
    ensures n == p + 8 <==> OccursAt(s, "https://", p)
  {
    if OccursAt(s, "https://", p) then p + 8 else p + 7
  }

  /** A URL: `https://` or `http://`, then the longest non-empty run of URL
      characters.  The optional `s` is tried first; when `https://` is not
      followed by a URL character the shorter scheme cannot match either,
      because the `s` is no `:`. */
  function UrlMatchAt(s: string, p: nat): (r: Option<nat>)
    requires p <= |s|
    ensures r.Some? <==>
      (OccursAt(s, "http://", p) || OccursAt(s, "https://", p))
      && SchemeEnd(s, p) < |s| && IsUrlChar(s[SchemeEnd(s, p)])
    ensures r.Some? ==> SchemeEnd(s, p) < r.value == RunEnd(s, SchemeEnd(s, p), UrlChar)
    ensures r.Some? ==> forall k :: SchemeEnd(s, p) <= k < r.value ==> IsUrlChar(s[k])
    ensures r.Some? ==> OccursAt(s, "http://", p) || OccursAt(s, "https://", p)
    ensures r.Some? ==> p + 8 <= r.value <= |s|
    ensures r.Some? ==> forall k :: p + 8 <= k < r.value ==> IsUrlChar(s[k])
    ensures r.Some? ==> r.value == |s| || !IsUrlChar(s[r.value])
    ensures r.None? ==> !(OccursAt(s, "http://", p) && p + 7 < |s| && IsUrlChar(s[p + 7]))
    ensures r.None? ==> !(OccursAt(s, "https://", p) && p + 8 < |s| && IsUrlChar(s[p + 8]))
  {
    assert OccursAt(s, "https://", p) ==> !OccursAt(s, "http://", p) by {
      if OccursAt(s, "https://", p) {
        assert s[p..p + 8][4] == 's';
        assert p + 7 <= |s| ==> s[p..p + 7][4] == s[p..p + 8][4];
      }
    }
    if OccursAt(s, "https://", p) && p + 8 < |s| && IsUrlChar(s[p + 8]) then
      Some(RunEnd(s, p + 8, UrlChar))
    else if OccursAt(s, "http://", p) && p + 7 < |s| && IsUrlChar(s[p + 7]) then
      Some(RunEnd(s, p + 7, UrlChar))
    else None
  }

  /** `\bibitem{`, one character other than a newline, then the shortest
      run of characters other than a newline up to the first `}`. */
  function BibitemMatchAt(s: string, p: nat): (r: Option<nat>)
    requires p <= |s|
    ensures r.Some? ==> OccursAt(s, BibitemOpen, p) && p + |BibitemOpen| + 2 <= r.value <= |s|
    ensures r.Some? ==> s[r.value - 1] == '}'
    ensures r.Some? ==> forall k :: p + |BibitemOpen| <= k < r.value ==> s[k] != '\n'
    ensures r.Some? ==> forall k :: p + |BibitemOpen| + 1 <= k < r.value - 1 ==> s[k] != '}'
    ensures OccursAt(s, BibitemOpen, p) ==>
      forall k :: p + |BibitemOpen| < k < |s| && s[k] == '}' && NoNewline(s, p + |BibitemOpen|, k) ==> r.Some?
  {
    var j := p + |BibitemOpen|;
    if OccursAt(s, BibitemOpen, p) && j < |s| && s[j] != '\n' then
      var k := RunEnd(s, j + 1, NotBraceOrNewline);
      if k < |s| && s[k] == '}' then Some(k + 1) else None
    else None
  }

  /** No newline in `s[i..k]`. */
  predicate NoNewline(s: string, i: nat, k: nat)
    requires i <= k <= |s|
  {
    forall m :: i <= m < k ==> s[m] != '\n'
  }

  /** Where the part of a DOI after `doi` begins: past an optional `/`, an
      optional `:` and at most one whitespace character.  Each optional
      item is taken exactly when it is there, since the seven digits or
      dots that follow can match none of them. */
  function DoiSeparatorEnd(s: string, p: nat): (c: nat)
    requires p <= |s|
    ensures p <= c <= |s| && c <= p + 3
  {
    var a := if p < |s| && s[p] == '/' then p + 1 else p;
    var b := if a < |s| && s[a] == ':' then a + 1 else a;
    if b < |s| && IsSpace(s[b]) then b + 1 else b
  }

  /** Right after `doi`: the separators, exactly seven digits or dots, a
      `/`, then the run of non-whitespace characters up to its last digit. */
  function DoiMatchAt(s: string, p: nat): (r: Option<nat>)
    requires p <= |s|
    ensures r.Some? ==> p >= 3 && StartsAtIgnoringCase(s, p - 3, "doi")
    ensures r.Some? ==>
      var c := DoiSeparatorEnd(s, p);
      && c + 9 <= r.value <= |s|
      && (forall k :: c <= k < c + 7 ==> IsDigit(s[k]) || s[k] == '.')
      && s[c + 7] == '/'
      && (forall k :: c + 8 <= k < r.value ==> !IsSpace(s[k]))
      && IsDigit(s[r.value - 1])
      && (forall k :: r.value <= k < RunEnd(s, c + 8, NonWhitespace) ==> !IsDigit(s[k]))
    ensures var c := DoiSeparatorEnd(s, p);
      (&& p >= 3 && StartsAtIgnoringCase(s, p - 3, "doi") && c + 8 <= |s|
       && (forall k :: c <= k < c + 7 ==> IsDigit(s[k]) || s[k] == '.') && s[c + 7] == '/')
      ==> forall k :: c + 8 <= k < RunEnd(s, c + 8, NonWhitespace) && IsDigit(s[k]) ==> r.Some?
  {
    if p < 3 || !StartsAtIgnoringCase(s, p - 3, "doi") then None
    else
      var c := DoiSeparatorEnd(s, p);
      if c + 8 <= |s| && (forall k :: c <= k < c + 7 ==> IsDigit(s[k]) || s[k] == '.') && s[c + 7] == '/' then
        LastDigitEnd(s, c + 8, RunEnd(s, c + 8, NonWhitespace))
      else None
  }

  /** `10`, any character but a newline, `1073/pnas.`, then the longest
      non-empty run of digits. */
  function PnasBodyAt(s: string, q: nat): (r: Option<nat>)
    requires q <= |s|
    ensures r.Some? ==> q + 14 <= r.value <= |s|
    ensures r.Some? ==> StartsAtIgnoringCase(s, q, "10") && s[q + 2] != '\n'
    ensures r.Some? ==> StartsAtIgnoringCase(s, q + 3, "1073/pnas.")
    ensures r.Some? ==> forall k :: q + 13 <= k < r.value ==> IsDigit(s[k])
    ensures r.Some? ==> r.value == |s| || !IsDigit(s[r.value])
    ensures (&& q + 14 <= |s| && StartsAtIgnoringCase(s, q, "10") && s[q + 2] != '\n'
             && StartsAtIgnoringCase(s, q + 3, "1073/pnas.") && IsDigit(s[q + 13]))
            ==> r.Some?
  {
    if q + 14 <= |s| && StartsAtIgnoringCase(s, q, "10") && s[q + 2] != '\n'
      && StartsAtIgnoringCase(s, q + 3, "1073/pnas.") && IsDigit(s[q + 13])
    then Some(RunEnd(s, q + 13, Digit))
    else None
  }

  /** After `doi`, optionally one character other than a newline (tried
      first), then the PNAS body. */
  function DoiPnasMatchAt(s: string, p: nat): (r: Option<nat>)
    requires p <= |s|
    ensures r.Some? ==> p >= 3 && StartsAtIgnoringCase(s, p - 3, "doi")
    ensures r.Some? ==> p + 14 <= r.value <= |s|
    ensures r.Some? ==> r == PnasBodyAt(s, p) || (p < |s| && r == PnasBodyAt(s, p + 1))
    ensures (&& p >= 3 && StartsAtIgnoringCase(s, p - 3, "doi") && p < |s| && s[p] != '\n'
             && PnasBodyAt(s, p + 1).Some?)
            ==> r == PnasBodyAt(s, p + 1)
    ensures p >= 3 && StartsAtIgnoringCase(s, p - 3, "doi") && PnasBodyAt(s, p).Some? ==> r.Some?
  {
    if p < 3 || !StartsAtIgnoringCase(s, p - 3, "doi") then None
    else if p < |s| && s[p] != '\n' && PnasBodyAt(s, p + 1).Some? then PnasBodyAt(s, p + 1)
    else PnasBodyAt(s, p)
  }

  /** `10.1083/jcb.` followed by exactly nine digits. */
  function DoiJsbMatchAt(s: string, p: nat): (r: Option<nat>)
    requires p <= |s|
    ensures r.Some? ==> r.value == p + 21 && r.value <= |s|
    ensures r.Some? ==> StartsAtIgnoringCase(s, p, "10.1083/jcb.")
    ensures r.Some? ==> forall k :: p + 12 <= k < p + 21 ==> IsDigit(s[k])
    ensures (&& StartsAtIgnoringCase(s, p, "10.1083/jcb.") && p + 21 <= |s|
             && (forall k :: p + 12 <= k < p + 21 ==> IsDigit(s[k])))
            ==> r == Some(p + 21)
  {
    if StartsAtIgnoringCase(s, p, "10.1083/jcb.") && p + 21 <= |s|
      && (forall k :: p + 12 <= k < p + 21 ==> IsDigit(s[k]))
    then Some(p + 21)
    else None
  }

  /** `^10.1096`: the unescaped `.` stands for any character but a newline. */
  predicate FabsePrefix(s: string) {
    |s| >= 7 && OccursAt(s, "10", 0) && s[2] != '\n' && OccursAt(s, "1096", 3)
  }

  /** `^10.1083`, with the same wildcard. */
  predicate JcbPrefix(s: string) {
    |s| >= 7 && OccursAt(s, "10", 0) && s[2] != '\n' && OccursAt(s, "1083", 3)
  }

  /** The two publisher prefixes never both hold. */
  lemma PrefixesExclusive(s: string)
    ensures !(FabsePrefix(s) && JcbPrefix(s))
  {
    if FabsePrefix(s) {
      assert s[3..7] == "1096";
      assert s[5] == '9';
      assert s[3..7] != "1083";
    }
  }

  /** `arXiv:` in any case, any whitespace, then the longest non-empty run
      of identifier characters; that run is the reported group. */
  function ArxivMatchAt(s: string, p: nat): (r: Option<nat>)
    requires p <= |s|
    ensures r.Some? ==> StartsAtIgnoringCase(s, p, "arxiv:")
    ensures r.Some? ==> ArxivIdStart(s, p) < r.value <= |s|
    ensures r.Some? ==> forall k :: ArxivIdStart(s, p) <= k < r.value ==> IsArxivIdChar(s[k])
    ensures r.Some? ==> r.value == |s| || !IsArxivIdChar(s[r.value])
    ensures r.None? && StartsAtIgnoringCase(s, p, "arxiv:") ==>
      ArxivIdStart(s, p) == |s| || !IsArxivIdChar(s[ArxivIdStart(s, p)])
  {
    if StartsAtIgnoringCase(s, p, "arxiv:") then
      var c := ArxivIdStart(s, p);
      var e := RunEnd(s, c, ArxivIdChar);
      if c < e then Some(e) else None
    else None
  }

  /** Where the identifier group of an arXiv match starting at `p` begins:
      after `arxiv:` and all the whitespace that follows it. */
  function ArxivIdStart(s: string, p: nat): (c: nat)
    requires p <= |s|
    ensures p <= c <= |s|
  {
    if p + 6 <= |s| then RunEnd(s, p + 6, Whitespace) else p
  }

  /** The end of the match of `pat` that starts at `p`, if any. */
  function MatchAt(pat: Pattern, s: string, p: nat): (r: Option<nat>)
    requires p <= |s|
    ensures r.Some? ==> p < r.value <= |s|
  {
    match pat
    case Urls => UrlMatchAt(s, p)
    case Bibitems => BibitemMatchAt(s, p)
    case EndTheBibliography =>
      if OccursAt(s, EndMarker, p) then Some(p + |EndMarker|) else None
    case Doi => DoiMatchAt(s, p)
    case DoiPnas => DoiPnasMatchAt(s, p)
    case DoiJsb => DoiJsbMatchAt(s, p)
    case CleanDoi => if p == 0 && OccursAt(s, "/", 0) then Some(1) else None
    case CleanDoiFabse => if p == 0 && FabsePrefix(s) then Some(7) else None
    case CleanDoiJcb => if p == 0 && JcbPrefix(s) then Some(7) else None
    case CleanDoiLen =>
      if p + 3 <= |s| && IsDigit(s[p]) && s[p + 1] == '.' && IsDigit(s[p + 2]) then Some(p + 3) else None
    case ArXiv => ArxivMatchAt(s, p)
  }

  /** Start of the group the pipeline reads from a match at `p`: group 1
      for the arXiv pattern, the whole match for every other pattern. */
  function GroupStart(pat: Pattern, s: string, p: nat): (g: nat)
    requires p <= |s|
    ensures p <= g <= |s|
  {
    if pat == ArXiv then ArxivIdStart(s, p) else p
  }

  // ---------------------------------------------------------------------
  // Scanning: search, findall, split, sub
  // ---------------------------------------------------------------------

  /** A match table over a text of length `n` has `n + 1` entries; entry
      `q` says where a match starting at `q` ends, and matches are never
      empty. */
  predicate IsTable(t: seq<Option<nat>>) {
    forall q :: 0 <= q < |t| && t[q].Some? ==> q < t[q].value < |t|
  }

  /** The match table of `pat` over `s`. */
  function Table(pat: Pattern, s: string): (t: seq<Option<nat>>)
    ensures |t| == |s| + 1 && IsTable(t)
    ensures forall q :: 0 <= q <= |s| ==> t[q] == MatchAt(pat, s, q)
  {
    seq(|s| + 1, q requires 0 <= q <= |s| => MatchAt(pat, s, q))
  }

  /** No match starts in `[lo, hi)`. */
  predicate NoMatchIn(t: seq<Option<nat>>, lo: nat, hi: nat) {
    forall q :: lo <= q < hi && q < |t| ==> t[q].None?
  }

  /** The leftmost match starting at or after `p`, as (start, end). */
  function FirstFrom(t: seq<Option<nat>>, p: nat): (r: Option<(nat, nat)>)
    requires IsTable(t) && p < |t|
    ensures r.Some? ==> p <= r.value.0 < r.value.1 < |t| && t[r.value.0] == Some(r.value.1)
    ensures r.Some? ==> NoMatchIn(t, p, r.value.0)
    ensures r.None? ==> NoMatchIn(t, p, |t|)
    decreases |t| - p
  {
    if t[p].Some? then Some((p, t[p].value))
    else if p + 1 == |t| then None
    else FirstFrom(t, p + 1)
  }

  /** `pat.search(s).group(g)` with the group the pipeline reads. */
  function Search(pat: Pattern, s: string): (r: Option<string>)
    ensures r.None? <==> forall q :: 0 <= q <= |s| ==> MatchAt(pat, s, q).None?
    ensures r.Some? ==> exists g, e :: 0 <= g <= e <= |s| && r.value == s[g..e]
  {
    var t := Table(pat, s);
    match FirstFrom(t, 0)
    case None => None
    case Some((a, e)) =>
      assert MatchAt(pat, s, a) == t[a];
      var g := GroupStart(pat, s, a);
      assert g <= e;
      Some(s[g..e])
  }

  /** `search` reports the leftmost match: when `a` is where the first
      match starts, the result is that match's group. */
  lemma SearchLeftmost(pat: Pattern, s: string, a: nat)
    requires a <= |s| && MatchAt(pat, s, a).Some?
    requires forall q :: 0 <= q < a ==> MatchAt(pat, s, q).None?
    ensures GroupStart(pat, s, a) <= MatchAt(pat, s, a).value
    ensures Search(pat, s) == Some(s[GroupStart(pat, s, a)..MatchAt(pat, s, a).value])
  {
    var t := Table(pat, s);
    var (a', e) := FirstFrom(t, 0).value;
    assert a' == a;
  }

  /** The non-overlapping matches from `p` on, scanning from the left:
      each is the leftmost one at or after the end of the previous. */
  function SpansFrom(t: seq<Option<nat>>, p: nat): seq<(nat, nat)>
    requires IsTable(t) && p < |t|
    decreases |t| - p
  {
    match FirstFrom(t, p)
    case None => []
    case Some((a, e)) => [(a, e)] + SpansFrom(t, e)
  }

  /** Every span is a match of the table, at or after `p`. */
  predicate InTable(t: seq<Option<nat>>, spans: seq<(nat, nat)>, p: nat) {
    forall k :: 0 <= k < |spans| ==> p <= spans[k].0 < spans[k].1 < |t| && t[spans[k].0] == Some(spans[k].1)
  }

  /** No match starts between two consecutive spans. */
  predicate NoneBetween(t: seq<Option<nat>>, spans: seq<(nat, nat)>) {
    forall k :: 0 < k < |spans| ==> spans[k - 1].1 <= spans[k].0 && NoMatchIn(t, spans[k - 1].1, spans[k].0)
  }

  /** No match starts before the first span or after the last one. */
  predicate NoneOutside(t: seq<Option<nat>>, spans: seq<(nat, nat)>, p: nat) {
    && (|spans| == 0 ==> NoMatchIn(t, p, |t|))
    && (|spans| > 0 ==> NoMatchIn(t, p, spans[0].0) && NoMatchIn(t, spans[|spans| - 1].1, |t|))
  }

  lemma {:induction false} SpansInTable(t: seq<Option<nat>>, p: nat)
    requires IsTable(t) && p < |t|
    ensures InTable(t, SpansFrom(t, p), p)
    decreases |t| - p
  {
    match FirstFrom(t, p)
    case None =>
    case Some((a, e)) =>
      SpansInTable(t, e);
      var rest := SpansFrom(t, e);
      var r := SpansFrom(t, p);
      assert r == [(a, e)] + rest;
      forall k | 0 <= k < |r| ensures p <= r[k].0 < r[k].1 < |t| && t[r[k].0] == Some(r[k].1) {
        if k > 0 {
          assert r[k] == rest[k - 1];
        }
      }
  }

  lemma {:induction false} SpansNoneOutside(t: seq<Option<nat>>, p: nat)
    requires IsTable(t) && p < |t|
    ensures NoneOutside(t, SpansFrom(t, p), p)
    decreases |t| - p
  {
    match FirstFrom(t, p)
    case None =>
    case Some((a, e)) =>
      SpansNoneOutside(t, e);
      var rest := SpansFrom(t, e);
      var r := SpansFrom(t, p);
      assert r == [(a, e)] + rest;
      if |rest| > 0 {
        assert r[|r| - 1] == rest[|rest| - 1];
      }
  }

  lemma {:induction false} SpansNoneBetween(t: seq<Option<nat>>, p: nat)
    requires IsTable(t) && p < |t|
    ensures NoneBetween(t, SpansFrom(t, p))
    decreases |t| - p
  {
    match FirstFrom(t, p)
    case None =>
    case Some((a, e)) =>
      SpansNoneBetween(t, e);
      SpansInTable(t, e);
      SpansNoneOutside(t, e);
      var rest := SpansFrom(t, e);
      var r := SpansFrom(t, p);
      assert r == [(a, e)] + rest;
      forall k | 0 < k < |r| ensures r[k - 1].1 <= r[k].0 && NoMatchIn(t, r[k - 1].1, r[k].0) {
        if k > 1 {
          assert r[k - 1] == rest[k - 2] && r[k] == rest[k - 1];
        } else {
          assert r[1] == rest[0];
        }
      }
  }

  /** Spans that lie in order inside `s[p..]` without overlapping. */
  predicate InOrder(spans: seq<(nat, nat)>, p: nat, n: nat) {
    && (forall k :: 0 <= k < |spans| ==> spans[k].0 <= spans[k].1 <= n)
    && (|spans| > 0 ==> p <= spans[0].0)
    && (forall k :: 0 < k < |spans| ==> spans[k - 1].1 <= spans[k].0)
  }

  /** The spans of the matches of `pat` in `s`, as `finditer` yields them. */
  function Matches(pat: Pattern, s: string): (r: seq<(nat, nat)>)
    ensures InOrder(r, 0, |s|)
    ensures forall k :: 0 <= k < |r| ==> r[k].0 < r[k].1 && MatchAt(pat, s, r[k].0) == Some(r[k].1)
  {
    var t := Table(pat, s);
    var r := SpansFrom(t, 0);
    SpansInTable(t, 0);
    SpansNoneBetween(t, 0);
    forall k | 0 <= k < |r| ensures MatchAt(pat, s, r[k].0) == Some(r[k].1) {
      assert t[r[k].0] == MatchAt(pat, s, r[k].0);
    }
    r
  }

  /** No match of `pat` starts in `s[lo..hi]` (positions up to `|s|`). */
  predicate NoMatchBetween(pat: Pattern, s: string, lo: nat, hi: nat) {
    forall q :: lo <= q < hi && q <= |s| ==> MatchAt(pat, s, q).None?
  }

  /** The matches are the leftmost non-overlapping ones: no match starts
      before the first, between two consecutive ones, or after the last,
      and none at all when there are none. */
  lemma MatchesLeftmost(pat: Pattern, s: string)
    ensures |Matches(pat, s)| == 0 ==> NoMatchBetween(pat, s, 0, |s| + 1)
    ensures |Matches(pat, s)| > 0 ==> NoMatchBetween(pat, s, 0, Matches(pat, s)[0].0)
    ensures |Matches(pat, s)| > 0 ==> NoMatchBetween(pat, s, Matches(pat, s)[|Matches(pat, s)| - 1].1, |s| + 1)
    ensures forall k :: 0 < k < |Matches(pat, s)| ==>
      NoMatchBetween(pat, s, Matches(pat, s)[k - 1].1, Matches(pat, s)[k].0)
  {
    var t := Table(pat, s);
    var r := Matches(pat, s);
    assert r == SpansFrom(t, 0);
    SpansNoneOutside(t, 0);
    SpansNoneBetween(t, 0);
  }

  /** The matched texts of the spans (no pattern the pipeline scans with
      `findall` has a group, so each text is the whole match). */
  function Texts(s: string, spans: seq<(nat, nat)>): (r: seq<string>)
    requires forall k :: 0 <= k < |spans| ==> spans[k].0 <= spans[k].1 <= |s|
    ensures |r| == |spans|
    ensures forall k :: 0 <= k < |r| ==> r[k] == s[spans[k].0..spans[k].1]
  {
    if spans == [] then [] else [s[spans[0].0..spans[0].1]] + Texts(s, spans[1..])
  }

  /** `pat.findall(s)` */
  function FindAll(pat: Pattern, s: string): seq<string> {
    Texts(s, Matches(pat, s))
  }

  /** The texts of `s[p..]` around the spans: before the first, between
      each one and the next, and after the last. */
  function Pieces(s: string, spans: seq<(nat, nat)>, p: nat): (r: seq<string>)
    requires p <= |s| && InOrder(spans, p, |s|)
    ensures |r| == |spans| + 1
    decreases |spans|
  {
    if spans == [] then [s[p..]]
    else
      assert InOrder(spans[1..], spans[0].1, |s|) by {
        assert forall k :: 0 < k < |spans| - 1 ==> spans[1..][k - 1] == spans[k];
      }
      [s[p..spans[0].0]] + Pieces(s, spans[1..], spans[0].1)
  }

  /** `pat.split(s)`: the texts around the non-overlapping matches. */
  function Split(pat: Pattern, s: string): (r: seq<string>)
    ensures |r| == |Matches(pat, s)| + 1
  {
    Pieces(s, Matches(pat, s), 0)
  }

  /** `s[p..]` with each span replaced by `repl`. */
  function Substituted(s: string, spans: seq<(nat, nat)>, p: nat, repl: string): string
    requires p <= |s| && InOrder(spans, p, |s|)
    decreases |spans|
  {
    if spans == [] then s[p..]
    else
      assert InOrder(spans[1..], spans[0].1, |s|) by {
        assert forall k :: 0 < k < |spans| - 1 ==> spans[1..][k - 1] == spans[k];
      }
      s[p..spans[0].0] + repl + Substituted(s, spans[1..], spans[0].1, repl)
  }

  /** `pat.sub(repl, s)` */
  function Sub(pat: Pattern, s: string, repl: string): string {
    Substituted(s, Matches(pat, s), 0, repl)
  }

  // ---------------------------------------------------------------------
  // Properties of the table
  // ---------------------------------------------------------------------

  /** A URL match begins with its scheme and has a non-empty body. */
  lemma UrlMatchText(s: string, a: nat, e: nat)
    requires a <= |s| && UrlMatchAt(s, a) == Some(e)
    ensures OccursAt(s[a..e], "http://", 0) || OccursAt(s[a..e], "https://", 0)
    ensures e - a >= 8
    ensures var t, n := s[a..e], SchemeEnd(s[a..e], 0);
      n < |t| && forall k :: n <= k < |t| ==> IsUrlChar(t[k])
  {
    var t := s[a..e];
    assert t[0..7] == s[a..a + 7] && t[0..8] == s[a..a + 8];
    assert SchemeEnd(t, 0) + a == SchemeEnd(s, a);
    assert forall k :: SchemeEnd(t, 0) <= k < |t| ==> t[k] == s[a + k];
  }

  /** Every URL found starts with a scheme, has a non-empty body, and runs
      to the end of the URL characters: trailing `.`, `,` and `)` are
      swallowed. */
  lemma FindAllUrlsShape(s: string, k: nat)
    requires k < |FindAll(Urls, s)|
    ensures OccursAt(FindAll(Urls, s)[k], "http://", 0) || OccursAt(FindAll(Urls, s)[k], "https://", 0)
    ensures |FindAll(Urls, s)[k]| >= 8
    ensures var t := FindAll(Urls, s)[k];
      SchemeEnd(t, 0) < |t| && forall j :: SchemeEnd(t, 0) <= j < |t| ==> IsUrlChar(t[j])
    ensures var e := Matches(Urls, s)[k].1; e == |s| || !IsUrlChar(s[e])
  {
    var spans := Matches(Urls, s);
    var a, e := spans[k].0, spans[k].1;
    assert MatchAt(Urls, s, a) == Some(e);
    UrlMatchText(s, a, e);
  }

  /** The anchored patterns hold exactly when their prefix is there. */
  lemma AnchoredSearch(s: string)
    ensures Search(CleanDoi, s).Some? <==> |s| > 0 && s[0] == '/'
    ensures Search(CleanDoiFabse, s).Some? <==> FabsePrefix(s)
    ensures Search(CleanDoiJcb, s).Some? <==> JcbPrefix(s)
  {
    assert |s| > 0 ==> (OccursAt(s, "/", 0) <==> s[0] == '/') by {
      if |s| > 0 { assert s[0..1] == [s[0]]; }
    }
    if |s| > 0 && s[0] == '/' { assert MatchAt(CleanDoi, s, 0).Some?; }
    if FabsePrefix(s) { assert MatchAt(CleanDoiFabse, s, 0).Some?; }
    if JcbPrefix(s) { assert MatchAt(CleanDoiJcb, s, 0).Some?; }
  }

  /** A text found in lower-case text is lower-case. */
  lemma SearchKeepsLower(pat: Pattern, s: string)
    requires IsLower(s)
    ensures Search(pat, s).Some? ==> IsLower(Search(pat, s).value)
  {
    if Search(pat, s).Some? {
      var g, e :| 0 <= g <= e <= |s| && Search(pat, s).value == s[g..e];
      var id := s[g..e];
      forall i | 0 <= i < |id| ensures !IsUpper(id[i]) {
        assert id[i] == s[g + i];
      }
    }
  }

  /** Substituting a text of the same length as every span keeps the
      length. */
  lemma {:induction false} SubstitutedLength(s: string, spans: seq<(nat, nat)>, p: nat, repl: string)
    requires p <= |s| && InOrder(spans, p, |s|)
    requires forall k :: 0 <= k < |spans| ==> spans[k].1 - spans[k].0 == |repl|
    ensures |Substituted(s, spans, p, repl)| == |s| - p
    decreases |spans|
  {
    if spans != [] {
      assert InOrder(spans[1..], spans[0].1, |s|) by {
        assert forall k :: 0 < k < |spans| - 1 ==> spans[1..][k - 1] == spans[k];
      }
      assert forall k :: 0 <= k < |spans| - 1 ==> spans[1..][k] == spans[k + 1];
      SubstitutedLength(s, spans[1..], spans[0].1, repl);
    }
  }

  /** A text with exactly one match has that match as its only span. */
  lemma SingleMatch(pat: Pattern, s: string, a: nat, e: nat)
    requires a <= |s| && MatchAt(pat, s, a) == Some(e)
    requires NoMatchBetween(pat, s, 0, a) && NoMatchBetween(pat, s, e, |s| + 1)
    ensures Matches(pat, s) == [(a, e)]
  {
    MatchesLeftmost(pat, s);
    var m := Matches(pat, s);
    assert |m| > 0;
    assert m[0].0 == a;
    // where a second match would start: at or after `e`, where none does
    var next := (m + [(e, e)])[1];
    assert e <= next.0 <= |s| && MatchAt(pat, s, next.0).None?;
  }

  /** A URL written after text with no `h` in it is the one URL found. */
  lemma SoleUrl(pre: string, u: string)
    requires OccursAt(u, "http://", 0) && |u| > 7
    requires forall k :: 7 <= k < |u| ==> IsUrlChar(u[k])
    requires forall q :: 0 <= q < |pre| ==> pre[q] != 'h'
    ensures FindAll(Urls, pre + u) == [u]
  {
    var c, a := pre + u, |pre|;
    assert c[a..a + 7] == u[..7] && c[a..] == u;
    assert u[4] == "http://"[4];
    assert forall k :: a + 7 <= k < |c| ==> IsUrlChar(c[k]);
    assert MatchAt(Urls, c, a) == Some(|c|);
    forall q | 0 <= q < a ensures MatchAt(Urls, c, q).None? {
      assert c[q] == pre[q];
      OccursHead(c, "http://", q);
      OccursHead(c, "https://", q);
    }
    SingleMatch(Urls, c, a, |c|);
    FindAllTexts(Urls, c);
    assert c[a..|c|] == u;
  }

  /** `findall` gives, in order, the text of every match `finditer`
      reports. */
  lemma FindAllTexts(pat: Pattern, s: string)
    ensures |FindAll(pat, s)| == |Matches(pat, s)|
    ensures forall k :: 0 <= k < |FindAll(pat, s)| ==>
      && MatchAt(pat, s, Matches(pat, s)[k].0) == Some(Matches(pat, s)[k].1)
      && FindAll(pat, s)[k] == s[Matches(pat, s)[k].0..Matches(pat, s)[k].1]
  {
  }

  /** The pieces of a text joined back with `sep` between them. */
  function JoinWith(pieces: seq<string>, sep: string): string
    requires pieces != []
    decreases |pieces|
  {
    if |pieces| == 1 then pieces[0] else pieces[0] + sep + JoinWith(pieces[1..], sep)
  }

  /** Substituting the spans is joining the pieces around them with the
      replacement. */
  lemma {:induction false} SubstitutedIsJoin(s: string, spans: seq<(nat, nat)>, p: nat, repl: string)
    requires p <= |s| && InOrder(spans, p, |s|)
    ensures Substituted(s, spans, p, repl) == JoinWith(Pieces(s, spans, p), repl)
    decreases |spans|
  {
    if spans != [] {
      assert InOrder(spans[1..], spans[0].1, |s|) by {
        assert forall k :: 0 < k < |spans| - 1 ==> spans[1..][k - 1] == spans[k];
      }
      SubstitutedIsJoin(s, spans[1..], spans[0].1, repl);
      assert Pieces(s, spans, p)[1..] == Pieces(s, spans[1..], spans[0].1);
    }
  }

  /** `pat.sub(repl, s) == repl.join(pat.split(s))` for the group-free
      patterns here; with no match the text is returned unchanged, and
      replacements as long as every match keep its length. */
  lemma SubIsJoinOfSplit(pat: Pattern, s: string, repl: string)
    ensures Sub(pat, s, repl) == JoinWith(Split(pat, s), repl)
    ensures Matches(pat, s) == [] ==> Sub(pat, s, repl) == s
    ensures (forall k :: 0 <= k < |Matches(pat, s)| ==> Matches(pat, s)[k].1 - Matches(pat, s)[k].0 == |repl|)
            ==> |Sub(pat, s, repl)| == |s|
  {
    SubstitutedIsJoin(s, Matches(pat, s), 0, repl);
    if forall k :: 0 <= k < |Matches(pat, s)| ==> Matches(pat, s)[k].1 - Matches(pat, s)[k].0 == |repl| {
      SubstitutedLength(s, Matches(pat, s), 0, repl);
    }
  }

  /** Substituting `000` for each digit-dot-digit keeps the length. */
  lemma SubCleanDoiLenKeepsLength(s: string)
    ensures |Sub(CleanDoiLen, s, "000")| == |s|
  {
    var spans := Matches(CleanDoiLen, s);
    forall k | 0 <= k < |spans| ensures spans[k].1 - spans[k].0 == 3 {
      assert MatchAt(CleanDoiLen, s, spans[k].0) == Some(spans[k].1);
    }
    SubstitutedLength(s, spans, 0, "000");
  }

  /** Each piece after the first is the text between one span and the
      next (or the end of the text). */
  lemma {:induction false} PiecesBetween(s: string, spans: seq<(nat, nat)>, p: nat, k: nat)
    requires p <= |s| && InOrder(spans, p, |s|) && k < |spans|
    ensures var next := if k + 1 < |spans| then spans[k + 1].0 else |s|;
      spans[k].1 <= next && Pieces(s, spans, p)[k + 1] == s[spans[k].1..next]
    decreases |spans|
  {
    assert InOrder(spans[1..], spans[0].1, |s|) by {
      assert forall j :: 0 < j < |spans| - 1 ==> spans[1..][j - 1] == spans[j];
    }
    if k > 0 {
      PiecesBetween(s, spans[1..], spans[0].1, k - 1);
    } else if |spans| > 1 {
      assert spans[1..][0] == spans[1];
    }
  }

  /** The pieces of `split` after the first are the texts between one
      match and the next (or the end of the text). */
  lemma SplitPieces(pat: Pattern, s: string, k: nat)
    requires k < |Matches(pat, s)|
    ensures var spans := Matches(pat, s);
      var next := if k + 1 < |spans| then spans[k + 1].0 else |s|;
      spans[k].1 <= next && Split(pat, s)[k + 1] == s[spans[k].1..next]
  {
    PiecesBetween(s, Matches(pat, s), 0, k);
  }

  /** A URL example: the trailing `.` and `),` are part of the match. */
  lemma UrlSwallowsPunctuation()
    ensures UrlMatchAt("http://a.b.), x", 0) == Some(13)
  {
    var s := "http://a.b.), x";
    assert OccursAt(s, "http://", 0) by { assert s[0..7] == "http://"; }
    assert !OccursAt(s, "https://", 0) by { assert s[4] == ':'; }
    assert RunEnd(s, 13, UrlChar) == 13;
    assert RunEnd(s, 7, UrlChar) == RunEnd(s, 13, UrlChar);
  }
}
