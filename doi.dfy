/** Finding a DOI or an arXiv identifier for one plaintext citation: first
    in the links it holds, then by the ordered cascade of patterns. */
module Doi {
  import opened Wrappers
  import opened PyStr
  import Tools
  import Re = Regex

  // ---------------------------------------------------------------------
  // Links
  // ---------------------------------------------------------------------

  /** Index of the first URL at or after `i` that contains `sub`. */
  function FirstWith(urls: seq<string>, sub: string, i: nat): (r: Option<nat>)
    requires i <= |urls|
    ensures r.Some? ==> i <= r.value < |urls| && Contains(urls[r.value], sub)
    ensures r.Some? ==> forall k :: i <= k < r.value ==> !Contains(urls[k], sub)
    ensures r.None? ==> forall k :: i <= k < |urls| ==> !Contains(urls[k], sub)
    decreases |urls| - i
  {
    if i == |urls| then None
    else if Contains(urls[i], sub) then Some(i)
    else FirstWith(urls, sub, i + 1)
  }

  const DoiPath: string := "/doi/"
  const DoiResolver: string := "http://dx.doi.org"
  const ArxivHost: string := "://arxiv.org"

  /** The resolver link for a URL holding `/doi/`: the resolver followed
      by the URL from the `/` that closes its first `/doi`. */
  function DoiLinkOf(url: string): (r: string)
    requires Contains(url, DoiPath)
    ensures OccursAt(r, DoiResolver + "/", 0)
  {
    var i := Find(url, DoiPath);
    assert url[i..i + 5] == DoiPath;
    assert url[i + 4] == '/';
    var r := DoiResolver + url[i + 4..];
    assert r[..18] == DoiResolver + "/";
    r
  }

  /** `extract_doi_links(urls)` */
  function ExtractDoiLinks(urls: seq<string>): (r: Option<string>)
    ensures r.None? <==> forall k :: 0 <= k < |urls| ==> !Contains(urls[k], DoiPath)
    ensures r.Some? ==> OccursAt(r.value, "http://dx.doi.org/", 0)
    ensures r.Some? ==> exists k :: FirstWith(urls, DoiPath, 0) == Some(k) && r.value == DoiLinkOf(urls[k])
  {
    match FirstWith(urls, DoiPath, 0)
    case None => None
    case Some(k) => Some(DoiLinkOf(urls[k]))
  }

  /** `extract_arxiv_links(urls)`: the first URL on arxiv.org, unchanged. */
  function ExtractArxivLinks(urls: seq<string>): (r: Option<string>)
    ensures r.None? <==> forall k :: 0 <= k < |urls| ==> !Contains(urls[k], ArxivHost)
    ensures r.Some? ==> exists k :: FirstWith(urls, ArxivHost, 0) == Some(k) && r.value == urls[k]
  {
    match FirstWith(urls, ArxivHost, 0)
    case None => None
    case Some(k) => Some(urls[k])
  }

  /** Once a URL qualifies, the URLs after it are never looked at. */
  lemma {:induction false} FirstWithIgnoresRest(urls: seq<string>, more: seq<string>, sub: string, i: nat)
    requires i <= |urls| && FirstWith(urls, sub, i).Some?
    ensures FirstWith(urls + more, sub, i) == FirstWith(urls, sub, i)
    decreases |urls| - i
  {
    assert (urls + more)[i] == urls[i];
    if !Contains(urls[i], sub) {
      FirstWithIgnoresRest(urls, more, sub, i + 1);
    }
  }

  /** Both extractors use only the first qualifying URL: URLs appended
      after it change nothing. */
  lemma ExtractorsUseFirst(urls: seq<string>, more: seq<string>)
    ensures ExtractDoiLinks(urls).Some? ==> ExtractDoiLinks(urls + more) == ExtractDoiLinks(urls)
    ensures ExtractArxivLinks(urls).Some? ==> ExtractArxivLinks(urls + more) == ExtractArxivLinks(urls)
  {
    if FirstWith(urls, DoiPath, 0).Some? {
      FirstWithIgnoresRest(urls, more, DoiPath, 0);
      var k := FirstWith(urls, DoiPath, 0).value;
      assert (urls + more)[k] == urls[k];
    }
    if FirstWith(urls, ArxivHost, 0).Some? {
      FirstWithIgnoresRest(urls, more, ArxivHost, 0);
      var k := FirstWith(urls, ArxivHost, 0).value;
      assert (urls + more)[k] == urls[k];
    }
  }

  /** A citation whose only link is `http://x.org/doi/10.1/abc` gets the
      resolver link `http://dx.doi.org/10.1/abc`. */
  lemma DoiLinkExample()
    ensures ExtractDoiLinks(["http://x.org/doi/10.1/abc"]) == Some("http://dx.doi.org/10.1/abc")
  {
    var u := "http://x.org/doi/10.1/abc";
    assert u[12..17] == DoiPath;
    assert OccursAt(u, DoiPath, 12);
    forall j | 0 <= j < 12 ensures !OccursAt(u, DoiPath, j) {
      assert u[j..j + 5][1] == u[j + 1];
    }
    assert Find(u, DoiPath) == 12;
    assert Contains(u, DoiPath);
    assert FirstWith([u], DoiPath, 1) == None;
    assert FirstWith([u], DoiPath, 0) == Some(0);
    assert u[16..] == "/10.1/abc";
    assert DoiLinkOf(u) == DoiResolver + "/10.1/abc";
    assert DoiResolver + "/10.1/abc" == "http://dx.doi.org/10.1/abc";
  }

  // ---------------------------------------------------------------------
  // The pattern cascade
  // ---------------------------------------------------------------------

  /** What `match_doi_or_arxiv` returns: `("DOI", id)` or `("arXiv", id)`. */
  datatype ArticleId = DoiId(id: string) | ArxivId(id: string)

  /** The identifier kinds asked for by default. */
  const BothKinds: seq<string> := ["DOI", "arXiv"]

  /** The DOI candidate in the lower-cased text `t`: the general pattern
      on `t` with `&#338;` read as `-`; failing that the PNAS pattern on
      `t` with `pnas` read as `/pnas`; failing that the JCB pattern on `t`. */
  function DoiCandidate(t: string): Option<string> {
    var general := Re.Search(Re.Doi, Replace(t, "&#338;", "-"));
    if general.Some? then general
    else
      var pnas := Re.Search(Re.DoiPnas, Replace(t, "pnas", "/pnas"));
      if pnas.Some? then pnas else Re.Search(Re.DoiJsb, t)
  }

  /** The candidate without `:` and ` ` characters. */
  function Separated(m: string): string {
    Replace(Replace(m, ":", ""), " ", "")
  }

  /** The candidate after the separator removal, the leading-`/` fix and
      the two publisher truncations (to 20 and to 21 characters). */
  function TrimDoi(m: string): string {
    var c0 := Separated(m);
    Re.AnchoredSearch(c0);
    var c1 := if Re.Search(Re.CleanDoi, c0).Some? then c0[1..] else c0;
    var c2 := if Re.Search(Re.CleanDoiFabse, c1).Some? then Take(c1, 20) else c1;
    if Re.Search(Re.CleanDoiJcb, c2).Some? then Take(c2, 21) else c2
  }

  /** The returned DOI: the trimmed candidate, less its last character
      when it is longer than 40 characters. */
  function CleanDoi(m: string): (r: string)
    ensures |r| == if |TrimDoi(m)| > 40 then |TrimDoi(m)| - 1 else |TrimDoi(m)|
    ensures r == TrimDoi(m)[..|r|]
  {
    var c := TrimDoi(m);
    if |c| > 40 then c[..|c| - 1] else c
  }

  /** The result of the cascade: a DOI if one is asked for and found,
      otherwise an arXiv identifier if one is asked for and found. */
  function DoiOrArxiv(text: string, only: seq<string>): (r: Option<ArticleId>)
    ensures var t := Lower(text);
      && (r.Some? && r.value.DoiId? <==> "DOI" in only && DoiCandidate(t).Some?)
      && (r.Some? && r.value.ArxivId? <==>
            !("DOI" in only && DoiCandidate(t).Some?) && "arXiv" in only && Re.Search(Re.ArXiv, t).Some?)
      && (r.None? <==>
            !("DOI" in only && DoiCandidate(t).Some?) && !("arXiv" in only && Re.Search(Re.ArXiv, t).Some?))
  {
    var t := Lower(text);
    var doi := if "DOI" in only then DoiCandidate(t) else None;
    var arxiv := if "arXiv" in only then Re.Search(Re.ArXiv, t) else None;
    if doi.Some? then Some(DoiId(CleanDoi(doi.value)))
    else if arxiv.Some? then Some(ArxivId(arxiv.value))
    else None
  }

  /** The length repair of `match_doi_or_arxiv` for a DOI longer than 40
      characters.  It builds a scratch copy (digit-dot-digit runs made
      `000`, then `.` made `A` and `-` made `0` after the first eight
      characters) and walks it looking for a letter after a digit; but the
      letter test sits inside the digit test, so it never succeeds, the
      walk runs to the end, and the DOI loses exactly its last character. */
  method RepairLength(cleanDoi: string) returns (r: string)
    requires |cleanDoi| > 40
    ensures r == cleanDoi[..|cleanDoi| - 1]
  {
    var subbed := Re.Sub(Re.CleanDoiLen, cleanDoi, "000");
    Re.SubCleanDoiLenKeepsLength(cleanDoi);
    Tools.DotDashTableClears(subbed[8..]);
    var temp := Tools.ReplaceAll(subbed[8..], Tools.DotDashTable);
    var digitStart := 0;
    var i := 0;
    var k := 0;
    while k < |temp|
      invariant 0 <= k <= |temp|
      invariant k > 0 ==> i == k - 1
    {
      i := k;
      if IsDigit(temp[k]) {
        digitStart := 1;
        if IsAlpha(temp[k]) && digitStart == 1 {
          break;
        }
      }
      k := k + 1;
    }
    r := cleanDoi[0..8 + i];
  }

  /** `match_doi_or_arxiv(text, only)` */
  method MatchDoiOrArxiv(text: string, only: seq<string>) returns (r: Option<ArticleId>)
    ensures r == DoiOrArxiv(text, only)
  {
    var t := Lower(text);
    if "DOI" in only {
      var extractId := FindDoi(t);
      if extractId.Some? {
        var cleanDoi := CleanFoundDoi(extractId.value);
        return Some(DoiId(cleanDoi));
      }
    }
    if "arXiv" in only {
      var extractId := Re.Search(Re.ArXiv, t);
      if extractId.Some? {
        return Some(ArxivId(extractId.value));
      }
    }
    return None;
  }

  /** The DOI patterns of `match_doi_or_arxiv` tried in turn. */
  method FindDoi(t: string) returns (extractId: Option<string>)
    ensures extractId == DoiCandidate(t)
  {
    extractId := Re.Search(Re.Doi, Replace(t, "&#338;", "-"));
    if extractId.None? {
      // PNAS fix
      extractId := Re.Search(Re.DoiPnas, Replace(t, "pnas", "/pnas"));
      if extractId.None? {
        // JCB fix
        extractId := Re.Search(Re.DoiJsb, t);
      }
    }
  }

  /** The cleaning steps of `match_doi_or_arxiv` applied to a DOI found. */
  method CleanFoundDoi(m: string) returns (cleanDoi: string)
    ensures cleanDoi == CleanDoi(m)
  {
    cleanDoi := Replace(Replace(m, ":", ""), " ", "");
    Re.AnchoredSearch(cleanDoi);
    if Re.Search(Re.CleanDoi, cleanDoi).Some? {
      cleanDoi := cleanDoi[1..];
    }
    // FABSE J fix
    if Re.Search(Re.CleanDoiFabse, cleanDoi).Some? {
      cleanDoi := Take(cleanDoi, 20);
    }
    // Second JCB fix
    if Re.Search(Re.CleanDoiJcb, cleanDoi).Some? {
      cleanDoi := Take(cleanDoi, 21);
    }
    assert cleanDoi == TrimDoi(m);
    if |cleanDoi| > 40 {
      cleanDoi := RepairLength(cleanDoi);
    }
  }

  // ---------------------------------------------------------------------
  // Properties of the cascade
  // ---------------------------------------------------------------------

  /** The separator removal leaves no `:` and no ` `. */
  lemma SeparatedHasNoSeparators(m: string)
    ensures ':' !in Separated(m) && ' ' !in Separated(m)
  {
    ReplaceDeletesChar(m, ':');
    ReplaceDeletesChar(Replace(m, ":", ""), ' ');
  }

  /** The separated candidate after the leading-`/` fix. */
  function Unslashed(c: string): string {
    if |c| > 0 && c[0] == '/' then c[1..] else c
  }

  /** A cut of a publisher prefix keeps the prefix when it keeps at least
      seven characters. */
  lemma PrefixKept(c: string, n: nat)
    requires n >= 7
    ensures Re.FabsePrefix(Take(c, n)) <==> Re.FabsePrefix(c)
    ensures Re.JcbPrefix(Take(c, n)) <==> Re.JcbPrefix(c)
  {
    var d := Take(c, n);
    if |c| >= 7 {
      assert d[..7] == c[..7];
      assert d[0..2] == d[..7][0..2] == c[..7][0..2] == c[0..2];
      assert d[3..7] == d[..7][3..7] == c[..7][3..7] == c[3..7];
      assert d[2] == c[2];
    }
  }

  /** What the trimming does: the DOI is the separated candidate without a
      leading `/`, cut to 20 characters under the `10.1096` prefix and to
      21 under the `10.1083` prefix, and otherwise left whole; it holds no
      `:` and no ` `. */
  lemma TrimDoiShape(m: string)
    ensures var c1 := Unslashed(Separated(m));
      && TrimDoi(m) == c1[..|TrimDoi(m)|]
      && (Re.FabsePrefix(c1) ==> TrimDoi(m) == Take(c1, 20))
      && (Re.JcbPrefix(c1) ==> TrimDoi(m) == Take(c1, 21))
      && (!Re.FabsePrefix(c1) && !Re.JcbPrefix(c1) ==> TrimDoi(m) == c1)
    ensures ':' !in TrimDoi(m) && ' ' !in TrimDoi(m)
  {
    var c0 := Separated(m);
    var c1 := Unslashed(c0);
    Re.AnchoredSearch(c0);
    Re.AnchoredSearch(c1);
    var c2 := if Re.FabsePrefix(c1) then Take(c1, 20) else c1;
    Re.AnchoredSearch(c2);
    Re.PrefixesExclusive(c1);
    PrefixKept(c1, 20);
    PrefixKept(c2, 21);
    assert TrimDoi(m) == (if Re.JcbPrefix(c2) then Take(c2, 21) else c2);
    SeparatedHasNoSeparators(m);
    assert forall x :: x in TrimDoi(m) ==> x in c0;
  }

  /** The identifier found in a citation is in lower case, since the
      citation is lower-cased before any pattern is tried. */
  lemma IdentifierLowerCase(text: string, only: seq<string>)
    requires DoiOrArxiv(text, only).Some?
    ensures IsLower(DoiOrArxiv(text, only).value.id)
  {
    var t := Lower(text);
    var c := DoiCandidate(t);
    if "DOI" in only && c.Some? {
      CandidateLower(t);
      CleanDoiKeepsLower(c.value);
      assert DoiOrArxiv(text, only).value.id == CleanDoi(c.value);
    } else {
      Re.SearchKeepsLower(Re.ArXiv, t);
    }
  }

  /** A candidate found in lower-case text is in lower case. */
  lemma CandidateLower(t: string)
    requires IsLower(t) && DoiCandidate(t).Some?
    ensures IsLower(DoiCandidate(t).value)
  {
    ReplacedSearchLower(Re.Doi, t, "&#338;", "-");
    ReplacedSearchLower(Re.DoiPnas, t, "pnas", "/pnas");
    Re.SearchKeepsLower(Re.DoiJsb, t);
  }

  /** Searching lower-case text after a lower-case replacement finds
      lower-case text. */
  lemma ReplacedSearchLower(pat: Re.Pattern, t: string, target: string, repl: string)
    requires IsLower(t) && IsLower(repl)
    ensures Re.Search(pat, Replace(t, target, repl)).Some? ==>
      IsLower(Re.Search(pat, Replace(t, target, repl)).value)
  {
    ReplaceKeepsLower(t, target, repl);
    Re.SearchKeepsLower(pat, Replace(t, target, repl));
  }

  lemma CleanDoiKeepsLower(m: string)
    requires IsLower(m)
    ensures IsLower(CleanDoi(m))
  {
    ReplaceKeepsLower(m, ":", "");
    ReplaceKeepsLower(Replace(m, ":", ""), " ", "");
    TrimDoiShape(m);
    var c1 := Unslashed(Separated(m));
    assert IsLower(c1);
    assert IsLower(TrimDoi(m));
  }

  /** An arXiv identifier is a non-empty run of identifier characters, so
      it holds no `:`: removing `arxiv:` from it changes nothing. */
  lemma ArxivIdShape(t: string)
    requires Re.Search(Re.ArXiv, t).Some?
    ensures var id := Re.Search(Re.ArXiv, t).value;
      && id != []
      && (forall k :: 0 <= k < |id| ==> Re.IsArxivIdChar(id[k]))
      && Replace(id, "arxiv:", "") == id
  {
    var (a, e) := Re.FirstFrom(Re.Table(Re.ArXiv, t), 0).value;
    assert Re.MatchAt(Re.ArXiv, t, a) == Re.Table(Re.ArXiv, t)[a] == Some(e);
    var id := t[Re.ArxivIdStart(t, a)..e];
    assert Re.Search(Re.ArXiv, t).value == id;
    NoArxivTag(id);
  }

  /** A run of identifier characters holds no `:`, so no `arxiv:`. */
  lemma NoArxivTag(id: string)
    requires forall k :: 0 <= k < |id| ==> Re.IsArxivIdChar(id[k])
    ensures Replace(id, "arxiv:", "") == id
  {
    assert !Re.IsArxivIdChar(':');
    forall i | 0 <= i <= |id| ensures !OccursAt(id, "arxiv:", i) {
      if i + 6 <= |id| {
        assert id[i..i + 6][5] == id[i + 5] != ':';
      }
    }
    ReplaceAbsent(id, "arxiv:", "");
  }
}
