/** From a LaTeX `.bbl` bibliography to a map from plaintext citations to
    links: the bibitems are cut out and converted to plaintext, each
    citation is searched for a DOI or arXiv link among its URLs and then by
    the identifier patterns, and what is left is sent to the CrossRef links
    service in batches of ten.  The converter and the service are
    parameters. */
module Bbl {
  import opened Wrappers
  import opened PyStr
  import Tools
  import Re = Regex
  import Doi

  /** The `delatex -s` converter run on one bibitem: its decoded output, or
      `None` when it exits with an error or its output is not UTF-8. */
  type Delatex = string -> Option<string>

  /** The CrossRef links service asked about one batch of citations: its
      `results`, each a `text` with a `doi` when the result has one, or
      `None` when the request or its answer fails. */
  type Crossref = seq<string> -> Option<seq<(string, Option<string>)>>

  /** Why a run stops: the converter failed on a bibitem, or the service
      failed on a batch. */
  datatype Error = ConversionFailed(bibitem: string) | LookupFailed(batch: seq<string>)

  /** Citation text to link; `None` for a citation the service answered
      without a DOI. */
  type Links = map<string, Option<string>>

  // ---------------------------------------------------------------------
  // Parsing
  // ---------------------------------------------------------------------

  /** `clean_bibitem(bibitem)`: the converter's output with its whitespace
      normalised and its trailing `.` and `,` removed. */
  function CleanBibitem(bibitem: string, delatex: Delatex): (r: Option<string>)
    ensures r.Some? <==> delatex(bibitem).Some?
    ensures r.Some? ==> Tools.Normalized(r.value)
  {
    match delatex(bibitem)
    case None => None
    case Some(plain) => Some(Tools.CleanWhitespaces(plain))
  }

  /** One bibitem's text: every `\end{thebibliography}` removed, then
      the surrounding whitespace stripped. */
  function Tidy(piece: string): (r: string)
    ensures r == [] || (!IsSpace(r[0]) && !IsSpace(r[|r| - 1]))
  {
    Strip(Re.Sub(Re.EndTheBibliography, piece, ""))
  }

  function TidyAll(pieces: seq<string>): (r: seq<string>)
    ensures |r| == |pieces| && forall k :: 0 <= k < |pieces| ==> r[k] == Tidy(pieces[k])
  {
    seq(|pieces|, k requires 0 <= k < |pieces| => Tidy(pieces[k]))
  }

  /** The bibitems of a `.bbl` text: the pieces of the text after the first
      `\bibitem{key}` header, tidied. */
  function Bibitems(bbl: string): seq<string> {
    TidyAll(Re.Split(Re.Bibitems, bbl)[1..])
  }

  /** There is one bibitem per `\bibitem{key}` header, and it is the text
      from the end of that header to the next header (or to the end). */
  lemma BibitemsBetweenHeaders(bbl: string)
    ensures var spans := Re.Matches(Re.Bibitems, bbl);
      && |Bibitems(bbl)| == |spans|
      && forall k :: 0 <= k < |spans| ==>
           var next := if k + 1 < |spans| then spans[k + 1].0 else |bbl|;
           spans[k].1 <= next && Bibitems(bbl)[k] == Tidy(bbl[spans[k].1..next])
  {
    var spans := Re.Matches(Re.Bibitems, bbl);
    var pieces := Re.Split(Re.Bibitems, bbl);
    forall k | 0 <= k < |spans|
      ensures var next := if k + 1 < |spans| then spans[k + 1].0 else |bbl|;
        spans[k].1 <= next && Bibitems(bbl)[k] == Tidy(bbl[spans[k].1..next])
    {
      Re.SplitPieces(Re.Bibitems, bbl, k);
      assert pieces[1..][k] == pieces[k + 1];
    }
  }

  /** `k` is the first bibitem that cannot be converted. */
  predicate FirstUnclean(bibitems: seq<string>, delatex: Delatex, k: int) {
    && 0 <= k < |bibitems| && CleanBibitem(bibitems[k], delatex).None?
    && forall j :: 0 <= j < k ==> CleanBibitem(bibitems[j], delatex).Some?
  }

  /** The cleaned bibitems, or the first conversion failure. */
  function CleanAll(bibitems: seq<string>, delatex: Delatex): (r: Result<seq<string>, Error>)
    ensures r.Success? <==> forall k :: 0 <= k < |bibitems| ==> CleanBibitem(bibitems[k], delatex).Some?
    ensures r.Success? ==> |r.value| == |bibitems|
    ensures r.Success? ==> forall k :: 0 <= k < |bibitems| ==>
      r.value[k] == CleanBibitem(bibitems[k], delatex).value
    ensures r.Failure? ==> exists k :: FirstUnclean(bibitems, delatex, k) && r.error == ConversionFailed(bibitems[k])
  {
    if bibitems == [] then Success([])
    else
      match CleanBibitem(bibitems[0], delatex)
      case None =>
        assert FirstUnclean(bibitems, delatex, 0);
        Failure(ConversionFailed(bibitems[0]))
      case Some(c) =>
        match CleanAll(bibitems[1..], delatex)
        case Failure(e) =>
          var j :| FirstUnclean(bibitems[1..], delatex, j) && e == ConversionFailed(bibitems[1..][j]);
          UncleanAfterHead(bibitems, delatex, j);
          Failure(e)
        case Success(cs) =>
          CleanedAfterHead(bibitems, delatex, c, cs);
          Success([c] + cs)
  }

  /** A first failure in the tail is the first failure overall when the
      head converts. */
  lemma UncleanAfterHead(bibitems: seq<string>, delatex: Delatex, j: int)
    requires bibitems != [] && CleanBibitem(bibitems[0], delatex).Some?
    requires FirstUnclean(bibitems[1..], delatex, j)
    ensures FirstUnclean(bibitems, delatex, j + 1) && bibitems[1..][j] == bibitems[j + 1]
  {
    assert forall k :: 0 < k < |bibitems| ==> bibitems[1..][k - 1] == bibitems[k];
  }

  /** The head's conversion followed by the tail's is the conversion of
      every bibitem. */
  lemma CleanedAfterHead(bibitems: seq<string>, delatex: Delatex, c: string, cs: seq<string>)
    requires bibitems != [] && CleanBibitem(bibitems[0], delatex) == Some(c)
    requires |cs| == |bibitems| - 1
    requires forall k :: 0 <= k < |cs| ==> CleanBibitem(bibitems[1..][k], delatex).Some?
    requires forall k :: 0 <= k < |cs| ==> cs[k] == CleanBibitem(bibitems[1..][k], delatex).value
    ensures forall k :: 0 <= k < |bibitems| ==> CleanBibitem(bibitems[k], delatex).Some?
    ensures forall k :: 0 <= k < |bibitems| ==> ([c] + cs)[k] == CleanBibitem(bibitems[k], delatex).value
  {
    assert forall k :: 0 < k < |bibitems| ==> bibitems[1..][k - 1] == bibitems[k];
    assert forall k :: 0 < k < |bibitems| ==> ([c] + cs)[k] == cs[k - 1];
  }

  /** What `parse(bbl)` returns for the content of a `.bbl` file. */
  function Parsed(bbl: string, delatex: Delatex): Result<seq<string>, Error> {
    CleanAll(Bibitems(bbl), delatex)
  }

  /** Every citation `parse` returns is normalised: single spaces between
      words, no whitespace at either end. */
  lemma ParsedNormalized(bbl: string, delatex: Delatex)
    requires Parsed(bbl, delatex).Success?
    ensures forall k :: 0 <= k < |Parsed(bbl, delatex).value| ==> Tools.Normalized(Parsed(bbl, delatex).value[k])
  {
  }

  /** `parse(bbl)` for the content of a `.bbl` file. */
  method Parse(bbl: string, delatex: Delatex) returns (r: Result<seq<string>, Error>)
    ensures r == Parsed(bbl, delatex)
  {
    var bibitems := Bibitems(bbl);
    r := CleanEach(bibitems, delatex);
  }

  /** The loop of `parse` that cleans every bibitem in turn; it stops at
      the first conversion that fails. */
  method CleanEach(bibitems: seq<string>, delatex: Delatex) returns (r: Result<seq<string>, Error>)
    ensures r == CleanAll(bibitems, delatex)
  {
    var cleanedBbl: seq<string> := [];
    assert bibitems[0..] == bibitems;
    PrependNothing(CleanAll(bibitems, delatex));
    for k := 0 to |bibitems|
      invariant CleanAll(bibitems, delatex) == Prepend(cleanedBbl, CleanAll(bibitems[k..], delatex))
    {
      CleanAllStep(bibitems, k, delatex);
      var cleaned := CleanBibitem(bibitems[k], delatex);
      if cleaned.None? {
        return Failure(ConversionFailed(bibitems[k]));
      }
      PrependTwice(cleanedBbl, [cleaned.value], CleanAll(bibitems[k + 1..], delatex));
      cleanedBbl := cleanedBbl + [cleaned.value];
    }
    assert bibitems[|bibitems|..] == [];
    assert cleanedBbl + [] == cleanedBbl;
    return Success(cleanedBbl);
  }

  lemma CleanAllStep(bibitems: seq<string>, k: nat, delatex: Delatex)
    requires k < |bibitems|
    ensures CleanAll(bibitems[k..], delatex) ==
      match CleanBibitem(bibitems[k], delatex)
      case None => Failure(ConversionFailed(bibitems[k]))
      case Some(c) => Prepend([c], CleanAll(bibitems[k + 1..], delatex))
  {
    assert bibitems[k..][1..] == bibitems[k + 1..];
    assert bibitems[k..][0] == bibitems[k];
  }

  lemma PrependNothing(r: Result<seq<string>, Error>)
    ensures Prepend([], r) == r
  {
    if r.Success? {
      assert [] + r.value == r.value;
    }
  }

  lemma PrependTwice(a: seq<string>, b: seq<string>, r: Result<seq<string>, Error>)
    ensures Prepend(a, Prepend(b, r)) == Prepend(a + b, r)
  {
    if r.Success? {
      assert a + (b + r.value) == (a + b) + r.value;
    }
  }

  /** `prefix` in front of a successful result. */
  function Prepend(prefix: seq<string>, r: Result<seq<string>, Error>): Result<seq<string>, Error> {
    match r
    case Failure(e) => Failure(e)
    case Success(cs) => Success(prefix + cs)
  }

  // ---------------------------------------------------------------------
  // Links of one citation
  // ---------------------------------------------------------------------

  /** `s` with each of `targets` removed in turn. */
  function RemoveAll(s: string, targets: seq<string>): string
    decreases |targets|
  {
    if targets == [] then s else RemoveAll(Replace(s, targets[0], ""), targets[1..])
  }

  function LowerAll(urls: seq<string>): (r: seq<string>)
    ensures |r| == |urls| && forall k :: 0 <= k < |urls| ==> r[k] == Lower(urls[k])
  {
    seq(|urls|, k requires 0 <= k < |urls| => Lower(urls[k]))
  }

  /** The citation's URLs, lower-cased. */
  function CitationUrls(citation: string): seq<string> {
    LowerAll(Re.FindAll(Re.Urls, citation))
  }

  /** The citation without its URLs, normalised again. */
  function UrlFree(citation: string): (r: string)
    ensures Tools.Normalized(r)
  {
    Tools.CleanWhitespaces(RemoveAll(citation, Re.FindAll(Re.Urls, citation)))
  }

  /** The link given by a citation's (lower-cased) URLs: a resolver link
      for the first URL holding `/doi/` whatever arXiv URL there is, else
      the first arXiv URL, else nothing. */
  function UrlLink(urls: seq<string>): (r: Option<string>)
    ensures r.None? <==> forall k :: 0 <= k < |urls| ==> !Contains(urls[k], Doi.DoiPath) && !Contains(urls[k], Doi.ArxivHost)
    ensures (exists k :: 0 <= k < |urls| && Contains(urls[k], Doi.DoiPath)) ==>
      r == Doi.ExtractDoiLinks(urls) && OccursAt(r.value, "http://dx.doi.org/", 0)
    ensures (forall k :: 0 <= k < |urls| ==> !Contains(urls[k], Doi.DoiPath)) ==>
      r == Doi.ExtractArxivLinks(urls)
    ensures r.Some? ==> OccursAt(r.value, "http://dx.doi.org/", 0) || Contains(r.value, Doi.ArxivHost)
  {
    var doiUrl := Doi.ExtractDoiLinks(urls);
    var arxivUrl := Doi.ExtractArxivLinks(urls);
    assert arxivUrl.Some? ==> Contains(arxivUrl.value, Doi.ArxivHost) by {
      if arxivUrl.Some? {
        var k := Doi.FirstWith(urls, Doi.ArxivHost, 0).value;
        assert arxivUrl.value == urls[k];
      }
    }
    if doiUrl.Some? then doiUrl else arxivUrl
  }

  /** The link written for an identifier found by the patterns: a resolver
      link for a DOI, an abstract link on arxiv.org for an arXiv
      identifier. */
  function IdLink(id: Doi.ArticleId): (r: string)
    ensures id.DoiId? ==> OccursAt(r, "http://dx.doi.org/", 0)
    ensures id.ArxivId? ==> OccursAt(r, "http://arxiv.org/abs/", 0) && Contains(r, Doi.ArxivHost)
  {
    match id
    case DoiId(d) =>
      var r := "http://dx.doi.org/" + d;
      assert r[..18] == "http://dx.doi.org/";
      r
    case ArxivId(a) =>
      var r := "http://arxiv.org/abs/" + Replace(a, "arxiv:", "");
      assert r[..21] == "http://arxiv.org/abs/";
      assert r[4..16] == r[..21][4..16] == "://arxiv.org";
      assert OccursAt(r, Doi.ArxivHost, 4);
      r
  }

  /** The key under which a citation is stored and its link, if any: with
      a URL link, the URL-free citation; otherwise, when the patterns find
      an identifier in the URL-free citation, that citation with the
      identifier removed and a link made from the identifier; otherwise
      the URL-free citation and no link. */
  function Locate(citation: string): (r: (string, Option<string>))
    ensures r.1.Some? ==> OccursAt(r.1.value, "http://dx.doi.org/", 0) || Contains(r.1.value, Doi.ArxivHost)
    ensures r.1.None? ==> r.0 == UrlFree(citation) && Tools.Normalized(r.0)
  {
    var key := UrlFree(citation);
    var link := UrlLink(CitationUrls(citation));
    if link.Some? then (key, link)
    else
      match Doi.DoiOrArxiv(key, Doi.BothKinds)
      case None => (key, None)
      case Some(id) => (Replace(key, id.id, ""), Some(IdLink(id)))
  }

  /** A citation whose only URL is a publisher page under `/doi/`: the
      key is the rest of the citation and the link goes to the resolver. */
  lemma LocateExample()
    ensures Locate("see " + "http://x.org/doi/10.1/abc") == ("see", Some("http://dx.doi.org/10.1/abc"))
  {
    var u := "http://x.org/doi/10.1/abc";
    ExampleUrlFree();
    ExampleCitationUrls();
    Doi.DoiLinkExample();
    assert OccursAt(u, Doi.DoiPath, 12) by {
      assert u[12..17] == Doi.DoiPath;
    }
    ContainsOccurs(u, Doi.DoiPath);
    assert Contains([u][0], Doi.DoiPath);
  }

  /** The URL of the example citation is found whole. */
  lemma ExampleUrls()
    ensures Re.FindAll(Re.Urls, "see " + "http://x.org/doi/10.1/abc") == ["http://x.org/doi/10.1/abc"]
  {
    var u := "http://x.org/doi/10.1/abc";
    assert OccursAt(u, "http://", 0) by {
      assert u[0..7] == "http://";
    }
    assert forall k :: 7 <= k < |u| ==> Re.IsUrlChar(u[k]);
    Re.SoleUrl("see ", u);
  }

  /** The example citation's URLs, lower-cased, are its one URL. */
  lemma ExampleCitationUrls()
    ensures CitationUrls("see " + "http://x.org/doi/10.1/abc") == ["http://x.org/doi/10.1/abc"]
  {
    ExampleUrls();
    ExampleLower();
  }

  /** The example URL is already lower case. */
  lemma ExampleLower()
    ensures Lower("http://x.org/doi/10.1/abc") == "http://x.org/doi/10.1/abc"
  {
    var u := "http://x.org/doi/10.1/abc";
    assert forall i :: 0 <= i < |u| ==> !IsUpper(u[i]);
  }

  /** Without its URL the example citation is the word before it. */
  lemma ExampleUrlFree()
    ensures UrlFree("see " + "http://x.org/doi/10.1/abc") == "see"
  {
    ExampleRemoved();
    ExampleCleanSee();
  }

  /** Removing the example citation's URL leaves the word and its space. */
  lemma ExampleRemoved()
    ensures RemoveAll("see " + "http://x.org/doi/10.1/abc", Re.FindAll(Re.Urls, "see " + "http://x.org/doi/10.1/abc")) == "see "
  {
    var u := "http://x.org/doi/10.1/abc";
    ExampleUrls();
    ReplaceTail("see ", u);
    assert RemoveAll("see " + u, [u]) == RemoveAll("see ", []);
  }

  /** The word before the example URL, with its space, cleans to the word. */
  lemma ExampleCleanSee()
    ensures Tools.CleanWhitespaces("see ") == "see"
  {
    ExampleStripSee();
    assert RStrip("see", {'.', ','}) == "see";
    Tools.SplitNoSpace("see");
    assert JoinSpace(["see"]) == "see";
  }

  lemma ExampleStripSee()
    ensures Strip("see ") == "see"
  {
    assert LeadingSpace("see ") == 0 && "see "[0..] == "see ";
    assert "see "[..3] == "see";
  }

  /** The removal of the identifier from the key is case-sensitive: an
      identifier that does not occur in the URL-free citation as found
      (the patterns see the lower-cased text, so an identifier written
      there with capitals is such a one) leaves the key whole. */
  lemma KeyKeepsUnmatchedId(citation: string)
    requires UrlLink(CitationUrls(citation)).None?
    requires Doi.DoiOrArxiv(UrlFree(citation), Doi.BothKinds).Some?
    requires var id := Doi.DoiOrArxiv(UrlFree(citation), Doi.BothKinds).value.id;
      id != [] && forall i :: 0 <= i <= |UrlFree(citation)| ==> !OccursAt(UrlFree(citation), id, i)
    ensures Locate(citation).0 == UrlFree(citation)
  {
    var id := Doi.DoiOrArxiv(UrlFree(citation), Doi.BothKinds).value.id;
    ReplaceAbsent(UrlFree(citation), id, "");
  }

  /** The `arxiv:` removal in the abstract link never removes anything:
      the identifier is a run of identifier characters and has no `:`. */
  lemma ArxivLinkKeepsId(text: string)
    requires Doi.DoiOrArxiv(text, Doi.BothKinds).Some? && Doi.DoiOrArxiv(text, Doi.BothKinds).value.ArxivId?
    ensures var id := Doi.DoiOrArxiv(text, Doi.BothKinds).value.id;
      IdLink(Doi.ArxivId(id)) == "http://arxiv.org/abs/" + id
  {
    Doi.ArxivIdShape(Lower(text));
  }

  // ---------------------------------------------------------------------
  // Collecting the citations
  // ---------------------------------------------------------------------

  /** The key and link of each citation, in order. */
  function LocateAll(citations: seq<string>): (r: seq<(string, Option<string>)>)
    ensures |r| == |citations| && forall k :: 0 <= k < |citations| ==> r[k] == Locate(citations[k])
  {
    seq(|citations|, k requires 0 <= k < |citations| => Locate(citations[k]))
  }

  /** The links found and the citations left for the service, after the
      located citations `entries` are handled in order starting from
      `links` and `pending`: a found link is stored under the citation's
      key, and a key not in the map afterwards is appended to the pending
      list. */
  function Collect(entries: seq<(string, Option<string>)>, links: Links, pending: seq<string>): (Links, seq<string>)
    decreases |entries|
  {
    if entries == [] then (links, pending)
    else
      var (key, link) := entries[0];
      var next := if link.Some? then links[key := link] else links;
      Collect(entries[1..], next, if key in next then pending else pending + [key])
  }

  /** Keys and pending citations only grow, and every citation ends up
      either under its key in the map or in the pending list. */
  lemma {:induction false} CollectCovers(entries: seq<(string, Option<string>)>, links: Links, pending: seq<string>)
    ensures links.Keys <= Collect(entries, links, pending).0.Keys
    ensures pending <= Collect(entries, links, pending).1
    ensures forall k :: 0 <= k < |entries| ==>
      entries[k].0 in Collect(entries, links, pending).0 || entries[k].0 in Collect(entries, links, pending).1
    decreases |entries|
  {
    if entries != [] {
      var (key, link) := entries[0];
      var next := if link.Some? then links[key := link] else links;
      var pending' := if key in next then pending else pending + [key];
      CollectCovers(entries[1..], next, pending');
      assert forall k :: 0 < k < |entries| ==> entries[k] == entries[1..][k - 1];
      var (m, p) := Collect(entries[1..], next, pending');
      if key !in next {
        assert pending'[|pending|] == key;
        assert p[|pending|] == key;
      }
    }
  }

  /** Every entry of the map is either an entry it started with or the
      key and link of one of the citations, and every citation added to
      the pending list is the key of a citation that had no link. */
  lemma {:induction false} CollectSources(entries: seq<(string, Option<string>)>, links: Links, pending: seq<string>)
    ensures var (m, p) := Collect(entries, links, pending);
      && (forall key :: key in m ==>
            (key in links && m[key] == links[key]) || (key, m[key]) in entries)
      && (forall j :: |pending| <= j < |p| ==> (p[j], None) in entries)
    decreases |entries|
  {
    if entries != [] {
      var (key, link) := entries[0];
      var next := if link.Some? then links[key := link] else links;
      var pending' := if key in next then pending else pending + [key];
      CollectSources(entries[1..], next, pending');
      CollectCovers(entries[1..], next, pending');
      var (m, p) := Collect(entries, links, pending);
      assert (m, p) == Collect(entries[1..], next, pending');
      assert forall x :: x in entries[1..] ==> x in entries;
      forall j | |pending| <= j < |pending'|
        ensures (p[j], None) in entries
      {
        assert pending' <= p;
        assert p[j] == key && link.None?;
      }
    }
  }

  // ---------------------------------------------------------------------
  // Asking the service
  // ---------------------------------------------------------------------

  /** The results of one answer stored in turn: each result's text mapped
      to its DOI, or to `None` when it has none. */
  function ApplyResults(links: Links, results: seq<(string, Option<string>)>): (r: Links)
    ensures r.Keys == links.Keys + (set j | 0 <= j < |results| :: results[j].0)
    ensures forall key :: key in links && (forall j :: 0 <= j < |results| ==> results[j].0 != key) ==>
      r[key] == links[key]
    decreases |results|
  {
    if results == [] then links
    else
      var r := ApplyResults(links[results[0].0 := results[0].1], results[1..]);
      assert forall j :: 0 < j < |results| ==> results[1..][j - 1] == results[j];
      assert (set j | 0 <= j < |results| :: results[j].0)
          == {results[0].0} + (set j | 0 <= j < |results[1..]| :: results[1..][j].0);
      r
  }

  /** Of several results with the same text, the last one wins. */
  lemma {:induction false} ApplyResultsLastWins(links: Links, results: seq<(string, Option<string>)>, x: (string, Option<string>))
    ensures ApplyResults(links, results + [x]) == ApplyResults(links, results)[x.0 := x.1]
    decreases |results|
  {
    if results == [] {
      assert ApplyResults(links, [x]) == ApplyResults(links[x.0 := x.1], []);
    } else {
      assert (results + [x])[1..] == results[1..] + [x];
      ApplyResultsLastWins(links[results[0].0 := results[0].1], results[1..], x);
    }
  }

  /** `math.ceil(n / 10)`: the number of batches of at most ten. */
  function BatchCount(n: nat): nat {
    (n + 9) / 10
  }

  /** Batch `i` exists exactly when some citation starts it, and it is
      the last one exactly when it reaches the end of the list. */
  lemma BatchBounds(n: nat, i: nat)
    ensures i < BatchCount(n) <==> 10 * i < n
    ensures i + 1 == BatchCount(n) <==> 10 * i < n <= 10 * (i + 1)
  {
  }

  function Min(a: int, b: int): int {
    if a < b then a else b
  }

  /** Batch `i` of the pending citations: from `10 * i` up to
      `10 * (i + 1)` or the end of the list. */
  function Batch(pending: seq<string>, i: nat): (r: seq<string>)
    requires i < BatchCount(|pending|)
    ensures 1 <= |r| <= 10
  {
    BatchBounds(|pending|, i);
    pending[10 * i..Min(10 * (i + 1), |pending|)]
  }

  /** Batches `i` and later, one after the other. */
  function BatchesFrom(pending: seq<string>, i: nat): seq<string>
    decreases BatchCount(|pending|) - i
  {
    if i >= BatchCount(|pending|) then [] else Batch(pending, i) + BatchesFrom(pending, i + 1)
  }

  /** The batches partition the pending list in order: every pending
      citation is sent to the service once, and none other is. */
  lemma {:induction false} BatchesCover(pending: seq<string>, i: nat)
    requires i <= BatchCount(|pending|)
    ensures 10 * i <= |pending| ==> BatchesFrom(pending, i) == pending[10 * i..]
    ensures 10 * i > |pending| ==> BatchesFrom(pending, i) == []
    decreases BatchCount(|pending|) - i
  {
    var n := |pending|;
    BatchBounds(n, i);
    if i < BatchCount(n) {
      BatchesCover(pending, i + 1);
      assert BatchesFrom(pending, i) == Batch(pending, i) + BatchesFrom(pending, i + 1);
      if 10 * (i + 1) <= n {
        assert pending[10 * i..] == pending[10 * i..10 * (i + 1)] + pending[10 * (i + 1)..];
      } else {
        BatchBounds(n, i + 1);
        assert Batch(pending, i) == pending[10 * i..];
      }
    }
  }

  /** 23 pending citations go out as batches of 10, 10 and 3. */
  lemma BatchExample(pending: seq<string>)
    requires |pending| == 23
    ensures BatchCount(|pending|) == 3
    ensures |Batch(pending, 0)| == 10 && |Batch(pending, 1)| == 10 && |Batch(pending, 2)| == 3
  {
  }

  /** Batch `j` is the first from batch `i` on that the service fails to
      answer. */
  predicate FirstUnanswered(pending: seq<string>, i: nat, crossref: Crossref, j: int) {
    && i <= j < BatchCount(|pending|) && crossref(Batch(pending, j)).None?
    && forall m :: i <= m < j ==> crossref(Batch(pending, m)).Some?
  }

  /** The map after the service has answered batches `i` and later, or the
      first batch it failed on. */
  function ResolveFrom(links: Links, pending: seq<string>, i: nat, crossref: Crossref): (r: Result<Links, Error>)
    ensures r.Success? <==> forall j :: i <= j < BatchCount(|pending|) ==> crossref(Batch(pending, j)).Some?
    ensures r.Success? ==> links.Keys <= r.value.Keys
    ensures r.Failure? ==>
      exists j :: FirstUnanswered(pending, i, crossref, j) && r.error == LookupFailed(Batch(pending, j))
    decreases BatchCount(|pending|) - i
  {
    if i >= BatchCount(|pending|) then Success(links)
    else
      match crossref(Batch(pending, i))
      case None =>
        assert FirstUnanswered(pending, i, crossref, i);
        Failure(LookupFailed(Batch(pending, i)))
      case Some(results) =>
        var r := ResolveFrom(ApplyResults(links, results), pending, i + 1, crossref);
        assert r.Failure? ==> exists j :: FirstUnanswered(pending, i, crossref, j) && r.error == LookupFailed(Batch(pending, j)) by {
          if r.Failure? {
            var j :| FirstUnanswered(pending, i + 1, crossref, j) && r.error == LookupFailed(Batch(pending, j));
            assert FirstUnanswered(pending, i, crossref, j);
          }
        }
        r
  }

  /** What `get_dois(bbl)` returns for the content of a `.bbl` file. */
  function Resolution(bbl: string, delatex: Delatex, crossref: Crossref): Result<Links, Error> {
    match Parsed(bbl, delatex)
    case Failure(e) => Failure(e)
    case Success(citations) =>
      var (links, pending) := Collect(LocateAll(citations), map[], []);
      ResolveFrom(links, pending, 0, crossref)
  }

  /** A successful run maps every link found in a citation to its key
      (the service may later overwrite it), and has an entry for every
      citation except those sent to the service and not answered. */
  lemma ResolutionCovers(bbl: string, delatex: Delatex, crossref: Crossref)
    requires Resolution(bbl, delatex, crossref).Success?
    ensures Parsed(bbl, delatex).Success?
    ensures var citations := Parsed(bbl, delatex).value;
      var (links, pending) := Collect(LocateAll(citations), map[], []);
      var m := Resolution(bbl, delatex, crossref).value;
      && links.Keys <= m.Keys
      && (forall key :: key in links ==> (key, links[key]) in LocateAll(citations))
      && (forall k :: 0 <= k < |citations| ==> Locate(citations[k]).0 in m || Locate(citations[k]).0 in pending)
  {
    var citations := Parsed(bbl, delatex).value;
    CollectCovers(LocateAll(citations), map[], []);
    CollectSources(LocateAll(citations), map[], []);
  }

  // ---------------------------------------------------------------------
  // get_dois
  // ---------------------------------------------------------------------

  /** The body of the citation loop of `get_dois` up to the pending test:
      the URLs are removed and the citation normalised; an arXiv link is
      stored, then a resolver link over it; without either, the patterns
      are tried and the identifier removed from the key. */
  method HandleCitation(citation: string, dois: Links) returns (key: string, updated: Links)
    ensures key == Locate(citation).0
    ensures updated == if Locate(citation).1.Some? then dois[key := Locate(citation).1] else dois
  {
    var rawUrls := Re.FindAll(Re.Urls, citation);
    var urls := LowerAll(rawUrls);
    key := RemoveUrls(citation, rawUrls);
    key := Tools.CleanWhitespaces(key);
    assert key == UrlFree(citation) && urls == CitationUrls(citation);
    var linked;
    linked, updated := StoreUrlLinks(key, urls, dois);
    if !linked {
      var found := Doi.MatchDoiOrArxiv(key, Doi.BothKinds);
      if found.Some? {
        key := Replace(key, found.value.id, "");
        updated := updated[key := Some(IdLink(found.value))];
      }
    }
  }

  /** The two link tests of `get_dois`: an arXiv link is stored, then a
      resolver link over it; `linked` tells whether either was found. */
  method StoreUrlLinks(key: string, urls: seq<string>, dois: Links) returns (linked: bool, updated: Links)
    ensures linked == UrlLink(urls).Some?
    ensures updated == if linked then dois[key := UrlLink(urls)] else dois
  {
    updated := dois;
    var arxivUrl := Doi.ExtractArxivLinks(urls);
    if arxivUrl.Some? {
      updated := updated[key := arxivUrl];
    }
    var doiUrl := Doi.ExtractDoiLinks(urls);
    if doiUrl.Some? {
      updated := updated[key := doiUrl];
    }
    linked := doiUrl.Some? || arxivUrl.Some?;
  }

  /** The loop of `get_dois` that removes each URL from the citation. */
  method RemoveUrls(citation: string, rawUrls: seq<string>) returns (r: string)
    ensures r == RemoveAll(citation, rawUrls)
  {
    r := citation;
    assert rawUrls[0..] == rawUrls;
    for u := 0 to |rawUrls|
      invariant RemoveAll(r, rawUrls[u..]) == RemoveAll(citation, rawUrls)
    {
      assert rawUrls[u..][1..] == rawUrls[u + 1..];
      r := Replace(r, rawUrls[u], "");
    }
    assert rawUrls[|rawUrls|..] == [];
  }

  /** One step of `Collect`. */
  lemma CollectStep(entries: seq<(string, Option<string>)>, j: nat, links: Links, pending: seq<string>)
    requires j < |entries|
    ensures var (key, link) := entries[j];
      var next := if link.Some? then links[key := link] else links;
      Collect(entries[j..], links, pending)
        == Collect(entries[j + 1..], next, if key in next then pending else pending + [key])
  {
    assert entries[j..][1..] == entries[j + 1..];
    assert entries[j..][0] == entries[j];
  }

  /** `get_dois(bbl)` for the content of a `.bbl` file. */
  method GetDois(bbl: string, delatex: Delatex, crossref: Crossref) returns (r: Result<Links, Error>)
    ensures r == Resolution(bbl, delatex, crossref)
  {
    var parsed := Parse(bbl, delatex);
    if parsed.Failure? {
      return Failure(parsed.error);
    }
    var dois, pending := CollectLinks(parsed.value);
    r := ResolveBatches(dois, pending, crossref);
  }

  /** The citation loop of `get_dois`: the links found, and the keys of
      the citations left without one, in order. */
  method CollectLinks(citations: seq<string>) returns (dois: Links, pending: seq<string>)
    ensures (dois, pending) == Collect(LocateAll(citations), map[], [])
  {
    ghost var entries := LocateAll(citations);
    dois := map[];
    pending := [];
    assert entries[0..] == entries;
    for j := 0 to |citations|
      invariant Collect(entries[j..], dois, pending) == Collect(entries, map[], [])
    {
      CollectStep(entries, j, dois, pending);
      var key;
      key, dois := HandleCitation(citations[j], dois);
      if key !in dois {
        pending := pending + [key];
      }
    }
    assert entries[|citations|..] == [];
  }

  /** The batch loop of `get_dois`: the pending citations go to the
      service ten at a time, and each answer is stored. */
  method ResolveBatches(links: Links, pending: seq<string>, crossref: Crossref) returns (r: Result<Links, Error>)
    ensures r == ResolveFrom(links, pending, 0, crossref)
  {
    var dois := links;
    for i := 0 to BatchCount(|pending|)
      invariant ResolveFrom(dois, pending, i, crossref) == ResolveFrom(links, pending, 0, crossref)
    {
      BatchBounds(|pending|, i);
      var lowerBound := 10 * i;
      var upperBound := Min(10 * (i + 1), |pending|);
      var results := crossref(pending[lowerBound..upperBound]);
      if results.None? {
        return Failure(LookupFailed(pending[lowerBound..upperBound]));
      }
      dois := StoreResults(dois, results.value);
    }
    return Success(dois);
  }

  /** The inner loop of `get_dois`: each result stored in turn. */
  method StoreResults(links: Links, results: seq<(string, Option<string>)>) returns (dois: Links)
    ensures dois == ApplyResults(links, results)
  {
    dois := links;
    assert results[0..] == results;
    for q := 0 to |results|
      invariant ApplyResults(dois, results[q..]) == ApplyResults(links, results)
    {
      assert results[q..][1..] == results[q + 1..];
      dois := dois[results[q].0 := results[q].1];
    }
    assert results[|results|..] == [];
  }
}
