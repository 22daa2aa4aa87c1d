# Citation-to-identifier pipeline of arxiv_metadata, in Dafny

This project models the part of arxiv_metadata that turns the `.bbl`
bibliography of a paper into a map from plaintext citations to links:

- `reference_fetcher/tools.py`: `replaceAll` applies a replacement table
  pair by pair; `clean_whitespaces` strips a citation, drops its trailing
  run of `.` and `,` and collapses its whitespace.
- `reference_fetcher/regex.py`: the fixed pattern table. Each pattern is a
  hand-written matcher (`Regex.MatchAt`). Python's `search`, `findall`,
  `split` and `sub` are built on it as leftmost, non-overlapping scans.
- `doi.py`: link scanning (`extract_doi_links`, `extract_arxiv_links`) and
  the DOI-then-arXiv pattern cascade `match_doi_or_arxiv`, with its
  publisher fixes and its length repair.
- `reference_fetcher/bbl.py`: `parse` cuts the bibliography at each
  `\bibitem{...}` header and converts each bibitem to plaintext.
  `get_dois` finds a link for each citation (URL links first, then the
  patterns) and sends the rest to the CrossRef links service in batches
  of ten.

Python's string builtins (`replace`, `find`, `strip`, `rstrip`, `split`,
`' '.join`, `lower`) are written out in `pystr.dfy`. `wrappers.dfy` holds
`Option` and `Result`.

Each imperative routine is a method proved against a specification
function:

| method | specification |
|---|---|
| `Tools.ReplaceAll` | `Tools.ReplacedInTurn` |
| `Doi.MatchDoiOrArxiv` | `Doi.DoiOrArxiv` |
| `Bbl.Parse` | `Bbl.Parsed` |
| `Bbl.GetDois` | `Bbl.Resolution` |

The properties are proved about those functions.

The `delatex` converter and the CrossRef service are parameters:

- `Delatex` maps a bibitem to its decoded plaintext, or to `None` when the
  converter fails.
- `Crossref` maps a batch to its results, or to `None` when the request
  fails. Each result is a text, with a DOI when the service gives one.

Both kinds of failure abort the run, and the model says which one
(`Bbl.Error`).

## Model

| member | source | states |
|---|---|---|
| Tools.ReplaceAll | reference_fetcher/tools.py:6-12 | the loop applies the pairs in table order, each to the previous output (`ReplacedInTurn`); an empty table returns the text unchanged |
| Tools.ReplacedInTurnCharwise | reference_fetcher/tools.py:10-12 | with single-character keys and values the length is kept and every position whose character is no key is unchanged |
| Tools.DotDashTableClears | doi.py:67-68 | the table `{'.': 'A', '-': '0'}` keeps the length, maps each `.` to `A` and `-` to `0`, and leaves no `.` and no `-` |
| Tools.CleanWhitespaces | reference_fetcher/tools.py:15-19 | the result is normalised: no whitespace at either end, only `' '` as whitespace, never two spaces in a row |
| Tools.CleanKeepsWords | reference_fetcher/tools.py:15-19 | the cleaned text has exactly the words of the stripped text less its trailing `.`/`,` run |
| Tools.JoinNormalized | reference_fetcher/tools.py:19 | joining non-empty, whitespace-free words with one space gives normalised text |
| Tools.CleanNoSpace | reference_fetcher/tools.py:19 | on text without whitespace the result is the text less its trailing `.`/`,` run, and cleaning it again changes nothing |
| Tools.CleanDropsWholeRun | reference_fetcher/tools.py:19 | the whole trailing run goes: `"ref.,."` becomes `"ref"` |
| Tools.CleanNotIdempotent | reference_fetcher/tools.py:19 | cleaning is not idempotent: `"a. ."` becomes `"a."`, which becomes `"a"` |
| PyStr.Strip | reference_fetcher/tools.py:19 | `str.strip()`: the result is the slice of the text that starts after its leading whitespace, and everything cut from the end is whitespace; neither end of the result is whitespace; text without whitespace is unchanged |
| PyStr.LeadingSpace | reference_fetcher/tools.py:19 | the leading whitespace run: every character before its end is whitespace, and the character at its end is not |
| PyStr.RStrip | reference_fetcher/tools.py:19 | `str.rstrip(chars)`: a prefix of the text that does not end in `chars`, and everything cut is in `chars` |
| PyStr.SplitWords | reference_fetcher/tools.py:19 | `str.split()`: the result is the words of the text (`Words`), the maximal non-empty runs without whitespace, in order |
| PyStr.WordsUnique | reference_fetcher/tools.py:19 | a text has one word list only, so `split` is determined by `Words` |
| PyStr.JoinSpace | reference_fetcher/tools.py:19 | `' '.join` of non-empty, whitespace-free words gives a text whose words are exactly those words |
| PyStr.SplitJoin | reference_fetcher/tools.py:19 | splitting the join of non-empty, whitespace-free words gives the words back |
| PyStr.Lower | doi.py:42 | `str.lower()` keeps the length, lower-cases each character and leaves no upper-case letter |
| PyStr.FindFrom | doi.py:17 | `str.find`: the first occurrence at or after the start, or -1 when there is none |
| PyStr.FindFirst | doi.py:17 | `str.find` is -1 exactly when the text does not occur; otherwise it is an occurrence with none before it |
| PyStr.ContainsOccurs | doi.py:14 | `in` holds exactly when the text occurs somewhere, and then `find` gives an occurrence |
| PyStr.ReplaceDeletesChar | doi.py:56 | removing a character keeps only characters of the text, and none of them is that character |
| PyStr.ReplaceKeepsLower | doi.py:45-49 | replacing in lower-case text with a lower-case replacement gives lower-case text |
| PyStr.ReplaceAbsent | reference_fetcher/bbl.py:93 | replacing a target that never occurs changes nothing |
| PyStr.ReplaceTail | reference_fetcher/bbl.py:77-78 | removing a text written at the end, after a prefix that has none of its first character, leaves the prefix |
| PyStr.ReplaceBySelf | reference_fetcher/tools.py:11 | replacing a text by itself changes nothing |
| PyStr.ReplaceSameLength | reference_fetcher/tools.py:11 | replacing a non-empty text by one of the same length keeps the length |
| PyStr.ReplaceCharPointwise | reference_fetcher/tools.py:11 | replacing one character by another keeps the length and changes exactly the positions holding it |
| PyStr.Take | doi.py:61 | slicing `[:n]` gives the first `min(n, len)` characters |
| Regex.UrlMatchAt | reference_fetcher/regex.py:6 | a match exactly when `http://` or `https://` is followed by a URL character; the match then ends at the end of the run of URL characters after the scheme, which is non-empty |
| Regex.UrlMatchText | reference_fetcher/regex.py:6 | a URL match text starts with its scheme, and after the scheme comes a non-empty run of URL characters to the end of the text |
| Regex.FindAllUrlsShape | reference_fetcher/bbl.py:74 | every URL `findall` returns starts with a scheme, then has a non-empty run of URL characters only, and is followed in the text by no URL character |
| Regex.UrlSwallowsPunctuation | reference_fetcher/regex.py:6 | trailing `.`, `)` and `,` are part of a URL match |
| Regex.BibitemMatchAt | reference_fetcher/regex.py:7 | a header is `\bibitem{`, then at least one character and no newline, up to the first `}` after that character; conversely, after `\bibitem{` any later `}` with no newline before it gives a match |
| Regex.DoiMatchAt | reference_fetcher/regex.py:10 | a DOI match is preceded by `doi` in any case; after the optional `/`, `:` and whitespace come seven digits or dots, a `/`, and a whitespace-free run ending at its last digit; conversely, with that prefix, seven digits or dots and a `/`, a digit in the whitespace-free run gives a match |
| Regex.DoiSeparatorEnd | reference_fetcher/regex.py:10 | the optional `/`, `:` and single whitespace take at most three characters |
| Regex.PnasBodyAt | reference_fetcher/regex.py:11 | the PNAS body is `10`, one character other than a newline, `1073/pnas.`, then the longest non-empty digit run; and every text of that shape gives one |
| Regex.DoiPnasMatchAt | reference_fetcher/regex.py:11 | a PNAS match follows `doi`, is at least 14 characters long and is a PNAS body right after `doi` or one character later; after `doi`, a body one character later (the character not a newline) is the match, and a body right after `doi` gives one |
| Regex.DoiJsbMatchAt | reference_fetcher/regex.py:12 | a JCB match is `10.1083/jcb.` in any case followed by exactly nine digits, and every such text is a match |
| Regex.ArxivMatchAt | reference_fetcher/regex.py:17 | an arXiv match is `arxiv:` in any case, optional whitespace, then the longest non-empty run of identifier characters |
| Regex.PrefixesExclusive | reference_fetcher/regex.py:14-15 | the `10?1096` and `10?1083` prefix tests never both hold |
| Regex.AnchoredSearch | reference_fetcher/regex.py:13-15 | the anchored patterns find something exactly when the text starts with `/`, with `10?1096`, or with `10?1083` |
| Regex.MatchAt | reference_fetcher/regex.py:6-17 | every match of the table ends after its start and inside the text |
| Regex.Search | doi.py:45-52 | `search` finds nothing exactly when no match starts anywhere; what it finds is a slice of the text |
| Regex.SearchLeftmost | doi.py:45-52 | `search` returns the text of the leftmost match: when a match starts at `a` and none before, it is the slice from that match's group start to its end |
| Regex.SearchKeepsLower | doi.py:42-52 | anything found in lower-case text is lower-case |
| Regex.FirstFrom | doi.py:45 | the leftmost match at or after a position, and no match before it |
| Regex.SpansInTable | reference_fetcher/regex.py:6-17 | every span of the scan is a match of the pattern at or after the start |
| Regex.SpansNoneBetween | reference_fetcher/bbl.py:48 | consecutive spans do not overlap, and no match starts between them |
| Regex.SpansNoneOutside | reference_fetcher/bbl.py:48 | no match starts before the first span or after the last one |
| Regex.Matches | reference_fetcher/bbl.py:74 | the `finditer` spans are in order, non-overlapping, and each is a non-empty match |
| Regex.MatchesLeftmost | reference_fetcher/bbl.py:74 | the spans are the leftmost ones: no match starts before the first, between two, or after the last |
| Regex.Texts | reference_fetcher/bbl.py:74 | `findall` returns the text of each span, one per span |
| Regex.FindAllTexts | reference_fetcher/bbl.py:74 | `findall` gives one text per `finditer` span, each a match of the pattern and the slice it covers |
| Regex.SingleMatch | reference_fetcher/bbl.py:74 | when one match is the only one starting before its end and none starts after it, it is the only span |
| Regex.SoleUrl | reference_fetcher/bbl.py:74 | a URL written after text without an `h` is the one URL `findall` returns |
| Regex.Split | reference_fetcher/bbl.py:48 | `split` returns one piece more than there are matches |
| Regex.SplitPieces | reference_fetcher/bbl.py:48 | each piece after the first is the text from the end of one match to the start of the next, or to the end |
| Regex.PiecesBetween | reference_fetcher/bbl.py:48 | the same for the pieces around any ordered spans |
| Regex.SubstitutedLength | reference_fetcher/regex.py:16 | substituting a same-length text for every span keeps the length |
| Regex.SubIsJoinOfSplit | reference_fetcher/bbl.py:49-50 | `sub` is the `split` pieces joined with the replacement; without a match it changes nothing; with every match as long as the replacement it keeps the length |
| Regex.SubstitutedIsJoin | reference_fetcher/regex.py:16 | substituting for ordered spans equals joining the pieces around them with the replacement |
| Regex.SubCleanDoiLenKeepsLength | doi.py:66 | substituting `000` for each digit-dot-digit keeps the length of the DOI |
| Doi.FirstWith | doi.py:14 | the index of the first URL containing the text, and none before it; no index when no URL contains it |
| Doi.DoiLinkOf | doi.py:16-17 | the resolver link of a `/doi/` URL starts with `http://dx.doi.org/` |
| Doi.ExtractDoiLinks | doi.py:10-19 | `None` exactly when no URL contains `/doi/`; otherwise the resolver link of the first one, starting with `http://dx.doi.org/` |
| Doi.ExtractArxivLinks | doi.py:22-30 | `None` exactly when no URL contains `://arxiv.org`; otherwise the first such URL unchanged |
| Doi.FirstWithIgnoresRest | doi.py:14 | once a URL qualifies, URLs appended after it do not change the index found |
| Doi.ExtractorsUseFirst | doi.py:14-17 | both extractors use only the first qualifying URL: appending URLs changes no result already found |
| Doi.DoiLinkExample | doi.py:16-17 | `http://x.org/doi/10.1/abc` gives `http://dx.doi.org/10.1/abc` |
| Doi.DoiOrArxiv | doi.py:33-82 | a DOI exactly when DOIs are asked for and a DOI pattern matches the lower-cased text; an arXiv identifier exactly when no DOI was returned, arXiv is asked for, and the arXiv pattern matches; `None` otherwise |
| Doi.CleanDoi | doi.py:55-75 | the returned DOI is the trimmed DOI, less exactly its last character when that is longer than 40 |
| Doi.MatchDoiOrArxiv | doi.py:33-82 | the method with its chain of updates computes `DoiOrArxiv` |
| Doi.FindDoi | doi.py:44-52 | the general, PNAS and JCB patterns are tried in that order on their rewritten texts |
| Doi.CleanFoundDoi | doi.py:55-75 | the cleaning steps and the length repair compute `CleanDoi` |
| Doi.RepairLength | doi.py:65-75 | the length-repair loop never breaks, so the DOI loses exactly its last character |
| Doi.SeparatedHasNoSeparators | doi.py:56 | after the removal there is no `:` and no space |
| Doi.PrefixKept | doi.py:60-64 | a cut to 20 or 21 characters keeps the publisher prefix tests as they were |
| Doi.TrimDoiShape | doi.py:56-64 | the DOI is the separated candidate without a leading `/`, cut to 20 characters under `10?1096`, to 21 under `10?1083`, otherwise whole, and holds no `:` and no space |
| Doi.CleanDoiKeepsLower | doi.py:55-75 | cleaning a lower-case candidate gives a lower-case DOI |
| Doi.CandidateLower | doi.py:44-52 | a DOI candidate found in lower-case text is lower-case |
| Doi.IdentifierLowerCase | doi.py:42-82 | every identifier returned is lower-case |
| Doi.ArxivIdShape | doi.py:79-81 | an arXiv identifier is a non-empty run of identifier characters, so removing `arxiv:` from it changes nothing |
| Bbl.CleanBibitem | reference_fetcher/bbl.py:14-29 | a conversion succeeds exactly when the converter does, and its output is normalised |
| Bbl.Tidy | reference_fetcher/bbl.py:49-50 | a tidied bibitem has no whitespace at either end |
| Bbl.TidyAll | reference_fetcher/bbl.py:49-50 | every piece is tidied, in order |
| Bbl.BibitemsBetweenHeaders | reference_fetcher/bbl.py:48-50 | one bibitem per `\bibitem{...}` header, in order, each the tidied text from the end of its header to the next header or the end; the text before the first header is dropped |
| Bbl.CleanAll | reference_fetcher/bbl.py:51-55 | success exactly when every bibitem converts; then one citation per bibitem, in order; otherwise the error names the first bibitem that failed |
| Bbl.Parse | reference_fetcher/bbl.py:32-55 | `parse` computes `Parsed` |
| Bbl.CleanEach | reference_fetcher/bbl.py:51-55 | the loop stops at the first conversion failure and otherwise returns every cleaned bibitem in order |
| Bbl.LowerAll | reference_fetcher/bbl.py:75 | each URL lower-cased, in order |
| Bbl.UrlFree | reference_fetcher/bbl.py:76-79 | the citation without its URLs is normalised again |
| Bbl.UrlLink | reference_fetcher/bbl.py:80-87 | a link exactly when some URL holds `/doi/` or `://arxiv.org`; a DOI link wins over an arXiv link |
| Bbl.IdLink | reference_fetcher/bbl.py:94-100 | a DOI maps to a link under `http://dx.doi.org/`, an arXiv identifier to one under `http://arxiv.org/abs/` |
| Bbl.Locate | reference_fetcher/bbl.py:72-100 | the link of a citation is a resolver link under `http://dx.doi.org/` or an arXiv link; a citation without a link keeps its URL-free, normalised text as key |
| Bbl.LocateExample | reference_fetcher/bbl.py:72-89 | `see http://x.org/doi/10.1/abc` has key `see` and link `http://dx.doi.org/10.1/abc` |
| Bbl.KeyKeepsUnmatchedId | reference_fetcher/bbl.py:93 | the removal is case-sensitive: an identifier absent from the citation as written leaves the key whole |
| Bbl.ArxivLinkKeepsId | reference_fetcher/bbl.py:97-100 | the arXiv link is `http://arxiv.org/abs/` followed by the identifier |
| Bbl.LocateAll | reference_fetcher/bbl.py:72 | the key and link of each citation, in order |
| Bbl.CollectCovers | reference_fetcher/bbl.py:101-103 | keys and pending list only grow; each citation ends up in the map or in the pending list |
| Bbl.CollectSources | reference_fetcher/bbl.py:81-103 | every map entry is a starting entry or the key and link of a citation; every pending key is that of a citation without a link |
| Bbl.CollectLinks | reference_fetcher/bbl.py:72-103 | the citation loop computes `Collect` over the located citations |
| Bbl.HandleCitation | reference_fetcher/bbl.py:73-100 | one pass of the loop gives the key of `Locate` and stores its link, if any |
| Bbl.StoreUrlLinks | reference_fetcher/bbl.py:80-89 | the arXiv link is written first, then the DOI link over it; `linked` says whether either was found |
| Bbl.RemoveUrls | reference_fetcher/bbl.py:77-78 | each URL found is removed in turn |
| Bbl.ApplyResults | reference_fetcher/bbl.py:110-126 | the keys afterwards are the old ones plus each result's text; keys no result names keep their value |
| Bbl.ApplyResultsLastWins | reference_fetcher/bbl.py:110-126 | of several results with the same text, the last one wins |
| Bbl.StoreResults | reference_fetcher/bbl.py:110-126 | the inner loop computes `ApplyResults` |
| Bbl.BatchBounds | reference_fetcher/bbl.py:105 | batch `i` exists exactly when `10 * i` is below the count, and it is the last one exactly when it reaches the end |
| Bbl.Batch | reference_fetcher/bbl.py:106-109 | every batch has between one and ten citations |
| Bbl.BatchesCover | reference_fetcher/bbl.py:105-109 | the batches, one after the other, are exactly the pending list: each pending citation is sent once, in order |
| Bbl.BatchExample | reference_fetcher/bbl.py:105-109 | 23 pending citations go out as batches of 10, 10 and 3 |
| Bbl.ResolveFrom | reference_fetcher/bbl.py:104-127 | success exactly when every batch is answered; keys only grow; a failure names the first batch that was not answered |
| Bbl.ResolveBatches | reference_fetcher/bbl.py:104-127 | the batch loop computes `ResolveFrom` |
| Bbl.GetDois | reference_fetcher/bbl.py:58-127 | `get_dois` computes `Resolution` |
| Bbl.ResolutionCovers | reference_fetcher/bbl.py:58-127 | in a successful run every link collected from the citations has its key in the result; each link collected comes from a citation (its key and link are those `Locate` gives); every citation's key is in the result or was sent to the service |
| Bbl.ParsedNormalized | reference_fetcher/bbl.py:27-28 | every citation `parse` returns is normalised |

## Left out

- `get_oa_version` in `doi.py` is not part of this model. It is an HTTP call to the dissemin service.
- The file-or-content test of `parse` (`os.path.isfile`, then reading the file) is not modelled. The model takes the content of the `.bbl` file.
- The `delatex` subprocess, its UTF-8 encoding and decoding, and the CrossRef `requests.post` with its JSON decoding are the parameters `Delatex` and `Crossref`. An exception from either is `None`.
- The `print` of the match and its store into the global `regex.match` are left out. They change no result.
- Python's dict keeps insertion order; the model's `Links` is a `map`, which does not.
- Case folding, `\w`, `\d`, `isdigit` and `isalpha` are ASCII only. Python applies them to all of Unicode. Whitespace (`str.strip`, `str.split`, `\s`) uses Python's full whitespace set.
- `math.ceil(len / 10)` is computed as the integer ceiling `(n + 9) / 10`, which equals it for every list length below 2^53.
- Regex.Search: covers only the groups the pipeline reads: group 1 of the arXiv pattern and the whole match of every other pattern.
- Regex.UrlMatchAt: the `%XX` alternative of the URL pattern is not written out. `%` and the hexadecimal digits are already URL characters, so it adds no match.
- The routes, the database, the arXiv fetchers and the command-line tools are not part of this model.

Three behaviours of the code are easy to misread; the model follows the code:

- `clean_whitespaces` removes the whole trailing run of `.` and `,`, not one character. It is not idempotent (`Tools.CleanNotIdempotent`).
- The length repair of `match_doi_or_arxiv` never finds a digit followed by a letter. The letter test sits inside the digit test, so it only drops the last character (`Doi.RepairLength`).
- After the regex fallback, the key is the citation with the identifier removed. It is not cleaned again, and the removal is case-sensitive while the identifier comes from the lower-cased text (`Bbl.Locate`, `Bbl.KeyKeepsUnmatchedId`).
