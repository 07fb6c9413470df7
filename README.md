# Ceramic-catalogue scrapers: a Dafny model

The repository is five Python scripts around two tile manufacturers' web
catalogues:

- `botgorganizadolinkvila.py` crawls the Villagres catalogue and writes the
  product links, sorted, to a file.
- `botbiancolink.py` does the same on the BiancoGres catalogue. It keeps
  first-occurrence order.
- `Bot_vilagress.py` and `biancogress.py` read such a link list and visit
  each product page. They work out a product name, a finish and a format,
  compose a folder name, and download the product's images and files into
  that folder.
- `ORGANIZA_DRIVE.py` later files those folders under
  `VENDOR/CATEGORY/FORMAT/` by vendor, category keyword and size.

This project models the logic underneath the browser and network plumbing.
A page is given as the lists of records the scripts read from it: h6/span
pairs, size buttons, technical-information items, and text nodes in
document order. A network fetch is an oracle of attempt outcomes. A folder
move is an oracle of success or failure. The directory listing is a
sequence of entries held by a class.

Modules, following the scripts:

| module | file | models |
|---|---|---|
| `Text` | text.dfy | the Python string operations the scripts use (`strip`, `lower`, `title`, `split`, `re.sub(r'\s+', ' ', …)`, `unquote`, slicing) |
| `Sanitize` | sanitize.dfy | `limpar_nome` / `limpar_nome_para_pasta` (the two scripts' sanitisers are the same function) |
| `Formats` | formats.dfy | the five size regular expressions of the scripts: a matching language, a greedy scanner, and a left-to-right search, proved to agree |
| `Titles` | titles.dfy | the `"Letters - Letters"` page-title regular expression of the Villagres script |
| `Downloads` | downloads.dfy | `baixar_arquivo`: file name, image/stream dispatch, the three-attempt retry |
| `VillagresSpecs` | villagres_specs.dfy | `extrair_formato` and `extrair_especificacoes_villagres` of `Bot_vilagress.py` |
| `Villagres` | villagres.dfy | the name, format, folder-name and asset-name logic of `Bot_vilagress.py`'s `baixar_dados`, and its downloader loop |
| `Biancogres` | biancogres.dfy | the same for `biancogress.py`, including the `$$` title pattern |
| `Organizer` | organizer.dfy | `normalizar`, `extrair_formato` and `organizar_itens` of `ORGANIZA_DRIVE.py` |
| `UrlLists` | url_lists.dfy | the one-link-per-line files: writing them and `ler_urls_do_arquivo`'s line filter |
| `Sorting` | sorting.dfy | `sorted` on a set of `str` (code-point order) |
| `VillagresLinks` | villagres_links.dfy | `botgorganizadolinkvila.py`: the three URL patterns, the crawl, the sorted output |
| `BiancogresLinks` | biancogres_links.dfy | `botbiancolink.py`: the "Ver mais" loop, the order-preserving dedup, the output |

Faithfulness notes:

- **The `$$` title pattern.** `biancogress.py:114` searches for `$$(.*?)$$`. `$` is an end anchor, so the search always succeeds at the end of the text with an empty group. The model reproduces this. Method 1 of the name chain therefore never names the product, and line 119 is never reached. `Biancogres.DollarSearchIsEmpty` and `Biancogres.TitleIsIgnored` prove it.
- **Link crawler de-duplication.** The Villagres crawler keeps no global visited set across collections. A subcollection reached from two collections is visited twice, and its products are added to the set twice, which is harmless. The model follows the code.
- **The Villagres fallback folder name.** The URL fallback at `Bot_vilagress.py:236-242` is not sanitised again. The model keeps that (`Villagres.FallbackKeepsForbidden`).

## Model

| member | source | states |
|---|---|---|
| Text.Lower | Bot_vilagress.py:108 | `str.lower()`: same length; each ASCII capital becomes lower case; uncased characters are unchanged |
| Text.Upper | ORGANIZA_DRIVE.py:11 | `str.upper()`: same length; each ASCII lower-case letter becomes upper case; uncased characters are unchanged |
| Text.Title | Bot_vilagress.py:238 | `str.title()`: same length; uncased characters unchanged; a cased character is upper-cased when the one before it is uncased (or it is first) and lower-cased otherwise |
| Text.TitleOfDehyphenated | Bot_vilagress.py:238 | `seg.replace('-', ' ').title()` character by character: each hyphen a space, other uncased characters kept, each word capitalised and the rest of it lower case |
| Text.ReplaceChar | Bot_vilagress.py:25 | `str.replace` of one character: position-wise substitution |
| Text.RemoveChars | Bot_vilagress.py:27 | `re.sub('[…]', '', s)`: no removed character is left; only characters of the input remain; never longer |
| Text.RemoveCharsKeeps | Bot_vilagress.py:27 | every character outside the class survives as often as it occurs in the input |
| Text.RemoveCharsAppend | Bot_vilagress.py:27 | removal from a concatenation is the concatenation of the removals, so the kept characters stay in order |
| Text.RemoveCharsOne | Bot_vilagress.py:27 | a single character is dropped iff it is in the class |
| Text.RemoveSpaces | Bot_vilagress.py:35 | `texto.replace(' ', '')` leaves no space |
| Text.RemoveSpacesKeeps | Bot_vilagress.py:35 | every other character survives as often as it occurs |
| Text.RemoveSpacesAppend | Bot_vilagress.py:35 | removal from a concatenation is the concatenation of the removals: the order is kept |
| Text.RemoveSpacesOne | Bot_vilagress.py:35 | a single character is dropped iff it is a space |
| Text.Strip | Bot_vilagress.py:28 | `str.strip()`: no whitespace at either end, and every character is one of the input's |
| Text.StripSlice | Bot_vilagress.py:28 | `str.strip()` is the contiguous slice of the input that starts after the leading whitespace, with only whitespace outside it |
| Text.StripLeft | Bot_vilagress.py:28 | the leading part of `strip`: a suffix of the input whose dropped prefix is all whitespace |
| Text.StripRight | Bot_vilagress.py:28 | the trailing part of `strip`: a prefix of the input whose dropped suffix is all whitespace |
| Text.StripNoop | Bot_vilagress.py:28 | stripping a string with no whitespace at its ends changes nothing |
| Text.CollapseSpaces | Bot_vilagress.py:26 | `re.sub(r'\s+', ' ', s)`: whitespace only as a plain space, never two adjacent; empty iff the input is; starts with whitespace iff the input does |
| Text.CollapseKeepsNonSpaces | Bot_vilagress.py:26 | every character that is not whitespace survives, in order |
| Text.CollapseSpacesRun | Bot_vilagress.py:26 | a non-empty run of whitespace becomes one space |
| Text.CollapseSpacesAppend | Bot_vilagress.py:26 | a concatenation that joins no two whitespace characters collapses part by part; with the two rows around it, each maximal run becomes one space and nothing else changes |
| Text.NonSpacesStrip | Bot_vilagress.py:28 | stripping loses no character that is not whitespace |
| Text.NonSpacesRemoveChars | Bot_vilagress.py:27 | removing characters and dropping whitespace commute |
| Text.NonSpacesReplaceSpace | Bot_vilagress.py:25 | replacing a line break by a space loses no other character |
| Text.CollapseSpacesNoop | Bot_vilagress.py:26 | collapsing a string whose whitespace is already single plain spaces changes nothing |
| Text.RemoveCharsNoop | Bot_vilagress.py:27 | removing characters a string does not contain changes nothing |
| Text.ContainsSub | Bot_vilagress.py:116 | Python's `p in s` holds iff `p` occurs at some position |
| Text.FirstWhere | biancogress.py:168-171 | a loop with `break`: the index of the first element satisfying the test, the test failing before it; None iff no element satisfies it |
| Text.FindIndex | biancogress.py:168-171 | the loop with `break` as a method; it returns the first satisfying index |
| Text.Mapped | Bot_vilagress.py:106-125 | a loop acting on every element: one result per element, in order, each the function of its element |
| Text.Picked | biancogress.py:230-238 | a loop acting on the elements that pass a filter: never more results than elements |
| Text.PickedOrigin | biancogress.py:230-238 | every result comes from an element that passes the filter |
| Text.PickedComplete | biancogress.py:230-238 | every element that passes the filter gives a result |
| Text.Split | Bot_vilagress.py:236 | `str.split(sep)`: at least one piece, none containing the separator |
| Text.JoinSplit | Bot_vilagress.py:236 | `sep.join(s.split(sep)) == s` |
| Text.SplitStep | Bot_vilagress.py:236 | `split(sep)` is the piece before the first separator followed by the pieces of the rest |
| Text.SplitJoin | Bot_vilagress.py:236 | splitting the join of separator-free pieces gives back the pieces |
| Text.SplitLast | biancogress.py:124 | the last piece of `split(sep)` is the text after the last separator |
| Text.RStripChar | botgorganizadolinkvila.py:42 | `u.rstrip('/')`: a prefix of the input that does not end in the character, with only that character dropped |
| Text.StripChar | Bot_vilagress.py:236 | `str.strip('/')`: the result neither starts nor ends with that character |
| Text.StripCharSlice | Bot_vilagress.py:236 | `str.strip('/')` is the contiguous slice of the input that starts after the leading run of that character, with only that character outside it |
| Text.LastPiece | biancogress.py:126 | the last piece of `split('/')`: separator-free, no longer than the input, and preceded by the separator when shorter |
| Text.LastPieceSuffix | biancogress.py:126 | the last piece is a suffix of the input |
| Text.LastPieceJoin | biancogress.py:126 | the last piece of separator-free pieces joined by the separator is the last of them |
| Text.Take | Bot_vilagress.py:245 | `s[:n]`: a prefix of the input, n characters long or the whole input when shorter |
| Text.PercentDecode | Bot_vilagress.py:228 | `urllib.parse.unquote` restricted to ASCII escapes: never longer; identity on text without `%`; an ASCII escape at the head decodes to its character, any other head character is copied |
| Text.PercentDecodePlainPrefix | Bot_vilagress.py:228 | text before the first `%` is copied and decoding goes on after it |
| Text.PercentDecodeEscape | Bot_vilagress.py:228 | an ASCII escape becomes its character and decoding goes on after it |
| Text.DecodeQuestionMark | Bot_vilagress.py:228 | `"%3F"` decodes to `"?"` |
| Text.NatToString | Bot_vilagress.py:242 | `int(time.time())` printed: a non-empty run of digits, with no leading zero, whose decimal value is the number |
| Sanitize.CleanName | Bot_vilagress.py:23-28 | no forbidden character (backslash, slash, star, question mark, colon, double quote, angle brackets, vertical bar), no whitespace at either end, every whitespace character a plain space |
| Sanitize.CleanNameKeepsText | Bot_vilagress.py:23-28 | every character that is neither forbidden nor whitespace survives, in order |
| Sanitize.CleanNameCanLeaveDoubleSpace | Bot_vilagress.py:23-28 | double spaces are possible: `"a ? b"` becomes `"a  b"` |
| Sanitize.CleanNameKeepsCleanName | biancogress.py:23-28 | a name with no forbidden character or line break, single plain spaces and stripped ends is unchanged |
| Sanitize.ForbiddenIsPlain | Bot_vilagress.py:27 | the forbidden characters are uncased, not whitespace, and not `-` |
| Formats.FindFirst | Bot_vilagress.py:34-35 | `re.search`: None iff the text has no match; otherwise the leftmost, and at that start the longest, match |
| Formats.MatchesAt | Bot_vilagress.py:34 | definition: the pattern matches exactly the span from i to j (number, `x`, number, optional or required `cm`) |
| Formats.ScanAt | Bot_vilagress.py:34 | definition: the greedy scanner at one start position |
| Formats.Search | Bot_vilagress.py:35 | definition: the left-to-right search of `re.search` |
| Formats.ScanSound | Bot_vilagress.py:34 | what the greedy scanner reports at a start position is a match of the pattern |
| Formats.ScanComplete | Bot_vilagress.py:34 | every match at a start position is found by the scanner and is no longer than it; with a required `cm` it is the scanner's match |
| Formats.ScanExact | Bot_vilagress.py:34 | at a start position the scanner finds nothing iff nothing matches there, and otherwise finds the longest match |
| Formats.SearchNone | Bot_vilagress.py:35 | a search that fails means no start position from there on has a match |
| Formats.SearchSome | Bot_vilagress.py:35 | a search that succeeds returns the leftmost-longest match |
| Formats.ExtractWith | Bot_vilagress.py:31-36 | `extrair_formato`: `""` iff the space-free text has no match, otherwise the leftmost-longest match as a substring of it |
| Formats.ExtractOfFound | Bot_vilagress.py:36 | the extracted text is the searched span of the space-free text |
| Formats.ExtractWhole | Bot_vilagress.py:31-36 | a space-free text that is one whole match is returned unchanged |
| Formats.FindWhole | Bot_vilagress.py:35 | a text that is one whole match is found as the span from its first to its last character |
| Formats.LeftmostLongestUnique | Bot_vilagress.py:35 | the search has one answer: two leftmost-longest matches coincide |
| Formats.RequiredMatchUnique | ORGANIZA_DRIVE.py:18 | with the `cm` suffix required, at most one match starts at each position |
| Formats.MatchChars | biancogress.py:34 | a match holds only digits, commas and the letters x, c, m |
| Formats.MatchNotEmpty | biancogress.py:34 | a match is at least three characters long |
| Formats.RequiredMatchEndsInCm | Bot_vilagress.py:34 | with the `cm` suffix required, a match ends in c, m (in either case under ignore-case) |
| Formats.ExtractEndsInCm | Bot_vilagress.py:31-36 | with the `cm` suffix required, a non-empty result ends in c, m |
| Formats.NoCNoRequiredMatch | Bot_vilagress.py:34 | a text without a `c` has no match when `cm` is required |
| Formats.NoCExtractsNothing | Bot_vilagress.py:31-36 | then the extractor returns `""` |
| Formats.ProbeAgreesWithExtractor | biancogress.py:191-192 | the case-sensitive page probe matches iff the ignore-case extractor pattern does |
| Formats.NumberEndIsNumber | Bot_vilagress.py:34 | the greedy number scan reads a number of the pattern |
| Formats.NumberEndCovers | Bot_vilagress.py:34 | no number starting there is longer than the greedy scan |
| Formats.NumberEndStops | Bot_vilagress.py:34 | a number followed by a character that cannot extend it is exactly what the scan reads |
| Titles.FindTitle | Bot_vilagress.py:195 | `re.search` of the title pattern: None iff no match, otherwise the leftmost-longest match |
| Titles.TitleScanSound | Bot_vilagress.py:195 | what the greedy title scanner reports is a match |
| Titles.TitleScanComplete | Bot_vilagress.py:195 | every title match at a position is found and is no longer than the scanner's |
| Titles.TitleScanExact | Bot_vilagress.py:195 | at a position the title scanner finds nothing iff nothing matches there, and otherwise the longest match |
| Titles.TitleSearchNone | Bot_vilagress.py:195 | a failed title search means no match from there on |
| Titles.TitleSearchSome | Bot_vilagress.py:195 | a successful title search returns the leftmost-longest match |
| Titles.TitleMatchShape | Bot_vilagress.py:195 | a match starts and ends with a letter, has a `-` between two whitespace characters, and holds only letters, whitespace and `-` |
| Downloads.Extension | Bot_vilagress.py:44 | `os.path.splitext(...)[1]`: `""` or a `.`-led, slash-free suffix of the path |
| Downloads.BaseName | Bot_vilagress.py:42 | definition: `os.path.basename`, the text after the last `/` |
| Downloads.JoinPath | Bot_vilagress.py:43 | definition: `os.path.join` of a folder and a name |
| Downloads.FileNameFor | Bot_vilagress.py:41-42 | definition: the given name or, when empty, the base name of the URL path |
| Downloads.IsImageName | Bot_vilagress.py:44-47 | definition: the lower-cased extension is `.jpg`, `.jpeg` or `.png` |
| Downloads.Expected | Bot_vilagress.py:39-81 | definition: the reference outcome of one call (branch, path, attempts, pauses, success) |
| Downloads.UrlExtension | Bot_vilagress.py:279 | the URL's extension or `.rar`: never empty, starts with `.` |
| Downloads.ExtensionOfSuffixed | Bot_vilagress.py:44 | a name ending in a dotted extension has that extension |
| Downloads.JpgNameIsImage | Bot_vilagress.py:47 | a name ending in `.jpg` takes the image branch |
| Downloads.PdfNameIsNotImage | biancogress.py:47 | a name ending in `.pdf` in any case does not take the image branch |
| Downloads.FirstGoodWrite | Bot_vilagress.py:63-75 | the index of the first of the three attempts that wrote a non-empty file, or 3 |
| Downloads.FailuresBefore | Bot_vilagress.py:78-80 | the pauses so far: at most the number of attempts |
| Downloads.AttemptBounds | Bot_vilagress.py:47-81 | image names take the image branch with one attempt and no pause; otherwise 1 to 3 attempts, with at most one pause per attempt |
| Downloads.StreamSucceedsIffGoodWrite | Bot_vilagress.py:63-81 | a streamed download succeeds iff one of the three attempts wrote a non-empty file, and stops at that attempt; a failure made all three |
| Downloads.EmptyWritesDoNotPause | Bot_vilagress.py:73-80 | three empty writes give three attempts, no pause, no success |
| Downloads.PersistentFailure | Bot_vilagress.py:78-81 | three exceptions give three attempts and three pauses |
| Downloads.ImageEmptyWriteCountsAsSaved | Bot_vilagress.py:47-54 | the image branch has no empty-file check |
| Downloads.ExpectedImage | Bot_vilagress.py:47-54 | the reference outcome of an image download |
| Downloads.ExpectedStream | Bot_vilagress.py:63-81 | the reference outcome of a streamed download whose first good write is at a given attempt |
| Villagres.DownloadFile | Bot_vilagress.py:39-81 | the `while` retry loop with its counter and early return gives the reference outcome |
| Biancogres.DownloadFile | biancogress.py:39-79 | the `for tentativa in range(1, 4)` retry loop gives the same reference outcome |
| VillagresSpecs.ExtractFormatShape | Bot_vilagress.py:31-36 | `""` iff no match; otherwise the leftmost-longest match of the space-free text, ending in `cm` in any case |
| VillagresSpecs.ExtractFormatKeepsWholeFormat | Bot_vilagress.py:31-36 | `"20X141,50cm"` gives `"20X141,50cm"` |
| VillagresSpecs.ExtractFormatNeedsCm | Bot_vilagress.py:31-36 | `"23,8x150"` gives `""` |
| VillagresSpecs.SpecLabel | Bot_vilagress.py:108-125 | the elif chain picks a key among produto, formato, material, superficie, referencia |
| VillagresSpecs.ChainPrecedence | Bot_vilagress.py:116-121 | a title with `produto` is a produto label whatever else it holds; one without `produto` but with `formato` is a formato label |
| VillagresSpecs.HeadingWrite | Bot_vilagress.py:108-125 | an h6 writes a spec key only |
| VillagresSpecs.HeadingWriteSome | Bot_vilagress.py:111-125 | a write needs the next span; its key is the label and its value is the stripped span text |
| VillagresSpecs.SectionWrites | Bot_vilagress.py:106-125 | one write (or none) per h6, in order |
| VillagresSpecs.LastWriteWins | Bot_vilagress.py:106-125 | filling the dict in order: a key is present iff some h6 writes it, and then holds the last write's value |
| VillagresSpecs.SectionLastWins | Bot_vilagress.py:106-125 | for the section scan: a repeated label keeps the value of its last h6 |
| VillagresSpecs.FirstLoose | Bot_vilagress.py:130-131 | `soup.find('h6', string=…)`: the first h6 whose string contains the word, none before it qualifying |
| VillagresSpecs.ScanSection | Bot_vilagress.py:99-125 | the loop over the section's h6 elements gives the declarative section dict |
| VillagresSpecs.LookupLoose | Bot_vilagress.py:130-140 | the secondary lookup of one word |
| VillagresSpecs.ExtractSpecs | Bot_vilagress.py:94-152 | the whole scraper gives the declarative page dict |
| VillagresSpecs.SectionSpecs | Bot_vilagress.py:99-125 | definition: the dict filled by the section scan |
| VillagresSpecs.LooseSpecs | Bot_vilagress.py:127-140 | definition: the secondary lookup of `produto` then `formato` |
| VillagresSpecs.PageSpecs | Bot_vilagress.py:94-152 | definition: the section dict, else the loose one, then the breadcrumb |
| VillagresSpecs.PageSpecsKeys | Bot_vilagress.py:94-152 | every key is one of the five spec keys |
| VillagresSpecs.LooseIgnoredAfterSection | Bot_vilagress.py:127-128 | once the section scan found something, the page's other h6 elements do not matter |
| VillagresSpecs.BreadcrumbOnlyFills | Bot_vilagress.py:142-150 | the breadcrumb never overwrites: it only adds `produto`, when absent |
| Villagres.ProductName | Bot_vilagress.py:184-200 | the spec's non-empty product, else the leftmost title match in the stripped title, else `""`, then sanitised |
| Villagres.PageFormat | Bot_vilagress.py:203-213 | the spec's non-empty format, else the extractor's result on the first text node where it is non-empty, else `""` |
| Villagres.IsExternal | Bot_vilagress.py:216 | definition: `externo` in the lower-cased link or page source |
| Villagres.BaseFolder | Bot_vilagress.py:219-225 | definition: `nome_base` before decoding |
| Villagres.IsUnusable | Bot_vilagress.py:234 | definition: empty, all whitespace or shorter than three characters |
| Villagres.UrlProductSegment | Bot_vilagress.py:236-238 | definition: the decoded second-to-last path segment, when there are two |
| Villagres.FallbackName | Bot_vilagress.py:234-242 | `"Produto "` followed by the URL segment with each hyphen a space and each word capitalised, the rest lower case, when the path has two segments; else followed by the clock's digits |
| Villagres.CleanedFolder | Bot_vilagress.py:219-231 | after decoding and removal the name holds no forbidden character |
| Villagres.FolderName | Bot_vilagress.py:219-245 | length between 3 and 150; the cleaned name cut to 150, with no forbidden character, unless it is unusable; then the cut fallback |
| Villagres.ComposeFolderName | Bot_vilagress.py:216-245 | the successive reassignments of `nome_base` give the folder name, with `" - Externo"` iff `externo` occurs in the lower-cased URL or page source |
| Villagres.FallbackKeepsForbidden | Bot_vilagress.py:236-239 | a forbidden character decoded from the URL segment reaches the folder name |
| Villagres.AssetFileName | Bot_vilagress.py:272-285 | a name exactly for the download types, extending `nome_base` |
| Villagres.PictureAssetName | Bot_vilagress.py:285 | 'paginação' and 'ambiente' assets are `nome_base_<type>.jpg` |
| Villagres.PictureAssetsAreImages | Bot_vilagress.py:285 | so they take the image branch |
| Villagres.SketchupAssetName | Bot_vilagress.py:279-281 | the SketchUp block is `nome_base - BLOCO DE SKETCHUP` plus the URL's extension or `.rar` |
| Villagres.CleanPaginacao | Bot_vilagress.py:283-285 | sanitising `paginação` changes nothing |
| Villagres.CleanAmbiente | Bot_vilagress.py:283-285 | sanitising `ambiente` changes nothing |
| Biancogres.ExtractFormatBareSize | biancogress.py:31-36 | `cm` is optional: `"23,8x150"` gives `"23,8x150"` |
| Biancogres.ExtractFormatWithCm | biancogress.py:31-36 | `"80,5X140cm"` gives `"80,5X140cm"` |
| Biancogres.UrlSegment | biancogress.py:124 | the last segment of the stripped path is the text after its last `/` |
| Biancogres.UrlName | biancogress.py:121-126 | definition: method 2 of the name chain |
| Biancogres.UrlNameChars | biancogress.py:124-126 | the URL name character by character: each hyphen a space, other uncased characters kept, each word capitalised and the rest lower case |
| Biancogres.RawProductName | biancogress.py:106-134 | definition: the three methods, each tried only when the ones before gave `""` |
| Biancogres.ProductNameOf | biancogress.py:106-141 | definition: the chain sanitised, or the placeholder |
| Biancogres.DollarSearchIsEmpty | biancogress.py:114 | `re.search(r"$$(.*?)$$", t)` always succeeds with an empty group |
| Biancogres.ProductName | biancogress.py:106-141 | the three-method chain, sanitised, with the placeholder when empty |
| Biancogres.TitleIsIgnored | biancogress.py:109-119 | the page title never affects the name |
| Biancogres.UrlNameDecides | biancogress.py:121-141 | a non-empty URL name decides, even when it sanitises to nothing (then the placeholder) |
| Biancogres.ProductNameIsClean | biancogress.py:137-141 | the name is never empty, has no forbidden character and no whitespace at its ends |
| Biancogres.UnknownProductIsClean | biancogress.py:141 | the placeholder `"Produto Desconhecido"` is a clean name |
| Biancogres.ItemLabel | biancogress.py:150-153 | definition: the stripped, lower-cased label of an item with both spans |
| Biancogres.FinishOf | biancogress.py:147-156 | no forbidden character; `""` when no item is labelled exactly `acabamento` |
| Biancogres.Finish | biancogress.py:147-156 | the loop with `break` gives that finish |
| Biancogres.FirstFinishDecides | biancogress.py:149-156 | the first `acabamento` item decides, even when its value sanitises to `""` |
| Biancogres.ButtonFormat | biancogress.py:164-175 | definition: the active button's text, else the first button's |
| Biancogres.ItemFormat | biancogress.py:177-186 | definition: the value of the first item labelled as a size |
| Biancogres.TextFormat | biancogress.py:188-193 | definition: the extraction from the first text node the probe matches |
| Biancogres.FormatOf | biancogress.py:161-193 | definition: the first non-empty of the three |
| Biancogres.PageFormat | biancogress.py:162-193 | the four-step format chain |
| Biancogres.FormatPrecedence | biancogress.py:164-189 | a non-empty button text wins over the items, which win over the page text (an unfolding of FormatOf) |
| Biancogres.FirstButtonFallback | biancogress.py:173-175 | with no active button, the first button's text is the format |
| Biancogres.TextFormatFound | biancogress.py:189-193 | the page scan gives `""` iff no text node holds a size |
| Biancogres.FolderNameOf | biancogress.py:200-208 | starts with the product and ends with `。` |
| Biancogres.ComposeFolderName | biancogress.py:202-208 | the successive reassignments give `produto [- acabamento] [ formato]。` |
| Biancogres.FormatIsNotSanitised | biancogress.py:205-206 | a `/` in the format reaches the folder name |
| Biancogres.IsTechnicalLink | biancogress.py:233 | definition: the filter of the technical downloads |
| Biancogres.DownloadName | biancogress.py:235 | the non-empty download attribute, else the base name of the href's path |
| Biancogres.PdfFileName | biancogress.py:235-237 | starts with that name; it is kept when it already ends in `.pdf` in any case, and gets `.pdf` appended otherwise |
| Biancogres.TechnicalLinkDownloaded | biancogress.py:230-238 | every link that passes the filter is downloaded under its PDF name |
| Biancogres.TechnicalDownloadsStreamed | biancogress.py:230-245 | every technical download takes the streamed, retried branch under its own name |
| Biancogres.PdfNameKept | biancogress.py:236-237 | a name already ending in `.PDF` is kept |
| Biancogres.PdfIsNotImage | biancogress.py:235-238 | technical downloads never take the image branch |
| Biancogres.ExtraAssetName | biancogress.py:253-256 | a name exactly for the download types: `nome_base_<type with _ for spaces>` plus the URL extension or `.rar` |
| Biancogres.ExtraTypeHasNoSpace | biancogress.py:256 | the type part holds no space |
| Organizer.FoldChar | ORGANIZA_DRIVE.py:10 | the NFKD + ASCII fold of one character: ASCII output, ASCII kept |
| Organizer.Fold | ORGANIZA_DRIVE.py:10 | the fold of a string is ASCII |
| Organizer.FoldAscii | ORGANIZA_DRIVE.py:10 | folding ASCII text changes nothing |
| Organizer.Prepared | ORGANIZA_DRIVE.py:10-11 | after folding, upper-casing and replacing `-`, `_`: ASCII, no lower case, no `-` or `_` |
| Organizer.Normalize | ORGANIZA_DRIVE.py:9-12 | `normalizar`: ASCII, no lower-case letter, no `-` or `_`, whitespace only as single spaces, none at either end |
| Organizer.NormalizeNoop | ORGANIZA_DRIVE.py:9-12 | a normal name is unchanged |
| Organizer.NormalizeIdempotent | ORGANIZA_DRIVE.py:9-12 | `normalizar(normalizar(x)) == normalizar(x)` |
| Organizer.StripOfCollapsed | ORGANIZA_DRIVE.py:12 | stripping text whose whitespace is single spaces leaves it so |
| Organizer.UpperMatch | ORGANIZA_DRIVE.py:17-27 | one phase: `""` iff no match, otherwise an upper-case token with an `X` and no space |
| Organizer.FormatOf | ORGANIZA_DRIVE.py:15-29 | `SEM_FORMATO` or such a token; `SEM_FORMATO` iff neither pattern matches |
| Organizer.CmTakesPrecedence | ORGANIZA_DRIVE.py:18-21 | a `CM` match anywhere decides, upper-cased |
| Organizer.BareFallback | ORGANIZA_DRIVE.py:23-27 | without a `CM` match, the bare match decides, upper-cased |
| Organizer.FormatIsUpperCased | ORGANIZA_DRIVE.py:21 | `"20x20cm"` gives `"20X20CM"` |
| Organizer.NoFormatIsNoToken | ORGANIZA_DRIVE.py:29 | `SEM_FORMATO` cannot be confused with a format token |
| Organizer.AnyKeyword | ORGANIZA_DRIVE.py:92-95 | the inner keyword loop: found iff some keyword is a substring |
| Organizer.FirstCategory | ORGANIZA_DRIVE.py:90-97 | None iff no category has a keyword in the name; otherwise the first such category of the table |
| Organizer.ScanCategories | ORGANIZA_DRIVE.py:90-97 | the nested loops with `break` give the first category |
| Organizer.DetectCategory | ORGANIZA_DRIVE.py:32-39 | over the table `CATEGORIAS` in declaration order |
| Organizer.ExternoIffExt | ORGANIZA_DRIVE.py:32-33 | the category is EXTERNO iff the name contains `EXT` |
| Organizer.TexturaIsExterno | ORGANIZA_DRIVE.py:33 | `"PISO TEXTURA"` is EXTERNO |
| Organizer.NoCategoryIffNoKeyword | ORGANIZA_DRIVE.py:90-99 | no category iff no keyword of any category occurs |
| Organizer.DestPath | ORGANIZA_DRIVE.py:109 | four components, vendor first, the original unstripped name last |
| Organizer.AlreadyOrganisedNeverHolds | ORGANIZA_DRIVE.py:114-116 | the "already organised" comparison never holds for an entry of the root |
| Organizer.VendorOf | ORGANIZA_DRIVE.py:80-83 | BIANCOGRES iff the name ends with `。` |
| Organizer.BiancogresFoldersRouted | ORGANIZA_DRIVE.py:80-83 | every folder name built at biancogress.py:208 is routed to BIANCOGRES |
| Organizer.Verdicts | ORGANIZA_DRIVE.py:70-109 | one verdict per listing entry |
| Organizer.VerdictsAt | ORGANIZA_DRIVE.py:70-109 | the verdict at each position is that entry's own |
| Organizer.Classify | ORGANIZA_DRIVE.py:72-109 | the per-entry decisions (skip, vendor, strip, normalise, category, format) give the verdict |
| Organizer.ClassifyAt | ORGANIZA_DRIVE.py:70-109 | the verdict of the entry at a listing position |
| Organizer.CategorisedDest | ORGANIZA_DRIVE.py:72-109 | a categorised entry is a counted directory whose destination sits under a vendor root and ends in its own name |
| Organizer.IsSkipped | ORGANIZA_DRIVE.py:72-75 | definition: not a directory, or one of the two vendor roots |
| Organizer.Plan | ORGANIZA_DRIVE.py:79-109 | definition: vendor, category and format of a counted directory, or None |
| Organizer.VerdictOf | ORGANIZA_DRIVE.py:72-116 | definition: skipped, uncategorised or categorised with its destination |
| Organizer.Tally | ORGANIZA_DRIVE.py:63-124 | definition: the counters and the format set after n entries |
| Organizer.Kept | ORGANIZA_DRIVE.py:69-124 | definition: the root's entries after n entries, without those moved |
| Organizer.Filed | ORGANIZA_DRIVE.py:118-122 | definition: the destinations of the successful moves among n entries |
| Organizer.Drive.constructor | ORGANIZA_DRIVE.py:70 | the root's listing, with nothing filed or created |
| Organizer.Drive.FileEntry | ORGANIZA_DRIVE.py:72-124 | one pass of the loop keeps the counters, the root's listing, the filed folders and the created format directories in step with the reference |
| Organizer.Drive.OrganizeItems | ORGANIZA_DRIVE.py:59-133 | the statistics are the tally of the verdicts; the root keeps exactly the entries not moved; moved folders are filed; format directories are created for every categorised folder |
| Organizer.TallyBounds | ORGANIZA_DRIVE.py:63-124 | organised + uncategorised ≤ total ≤ entries |
| Organizer.FormatsOfCategorised | ORGANIZA_DRIVE.py:105-106 | the format set holds exactly the formats of categorised folders |
| Organizer.NotMovedStays | ORGANIZA_DRIVE.py:119-124 | an entry that is not moved stays in the root |
| Organizer.UncategorisedStays | ORGANIZA_DRIVE.py:99-102 | an uncategorised folder stays in the root |
| Organizer.MovedIsFiled | ORGANIZA_DRIVE.py:119-122 | a moved entry is filed at its destination |
| Organizer.FiledFromMoved | ORGANIZA_DRIVE.py:119-122 | every filed folder comes from a successful move |
| Organizer.FiledUnderRoots | ORGANIZA_DRIVE.py:72-122 | every filed folder sits under BIANCOGRES or VILLAGRES and comes from a counted directory, which a second run skips |
| Organizer.OrganisedCountsFiled | ORGANIZA_DRIVE.py:119-122 | with distinct destinations, the organised count is the number of filed folders |
| Organizer.DistinctDests | ORGANIZA_DRIVE.py:109 | entries with distinct names get distinct destinations |
| UrlLists.ReadLines | Bot_vilagress.py:305 | `readlines()`: the lines concatenate to the text; none is empty; each ends at its first line break |
| UrlLists.UrlsOf | Bot_vilagress.py:305-306 | the stripped lines kept are non-blank, not comments and stripped |
| UrlLists.ReadUrls | Bot_vilagress.py:303-306 | every URL read is stripped, non-empty and not a comment |
| UrlLists.Serialize | botgorganizadolinkvila.py:87-89 | each link followed by `\n` |
| UrlLists.WriteLines | botbiancolink.py:37-39 | the write loop produces that text |
| UrlLists.ReadSerialized | Bot_vilagress.py:305-306 | reading a written file of single-line, stripped, non-comment links returns exactly those links |
| Sorting.LexIrreflexive | botgorganizadolinkvila.py:46 | no string is below itself in `str` order |
| Sorting.LexTransitive | botgorganizadolinkvila.py:46 | `str` order is transitive |
| Sorting.LexTotal | botgorganizadolinkvila.py:46 | any two distinct strings are ordered |
| Sorting.HasLeast | botgorganizadolinkvila.py:46 | a non-empty set has a least element |
| Sorting.Sorted | botgorganizadolinkvila.py:46 | `sorted(s)` has exactly the elements of `s`, each once |
| Sorting.SortedAscending | botgorganizadolinkvila.py:88 | `sorted(s)` is strictly ascending |
| Sorting.AscendingUnique | botgorganizadolinkvila.py:88 | two ascending sequences with the same elements are equal |
| Sorting.Least | botgorganizadolinkvila.py:46 | the loop finds the least element |
| Sorting.SortSet | botgorganizadolinkvila.py:46 | the selection loop computes `sorted(s)` |
| VillagresLinks.LevelsAreDisjoint | botgorganizadolinkvila.py:18-22 | the three patterns exclude each other and none matches the base URL |
| VillagresLinks.SubcollectionShape | botgorganizadolinkvila.py:20 | a subcollection URL is the prefix and exactly two non-empty segments |
| VillagresLinks.ProductShape | botgorganizadolinkvila.py:22 | a product URL is the prefix and three segments, the last alphanumeric |
| VillagresLinks.ProductCode | botgorganizadolinkvila.py:22 | a product link's last segment is ASCII letters and digits only |
| VillagresLinks.ProductRoundTrips | botgorganizadolinkvila.py:22 | a product link survives the link file's line filter |
| VillagresLinks.Level | botgorganizadolinkvila.py:42 | a level's set holds only stripped matching URLs, none ending in `/`, and every such URL of the page |
| VillagresLinks.LevelOrigin | botgorganizadolinkvila.py:42 | each member comes from a link of the page |
| VillagresLinks.Reachable | botgorganizadolinkvila.py:25-82 | the products of the subcollections of the collections |
| VillagresLinks.FromSubsMembers | botgorganizadolinkvila.py:66-82 | the links after a subcollection loop are those of the visited subcollections |
| VillagresLinks.FromCollectionsSound | botgorganizadolinkvila.py:46-82 | every link gathered comes from a visited collection |
| VillagresLinks.FromCollectionsComplete | botgorganizadolinkvila.py:46-82 | every product of a visited collection is gathered |
| VillagresLinks.VisitAnyOrder | botgorganizadolinkvila.py:46-82 | any visit order of the collections gathers the reachable products |
| VillagresLinks.VisitFindsReachable | botgorganizadolinkvila.py:46-82 | the sorted visit gathers exactly the reachable products |
| VillagresLinks.VisitSubcollections | botgorganizadolinkvila.py:66-84 | the inner loop adds the products of each subcollection, in order; `all_links` only grows |
| VillagresLinks.DiscoverLinks | botgorganizadolinkvila.py:46-84 | the nested loops gather the reachable products, visiting collections and subcollections in sorted order |
| VillagresLinks.CollectionsVisitedInOrder | botgorganizadolinkvila.py:46 | the collections are visited in the given order, each once |
| VillagresLinks.SortedVisitedInOrder | botgorganizadolinkvila.py:46 | collections are visited in ascending order |
| VillagresLinks.CollectionsVisitedOnce | botgorganizadolinkvila.py:46 | for the crawl, each collection is visited once, in ascending order |
| VillagresLinks.SubcollectionsAreNotCollections | botgorganizadolinkvila.py:60 | no subcollection is also a collection |
| VillagresLinks.AllLinksAreProducts | botgorganizadolinkvila.py:80-82 | every gathered link is a product URL not ending in `/`, taken from some page |
| VillagresLinks.CollectLinks | botgorganizadolinkvila.py:24-89 | the crawl writes the sorted gathered links, one per line |
| VillagresLinks.LinksFileRoundTrip | botgorganizadolinkvila.py:87-89 | reading the written file back with the line filter gives exactly the sorted links |
| VillagresLinks.SortedRoundTrip | botgorganizadolinkvila.py:87-89 | a set of links that each survive the line filter is written sorted and read back intact |
| VillagresLinks.LinkRoundTrips | botgorganizadolinkvila.py:80-89 | each gathered link survives the line filter |
| BiancogresLinks.Position | botbiancolink.py:34 | index of the first occurrence |
| BiancogresLinks.FromKeys | botbiancolink.py:34 | `dict.fromkeys` keys: no duplicates, exactly the elements of the input |
| BiancogresLinks.FromKeysOrder | botbiancolink.py:34 | the keys come in order of first occurrence |
| BiancogresLinks.NonEmpty | botbiancolink.py:34 | dropping empty strings keeps exactly the non-empty elements |
| BiancogresLinks.NonEmptyPairwise | botbiancolink.py:34 | the filter keeps order |
| BiancogresLinks.Unique | botbiancolink.py:34 | every non-empty href, and only those |
| BiancogresLinks.UniqueOrder | botbiancolink.py:34 | no duplicates, and first-occurrence order |
| BiancogresLinks.UniqueIdempotent | botbiancolink.py:34 | de-duplicating again changes nothing |
| BiancogresLinks.ClickMore | botbiancolink.py:17-28 | the loop exits through the exception: the clicks are the leading run of successful rounds |
| BiancogresLinks.CollectLinks | botbiancolink.py:17-39 | click, de-duplicate, write one link per line in first-occurrence order |
| BiancogresLinks.LinksFileRoundTrip | botbiancolink.py:34-39 | reading the file back gives the de-duplicated links when each is a stripped single line not starting with `#` |

## Left out

- Browser automation, HTTP and the filesystem are not modelled: Selenium, Playwright, requests, `urlretrieve`, `os.makedirs`, `os.listdir` and `shutil.move`. Page contents are input records. A fetch is an outcome oracle. A move is a success oracle.
- `print` output, screenshots, sleeps and timing are left out. The clock is a parameter, `now`.
- Entry points are left out: the `__main__` blocks, the asyncio `main` plumbing, the directory creation at import time in `ORGANIZA_DRIVE.py`, and the example-file creation and missing-file path of `ler_urls_do_arquivo`.
- The model does not compute `urlparse(...).path`, `urljoin` or the BeautifulSoup queries (`find_next`, `stripped_strings`, `select`). Their results are inputs.
- Organizer.FoldChar: Latin-1 folds as NFKD plus ASCII-ignore does (accented letters to their base letter, `¹²³` to digits, `¼½¾` to two digits, `ª`/`º` to `a`/`o`, NBSP, `¨`, `¯`, `´`, `¸` to a space). Characters beyond Latin-1 that NFKD folds to ASCII (`Ā`, `ﬁ`, full-width forms) are dropped.
- Text.Lower, Text.Upper and Text.Title: the case tables cover ASCII and the Latin-1 letters `À`-`Þ` and `ß`-`ÿ` only. `ß` keeps its case under upper-casing. `µ`, `ª` and `º` are treated as uncased, where Python treats them as cased: `'µ'.upper()` is `'Μ'` but Upper keeps `µ`, and `"ªb".title()` is `"ªb"` but Title gives `"ªB"`. Characters of other scripts are uncased.
- Formats.FindFirst: `\d` is taken as ASCII `0-9`, and `$` only as the end of the text, not before a final line break. Inputs are assumed to hold no line break.
- Text.PercentDecode: only `%XX` escapes of ASCII characters are decoded. UTF-8 sequences are left as they are.
- BiancogresLinks.ClickMore: the loop has no cap, so it requires that some round eventually fails. Without that it need not terminate.
- Organizer.Drive.OrganizeItems: a move onto an existing destination succeeds or fails at the oracle's choice. The merge `shutil.move` performs into an existing directory is not modelled.
- Downloads.JoinPath and Downloads.BaseName (and through BaseName, Downloads.Extension) follow POSIX path rules. On Windows, where the folder names are meant to be used, `ntpath` also splits on `\`, and that is not modelled.
- UrlLists.ReadLines splits only at `\n`. Text-mode `readlines` also ends a line at a lone `\r`, and that is not modelled.
- Downloads.ImageEmptyWriteCountsAsSaved: `saved` for the image branch means "no exception". The script only prints; it returns nothing.
