/** biancogress.py: the format extractor, the product-name, finish and
    format chains of baixar_dados, the folder name, the technical and extra
    download names, and the downloader.  The page is given as the records
    the script reads from it. */
module Biancogres {
  import opened Text
  import opened Sanitize
  import opened Formats
  import opened Downloads

  // ---------------------------------------------------------------------
  // extrair_formato

  /** (\d+(?:,\d+)?[Xx]\d+(?:,\d+)?(?:cm)?) with re.IGNORECASE, searched in
      the text with its spaces removed. */
  function ExtractFormat(texto: string): string {
    ExtractWith(BiancogresPattern, texto)
  }

  /** The cm suffix is optional: a bare size is a format. */
  lemma ExtractFormatBareSize()
    ensures ExtractFormat("23,8x150") == "23,8x150"
  {
    var t := "23,8x150";
    assert ' ' !in t;
    assert NumberIn(false, t, 0, 4);
    assert NumberIn(false, t, 5, 8);
    assert SplitsAt(BiancogresPattern, t, 0, 4, 8, 8);
    ExtractWhole(BiancogresPattern, t);
  }

  lemma ExtractFormatWithCm()
    ensures ExtractFormat("80,5X140cm") == "80,5X140cm"
  {
    var t := "80,5X140cm";
    assert ' ' !in t;
    assert NumberIn(false, t, 0, 4);
    assert NumberIn(false, t, 5, 8);
    assert SplitsAt(BiancogresPattern, t, 0, 4, 8, 10);
    ExtractWhole(BiancogresPattern, t);
  }

  // ---------------------------------------------------------------------
  // Method 1 of the name chain: re.search(r"$$(.*?)$$", texto_titulo)

  /** `$` matches at q: the end of the text (inputs hold no line break). */
  predicate DollarAt(t: string, q: nat) {
    q == |t|
  }

  /** (.*?)$ from p: the shortest group t[p..q] after which `$` matches;
      `.` does not cross a line break. */
  function LazyGroup(t: string, p: nat, q: nat): Option<string>
    requires p <= q <= |t|
    decreases |t| - q
  {
    if DollarAt(t, q) then Some(t[p..q])
    else if t[q] != '\n' then LazyGroup(t, p, q + 1)
    else None
  }

  /** The whole pattern tried at p: `$`, then `$(.*?)$`, which after the
      first `$` is `(.*?)$` at the same place. */
  function DollarMatchAt(t: string, p: nat): Option<string>
    requires p <= |t|
  {
    if DollarAt(t, p) then LazyGroup(t, p, p) else None
  }

  /** re.search: group(1) of the match at the first start position that
      matches. */
  function DollarSearch(t: string, from: nat): Option<string>
    requires from <= |t|
    decreases |t| - from
  {
    match DollarMatchAt(t, from)
    case Some(g) => Some(g)
    case None => if from < |t| then DollarSearch(t, from + 1) else None
  }

  /** The pattern is anchored at both ends of an empty group: the search
      always succeeds, at the end of the text, with an empty group.  So
      method 1 always yields "" and its else branch is never taken. */
  lemma {:induction false} DollarSearchIsEmpty(t: string, from: nat)
    requires from <= |t|
    ensures DollarSearch(t, from) == Some("")
    decreases |t| - from
  {
    if from < |t| {
      DollarSearchIsEmpty(t, from + 1);
    } else {
      assert t[from..from] == "";
    }
  }

  // ---------------------------------------------------------------------
  // baixar_dados: the product name

  /** Method 1: group(1) of the search in the title's text, or the whole
      text when there is no match; "" when the page has no title. */
  function TitleName(title: Option<string>): string {
    if title.None? then ""
    else
      var m := DollarSearch(title.value, 0);
      if m.Some? then m.value else title.value
  }

  /** Method 2: the title-cased, de-hyphenated last segment of the stripped
      URL path (split always yields at least one segment). */
  function UrlName(urlPath: string): string {
    Title(ReplaceChar(UrlSegment(urlPath), '-', ' '))
  }

  /** `urlparse(link).path.strip('/').split('/')[-1]` */
  function UrlSegment(urlPath: string): (seg: string)
    ensures seg == LastPiece(StripChar(urlPath, '/'), '/')
  {
    var segs := Split(StripChar(urlPath, '/'), '/');
    SplitLast(StripChar(urlPath, '/'), '/');
    segs[|segs| - 1]
  }

  /** The URL name character by character: the segment is the text after
      the last '/' of the stripped path; each hyphen becomes a space, other
      uncased characters stay, and each word starts with a capital, the rest
      of it lower case. */
  lemma UrlNameChars(urlPath: string)
    ensures IsDehyphenTitled(LastPiece(StripChar(urlPath, '/'), '/'), UrlName(urlPath))
  {
    TitleOfDehyphenated(UrlSegment(urlPath));
  }

  predicate IsNonBlank(s: string) {
    Strip(s) != []
  }

  /** Method 3: the stripped text of the first non-blank .product-name,
      .product-title or h1 element. */
  function ElementName(elems: seq<string>): string {
    var i := FirstWhere(elems, IsNonBlank);
    if i.Some? then Strip(elems[i.value]) else ""
  }

  /** The chain before sanitising: each method is tried only when the ones
      before it gave "". */
  function RawProductName(title: Option<string>, urlPath: string, elems: seq<string>): string {
    var m1 := TitleName(title);
    if m1 != [] then m1
    else
      var m2 := UrlName(urlPath);
      if m2 != [] then m2 else ElementName(elems)
  }

  const UnknownProduct := "Produto Desconhecido"

  function ProductNameOf(title: Option<string>, urlPath: string, elems: seq<string>): string {
    var c := CleanName(RawProductName(title, urlPath, elems));
    if c == [] then UnknownProduct else c
  }

  /** The product name chain. */
  method ProductName(title: Option<string>, urlPath: string, elems: seq<string>) returns (nome: string)
    ensures nome == ProductNameOf(title, urlPath, elems)
  {
    nome := "";
    if title.Some? {
      var m := DollarSearch(title.value, 0);
      if m.Some? {
        nome := m.value;
      } else {
        nome := title.value;
      }
    }
    assert nome == TitleName(title);
    if nome == [] {
      // split always yields a segment, so `if url_path` always passes
      nome := UrlName(urlPath);
    }
    if nome == [] {
      var i := FindIndex(elems, IsNonBlank);
      nome := if i.Some? then Strip(elems[i.value]) else "";
    }
    assert nome == RawProductName(title, urlPath, elems);
    nome := CleanName(nome);
    if nome == [] {
      nome := UnknownProduct;
    }
  }

  /** The page title never decides the name: method 1 always yields "". */
  lemma TitleIsIgnored(title: Option<string>, urlPath: string, elems: seq<string>)
    ensures ProductNameOf(title, urlPath, elems) == ProductNameOf(None, urlPath, elems)
  {
    if title.Some? { DollarSearchIsEmpty(title.value, 0); }
  }

  lemma UnknownProductIsClean()
    ensures forall i :: 0 <= i < |UnknownProduct| ==> UnknownProduct[i] !in Forbidden
    ensures !IsSpace(UnknownProduct[0]) && !IsSpace(UnknownProduct[|UnknownProduct| - 1])
  {
    var n := UnknownProduct;
    forall i | 0 <= i < |n| ensures n[i] !in Forbidden {
      assert n[i] == 'P' || IsAsciiLower(n[i]) || n[i] == ' ' || n[i] == 'D';
    }
  }

  /** The name is never empty and is a sanitised name: no forbidden
      character, no whitespace at either end. */
  lemma ProductNameIsClean(title: Option<string>, urlPath: string, elems: seq<string>)
    ensures var n := ProductNameOf(title, urlPath, elems);
      && n != []
      && (forall i :: 0 <= i < |n| ==> n[i] !in Forbidden)
      && !IsSpace(n[0]) && !IsSpace(n[|n| - 1])
  {
    UnknownProductIsClean();
  }

  /** A URL name decides even when it sanitises to nothing: the page
      elements are then not consulted and the name is the placeholder. */
  lemma UrlNameDecides(title: Option<string>, urlPath: string, elems: seq<string>)
    requires UrlName(urlPath) != []
    ensures var c := CleanName(UrlName(urlPath));
      ProductNameOf(title, urlPath, elems) == if c == [] then UnknownProduct else c
  {
    TitleIsIgnored(title, urlPath, elems);
  }

  // ---------------------------------------------------------------------
  // baixar_dados: the finish (acabamento)

  /** An li of the active technical-information section: the text directly
      inside its name span (None when there is no such span) and the text
      of its value span (None when there is none). */
  datatype TechItem = TechItem(name: Option<string>, value: Option<string>)

  /** The item's label: its name text stripped and lower-cased, when it has
      both spans. */
  function ItemLabel(item: TechItem): Option<string> {
    if item.name.Some? && item.value.Some? then Some(Lower(Strip(item.name.value))) else None
  }

  predicate IsFinishItem(item: TechItem) {
    ItemLabel(item) == Some("acabamento")
  }

  /** The sanitised value of the first item labelled exactly "acabamento",
      or "" when there is none. */
  function FinishOf(items: seq<TechItem>): (r: string)
    ensures forall i :: 0 <= i < |r| ==> r[i] !in Forbidden
    ensures (forall j :: 0 <= j < |items| ==> !IsFinishItem(items[j])) ==> r == ""
  {
    var i := FirstWhere(items, IsFinishItem);
    if i.Some? then CleanName(items[i.value].value.value) else ""
  }

  method Finish(items: seq<TechItem>) returns (acabamento: string)
    ensures acabamento == FinishOf(items)
  {
    var i := FindIndex(items, IsFinishItem);
    acabamento := if i.Some? then CleanName(items[i.value].value.value) else "";
  }

  /** The first finish item decides, even when its value sanitises to "";
      items without both spans are skipped. */
  lemma FirstFinishDecides(items: seq<TechItem>, k: nat)
    requires k < |items| && IsFinishItem(items[k])
    requires forall j :: 0 <= j < k ==> !IsFinishItem(items[j])
    ensures FinishOf(items) == CleanName(items[k].value.value)
  {
    FirstWhereAt(items, IsFinishItem, k);
  }

  // ---------------------------------------------------------------------
  // baixar_dados: the format chain

  /** A label.product__sizes__button: whether its class list holds
      "active", and its stripped text. */
  datatype SizeButton = SizeButton(active: bool, text: string)

  predicate IsActive(b: SizeButton) {
    b.active
  }

  predicate IsSizeLabel(l: string) {
    l == "formato" || l == "tamanho" || l == "dimensão" || l == "dimensao"
  }

  predicate IsSizeItem(item: TechItem) {
    ItemLabel(item).Some? && IsSizeLabel(ItemLabel(item).value)
  }

  /** The page scan's test: the pattern without re.IGNORECASE matches the
      text with its spaces removed. */
  predicate ProbeMatches(text: string) {
    FindFirst(BiancogresProbePattern, RemoveSpaces(text)).Some?
  }

  /** Steps 1 and 2: the active button's text, else the first button's. */
  function ButtonFormat(buttons: seq<SizeButton>): string {
    var i := FirstWhere(buttons, IsActive);
    var active := if i.Some? then buttons[i.value].text else "";
    if active == [] && buttons != [] then buttons[0].text else active
  }

  /** Step 3: the value of the first item labelled as a size. */
  function ItemFormat(items: seq<TechItem>): string {
    var i := FirstWhere(items, IsSizeItem);
    if i.Some? then items[i.value].value.value else ""
  }

  /** Step 4: the extractor on the first text the probe matches. */
  function TextFormat(texts: seq<string>): string {
    var i := FirstWhere(texts, ProbeMatches);
    if i.Some? then ExtractFormat(texts[i.value]) else ""
  }

  function FormatOf(buttons: seq<SizeButton>, items: seq<TechItem>, texts: seq<string>): string {
    var f := ButtonFormat(buttons);
    if f != [] then f
    else
      var g := ItemFormat(items);
      if g != [] then g else TextFormat(texts)
  }

  method PageFormat(buttons: seq<SizeButton>, items: seq<TechItem>, texts: seq<string>) returns (formato: string)
    ensures formato == FormatOf(buttons, items, texts)
  {
    formato := "";
    if buttons != [] {
      var k := 0;
      while k < |buttons|
        invariant 0 <= k <= |buttons|
        invariant forall j :: 0 <= j < k ==> !IsActive(buttons[j])
      {
        if buttons[k].active {
          formato := buttons[k].text;
          break;
        }
        k := k + 1;
      }
      FirstWhereAt(buttons, IsActive, k);
      if formato == [] && buttons != [] {
        formato := buttons[0].text;
      }
    }
    assert formato == ButtonFormat(buttons);
    if formato == [] {
      var i := FindIndex(items, IsSizeItem);
      formato := if i.Some? then items[i.value].value.value else "";
    }
    if formato == [] {
      var i := FindIndex(texts, ProbeMatches);
      formato := if i.Some? then ExtractFormat(texts[i.value]) else "";
    }
  }

  /** Precedence: a non-empty button text wins over the technical items,
      and those over the page text.  This only unfolds FormatOf's chain of
      fallbacks; it records the order the script tries them in. */
  lemma FormatPrecedence(buttons: seq<SizeButton>, items: seq<TechItem>, texts: seq<string>)
    ensures ButtonFormat(buttons) != [] ==> FormatOf(buttons, items, texts) == ButtonFormat(buttons)
    ensures ButtonFormat(buttons) == [] && ItemFormat(items) != [] ==> FormatOf(buttons, items, texts) == ItemFormat(items)
    ensures buttons == [] && items == [] ==> FormatOf(buttons, items, texts) == TextFormat(texts)
  {
  }

  /** Without an active button the first button's text is the format. */
  lemma FirstButtonFallback(buttons: seq<SizeButton>)
    requires buttons != []
    requires forall j :: 0 <= j < |buttons| ==> !buttons[j].active
    ensures ButtonFormat(buttons) == buttons[0].text
  {
    FirstWhereAt(buttons, IsActive, |buttons|);
  }

  /** The page scan never comes back empty-handed after a probe match: the
      case-sensitive probe matches exactly when the extractor finds a
      format, so step 4 gives "" only when no text holds a size. */
  lemma TextFormatFound(texts: seq<string>)
    ensures TextFormat(texts) == [] <==> forall j :: 0 <= j < |texts| ==> ExtractFormat(texts[j]) == []
  {
    forall j | 0 <= j < |texts|
      ensures ProbeMatches(texts[j]) <==> ExtractFormat(texts[j]) != []
    {
      ProbeAgreesWithExtractor(RemoveSpaces(texts[j]));
    }
  }

  // ---------------------------------------------------------------------
  // baixar_dados: the folder name

  /** The ideographic full stop that ends every folder name (Windows drops
      a trailing "."). */
  const FullStop: char := '。'

  /** "Produto - Acabamento Formato。", built by successive reassignment. */
  function FolderNameOf(produto: string, acabamento: string, formato: string): (r: string)
    ensures r != [] && r[|r| - 1] == FullStop
    ensures StartsWith(r, produto)
  {
    var r := produto + (if acabamento != [] then " - " + acabamento else "") + (if formato != [] then " " + formato else "") + [FullStop];
    assert r[..|produto|] == produto;
    r
  }

  method ComposeFolderName(produto: string, acabamento: string, formato: string) returns (nomeBase: string)
    ensures nomeBase == FolderNameOf(produto, acabamento, formato)
  {
    nomeBase := produto;
    if acabamento != [] {
      nomeBase := nomeBase + " - " + acabamento;
    }
    if formato != [] {
      nomeBase := nomeBase + " " + formato;
    }
    nomeBase := nomeBase + [FullStop];
  }

  /** The format part is not sanitised: a format taken from a button may
      bring a forbidden character into the folder name. */
  lemma FormatIsNotSanitised()
    ensures '/' in FolderNameOf("A", "", "1/2")
  {
    var r := FolderNameOf("A", "", "1/2");
    assert r == "A 1/2" + [FullStop];
    assert r[3] == '/';
  }

  // ---------------------------------------------------------------------
  // baixar_dados: download file names

  /** The link filter of the technical downloads, on the href and the
      link's stripped text. */
  predicate IsTechnicalLink(href: string, linkText: string) {
    var t := Lower(linkText);
    EndsWith(Lower(href), ".pdf") || ContainsSub(href, "/download/")
    || ContainsSub(t, "ficha técnica") || ContainsSub(t, "guia")
  }

  /** `a.get('download') or os.path.basename(path)`: a missing or empty
      download attribute falls back to the base name of the href's path. */
  function DownloadName(download: Option<string>, hrefPath: string): (n: string)
    ensures download.Some? && download.value != [] ==> n == download.value
    ensures (download.None? || download.value == []) ==> n == BaseName(hrefPath)
  {
    if download.Some? && download.value != [] then download.value else BaseName(hrefPath)
  }

  /** The download name with ".pdf" appended unless it already ends so, in
      any case. */
  function PdfFileName(download: Option<string>, hrefPath: string): (r: string)
    ensures EndsWith(Lower(r), ".pdf")
    ensures StartsWith(r, DownloadName(download, hrefPath))
    ensures var n := DownloadName(download, hrefPath);
      EndsWith(Lower(n), ".pdf") ==> r == n
    ensures var n := DownloadName(download, hrefPath);
      !EndsWith(Lower(n), ".pdf") ==> r == n + ".pdf"
  {
    var name := DownloadName(download, hrefPath);
    if EndsWith(Lower(name), ".pdf") then
      assert name[..|name|] == name;
      name
    else
      LowerAppend(name, ".pdf");
      LowerPdf();
      assert (Lower(name) + ".pdf")[|Lower(name) + ".pdf"| - 4..] == ".pdf";
      StartsWithAppend(name, ".pdf");
      name + ".pdf"
  }

  /** An <a href> of the page: the href, the link's stripped text, its
      download attribute and the path of the href. */
  datatype Anchor = Anchor(href: string, text: string, download: Option<string>, hrefPath: string)

  predicate IsTechnicalAnchor(a: Anchor) {
    IsTechnicalLink(a.href, a.text)
  }

  function PdfNameOf(a: Anchor): string {
    PdfFileName(a.download, a.hrefPath)
  }

  /** The technical-download loop: the file name handed to the downloader
      for each link that passes the filter, in page order. */
  function TechnicalDownloads(anchors: seq<Anchor>): seq<string> {
    Picked(anchors, IsTechnicalAnchor, PdfNameOf)
  }

  /** Every link that passes the filter is downloaded under its PDF name. */
  lemma TechnicalLinkDownloaded(anchors: seq<Anchor>, k: nat)
    requires k < |anchors| && IsTechnicalAnchor(anchors[k])
    ensures PdfFileName(anchors[k].download, anchors[k].hrefPath) in TechnicalDownloads(anchors)
  {
    PickedComplete(anchors, IsTechnicalAnchor, PdfNameOf, k);
  }

  /** Every technical download goes to the streamed, retried branch of the
      downloader, under its own name. */
  lemma TechnicalDownloadsStreamed(anchors: seq<Anchor>, urlPath: string, folder: string, fetch: nat -> Attempt, i: nat)
    requires i < |TechnicalDownloads(anchors)|
    ensures var name := TechnicalDownloads(anchors)[i];
      && Expected(urlPath, folder, name, fetch).branch == StreamFetch
      && Expected(urlPath, folder, name, fetch).path == JoinPath(folder, name)
  {
    var name := TechnicalDownloads(anchors)[i];
    PickedOrigin(anchors, IsTechnicalAnchor, PdfNameOf, i);
    var k :| 0 <= k < |anchors| && IsTechnicalAnchor(anchors[k]) && name == PdfNameOf(anchors[k]);
    PdfIsNotImage(anchors[k].download, anchors[k].hrefPath);
    assert name != [] by {
      assert |Lower(name)| >= 4;
    }
  }

  lemma LowerPdf()
    ensures Lower(".pdf") == ".pdf"
  {
    var l := Lower(".pdf");
    forall i | 0 <= i < 4 ensures l[i] == ".pdf"[i] { }
  }

  lemma LowerDotPdf()
    ensures Lower(".PDF") == ".pdf"
  {
    var l := Lower(".PDF");
    forall i | 0 <= i < 4 ensures l[i] == ".pdf"[i] { }
  }

  /** A technical download is never fetched as an image. */
  lemma PdfIsNotImage(download: Option<string>, hrefPath: string)
    ensures !IsImageName(PdfFileName(download, hrefPath))
  {
    PdfNameIsNotImage(PdfFileName(download, hrefPath));
  }

  /** A name that already ends in ".PDF" is kept as it is. */
  lemma PdfNameKept(stem: string)
    ensures PdfFileName(Some(stem + ".PDF"), "") == stem + ".PDF"
  {
    var name := stem + ".PDF";
    LowerAppend(stem, ".PDF");
    LowerDotPdf();
    assert (Lower(stem) + ".pdf")[|Lower(stem) + ".pdf"| - 4..] == ".pdf";
  }

  /** The extra download's name: nome_base, "_", the type with spaces as
      underscores, and the URL's extension or ".rar" (for every type,
      pictures included). */
  function ExtraAssetName(nomeBase: string, tipo: string, fullPath: string): (r: Option<string>)
    ensures r.Some? <==> IsDownloadType(tipo)
    ensures r.Some? ==> StartsWith(r.value, nomeBase)
    ensures r.Some? ==> r.value == nomeBase + "_" + ReplaceChar(tipo, ' ', '_') + UrlExtension(fullPath)
  {
    if !IsDownloadType(tipo) then None
    else
      var suffix := "_" + ReplaceChar(tipo, ' ', '_') + UrlExtension(fullPath);
      StartsWithAppend(nomeBase, suffix);
      AppendAssoc(nomeBase, "_", ReplaceChar(tipo, ' ', '_'), UrlExtension(fullPath));
      Some(nomeBase + suffix)
  }

  /** The type part of an extra download's name has no space. */
  lemma ExtraTypeHasNoSpace(tipo: string)
    ensures ' ' !in ReplaceChar(tipo, ' ', '_')
  {
  }

  // ---------------------------------------------------------------------
  // baixar_arquivo

  /** The downloader: the image branch makes one attempt; the stream branch
      is a for loop over attempts 1..3 that returns on the first non-empty
      write and sleeps after each exception. */
  method DownloadFile(urlPath: string, folder: string, given: string, fetch: nat -> Attempt) returns (report: Report)
    ensures report == Expected(urlPath, folder, given, fetch)
  {
    var nomeArquivo := FileNameFor(urlPath, given);
    var caminho := JoinPath(folder, nomeArquivo);
    if IsImageName(nomeArquivo) {
      var outcome := fetch(0);
      ExpectedImage(urlPath, folder, given, fetch);
      return Report(ImageFetch, caminho, 1, 0, outcome.Wrote?);
    }
    var pauses := 0;
    for tentativa := 1 to MaxAttempts + 1
      invariant NoGoodWriteBefore(fetch, tentativa - 1)
      invariant pauses == FailuresBefore(fetch, tentativa - 1)
    {
      var outcome := fetch(tentativa - 1);
      if IsGoodWrite(outcome) {
        ExpectedStream(urlPath, folder, given, fetch, tentativa - 1);
        return Report(StreamFetch, caminho, tentativa, pauses, true);
      }
      if outcome.Failed? {
        pauses := pauses + 1;
      }
    }
    ExpectedStream(urlPath, folder, given, fetch, MaxAttempts);
    return Report(StreamFetch, caminho, MaxAttempts, pauses, false);
  }
}
