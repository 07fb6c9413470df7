/** Bot_vilagress.py: the format extractor, the specification scraper, the
    product-name and format chains, the folder name, the asset file names
    and the downloader.  The page is given as the lists of records the
    script reads from it. */
module Villagres {
  import opened Text
  import opened Sanitize
  import opened Formats
  import opened VillagresSpecs
  import opened Titles
  import opened Downloads

  // ---------------------------------------------------------------------
  // baixar_dados: product name and format

  /** The specification value for a key, when present and non-empty. */
  predicate HasValue(specs: map<string, string>, key: string) {
    key in specs && specs[key] != []
  }

  /** nome_produto: the specification's product, else the first
      "Letters - Letters" match in the stripped page title, then sanitised. */
  method ProductName(specs: map<string, string>, title: Option<string>) returns (nome: string)
    ensures HasValue(specs, "produto") ==> nome == CleanName(specs["produto"])
    ensures !HasValue(specs, "produto") && (title.None? || !HasTitleMatch(Strip(title.value))) ==> nome == []
    ensures !HasValue(specs, "produto") && title.Some? && HasTitleMatch(Strip(title.value)) ==>
      exists i: nat, e: nat :: IsTitleLeftmostLongest(Strip(title.value), i, e) && i <= e <= |Strip(title.value)|
        && nome == CleanName(Strip(title.value)[i..e])
  {
    nome := "";
    if HasValue(specs, "produto") {
      nome := specs["produto"];
    }
    if nome == [] && title.Some? {
      var titleText := Strip(title.value);
      var m := FindTitle(titleText);
      if m.Some? {
        TitleMatchShape(titleText, m.value.0, m.value.1);
        nome := titleText[m.value.0..m.value.1];
      }
    }
    nome := CleanName(nome);
  }

  /** formato: the specification's format, else the extractor's result on
      the first text node where it finds one, else "". */
  method PageFormat(specs: map<string, string>, texts: seq<string>) returns (formato: string)
    ensures HasValue(specs, "formato") ==> formato == specs["formato"]
    ensures !HasValue(specs, "formato") ==>
      (formato == [] <==> forall k :: 0 <= k < |texts| ==> ExtractFormat(texts[k]) == [])
    ensures !HasValue(specs, "formato") && formato != [] ==>
      exists k :: 0 <= k < |texts| && formato == ExtractFormat(texts[k])
        && forall j :: 0 <= j < k ==> ExtractFormat(texts[j]) == []
  {
    formato := "";
    if HasValue(specs, "formato") {
      formato := specs["formato"];
    }
    if formato == [] {
      var k := 0;
      while k < |texts|
        invariant 0 <= k <= |texts|
        invariant formato == []
        invariant forall j :: 0 <= j < k ==> ExtractFormat(texts[j]) == []
      {
        var encontrado := ExtractFormat(texts[k]);
        if encontrado != [] {
          formato := encontrado;
          return;
        }
        k := k + 1;
      }
    }
  }

  // ---------------------------------------------------------------------
  // baixar_dados: the folder name

  /** "externo" in the lower-cased URL or page source. */
  predicate IsExternal(link: string, pageSource: string) {
    ContainsSub(Lower(link), "externo") || ContainsSub(Lower(pageSource), "externo")
  }

  /** nome_base before decoding. */
  function BaseFolder(produto: string, externo: bool, formato: string): string {
    produto + (if externo then " - Externo" else "") + (if formato != [] then " - " + formato else "")
  }

  /** Empty, only whitespace, or shorter than three characters. */
  predicate IsUnusable(s: string) {
    |s| < 3 || forall i :: 0 <= i < |s| ==> IsSpace(s[i])
  }

  /** The decoded second-to-last segment of the stripped URL path, when the
      path has at least two segments. */
  function UrlProductSegment(urlPath: string): Option<string> {
    var segs := Split(StripChar(urlPath, '/'), '/');
    if |segs| >= 2 then Some(PercentDecode(segs[|segs| - 2])) else None
  }

  /** The URL fallback: "Produto " and the title-cased, de-hyphenated
      segment (each hyphen a space, each word capitalised, the rest of it
      lower case), or the clock when the path has fewer than two segments. */
  function FallbackName(urlPath: string, now: nat): (r: string)
    ensures |r| >= 8 && r[..8] == "Produto "
    ensures UrlProductSegment(urlPath).None? ==> r == "Produto " + NatToString(now)
    ensures UrlProductSegment(urlPath).Some? ==> IsDehyphenTitled(UrlProductSegment(urlPath).value, r[8..])
  {
    match UrlProductSegment(urlPath)
    case Some(seg) =>
      var t := Title(ReplaceChar(seg, '-', ' '));
      TitleOfDehyphenated(seg);
      assert ("Produto " + t)[8..] == t;
      "Produto " + t
    case None => "Produto " + NatToString(now)
  }

  /** The decoded, stripped name, before the usability check. */
  function CleanedFolder(produto: string, externo: bool, formato: string): (r: string)
    ensures forall i :: 0 <= i < |r| ==> r[i] !in Forbidden
  {
    RemoveChars(PercentDecode(BaseFolder(produto, externo, formato)), Forbidden)
  }

  function FolderName(produto: string, externo: bool, formato: string, urlPath: string, now: nat): (r: string)
    ensures 3 <= |r| <= 150
    ensures var c := CleanedFolder(produto, externo, formato);
      !IsUnusable(c) ==> r == Take(c, 150) && forall i :: 0 <= i < |r| ==> r[i] !in Forbidden
    ensures IsUnusable(CleanedFolder(produto, externo, formato)) ==> r == Take(FallbackName(urlPath, now), 150)
  {
    var c := CleanedFolder(produto, externo, formato);
    var r := if IsUnusable(c) then Take(FallbackName(urlPath, now), 150) else Take(c, 150);
    assert !IsUnusable(c) ==> forall i :: 0 <= i < |r| ==> r[i] == c[i];
    r
  }

  /** nome_base, built by successive reassignment as in the script. */
  method ComposeFolderName(produto: string, formato: string, link: string, pageSource: string, urlPath: string, now: nat)
    returns (nomeBase: string)
    ensures nomeBase == FolderName(produto, IsExternal(link, pageSource), formato, urlPath, now)
    ensures 3 <= |nomeBase| <= 150
  {
    var ambiente := if IsExternal(link, pageSource) then "Externo" else "";
    nomeBase := produto;
    if ambiente != [] {
      nomeBase := nomeBase + " - " + ambiente;
    }
    if formato != [] {
      nomeBase := nomeBase + " - " + formato;
    }
    assert nomeBase == BaseFolder(produto, IsExternal(link, pageSource), formato);
    nomeBase := PercentDecode(nomeBase);
    nomeBase := RemoveChars(nomeBase, Forbidden);
    if IsUnusable(nomeBase) {
      nomeBase := FallbackName(urlPath, now);
    }
    nomeBase := Take(nomeBase, 150);
  }

  /** The URL fallback is not sanitised again: a forbidden character in the
      decoded URL segment (a "%3F", say) reaches the folder name. */
  lemma FallbackKeepsForbidden(produto: string, formato: string, urlPath: string, now: nat, q: nat)
    requires IsUnusable(CleanedFolder(produto, false, formato))
    requires UrlProductSegment(urlPath).Some?
    requires q < |UrlProductSegment(urlPath).value| && q < 142
    requires UrlProductSegment(urlPath).value[q] in Forbidden
    ensures 8 + q < |FolderName(produto, false, formato, urlPath, now)|
    ensures FolderName(produto, false, formato, urlPath, now)[8 + q] in Forbidden
  {
    ForbiddenIsPlain(UrlProductSegment(urlPath).value[q]);
  }

  // ---------------------------------------------------------------------
  // baixar_dados: asset file names

  /** What follows nome_base in the file name of a download type. */
  function AssetSuffix(txt: string, fullPath: string): string {
    if txt == "bloco de sketchup" then " - BLOCO DE SKETCHUP" + UrlExtension(fullPath)
    else if txt == "faces do produto" then "_" + CleanName(txt) + UrlExtension(fullPath)
    else "_" + CleanName(txt) + ".jpg"
  }

  /** The file name for a download button whose h5 label (stripped and
      lower-cased) is txt, or None when the label is not a download type. */
  function AssetFileName(nomeBase: string, txt: string, fullPath: string): (r: Option<string>)
    ensures r.Some? <==> IsDownloadType(txt)
    ensures r.Some? ==> StartsWith(r.value, nomeBase) && |r.value| > |nomeBase|
  {
    if !IsDownloadType(txt) then None
    else
      var suffix := AssetSuffix(txt, fullPath);
      StartsWithAppend(nomeBase, suffix);
      Some(nomeBase + suffix)
  }

  lemma CleanPaginacao()
    ensures CleanName("paginação") == "paginação"
  {
    var s := "paginação";
    assert forall i :: 0 <= i < |s| ==> s[i] !in Forbidden && s[i] != '\n' && !IsSpace(s[i]);
    CleanNameKeepsCleanName(s);
  }

  lemma CleanAmbiente()
    ensures CleanName("ambiente") == "ambiente"
  {
    var s := "ambiente";
    assert forall i :: 0 <= i < |s| ==> s[i] !in Forbidden && s[i] != '\n' && !IsSpace(s[i]);
    CleanNameKeepsCleanName(s);
  }

  /** 'paginação' and 'ambiente' assets are named .jpg, so the downloader
      fetches them once, as images. */
  lemma PictureAssetsAreImages(nomeBase: string, txt: string, fullPath: string)
    requires txt == "paginação" || txt == "ambiente"
    ensures AssetFileName(nomeBase, txt, fullPath).Some?
    ensures IsImageName(AssetFileName(nomeBase, txt, fullPath).value)
  {
    PictureAssetName(nomeBase, txt, fullPath);
    var stem := nomeBase + "_" + txt;
    assert txt[|txt| - 1] == 'o' || txt[|txt| - 1] == 'e';
    assert stem[|stem| - 1] == txt[|txt| - 1];
    JpgNameIsImage(stem);
  }

  lemma PictureAssetName(nomeBase: string, txt: string, fullPath: string)
    requires txt == "paginação" || txt == "ambiente"
    ensures AssetFileName(nomeBase, txt, fullPath) == Some(nomeBase + "_" + txt + ".jpg")
  {
    if txt == "paginação" { CleanPaginacao(); } else { CleanAmbiente(); }
    assert |txt| < 16;
    assert txt != "bloco de sketchup" && txt != "faces do produto";
    assert AssetSuffix(txt, fullPath) == "_" + txt + ".jpg";
    AppendAssoc(nomeBase, "_", txt, ".jpg");
  }

  /** The SketchUp block keeps the URL's extension, or gets ".rar". */
  lemma SketchupAssetName(nomeBase: string, fullPath: string)
    ensures var ext := Extension(fullPath);
      AssetFileName(nomeBase, "bloco de sketchup", fullPath) ==
        Some(nomeBase + " - BLOCO DE SKETCHUP" + (if ext == [] then ".rar" else ext))
  {
    var suffix := " - BLOCO DE SKETCHUP" + UrlExtension(fullPath);
    assert AssetSuffix("bloco de sketchup", fullPath) == suffix;
    assert nomeBase + suffix == nomeBase + " - BLOCO DE SKETCHUP" + UrlExtension(fullPath);
  }

  // ---------------------------------------------------------------------
  // baixar_arquivo

  /** The downloader: the image branch makes one attempt; the stream branch
      loops with a counter, returns on the first non-empty write, and sleeps
      after each exception. */
  method DownloadFile(urlPath: string, folder: string, given: string, fetch: nat -> Attempt) returns (report: Report)
    ensures report == Expected(urlPath, folder, given, fetch)
  {
    var nomeArquivo := FileNameFor(urlPath, given);
    var caminho := JoinPath(folder, nomeArquivo);
    if IsImageName(nomeArquivo) {
      var outcome := fetch(0);
      ExpectedImage(urlPath, folder, given, fetch);
      return Report(ImageFetch, caminho, 1, 0, outcome.Wrote?);
    }
    var tentativa := 0;
    var pauses := 0;
    while tentativa < MaxAttempts
      invariant 0 <= tentativa <= MaxAttempts
      invariant NoGoodWriteBefore(fetch, tentativa)
      invariant pauses == FailuresBefore(fetch, tentativa)
    {
      tentativa := tentativa + 1;
      var outcome := fetch(tentativa - 1);
      if IsGoodWrite(outcome) {
        ExpectedStream(urlPath, folder, given, fetch, tentativa - 1);
        return Report(StreamFetch, caminho, tentativa, pauses, true);
      }
      if outcome.Failed? {
        pauses := pauses + 1;
      }
    }
    ExpectedStream(urlPath, folder, given, fetch, tentativa);
    return Report(StreamFetch, caminho, tentativa, pauses, false);
  }
}
