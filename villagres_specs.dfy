/** Bot_vilagress.py: the format extractor and the specification scraper.
    The page is given as the lists of records the scraper reads from it. */
module VillagresSpecs {
  import opened Text
  import opened Formats

  // ---------------------------------------------------------------------
  // extrair_formato

  /** (\d+,?\d*X\d+,?\d*cm), case-insensitive, searched in the text with
      its spaces removed. */
  function ExtractFormat(texto: string): string {
    ExtractWith(VillagresPattern, texto)
  }

  /** The result is "" exactly when the space-free text has no match, and
      otherwise the leftmost-longest match, which ends in "cm" in any case. */
  lemma ExtractFormatShape(texto: string)
    ensures var r := ExtractFormat(texto);
      && (r == [] <==> !HasMatch(VillagresPattern, RemoveSpaces(texto)))
      && (r != [] ==> exists i: nat, e: nat ::
            IsLeftmostLongest(VillagresPattern, RemoveSpaces(texto), i, e) && r == RemoveSpaces(texto)[i..e])
      && (r != [] ==> |r| >= 2 && (r[|r| - 2] == 'c' || r[|r| - 2] == 'C') && (r[|r| - 1] == 'm' || r[|r| - 1] == 'M'))
  {
    ExtractEndsInCm(VillagresPattern, texto);
  }

  lemma ExtractFormatKeepsWholeFormat()
    ensures ExtractFormat("20X141,50cm") == "20X141,50cm"
  {
    var t := "20X141,50cm";
    assert ' ' !in t;
    assert NumberIn(true, t, 0, 2);
    assert NumberIn(true, t, 3, 9);
    assert SplitsAt(VillagresPattern, t, 0, 2, 9, 11);
    ExtractWhole(VillagresPattern, t);
  }

  /** Without "cm" there is no match. */
  lemma ExtractFormatNeedsCm()
    ensures ExtractFormat("23,8x150") == ""
  {
    var t := "23,8x150";
    forall q | 0 <= q < |t| ensures !IsC(VillagresPattern, t[q]) { }
    NoCExtractsNothing(VillagresPattern, t);
  }

  // ---------------------------------------------------------------------
  // extrair_especificacoes_villagres

  /** An h6 of the specification section: its text and the text of the
      next value span, if there is one. */
  datatype SpecHeading = SpecHeading(text: string, nextSpan: Option<string>)

  /** Any h6 of the page: its .string (None when it is not a single string)
      and the text of the next span, if there is one. */
  datatype LooseHeading = LooseHeading(str: Option<string>, nextSpan: Option<string>)

  /** What the scraper reads: whether the "Especificações Técnicas" title was
      found, the h6 records of its section, every h6 of the page in document
      order, and the active breadcrumb item inside nav#timeline. */
  datatype SpecPage = SpecPage(
    specsTitle: bool,
    headings: seq<SpecHeading>,
    looseHeadings: seq<LooseHeading>,
    breadcrumb: Option<string>)

  predicate IsSpecKey(k: string) {
    k == "produto" || k == "formato" || k == "material" || k == "superficie" || k == "referencia"
  }

  /** The elif chain over the stripped, lower-cased h6 title. */
  function SpecLabel(title: string): (r: Option<string>)
    ensures r.Some? ==> IsSpecKey(r.value)
  {
    var t := Lower(Strip(title));
    if ContainsSub(t, "produto") then Some("produto")
    else if ContainsSub(t, "formato") then Some("formato")
    else if ContainsSub(t, "material") then Some("material")
    else if ContainsSub(t, "superfície") || ContainsSub(t, "superficie") then Some("superficie")
    else if ContainsSub(t, "referência") || ContainsSub(t, "referencia") then Some("referencia")
    else None
  }

  /** A dictionary assignment especificacoes[key] = value. */
  datatype Write = Write(key: string, value: string)

  /** The assignment an h6 of the section makes, if any: it needs a
      following span and a recognised title. */
  function HeadingWrite(h: SpecHeading): (w: Option<Write>)
    ensures w.Some? ==> IsSpecKey(w.value.key)
  {
    if h.nextSpan.Some? then
      match SpecLabel(h.text)
      case Some(k) => Some(Write(k, Strip(h.nextSpan.value)))
      case None => None
    else None
  }

  lemma HeadingWriteSome(h: SpecHeading, w: Write)
    requires HeadingWrite(h) == Some(w)
    ensures h.nextSpan.Some? && SpecLabel(h.text) == Some(w.key) && w.value == Strip(h.nextSpan.value)
  {
  }

  /** The assignments made in order, applied to an empty dictionary. */
  function ApplyWrites(ws: seq<Option<Write>>): map<string, string> {
    if ws == [] then map[]
    else
      var d := ApplyWrites(ws[..|ws| - 1]);
      match ws[|ws| - 1]
      case Some(w) => d[w.key := w.value]
      case None => d
  }

  predicate Writes(ws: seq<Option<Write>>, k: string, i: int) {
    0 <= i < |ws| && ws[i].Some? && ws[i].value.key == k
  }

  /** Write i is the last one to key k. */
  predicate IsLastWrite(ws: seq<Option<Write>>, k: string, i: int) {
    Writes(ws, k, i) && forall later :: i < later < |ws| ==> !Writes(ws, k, later)
  }

  /** Last write wins: a key is in the dictionary exactly when some
      assignment writes it, and then it holds the last value written. */
  lemma {:induction false} LastWriteWins(ws: seq<Option<Write>>, k: string)
    ensures k in ApplyWrites(ws) <==> exists i :: Writes(ws, k, i)
    ensures k in ApplyWrites(ws) ==> exists i :: IsLastWrite(ws, k, i) && ApplyWrites(ws)[k] == ws[i].value.value
  {
    if ws != [] {
      var front := ws[..|ws| - 1];
      var n := |ws| - 1;
      LastWriteWins(front, k);
      if Writes(ws, k, n) {
        assert IsLastWrite(ws, k, n);
      } else if k in ApplyWrites(front) {
        var i :| IsLastWrite(front, k, i) && ApplyWrites(front)[k] == front[i].value.value;
        assert front[i] == ws[i];
        forall later | i < later < |ws| ensures !Writes(ws, k, later) {
          if later < n { assert front[later] == ws[later]; assert !Writes(front, k, later); }
        }
        assert IsLastWrite(ws, k, i);
      } else {
        forall i | 0 <= i < |ws| ensures !Writes(ws, k, i) {
          if i < n { assert front[i] == ws[i]; assert !Writes(front, k, i); }
        }
      }
    }
  }

  /** The assignments of the section's h6 elements, in document order. */
  function SectionWrites(hs: seq<SpecHeading>): (ws: seq<Option<Write>>)
    ensures |ws| == |hs|
    ensures forall i :: 0 <= i < |hs| ==> ws[i] == HeadingWrite(hs[i])
  {
    Mapped(hs, HeadingWrite)
  }

  /** The dictionary after the loop over the section's h6 elements. */
  function SectionSpecs(hs: seq<SpecHeading>): map<string, string> {
    ApplyWrites(SectionWrites(hs))
  }

  /** First h6 whose string contains the word once lower-cased. */
  function FirstLoose(hs: seq<LooseHeading>, word: string): (r: Option<nat>)
    ensures r.Some? ==> r.value < |hs| && hs[r.value].str.Some? && ContainsSub(Lower(hs[r.value].str.value), word)
    ensures r.Some? ==> forall j :: 0 <= j < r.value ==> !(hs[j].str.Some? && ContainsSub(Lower(hs[j].str.value), word))
    ensures r.None? ==> forall j :: 0 <= j < |hs| ==> !(hs[j].str.Some? && ContainsSub(Lower(hs[j].str.value), word))
  {
    if hs == [] then None
    else if hs[0].str.Some? && ContainsSub(Lower(hs[0].str.value), word) then Some(0)
    else
      var r := FirstLoose(hs[1..], word);
      if r.Some? then Some(r.value + 1) else None
  }

  /** The second method for one word: the span after the first h6 that
      mentions it, when that h6 has a following span. */
  function AddLoose(d: map<string, string>, hs: seq<LooseHeading>, word: string): map<string, string> {
    var f := FirstLoose(hs, word);
    if f.Some? && hs[f.value].nextSpan.Some? then d[word := Strip(hs[f.value].nextSpan.value)] else d
  }

  /** The second method: produto, then formato. */
  function LooseSpecs(hs: seq<LooseHeading>): map<string, string> {
    AddLoose(AddLoose(map[], hs, "produto"), hs, "formato")
  }

  /** The dictionary before the breadcrumb step. */
  function BeforeBreadcrumb(page: SpecPage): map<string, string> {
    var section := if page.specsTitle then SectionSpecs(page.headings) else map[];
    if section == map[] then LooseSpecs(page.looseHeadings) else section
  }

  function PageSpecs(page: SpecPage): map<string, string> {
    var d := BeforeBreadcrumb(page);
    if "produto" !in d && page.breadcrumb.Some? then d["produto" := Strip(page.breadcrumb.value)]
    else d
  }

  /** One more h6 of the section. */
  lemma SectionSpecsStep(hs: seq<SpecHeading>, idx: nat)
    requires idx < |hs|
    ensures var d := SectionSpecs(hs[..idx]);
      SectionSpecs(hs[..idx + 1]) ==
        match HeadingWrite(hs[idx])
        case Some(w) => d[w.key := w.value]
        case None => d
  {
    assert hs[..idx + 1][..idx] == hs[..idx];
    var ws := SectionWrites(hs[..idx + 1]);
    assert ws[..|ws| - 1] == SectionWrites(hs[..idx]);
  }

  /** The loop over the section's h6 elements. */
  method ScanSection(headings: seq<SpecHeading>) returns (specs: map<string, string>)
    ensures specs == SectionSpecs(headings)
  {
    specs := map[];
    var idx := 0;
    while idx < |headings|
      invariant 0 <= idx <= |headings|
      invariant specs == SectionSpecs(headings[..idx])
    {
      var h := headings[idx];
      SectionSpecsStep(headings, idx);
      if h.nextSpan.Some? {
        var valor := Strip(h.nextSpan.value);
        var key := SpecLabel(h.text);
        if key.Some? {
          specs := specs[key.value := valor];
        }
      }
      idx := idx + 1;
    }
    assert headings[..idx] == headings;
  }

  /** One lookup of the second method: find the h6, then its span. */
  method LookupLoose(specs: map<string, string>, hs: seq<LooseHeading>, word: string) returns (r: map<string, string>)
    ensures r == AddLoose(specs, hs, word)
  {
    r := specs;
    var h6 := FirstLoose(hs, word);
    if h6.Some? {
      var span := hs[h6.value].nextSpan;
      if span.Some? {
        r := r[word := Strip(span.value)];
      }
    }
  }

  /** The scraper, filling the dictionary in place. */
  method ExtractSpecs(page: SpecPage) returns (specs: map<string, string>)
    ensures specs == PageSpecs(page)
  {
    specs := map[];
    if page.specsTitle {
      specs := ScanSection(page.headings);
    }
    if specs == map[] {
      specs := LookupLoose(specs, page.looseHeadings, "produto");
      specs := LookupLoose(specs, page.looseHeadings, "formato");
    }
    if "produto" !in specs && page.breadcrumb.Some? {
      specs := specs["produto" := Strip(page.breadcrumb.value)];
    }
  }

  lemma {:induction false} WrittenKeys(ws: seq<Option<Write>>)
    requires forall i :: 0 <= i < |ws| && ws[i].Some? ==> IsSpecKey(ws[i].value.key)
    ensures forall k :: k in ApplyWrites(ws) ==> IsSpecKey(k)
  {
    if ws != [] {
      WrittenKeys(ws[..|ws| - 1]);
    }
  }

  /** Only the five known keys are ever written. */
  lemma PageSpecsKeys(page: SpecPage)
    ensures forall k :: k in PageSpecs(page) ==> IsSpecKey(k)
  {
    BeforeBreadcrumbKeys(page);
    assert IsSpecKey("produto");
  }

  lemma BeforeBreadcrumbKeys(page: SpecPage)
    ensures forall k :: k in BeforeBreadcrumb(page) ==> IsSpecKey(k)
  {
    if page.specsTitle { WrittenKeys(SectionWrites(page.headings)); }
    LooseKeys(page.looseHeadings);
  }

  lemma LooseKeys(hs: seq<LooseHeading>)
    ensures forall k :: k in LooseSpecs(hs) ==> IsSpecKey(k)
  {
    var d := AddLoose(map[], hs, "produto");
    AddLooseKeys(map[], hs, "produto");
    AddLooseKeys(d, hs, "formato");
    assert IsSpecKey("produto") && IsSpecKey("formato");
  }

  lemma AddLooseKeys(d: map<string, string>, hs: seq<LooseHeading>, word: string)
    ensures forall k :: k in AddLoose(d, hs, word) ==> k in d || k == word
  {
  }

  /** For the section: a key is present exactly when some h6 writes it, and
      it holds the stripped span text of the last h6 that does. */
  lemma SectionLastWins(hs: seq<SpecHeading>, k: string)
    ensures k in SectionSpecs(hs) <==> exists i :: Writes(SectionWrites(hs), k, i)
    ensures k in SectionSpecs(hs) ==> exists i ::
      && IsLastWrite(SectionWrites(hs), k, i)
      && hs[i].nextSpan.Some?
      && SpecLabel(hs[i].text) == Some(k)
      && SectionSpecs(hs)[k] == Strip(hs[i].nextSpan.value)
  {
    var ws := SectionWrites(hs);
    var d := ApplyWrites(ws);
    assert SectionSpecs(hs) == d;
    LastWriteWins(ws, k);
    if k in d {
      var i :| IsLastWrite(ws, k, i) && d[k] == ws[i].value.value;
      HeadingWriteSome(hs[i], ws[i].value);
    }
  }

  /** The elif chain decides by its first branch: a title mentioning
      "produto" is the product, whatever else it mentions, and one
      mentioning "formato" but not "produto" is the format. */
  lemma ChainPrecedence(title: string)
    ensures ContainsSub(Lower(Strip(title)), "produto") ==> SpecLabel(title) == Some("produto")
    ensures !ContainsSub(Lower(Strip(title)), "produto") && ContainsSub(Lower(Strip(title)), "formato") ==>
      SpecLabel(title) == Some("formato")
  {
  }

  /** The second method runs only when the section produced nothing: with a
      non-empty section dictionary the page's loose h6 elements do not
      matter. */
  lemma LooseIgnoredAfterSection(page: SpecPage, other: seq<LooseHeading>)
    requires page.specsTitle && SectionSpecs(page.headings) != map[]
    ensures PageSpecs(page) == PageSpecs(page.(looseHeadings := other))
  {
  }

  /** The breadcrumb never overwrites a product name already found, and
      otherwise only adds the product name. */
  lemma BreadcrumbOnlyFills(page: SpecPage)
    ensures "produto" in BeforeBreadcrumb(page) ==> PageSpecs(page) == BeforeBreadcrumb(page)
    ensures forall k :: k in BeforeBreadcrumb(page) ==> k in PageSpecs(page) && PageSpecs(page)[k] == BeforeBreadcrumb(page)[k]
    ensures forall k :: k in PageSpecs(page) && k !in BeforeBreadcrumb(page) ==> k == "produto" && page.breadcrumb.Some?
  {
  }
}
