/** ORGANIZA_DRIVE.py: the name normaliser, the two-phase format
    extractor, the category table and the organiser that files the vendor
    folders of a drive root into VENDOR/CATEGORY/FORMAT/name. */
module Organizer {
  import opened Text
  import opened Formats
  import Biancogres

  // ---------------------------------------------------------------------
  // normalizar

  /** unicodedata.normalize('NFKD', ·).encode('ASCII', 'ignore') on one
      character of Latin-1: the ASCII characters of its compatibility
      decomposition.  Characters beyond Latin-1 are dropped. */
  function FoldChar(c: char): (r: string)
    ensures forall i :: 0 <= i < |r| ==> IsAscii(r[i])
    ensures IsAscii(c) ==> r == [c]
  {
    if IsAscii(c) then [c]
    else if 'À' <= c <= 'Å' then "A"
    else if c == 'Ç' then "C"
    else if 'È' <= c <= 'Ë' then "E"
    else if 'Ì' <= c <= 'Ï' then "I"
    else if c == 'Ñ' then "N"
    else if 'Ò' <= c <= 'Ö' then "O"
    else if 'Ù' <= c <= 'Ü' then "U"
    else if c == 'Ý' then "Y"
    else if 'à' <= c <= 'å' || c == 'ª' then "a"
    else if c == 'ç' then "c"
    else if 'è' <= c <= 'ë' then "e"
    else if 'ì' <= c <= 'ï' then "i"
    else if c == 'ñ' then "n"
    else if 'ò' <= c <= 'ö' || c == 'º' then "o"
    else if 'ù' <= c <= 'ü' then "u"
    else if c == 'ý' || c == 'ÿ' then "y"
    else if c == '¹' then "1"
    else if c == '²' then "2"
    else if c == '³' then "3"
    else if c == '¼' then "14"
    else if c == '½' then "12"
    else if c == '¾' then "34"
    else if c == '\U{a0}' || c == '¨' || c == '¯' || c == '´' || c == '¸' then " "
    else ""
  }

  function Fold(s: string): (r: string)
    ensures forall i :: 0 <= i < |r| ==> IsAscii(r[i])
  {
    if s == [] then [] else FoldChar(s[0]) + Fold(s[1..])
  }

  lemma {:induction false} FoldAscii(s: string)
    requires forall i :: 0 <= i < |s| ==> IsAscii(s[i])
    ensures Fold(s) == s
  {
    if s != [] {
      FoldAscii(s[1..]);
      assert s == [s[0]] + s[1..];
    }
  }

  /** Characters that the steps after the fold keep. */
  predicate IsKept(c: char) {
    IsAscii(c) && !IsAsciiLower(c) && c != '-' && c != '_'
  }

  /** Only kept characters, whitespace only as single plain spaces. */
  predicate IsCollapsed(c: string) {
    && (forall i :: 0 <= i < |c| ==> IsKept(c[i]))
    && (forall i :: 0 <= i < |c| && IsSpace(c[i]) ==> c[i] == ' ')
    && (forall i :: 0 <= i < |c| - 1 ==> !(IsSpace(c[i]) && IsSpace(c[i + 1])))
  }

  /** What normalizar promises: ASCII, no lower-case letter, no '-' or
      '_', whitespace only as single plain spaces, and none at either end. */
  predicate IsNormal(n: string) {
    IsCollapsed(n) && (n == [] || (!IsSpace(n[0]) && !IsSpace(n[|n| - 1])))
  }

  /** The steps before the whitespace collapse: fold, upper, and '-', '_'
      to spaces. */
  function Prepared(s: string): (r: string)
    ensures forall i :: 0 <= i < |r| ==> IsKept(r[i])
  {
    var up := Upper(Fold(s));
    assert forall i :: 0 <= i < |up| ==> IsAscii(up[i]) && !IsAsciiLower(up[i]);
    ReplaceChar(ReplaceChar(up, '-', ' '), '_', ' ')
  }

  lemma CollapsedOfPrepared(p: string)
    requires forall i :: 0 <= i < |p| ==> IsKept(p[i])
    ensures IsCollapsed(CollapseSpaces(p))
  {
    var c := CollapseSpaces(p);
    forall i | 0 <= i < |c| ensures IsKept(c[i]) {
      if !IsSpace(c[i]) { assert c[i] in p; }
    }
  }

  lemma CollapsedSlice(c: string, a: nat, b: nat)
    requires a <= b <= |c| && IsCollapsed(c)
    ensures IsCollapsed(c[a..b])
  {
    var d := c[a..b];
    assert forall i :: 0 <= i < |d| ==> d[i] == c[a + i];
  }

  /** normalizar(texto) */
  function Normalize(s: string): (n: string)
    ensures IsNormal(n)
  {
    var c := CollapseSpaces(Prepared(s));
    CollapsedOfPrepared(Prepared(s));
    StripOfCollapsed(c);
    Strip(c)
  }

  /** Stripping keeps a collapsed text collapsed: it returns a slice. */
  lemma StripOfCollapsed(c: string)
    requires IsCollapsed(c)
    ensures IsCollapsed(Strip(c))
  {
    StripSlice(c);
    CollapsedSlice(c, StripStart(c), StripStart(c) + |Strip(c)|);
  }

  lemma UpperNoop(s: string)
    requires forall i :: 0 <= i < |s| ==> IsAscii(s[i]) && !IsAsciiLower(s[i])
    ensures Upper(s) == s
  {
  }

  lemma ReplaceNoop(s: string, a: char, b: char)
    requires a !in s
    ensures ReplaceChar(s, a, b) == s
  {
  }

  /** A normal name normalises to itself. */
  lemma NormalizeNoop(n: string)
    requires IsNormal(n)
    ensures Normalize(n) == n
  {
    FoldAscii(n);
    UpperNoop(n);
    assert '-' !in n && '_' !in n;
    ReplaceNoop(n, '-', ' ');
    ReplaceNoop(n, '_', ' ');
    assert Prepared(n) == n;
    CollapseSpacesNoop(n);
    StripNoop(n);
  }

  /** normalizar is idempotent. */
  lemma NormalizeIdempotent(s: string)
    ensures Normalize(Normalize(s)) == Normalize(s)
  {
    NormalizeNoop(Normalize(s));
  }

  // ---------------------------------------------------------------------
  // extrair_formato

  const NoFormat := "SEM_FORMATO"

  /** A format token: non-empty, space-free, upper-case, with an X. */
  predicate IsFormatToken(r: string) {
    && r != []
    && ' ' !in r
    && 'X' in r
    && forall i :: 0 <= i < |r| ==> !IsAsciiLower(r[i])
  }

  /** The placeholder cannot be mistaken for an extracted size. */
  lemma NoFormatIsNoToken()
    ensures !IsFormatToken(NoFormat)
  {
    assert forall i :: 0 <= i < |NoFormat| ==> NoFormat[i] != 'X';
  }

  /** The upper-cased match of one of the two patterns, "" if none. */
  function UpperMatch(p: Pattern, nome: string): (r: string)
    requires p == OrganizerCmPattern || p == OrganizerBarePattern
    ensures r == [] <==> !HasMatch(p, RemoveSpaces(nome))
    ensures r != [] ==> IsFormatToken(r)
  {
    var m := ExtractWith(p, nome);
    if m != [] then
      MatchHasX(p, nome);
      Upper(m)
    else Upper(m)
  }

  /** An extracted size is space-free and holds an x; upper-casing leaves no
      lower-case letter and turns the x into an X. */
  lemma MatchHasX(p: Pattern, nome: string)
    requires ExtractWith(p, nome) != []
    ensures IsFormatToken(Upper(ExtractWith(p, nome)))
  {
    var m := ExtractWith(p, nome);
    var r := Upper(m);
    var t := RemoveSpaces(nome);
    var i: nat, e: nat :| IsLeftmostLongest(p, t, i, e) && m == t[i..e];
    var k: nat, q: nat :| SplitsAt(p, t, i, k, q, e);
    UpperOfSize(t, i, k, e);
  }

  lemma UpperOfSize(t: string, i: nat, k: nat, e: nat)
    requires i <= k < e <= |t| && IsX(t[k]) && ' ' !in t
    ensures IsFormatToken(Upper(t[i..e]))
  {
    var m := t[i..e];
    var r := Upper(m);
    assert m[k - i] == t[k];
    assert r[k - i] == 'X';
    forall j | 0 <= j < |r| ensures r[j] != ' ' {
      assert m[j] == t[i + j];
    }
  }

  /** extrair_formato(nome): the cm pattern first, then the bare one, else
      the placeholder. */
  function FormatOf(nome: string): (r: string)
    ensures r == NoFormat || IsFormatToken(r)
    ensures r == NoFormat <==> !HasMatch(OrganizerBarePattern, RemoveSpaces(nome)) && !HasMatch(OrganizerCmPattern, RemoveSpaces(nome))
  {
    var cm := UpperMatch(OrganizerCmPattern, nome);
    NoFormatIsNoToken();
    if cm != [] then cm
    else
      var bare := UpperMatch(OrganizerBarePattern, nome);
      if bare != [] then bare
      else NoFormat
  }

  /** A cm-suffixed size anywhere wins over a bare size further left: the
      result is the leftmost cm match, upper-cased. */
  lemma CmTakesPrecedence(nome: string, i: nat, e: nat)
    requires IsLeftmostLongest(OrganizerCmPattern, RemoveSpaces(nome), i, e)
    ensures FormatOf(nome) == Upper(RemoveSpaces(nome)[i..e])
  {
    var t := RemoveSpaces(nome);
    var m := ExtractWith(OrganizerCmPattern, nome);
    assert HasMatch(OrganizerCmPattern, t);
    var i2: nat, e2: nat :| IsLeftmostLongest(OrganizerCmPattern, t, i2, e2) && m == t[i2..e2];
    LeftmostLongestUnique(OrganizerCmPattern, t, i, e, i2, e2);
  }

  /** Without a cm size, the leftmost bare size, upper-cased. */
  lemma BareFallback(nome: string, i: nat, e: nat)
    requires !HasMatch(OrganizerCmPattern, RemoveSpaces(nome))
    requires IsLeftmostLongest(OrganizerBarePattern, RemoveSpaces(nome), i, e)
    ensures FormatOf(nome) == Upper(RemoveSpaces(nome)[i..e])
  {
    var t := RemoveSpaces(nome);
    var m := ExtractWith(OrganizerBarePattern, nome);
    assert HasMatch(OrganizerBarePattern, t);
    var i2: nat, e2: nat :| IsLeftmostLongest(OrganizerBarePattern, t, i2, e2) && m == t[i2..e2];
    LeftmostLongestUnique(OrganizerBarePattern, t, i, e, i2, e2);
  }

  /** A lower-case size is filed under its upper-cased form. */
  lemma FormatIsUpperCased()
    ensures FormatOf("20x20cm") == "20X20CM"
  {
    var t := "20x20cm";
    assert ' ' !in t;
    assert NumberIn(false, t, 0, 2);
    assert NumberIn(false, t, 3, 5);
    assert SplitsAt(OrganizerCmPattern, t, 0, 2, 5, 7);
    ExtractWhole(OrganizerCmPattern, t);
    UpperSize();
  }

  lemma UpperSize()
    ensures Upper("20x20cm") == "20X20CM"
  {
    var u := Upper("20x20cm");
    forall i | 0 <= i < 7 ensures u[i] == "20X20CM"[i] { }
  }

  // ---------------------------------------------------------------------
  // CATEGORIAS

  /** The category table, in declaration order; each entry's keywords are
      tried in order. */
  datatype Category = Externo | Polido | Acetinado | Natural | Decor | Vinilico

  const Categories: seq<Category> := [Externo, Polido, Acetinado, Natural, Decor, Vinilico]

  function Keywords(c: Category): seq<string> {
    match c
    case Externo => ["EXTERNO", "EXT"]
    case Polido => ["POLIDO"]
    case Acetinado => ["ACETINADO"]
    case Natural => ["NATURAL"]
    case Decor => ["DECOR", "DECORACAO"]
    case Vinilico => ["VINILICO"]
  }

  /** The name of the category's directory. */
  function CategoryName(c: Category): string {
    match c
    case Externo => "EXTERNO"
    case Polido => "POLIDO"
    case Acetinado => "ACETINADO"
    case Natural => "NATURAL"
    case Decor => "DECOR"
    case Vinilico => "VINILICO"
  }

  predicate HasKeyword(n: string, c: Category) {
    AnyOccurs(n, Keywords(c))
  }

  /** The inner for loop with break over one entry's keywords. */
  method AnyKeyword(n: string, palavras: seq<string>) returns (found: bool)
    ensures found <==> AnyOccurs(n, palavras)
  {
    var k := 0;
    while k < |palavras|
      invariant 0 <= k <= |palavras|
      invariant forall j :: 0 <= j < k ==> !ContainsSub(n, palavras[j])
    {
      if ContainsSub(n, palavras[k]) {
        return true;
      }
      k := k + 1;
    }
    return false;
  }

  /** cats[j] is the first category in cats with a keyword in n. */
  predicate IsFirstCategory(n: string, cats: seq<Category>, j: int) {
    && 0 <= j < |cats|
    && HasKeyword(n, cats[j])
    && forall j' :: 0 <= j' < j ==> !HasKeyword(n, cats[j'])
  }

  /** The first category in cats with a keyword in n. */
  function FirstCategory(n: string, cats: seq<Category>): (r: Option<Category>)
    ensures r.None? <==> forall j :: 0 <= j < |cats| ==> !HasKeyword(n, cats[j])
    ensures r.Some? ==> exists j :: IsFirstCategory(n, cats, j) && cats[j] == r.value
  {
    if cats == [] then None
    else if HasKeyword(n, cats[0]) then
      assert IsFirstCategory(n, cats, 0);
      Some(cats[0])
    else
      var r := FirstCategory(n, cats[1..]);
      assert forall j :: 1 <= j < |cats| ==> cats[j] == cats[1..][j - 1];
      if r.Some? then
        var j :| IsFirstCategory(n, cats[1..], j) && cats[1..][j] == r.value;
        assert IsFirstCategory(n, cats, j + 1);
        r
      else r
  }

  /** The category detection of organizar_itens. */
  function Detect(n: string): Option<Category> {
    FirstCategory(n, Categories)
  }

  /** The category table lookup of organizar_itens. */
  method DetectCategory(nomeNorm: string) returns (categoria: Option<Category>)
    ensures categoria == Detect(nomeNorm)
  {
    categoria := ScanCategories(nomeNorm, Categories);
  }

  /** The nested for loops with break over a table and its keywords. */
  method ScanCategories(nomeNorm: string, cats: seq<Category>) returns (categoria: Option<Category>)
    ensures categoria == FirstCategory(nomeNorm, cats)
  {
    categoria := None;
    var ci := 0;
    while ci < |cats|
      invariant 0 <= ci <= |cats|
      invariant categoria.None?
      invariant FirstCategory(nomeNorm, cats) == FirstCategory(nomeNorm, cats[ci..])
    {
      var cat := cats[ci];
      var found := AnyKeyword(nomeNorm, Keywords(cat));
      if found {
        categoria := Some(cat);
      }
      if categoria.Some? {
        assert HasKeyword(nomeNorm, cat);
        return;
      }
      assert !HasKeyword(nomeNorm, cat);
      assert cats[ci..][1..] == cats[ci + 1..];
      ci := ci + 1;
    }
  }

  lemma ExtInExterno(n: string)
    requires ContainsSub(n, "EXTERNO")
    ensures ContainsSub(n, "EXT")
  {
    var i: nat :| OccursAt(n, "EXTERNO", i);
    assert n[i..i + 3] == "EXTERNO"[..3];
    assert OccursAt(n, "EXT", i);
  }

  /** A name is filed as EXTERNO exactly when it contains "EXT": the
      "EXTERNO" keyword is subsumed, TEXTURA is exterior, and a name with
      both EXTERNO and NATURAL is exterior. */
  lemma ExternoIffExt(n: string)
    ensures Detect(n) == Some(Externo) <==> ContainsSub(n, "EXT")
  {
    if ContainsSub(n, "EXTERNO") { ExtInExterno(n); }
    if ContainsSub(n, "EXT") {
      assert Keywords(Externo)[1] == "EXT";
      assert HasKeyword(n, Categories[0]);
    } else {
      assert !HasKeyword(n, Externo);
    }
  }

  lemma TexturaIsExterno()
    ensures Detect("PISO TEXTURA") == Some(Externo)
  {
    assert OccursAt("PISO TEXTURA", "EXT", 6);
    ExternoIffExt("PISO TEXTURA");
  }

  /** A name is left uncategorised exactly when no keyword of any entry
      occurs in it. */
  lemma NoCategoryIffNoKeyword(n: string)
    ensures Detect(n).None? <==> forall c: Category :: !HasKeyword(n, c)
  {
    if Detect(n).None? {
      forall c: Category ensures !HasKeyword(n, c) {
        assert c == Categories[IndexOfCategory(c)];
      }
    }
  }

  function IndexOfCategory(c: Category): (i: nat)
    ensures i < |Categories| && Categories[i] == c
  {
    match c
    case Externo => 0
    case Polido => 1
    case Acetinado => 2
    case Natural => 3
    case Decor => 4
    case Vinilico => 5
  }

  // ---------------------------------------------------------------------
  // organizar_itens

  const RootBiancogres := "BIANCOGRES"
  const RootVillagres := "VILLAGRES"

  /** An entry of os.listdir(raiz), with os.path.isdir of its path. */
  datatype Entry = Entry(name: string, isDir: bool)

  /** The destination VENDOR/CATEGORY/FORMAT/name, relative to the root. */
  datatype Dest = Dest(vendor: string, category: Category, format: string, name: string)

  /** The destination as path components below the root; the last is the
      entry's own, unstripped name. */
  function DestPath(d: Dest): (p: seq<string>)
    ensures |p| == 4 && p[0] == d.vendor && p[3] == d.name
  {
    [d.vendor, CategoryName(d.category), d.format, d.name]
  }

  /** The "already organised" test compares raiz/nome with its destination:
      the two paths differ in depth, so the test never holds for an entry
      of the root. */
  lemma AlreadyOrganisedNeverHolds(d: Dest)
    ensures DestPath(d) != [d.name]
  {
    assert |DestPath(d)| != |[d.name]|;
  }

  /** Files and the two vendor roots are not counted. */
  predicate IsSkipped(e: Entry) {
    !e.isDir || e.name == RootBiancogres || e.name == RootVillagres
  }

  /** The vendor root: BIANCOGRES for names ending in the full stop. */
  function VendorOf(nome: string): (v: string)
    ensures v == RootBiancogres <==> EndsWith(nome, [Biancogres.FullStop])
  {
    if EndsWith(nome, [Biancogres.FullStop]) then RootBiancogres else RootVillagres
  }

  /** The destination of a counted folder, or None when it has no
      category: category and format come from the name without its
      trailing full stops. */
  function Plan(nome: string): Option<Dest> {
    var limpo := RStripChar(nome, Biancogres.FullStop);
    var cat := Detect(Normalize(limpo));
    if cat.None? then None else Some(Dest(VendorOf(nome), cat.value, FormatOf(limpo), nome))
  }

  /** What organizar_itens decides for one entry before the move. */
  datatype Verdict = Skipped | Uncategorised | Categorised(dest: Dest)

  function VerdictOf(e: Entry): Verdict {
    if IsSkipped(e) then Skipped
    else
      var plan := Plan(e.name);
      if plan.None? then Uncategorised else Categorised(plan.value)
  }

  function Verdicts(listing: seq<Entry>): (vs: seq<Verdict>)
    ensures |vs| == |listing|
  {
    if listing == [] then []
    else [VerdictOf(listing[0])] + Verdicts(listing[1..])
  }

  lemma {:induction false} VerdictsAt(listing: seq<Entry>, k: nat)
    requires k < |listing|
    ensures Verdicts(listing)[k] == VerdictOf(listing[k])
  {
    if k > 0 { VerdictsAt(listing[1..], k - 1); }
  }

  /** The entry at position k is moved: categorised, and the move succeeds. */
  predicate IsMoved(vs: seq<Verdict>, moveOk: nat -> bool, k: nat)
    requires k < |vs|
  {
    vs[k].Categorised? && moveOk(k)
  }

  /** The counters and the format set. */
  datatype Stats = Stats(total: nat, organised: nat, uncategorised: nat, formats: set<string>)

  /** The statistics after the first n verdicts. */
  function Tally(vs: seq<Verdict>, moveOk: nat -> bool, n: nat): Stats
    requires n <= |vs|
  {
    if n == 0 then Stats(0, 0, 0, {})
    else
      var s := Tally(vs, moveOk, n - 1);
      match vs[n - 1]
      case Skipped => s
      case Uncategorised => Stats(s.total + 1, s.organised, s.uncategorised + 1, s.formats)
      case Categorised(d) =>
        Stats(s.total + 1, s.organised + (if moveOk(n - 1) then 1 else 0), s.uncategorised, s.formats + {d.format})
  }

  /** The entries of the first n that are still in the root. */
  function Kept(listing: seq<Entry>, vs: seq<Verdict>, moveOk: nat -> bool, n: nat): seq<Entry>
    requires n <= |listing| == |vs|
  {
    if n == 0 then []
    else Kept(listing, vs, moveOk, n - 1) + (if IsMoved(vs, moveOk, n - 1) then [] else [listing[n - 1]])
  }

  /** One more entry of the listing: a moved entry leaves the directory at
      its position, any other one stays there. */
  lemma KeptStep(listing: seq<Entry>, vs: seq<Verdict>, moveOk: nat -> bool, k: nat, cur: seq<Entry>, pos: nat)
    requires k < |listing| == |vs|
    requires cur == Kept(listing, vs, moveOk, k) + listing[k..]
    requires pos == |Kept(listing, vs, moveOk, k)|
    ensures pos < |cur|
    ensures IsMoved(vs, moveOk, k) ==>
      cur[..pos] + cur[pos + 1..] == Kept(listing, vs, moveOk, k + 1) + listing[k + 1..]
      && pos == |Kept(listing, vs, moveOk, k + 1)|
    ensures !IsMoved(vs, moveOk, k) ==>
      cur == Kept(listing, vs, moveOk, k + 1) + listing[k + 1..]
      && pos + 1 == |Kept(listing, vs, moveOk, k + 1)|
  {
    var kk := Kept(listing, vs, moveOk, k);
    var x, rest := listing[k], listing[k + 1..];
    HeadRest(listing[k..]);
    assert listing[k..][1..] == rest;
    if IsMoved(vs, moveOk, k) {
      assert Kept(listing, vs, moveOk, k + 1) == kk + [];
      DropAt(kk, x, rest);
    } else {
      assert Kept(listing, vs, moveOk, k + 1) == kk + [x];
      KeepAt(kk, x, rest);
    }
  }

  lemma DropAt<T>(kk: seq<T>, x: T, rest: seq<T>)
    ensures var c := kk + ([x] + rest);
      |kk| < |c| && c[..|kk|] + c[|kk| + 1..] == kk + [] + rest
  {
    var c := kk + ([x] + rest);
    assert c[..|kk|] == kk;
    assert c[|kk| + 1..] == rest;
  }

  lemma KeepAt<T>(kk: seq<T>, x: T, rest: seq<T>)
    ensures kk + ([x] + rest) == kk + [x] + rest
  {
  }

  /** The folders the first n entries put under the vendor trees. */
  function Filed(vs: seq<Verdict>, moveOk: nat -> bool, n: nat): set<Dest>
    requires n <= |vs|
  {
    if n == 0 then {}
    else Filed(vs, moveOk, n - 1) + (if IsMoved(vs, moveOk, n - 1) then {vs[n - 1].dest} else {})
  }

  /** The VENDOR/CATEGORY/FORMAT directories made for the first n entries:
      one per categorised folder, whether its move succeeds or not. */
  function FormatDirs(vs: seq<Verdict>, n: nat): set<(string, Category, string)>
    requires n <= |vs|
  {
    if n == 0 then {}
    else
      FormatDirs(vs, n - 1)
      + (if vs[n - 1].Categorised? then {(vs[n - 1].dest.vendor, vs[n - 1].dest.category, vs[n - 1].dest.format)} else {})
  }

  /** The steps of the loop body up to the destination. */
  method Classify(e: Entry) returns (v: Verdict)
    ensures v == VerdictOf(e)
  {
    var nome := e.name;
    if !e.isDir || nome == RootBiancogres || nome == RootVillagres {
      return Skipped;
    }
    var destinoRoot := if EndsWith(nome, [Biancogres.FullStop]) then RootBiancogres else RootVillagres;
    var limpo := RStripChar(nome, Biancogres.FullStop);
    var categoria := DetectCategory(Normalize(limpo));
    if categoria.None? {
      return Uncategorised;
    }
    var formato := FormatOf(limpo);
    return Categorised(Dest(destinoRoot, categoria.value, formato, nome));
  }

  /** Classify the k-th entry of a listing. */
  method ClassifyAt(listing: seq<Entry>, k: nat) returns (v: Verdict)
    requires k < |listing|
    ensures v == Verdicts(listing)[k]
  {
    v := Classify(listing[k]);
    VerdictsAt(listing, k);
  }

  /** The drive root: its listing, the folders under the vendor trees and
      the format directories made there.  shutil.move succeeds or fails as
      the oracle moveOk says for each position of the listing. */
  class Drive {
    var entries: seq<Entry>
    var filed: set<Dest>
    var formatDirs: set<(string, Category, string)>

    constructor (listing: seq<Entry>)
      ensures entries == listing && filed == {} && formatDirs == {}
    {
      entries := listing;
      filed := {};
      formatDirs := {};
    }

    /** The state after the loop has seen the first k entries of the
        listing: the counters, the position of entry k in the root's
        current list, and what has been moved and created so far. */
    ghost predicate Progress(listing: seq<Entry>, vs: seq<Verdict>, moveOk: nat -> bool, k: nat, pos: nat, s: Stats,
                             filed0: set<Dest>, dirs0: set<(string, Category, string)>)
      reads this
      requires k <= |listing| == |vs|
    {
      && s == Tally(vs, moveOk, k)
      && pos == |Kept(listing, vs, moveOk, k)|
      && entries == Kept(listing, vs, moveOk, k) + listing[k..]
      && filed == filed0 + Filed(vs, moveOk, k)
      && formatDirs == dirs0 + FormatDirs(vs, k)
    }

    /** One pass of the loop of organizar_itens over the entry at index k
        of the listing, whose verdict is v: count it, make its format
        directory, and move it out of the root when the move succeeds. */
    method FileEntry(ghost listing: seq<Entry>, ghost vs: seq<Verdict>, moveOk: nat -> bool, k: nat, v: Verdict,
                     pos: nat, s: Stats, ghost filed0: set<Dest>, ghost dirs0: set<(string, Category, string)>)
      returns (pos': nat, s': Stats)
      modifies this
      requires k < |listing| == |vs| && v == vs[k]
      requires Progress(listing, vs, moveOk, k, pos, s, filed0, dirs0)
      ensures Progress(listing, vs, moveOk, k + 1, pos', s', filed0, dirs0)
    {
      KeptStep(listing, vs, moveOk, k, entries, pos);
      pos', s' := pos, s;
      match v {
      case Skipped =>
        pos' := pos + 1;
      case Uncategorised =>
        s' := Stats(s.total + 1, s.organised, s.uncategorised + 1, s.formats);
        pos' := pos + 1;
      case Categorised(destino) =>
        s' := Stats(s.total + 1, s.organised, s.uncategorised, s.formats + {destino.format});
        formatDirs := formatDirs + {(destino.vendor, destino.category, destino.format)};
        if moveOk(k) {
          entries := entries[..pos] + entries[pos + 1..];
          filed := filed + {destino};
          s' := s'.(organised := s'.organised + 1);
        } else {
          pos' := pos + 1;
        }
      }
    }

    /** organizar_itens(raiz) */
    method OrganizeItems(moveOk: nat -> bool) returns (stats: Stats)
      modifies this
      ensures var vs := Verdicts(old(entries));
        && stats == Tally(vs, moveOk, |vs|)
        && entries == Kept(old(entries), vs, moveOk, |vs|)
        && filed == old(filed) + Filed(vs, moveOk, |vs|)
        && formatDirs == old(formatDirs) + FormatDirs(vs, |vs|)
    {
      var listing := entries;
      ghost var vs := Verdicts(listing);
      var total, organizadas, semCategoria := 0, 0, 0;
      var formatos: set<string> := {};
      var pos := 0;
      var k := 0;
      while k < |listing|
        invariant 0 <= k <= |listing|
        invariant Progress(listing, vs, moveOk, k, pos, Stats(total, organizadas, semCategoria, formatos),
                           old(filed), old(formatDirs))
      {
        var v := ClassifyAt(listing, k);
        var s;
        pos, s := FileEntry(listing, vs, moveOk, k, v, pos, Stats(total, organizadas, semCategoria, formatos),
                           old(filed), old(formatDirs));
        total, organizadas, semCategoria, formatos := s.total, s.organised, s.uncategorised, s.formats;
        k := k + 1;
      }
      assert listing[k..] == [];
      stats := Stats(total, organizadas, semCategoria, formatos);
    }
  }

  /** Counters: at most one of organised and uncategorised per counted
      folder, and at most one counted folder per entry. */
  lemma {:induction false} TallyBounds(vs: seq<Verdict>, moveOk: nat -> bool, n: nat)
    requires n <= |vs|
    ensures var s := Tally(vs, moveOk, n);
      s.organised + s.uncategorised <= s.total <= n
  {
    if n > 0 { TallyBounds(vs, moveOk, n - 1); }
  }

  /** The format set holds exactly the formats of the categorised folders,
      moved or not. */
  lemma {:induction false} FormatsOfCategorised(vs: seq<Verdict>, moveOk: nat -> bool, n: nat, f: string)
    requires n <= |vs|
    ensures f in Tally(vs, moveOk, n).formats <==>
      exists i :: 0 <= i < n && vs[i].Categorised? && vs[i].dest.format == f
  {
    if n > 0 {
      FormatsOfCategorised(vs, moveOk, n - 1, f);
      if vs[n - 1].Categorised? && vs[n - 1].dest.format == f {
        assert f in Tally(vs, moveOk, n).formats;
      }
    }
  }

  /** An entry that is not moved stays in the root. */
  lemma {:induction false} NotMovedStays(listing: seq<Entry>, vs: seq<Verdict>, moveOk: nat -> bool, n: nat, i: nat)
    requires i < n <= |listing| == |vs|
    requires !IsMoved(vs, moveOk, i)
    ensures listing[i] in Kept(listing, vs, moveOk, n)
  {
    if i < n - 1 { NotMovedStays(listing, vs, moveOk, n - 1, i); }
  }

  /** A moved entry is filed under its destination. */
  lemma {:induction false} MovedIsFiled(vs: seq<Verdict>, moveOk: nat -> bool, n: nat, i: nat)
    requires i < n <= |vs| && IsMoved(vs, moveOk, i)
    ensures vs[i].dest in Filed(vs, moveOk, n)
  {
    if i < n - 1 { MovedIsFiled(vs, moveOk, n - 1, i); }
  }

  /** Every filed folder comes from a moved entry. */
  lemma {:induction false} FiledFromMoved(vs: seq<Verdict>, moveOk: nat -> bool, n: nat, d: Dest)
    requires n <= |vs| && d in Filed(vs, moveOk, n)
    ensures exists i :: 0 <= i < n && IsMoved(vs, moveOk, i) && vs[i].dest == d
  {
    if d !in Filed(vs, moveOk, n - 1) {
      assert IsMoved(vs, moveOk, n - 1) && vs[n - 1].dest == d;
    } else {
      FiledFromMoved(vs, moveOk, n - 1, d);
    }
  }

  /** A categorised entry is a counted directory whose destination sits
      under one of the two roots, which a later run skips, and keeps the
      entry's own, unstripped name. */
  lemma CategorisedDest(e: Entry)
    requires VerdictOf(e).Categorised?
    ensures var d := VerdictOf(e).dest;
      && !IsSkipped(e)
      && (d.vendor == RootBiancogres || d.vendor == RootVillagres)
      && d.name == e.name
  {
  }

  /** Every filed folder comes from a counted directory of the listing and
      sits under one of the two roots. */
  lemma FiledUnderRoots(listing: seq<Entry>, vs: seq<Verdict>, moveOk: nat -> bool, d: Dest)
    requires |vs| == |listing| && forall k :: 0 <= k < |vs| ==> vs[k] == VerdictOf(listing[k])
    requires d in Filed(vs, moveOk, |vs|)
    ensures d.vendor == RootBiancogres || d.vendor == RootVillagres
    ensures exists i :: 0 <= i < |listing| && listing[i].name == d.name && !IsSkipped(listing[i])
  {
    FiledFromMoved(vs, moveOk, |vs|, d);
    var i :| 0 <= i < |vs| && IsMoved(vs, moveOk, i) && vs[i].dest == d;
    CategorisedDest(listing[i]);
  }

  /** A folder with no category is counted and never moved. */
  lemma UncategorisedStays(listing: seq<Entry>, vs: seq<Verdict>, moveOk: nat -> bool, i: nat)
    requires i < |listing| == |vs| && vs[i] == Uncategorised
    ensures listing[i] in Kept(listing, vs, moveOk, |listing|)
  {
    NotMovedStays(listing, vs, moveOk, |listing|, i);
  }

  /** With the distinct destinations of a listing with distinct names,
      organised counts the folders filed. */
  lemma {:induction false} OrganisedCountsFiled(vs: seq<Verdict>, moveOk: nat -> bool, n: nat)
    requires n <= |vs|
    requires forall i, j :: 0 <= i < j < |vs| && vs[i].Categorised? && vs[j].Categorised? ==> vs[i].dest != vs[j].dest
    ensures Tally(vs, moveOk, n).organised == |Filed(vs, moveOk, n)|
  {
    if n > 0 {
      OrganisedCountsFiled(vs, moveOk, n - 1);
      if IsMoved(vs, moveOk, n - 1) {
        if vs[n - 1].dest in Filed(vs, moveOk, n - 1) {
          FiledFromMoved(vs, moveOk, n - 1, vs[n - 1].dest);
        }
      }
    }
  }

  /** Entries with distinct names get distinct destinations. */
  lemma DistinctDests(listing: seq<Entry>)
    requires forall i, j :: 0 <= i < j < |listing| ==> listing[i].name != listing[j].name
    ensures var vs := Verdicts(listing);
      forall i, j :: 0 <= i < j < |vs| && vs[i].Categorised? && vs[j].Categorised? ==> vs[i].dest != vs[j].dest
  {
    var vs := Verdicts(listing);
    forall i, j | 0 <= i < j < |vs| && vs[i].Categorised? && vs[j].Categorised?
      ensures vs[i].dest != vs[j].dest
    {
      VerdictsAt(listing, i);
      VerdictsAt(listing, j);
      CategorisedDest(listing[i]);
      CategorisedDest(listing[j]);
    }
  }

  /** Every folder name built for a BiancoGres product is routed to the
      BIANCOGRES root. */
  lemma BiancogresFoldersRouted(produto: string, acabamento: string, formato: string)
    ensures VendorOf(Biancogres.FolderNameOf(produto, acabamento, formato)) == RootBiancogres
  {
    var r := Biancogres.FolderNameOf(produto, acabamento, formato);
    assert r[|r| - 1..] == [Biancogres.FullStop];
  }
}
