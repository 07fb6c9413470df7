/** The "format" regular expressions of the three scripts (sizes such as
    20X141,50cm or 23,8x150), as one family of patterns

      NUMBER [Xx] NUMBER [cm]

    where NUMBER is either `\d+,?\d*` (loose) or `\d+(?:,\d+)?` (strict)
    and the cm suffix is required, optional or absent.  Each pattern is given
    twice: as a language (InLanguage, what the regular expression denotes) and
    as a scanner (ScanAt, what re.search computes at one start position, with
    Python's greedy backtracking).  Search is re.search: the leftmost start
    position that matches, and there the longest match, which is the one
    greedy backtracking returns for these patterns. */
module Formats {
  import opened Text

  datatype CmSuffix = Required | Optional | Absent

  datatype Pattern = Pattern(looseNumbers: bool, cm: CmSuffix, ignoreCase: bool)

  /** Bot_vilagress.py: (\d+,?\d*X\d+,?\d*cm) with re.IGNORECASE */
  const VillagresPattern := Pattern(true, Required, true)
  /** biancogress.py: (\d+(?:,\d+)?[Xx]\d+(?:,\d+)?(?:cm)?) with re.IGNORECASE */
  const BiancogresPattern := Pattern(false, Optional, true)
  /** biancogress.py, page scan: the same pattern without re.IGNORECASE */
  const BiancogresProbePattern := Pattern(false, Optional, false)
  /** ORGANIZA_DRIVE.py, first attempt: (\d+(?:,\d+)?X\d+(?:,\d+)?CM) with re.IGNORECASE */
  const OrganizerCmPattern := Pattern(false, Required, true)
  /** ORGANIZA_DRIVE.py, second attempt: (\d+(?:,\d+)?X\d+(?:,\d+)?) with re.IGNORECASE */
  const OrganizerBarePattern := Pattern(false, Absent, true)

  predicate IsX(c: char) { c == 'X' || c == 'x' }
  predicate IsC(p: Pattern, c: char) { c == 'c' || (p.ignoreCase && c == 'C') }
  predicate IsM(p: Pattern, c: char) { c == 'm' || (p.ignoreCase && c == 'M') }

  /** Every character a match can contain. */
  predicate IsFormatChar(c: char) {
    IsDigit(c) || c == ',' || IsX(c) || c == 'c' || c == 'C' || c == 'm' || c == 'M'
  }

  // ---------------------------------------------------------------------
  // The languages

  /** t[lo..hi] is a `\d+,?\d*` (loose) or `\d+(?:,\d+)?` (strict) number:
      a digit first, digits and at most one comma, and for strict numbers a
      digit last. */
  predicate NumberIn(loose: bool, t: string, lo: nat, hi: nat) {
    && lo < hi <= |t|
    && IsDigit(t[lo])
    && (forall q :: lo <= q < hi ==> IsDigit(t[q]) || t[q] == ',')
    && (forall q1, q2 :: lo <= q1 < q2 < hi && t[q1] == ',' ==> t[q2] != ',')
    && (!loose ==> IsDigit(t[hi - 1]))
  }

  /** t[m..j] is the cm suffix as the pattern allows it. */
  predicate CmAt(p: Pattern, t: string, m: nat, j: nat) {
    var isCm := j == m + 2 && j <= |t| && IsC(p, t[m]) && IsM(p, t[m + 1]);
    match p.cm
    case Required => isCm
    case Optional => j == m || isCm
    case Absent => j == m
  }

  /** t[i..j] = NUMBER t[k..k+1] NUMBER t[m..j], with t[k] an x and t[m..j]
      the suffix. */
  predicate SplitsAt(p: Pattern, t: string, i: nat, k: nat, m: nat, j: nat) {
    && i < k < m <= j <= |t|
    && IsX(t[k])
    && NumberIn(p.looseNumbers, t, i, k)
    && NumberIn(p.looseNumbers, t, k + 1, m)
    && CmAt(p, t, m, j)
  }

  /** t[i..j] is a match of p. */
  ghost predicate MatchesAt(p: Pattern, t: string, i: nat, j: nat) {
    exists k: nat, m: nat :: SplitsAt(p, t, i, k, m, j)
  }

  /** w as a whole is a word of the pattern's language. */
  ghost predicate InLanguage(p: Pattern, w: string) {
    MatchesAt(p, w, 0, |w|)
  }

  ghost predicate HasMatch(p: Pattern, t: string) {
    exists i: nat, j: nat :: MatchesAt(p, t, i, j)
  }

  /** What re.search returns: the match t[i..e] starts further left than any
      other match, and is the longest of those starting at i. */
  ghost predicate IsLeftmostLongest(p: Pattern, t: string, i: nat, e: nat) {
    && MatchesAt(p, t, i, e)
    && (forall i': nat, j: nat :: i' < i ==> !MatchesAt(p, t, i', j))
    && (forall j: nat :: MatchesAt(p, t, i, j) ==> j <= e)
  }

  // ---------------------------------------------------------------------
  // The scanner

  /** End of the run of digits that starts at i. */
  function DigitEnd(t: string, i: nat): (e: nat)
    requires i <= |t|
    ensures i <= e <= |t|
    ensures forall k :: i <= k < e ==> IsDigit(t[k])
    ensures e == |t| || !IsDigit(t[e])
    decreases |t| - i
  {
    if i < |t| && IsDigit(t[i]) then DigitEnd(t, i + 1) else i
  }

  /** Greedy end of a number that starts with the digit t[i]. */
  function NumberEnd(loose: bool, t: string, i: nat): (e: nat)
    requires i < |t| && IsDigit(t[i])
    ensures i < e <= |t|
  {
    var a := DigitEnd(t, i);
    if loose then
      if a < |t| && t[a] == ',' then DigitEnd(t, a + 1) else a
    else
      if a + 1 < |t| && t[a] == ',' && IsDigit(t[a + 1]) then DigitEnd(t, a + 1) else a
  }

  /** The match greedy backtracking finds at start position i, as its end. */
  function ScanAt(p: Pattern, t: string, i: nat): Option<nat> {
    if i < |t| && IsDigit(t[i]) then
      var b := NumberEnd(p.looseNumbers, t, i);
      if b + 1 < |t| && IsX(t[b]) && IsDigit(t[b + 1]) then
        CmEnd(p, t, NumberEnd(p.looseNumbers, t, b + 1))
      else None
    else None
  }

  /** The end of the match once the second number ends at c: after the cm
      suffix, which greedy matching takes when it is there. */
  function CmEnd(p: Pattern, t: string, c: nat): Option<nat> {
    var hasCm := c + 1 < |t| && IsC(p, t[c]) && IsM(p, t[c + 1]);
    match p.cm
    case Required => if hasCm then Some(c + 2) else None
    case Optional => Some(if hasCm then c + 2 else c)
    case Absent => Some(c)
  }

  /** re.search: try the start positions from left to right. */
  function Search(p: Pattern, t: string, from: nat): Option<(nat, nat)>
    decreases |t| - from
  {
    if from >= |t| then None
    else match ScanAt(p, t, from)
      case Some(e) => Some((from, e))
      case None => Search(p, t, from + 1)
  }

  // ---------------------------------------------------------------------
  // Scanner against language

  lemma NumberEndIsNumber(loose: bool, t: string, i: nat)
    requires i < |t| && IsDigit(t[i])
    ensures NumberIn(loose, t, i, NumberEnd(loose, t, i))
  {
  }

  /** A number followed by a character that cannot continue it is exactly
      what NumberEnd reads. */
  lemma NumberEndStops(loose: bool, t: string, i: nat, e: nat)
    requires NumberIn(loose, t, i, e)
    requires e == |t| || (!IsDigit(t[e]) && t[e] != ',')
    ensures NumberEnd(loose, t, i) == e
  {
    var a := DigitEnd(t, i);
    assert a <= e;
    if a < e {
      assert t[a] == ',';
      if !loose { assert a + 1 < e; }
      DigitEndAt(t, a + 1, e);
    }
  }

  /** A number is never longer than what NumberEnd reads. */
  lemma NumberEndCovers(loose: bool, t: string, i: nat, e: nat)
    requires NumberIn(loose, t, i, e)
    ensures NumberEnd(loose, t, i) >= e
  {
    var a := DigitEnd(t, i);
    if a < e {
      assert t[a] == ',';
      if !loose { assert a + 1 < e; }
      DigitEndCovers(t, a + 1, e);
    }
  }

  lemma {:induction false} DigitEndAt(t: string, i: nat, e: nat)
    requires i <= e <= |t|
    requires forall k :: i <= k < e ==> IsDigit(t[k])
    requires e == |t| || !IsDigit(t[e])
    ensures DigitEnd(t, i) == e
    decreases e - i
  {
    if i < e { DigitEndAt(t, i + 1, e); }
  }

  lemma {:induction false} DigitEndCovers(t: string, i: nat, e: nat)
    requires i <= e <= |t|
    requires forall k :: i <= k < e ==> IsDigit(t[k])
    ensures DigitEnd(t, i) >= e
    decreases e - i
  {
    if i < e { DigitEndCovers(t, i + 1, e); }
  }

  /** What the scanner reports is a match. */
  lemma ScanSound(p: Pattern, t: string, i: nat)
    requires ScanAt(p, t, i).Some?
    ensures MatchesAt(p, t, i, ScanAt(p, t, i).value)
  {
    var b := NumberEnd(p.looseNumbers, t, i);
    var c := NumberEnd(p.looseNumbers, t, b + 1);
    assert ScanAt(p, t, i) == CmEnd(p, t, c);
    NumberEndIsNumber(p.looseNumbers, t, i);
    NumberEndIsNumber(p.looseNumbers, t, b + 1);
    CmEndSound(p, t, c);
    assert SplitsAt(p, t, i, b, c, CmEnd(p, t, c).value);
  }

  lemma CmEndSound(p: Pattern, t: string, c: nat)
    requires c <= |t| && CmEnd(p, t, c).Some?
    ensures CmAt(p, t, c, CmEnd(p, t, c).value)
  {
  }

  /** Every match starting at i is found by the scanner, and is no longer
      than what it reports; with a required suffix it is exactly that. */
  lemma ScanComplete(p: Pattern, t: string, i: nat, j: nat)
    requires MatchesAt(p, t, i, j)
    ensures ScanAt(p, t, i).Some?
    ensures j <= ScanAt(p, t, i).value
    ensures p.cm == Required ==> j == ScanAt(p, t, i).value
  {
    var k: nat, m: nat :| SplitsAt(p, t, i, k, m, j);
    NumberEndStops(p.looseNumbers, t, i, k);
    NumberEndCovers(p.looseNumbers, t, k + 1, m);
    var c := NumberEnd(p.looseNumbers, t, k + 1);
    if m < j {
      NumberEndStops(p.looseNumbers, t, k + 1, m);
    }
    assert ScanAt(p, t, i) == CmEnd(p, t, c);
    CmEndCovers(p, t, m, j, c);
  }

  /** The suffix scan covers any suffix the language allows after the
      second number, provided the number read greedily ends no earlier and
      exactly there when a suffix follows. */
  lemma CmEndCovers(p: Pattern, t: string, m: nat, j: nat, c: nat)
    requires CmAt(p, t, m, j) && m <= c <= |t| && (m < j ==> c == m)
    ensures CmEnd(p, t, c).Some?
    ensures j <= CmEnd(p, t, c).value
    ensures p.cm == Required ==> j == CmEnd(p, t, c).value
  {
  }

  // ---------------------------------------------------------------------
  // re.search semantics

  lemma MatchNotEmpty(p: Pattern, t: string, i: nat, j: nat)
    requires MatchesAt(p, t, i, j)
    ensures i + 3 <= j <= |t|
  {
  }

  /** At one start position the scanner decides the matches exactly. */
  lemma ScanExact(p: Pattern, t: string, i: nat)
    ensures ScanAt(p, t, i).None? ==> forall j: nat :: !MatchesAt(p, t, i, j)
    ensures ScanAt(p, t, i).Some? ==>
      && MatchesAt(p, t, i, ScanAt(p, t, i).value)
      && forall j: nat :: MatchesAt(p, t, i, j) ==> j <= ScanAt(p, t, i).value
  {
    if ScanAt(p, t, i).Some? {
      ScanSound(p, t, i);
    }
    forall j: nat | MatchesAt(p, t, i, j)
      ensures ScanAt(p, t, i).Some? && j <= ScanAt(p, t, i).value
    {
      ScanComplete(p, t, i, j);
    }
  }

  lemma NoMatchFrom(p: Pattern, t: string, from: nat, i: nat)
    requires forall j: nat :: !MatchesAt(p, t, from, j)
    requires forall i': nat, j: nat :: from + 1 <= i' < i ==> !MatchesAt(p, t, i', j)
    ensures forall i': nat, j: nat :: from <= i' < i ==> !MatchesAt(p, t, i', j)
  {
  }

  /** When re.search finds nothing, no position from `from` on matches. */
  lemma {:induction false} SearchNone(p: Pattern, t: string, from: nat)
    requires Search(p, t, from).None?
    ensures forall i: nat, j: nat :: from <= i ==> !MatchesAt(p, t, i, j)
    decreases |t| - from
  {
    if from >= |t| {
      forall i: nat, j: nat | from <= i ensures !MatchesAt(p, t, i, j) {
        if MatchesAt(p, t, i, j) { MatchNotEmpty(p, t, i, j); }
      }
    } else {
      ScanExact(p, t, from);
      assert Search(p, t, from) == Search(p, t, from + 1);
      SearchNone(p, t, from + 1);
    }
  }

  /** What re.search finds is the leftmost match from `from` on, and the
      longest one there. */
  lemma {:induction false} SearchSome(p: Pattern, t: string, from: nat)
    requires Search(p, t, from).Some?
    ensures var (i, e) := Search(p, t, from).value;
      && from <= i
      && MatchesAt(p, t, i, e)
      && (forall i': nat, j: nat :: from <= i' < i ==> !MatchesAt(p, t, i', j))
      && (forall j: nat :: MatchesAt(p, t, i, j) ==> j <= e)
    decreases |t| - from
  {
    ScanExact(p, t, from);
    if ScanAt(p, t, from).None? {
      var r := Search(p, t, from + 1);
      assert Search(p, t, from) == r;
      SearchSome(p, t, from + 1);
      NoMatchFrom(p, t, from, r.value.0);
    }
  }

  /** re.search(pattern, t) as a position pair: None exactly when t has no
      match, otherwise the leftmost-longest match. */
  function FindFirst(p: Pattern, t: string): (r: Option<(nat, nat)>)
    ensures r.None? <==> !HasMatch(p, t)
    ensures r.Some? ==> IsLeftmostLongest(p, t, r.value.0, r.value.1)
  {
    var r := Search(p, t, 0);
    if r.None? then SearchNone(p, t, 0); r
    else SearchSome(p, t, 0); r
  }

  /** With a required suffix, at most one match starts at each position. */
  lemma RequiredMatchUnique(p: Pattern, t: string, i: nat, j1: nat, j2: nat)
    requires p.cm == Required
    requires MatchesAt(p, t, i, j1) && MatchesAt(p, t, i, j2)
    ensures j1 == j2
  {
    ScanComplete(p, t, i, j1);
    ScanComplete(p, t, i, j2);
  }

  /** A match contains only digits, commas and the letters x, c, m. */
  lemma MatchChars(p: Pattern, t: string, i: nat, j: nat)
    requires MatchesAt(p, t, i, j)
    ensures forall q :: i <= q < j ==> IsFormatChar(t[q])
  {
    var k: nat, m: nat :| SplitsAt(p, t, i, k, m, j);
  }

  /** A match with a required suffix ends in c, m. */
  lemma RequiredMatchEndsInCm(p: Pattern, t: string, i: nat, j: nat)
    requires p.cm == Required && MatchesAt(p, t, i, j)
    ensures i + 2 <= j && IsC(p, t[j - 2]) && IsM(p, t[j - 1])
  {
    var k: nat, m: nat :| SplitsAt(p, t, i, k, m, j);
  }

  /** The text without a c cannot hold a match with a required suffix. */
  lemma NoCNoRequiredMatch(p: Pattern, t: string)
    requires p.cm == Required
    requires forall q :: 0 <= q < |t| ==> !IsC(p, t[q])
    ensures !HasMatch(p, t)
  {
    forall i: nat, j: nat ensures !MatchesAt(p, t, i, j) {
      if MatchesAt(p, t, i, j) { RequiredMatchEndsInCm(p, t, i, j); }
    }
  }

  /** The page-scan probe of the Biancogres script (no re.IGNORECASE) finds a
      match exactly when the case-insensitive extractor does: the suffix is
      optional, so case only decides whether it is taken. */
  lemma ProbeAgreesWithExtractor(t: string)
    ensures HasMatch(BiancogresProbePattern, t) <==> HasMatch(BiancogresPattern, t)
  {
    var p, q := BiancogresProbePattern, BiancogresPattern;
    forall i: nat ensures ScanAt(p, t, i).Some? <==> ScanAt(q, t, i).Some? { }
    if HasMatch(p, t) {
      var i: nat, j: nat :| MatchesAt(p, t, i, j);
      ScanComplete(p, t, i, j);
      ScanSound(q, t, i);
    }
    if HasMatch(q, t) {
      var i: nat, j: nat :| MatchesAt(q, t, i, j);
      ScanComplete(q, t, i, j);
      ScanSound(p, t, i);
    }
  }

  // ---------------------------------------------------------------------
  // The extractors: pattern.search(texto.replace(' ', ''))

  /** group(0) or group(1) of the search on the text with its spaces removed,
      or "" when there is no match. */
  function ExtractWith(p: Pattern, text: string): (r: string)
    ensures r == [] <==> !HasMatch(p, RemoveSpaces(text))
    ensures r != [] ==> exists i: nat, e: nat ::
      IsLeftmostLongest(p, RemoveSpaces(text), i, e) && r == RemoveSpaces(text)[i..e]
  {
    var t := RemoveSpaces(text);
    match FindFirst(p, t)
    case None => []
    case Some((i, e)) =>
      MatchNotEmpty(p, t, i, e);
      t[i..e]
  }

  /** re.search has one answer: two leftmost-longest matches coincide. */
  lemma LeftmostLongestUnique(p: Pattern, t: string, i1: nat, e1: nat, i2: nat, e2: nat)
    requires IsLeftmostLongest(p, t, i1, e1) && IsLeftmostLongest(p, t, i2, e2)
    ensures i1 == i2 && e1 == e2
  {
  }

  /** A space-free text that is one word of the language is extracted whole. */
  lemma ExtractWhole(p: Pattern, text: string)
    requires ' ' !in text
    requires MatchesAt(p, text, 0, |text|)
    ensures ExtractWith(p, text) == text
  {
    RemoveCharsNoop(text, {' '});
    FindWhole(p, text);
    ExtractOfFound(p, text, 0, |text|);
    assert text[0..|text|] == text;
  }

  lemma FindWhole(p: Pattern, text: string)
    requires MatchesAt(p, text, 0, |text|)
    ensures FindFirst(p, text) == Some((0, |text| as nat))
  {
    ScanComplete(p, text, 0, |text|);
    MatchNotEmpty(p, text, 0, |text|);
  }

  lemma ExtractOfFound(p: Pattern, text: string, i: nat, e: nat)
    requires FindFirst(p, RemoveSpaces(text)) == Some((i, e))
    ensures i <= e <= |RemoveSpaces(text)|
    ensures ExtractWith(p, text) == RemoveSpaces(text)[i..e]
  {
    MatchNotEmpty(p, RemoveSpaces(text), i, e);
  }

  /** With the cm suffix required, an extracted format ends in "cm" (in
      either case when the pattern ignores case). */
  lemma ExtractEndsInCm(p: Pattern, text: string)
    requires p.cm == Required
    ensures var r := ExtractWith(p, text);
      r != [] ==> |r| >= 2 && IsC(p, r[|r| - 2]) && IsM(p, r[|r| - 1])
  {
    var t := RemoveSpaces(text);
    var f := FindFirst(p, t);
    if f.Some? {
      var i, e := f.value.0, f.value.1;
      assert f == Some((i, e));
      ExtractOfFound(p, text, i, e);
      assert MatchesAt(p, t, i, e);
      RequiredMatchEndsInCm(p, t, i, e);
      CmTail(p, t, i, e);
    }
  }

  lemma CmTail(p: Pattern, t: string, i: nat, e: nat)
    requires i + 2 <= e <= |t| && IsC(p, t[e - 2]) && IsM(p, t[e - 1])
    ensures var r := t[i..e]; |r| >= 2 && IsC(p, r[|r| - 2]) && IsM(p, r[|r| - 1])
  {
  }

  /** With the cm suffix required, a text without a c has no format. */
  lemma NoCExtractsNothing(p: Pattern, text: string)
    requires p.cm == Required
    requires forall q :: 0 <= q < |text| ==> !IsC(p, text[q])
    ensures ExtractWith(p, text) == []
  {
    var t := RemoveSpaces(text);
    forall q | 0 <= q < |t| ensures !IsC(p, t[q]) {
      var q' :| 0 <= q' < |text| && text[q'] == t[q];
    }
    NoCNoRequiredMatch(p, t);
  }
}
