/** The page-title pattern of the Villagres script,
    ([A-Za-zÀ-ÖØ-öø-ÿ]+\s+-\s+[A-Za-zÀ-ÖØ-öø-ÿ]+), as a language and as a
    greedy scanner, with re.search as the leftmost-longest match. */
module Titles {
  import opened Text

  predicate IsTitleLetter(c: char) {
    'A' <= c <= 'Z' || 'a' <= c <= 'z' || 'À' <= c <= 'Ö' || 'Ø' <= c <= 'ö' || 'ø' <= c <= 'ÿ'
  }

  predicate AllIn(t: string, lo: nat, hi: nat, inRun: char -> bool)
    requires lo <= hi <= |t|
  {
    forall q :: lo <= q < hi ==> inRun(t[q])
  }

  /** t[i..j] is letters t[i..a], whitespace t[a..b], '-' at b, whitespace
      t[b+1..c] and letters t[c..j], each part non-empty. */
  predicate TitleSplitsAt(t: string, i: nat, a: nat, b: nat, c: nat, j: nat) {
    && i < a < b < c - 1 && c < j <= |t|
    && t[b] == '-'
    && AllIn(t, i, a, IsTitleLetter)
    && AllIn(t, a, b, IsSpace)
    && AllIn(t, b + 1, c, IsSpace)
    && AllIn(t, c, j, IsTitleLetter)
  }

  ghost predicate TitleMatchesAt(t: string, i: nat, j: nat) {
    exists a: nat, b: nat, c: nat :: TitleSplitsAt(t, i, a, b, c, j)
  }

  ghost predicate HasTitleMatch(t: string) {
    exists i: nat, j: nat :: TitleMatchesAt(t, i, j)
  }

  ghost predicate IsTitleLeftmostLongest(t: string, i: nat, e: nat) {
    && TitleMatchesAt(t, i, e)
    && (forall i': nat, j: nat :: i' < i ==> !TitleMatchesAt(t, i', j))
    && (forall j: nat :: TitleMatchesAt(t, i, j) ==> j <= e)
  }

  /** The greedy match at i: each run is taken as long as it goes. */
  function TitleScanAt(t: string, i: nat): Option<nat> {
    if i < |t| && IsTitleLetter(t[i]) then
      var a := RunEnd(t, i, IsTitleLetter);
      var b := RunEnd(t, a, IsSpace);
      if a < b < |t| && t[b] == '-' then
        var c := RunEnd(t, b + 1, IsSpace);
        if b + 1 < c < |t| && IsTitleLetter(t[c]) then Some(RunEnd(t, c, IsTitleLetter))
        else None
      else None
    else None
  }

  function TitleSearch(t: string, from: nat): Option<(nat, nat)>
    decreases |t| - from
  {
    if from >= |t| then None
    else match TitleScanAt(t, from)
      case Some(e) => Some((from, e))
      case None => TitleSearch(t, from + 1)
  }

  lemma TitleScanSound(t: string, i: nat)
    requires TitleScanAt(t, i).Some?
    ensures TitleMatchesAt(t, i, TitleScanAt(t, i).value)
  {
    var a := RunEnd(t, i, IsTitleLetter);
    var b := RunEnd(t, a, IsSpace);
    var c := RunEnd(t, b + 1, IsSpace);
    var j := RunEnd(t, c, IsTitleLetter);
    assert TitleSplitsAt(t, i, a, b, c, j);
  }

  /** The pieces of any match at i are the maximal runs, and the last run
      reaches at least as far as the match. */
  lemma TitleScanComplete(t: string, i: nat, j: nat)
    requires TitleMatchesAt(t, i, j)
    ensures TitleScanAt(t, i).Some? && j <= TitleScanAt(t, i).value
  {
    var a: nat, b: nat, c: nat :| TitleSplitsAt(t, i, a, b, c, j);
    RunEndAt(t, i, a, IsTitleLetter);
    RunEndAt(t, a, b, IsSpace);
    RunEndAt(t, b + 1, c, IsSpace);
    RunEndCovers(t, c, j, IsTitleLetter);
  }

  /** At one start position the scanner decides the matches exactly. */
  lemma TitleScanExact(t: string, i: nat)
    ensures TitleScanAt(t, i).None? ==> forall j: nat :: !TitleMatchesAt(t, i, j)
    ensures TitleScanAt(t, i).Some? ==>
      && TitleMatchesAt(t, i, TitleScanAt(t, i).value)
      && forall j: nat :: TitleMatchesAt(t, i, j) ==> j <= TitleScanAt(t, i).value
  {
    if TitleScanAt(t, i).Some? {
      TitleScanSound(t, i);
    }
    forall j: nat | TitleMatchesAt(t, i, j)
      ensures TitleScanAt(t, i).Some? && j <= TitleScanAt(t, i).value
    {
      TitleScanComplete(t, i, j);
    }
  }

  lemma TitleNoMatchFrom(t: string, from: nat, i: nat)
    requires forall j: nat :: !TitleMatchesAt(t, from, j)
    requires forall i': nat, j: nat :: from + 1 <= i' < i ==> !TitleMatchesAt(t, i', j)
    ensures forall i': nat, j: nat :: from <= i' < i ==> !TitleMatchesAt(t, i', j)
  {
  }

  /** When the search finds nothing, no position from `from` on matches. */
  lemma {:induction false} TitleSearchNone(t: string, from: nat)
    requires TitleSearch(t, from).None?
    ensures forall i: nat, j: nat :: from <= i ==> !TitleMatchesAt(t, i, j)
    decreases |t| - from
  {
    if from >= |t| {
      forall i: nat, j: nat | from <= i ensures !TitleMatchesAt(t, i, j) { }
    } else {
      TitleScanExact(t, from);
      assert TitleSearch(t, from) == TitleSearch(t, from + 1);
      TitleSearchNone(t, from + 1);
    }
  }

  /** What the search finds is the leftmost match from `from` on, and the
      longest one there. */
  lemma {:induction false} TitleSearchSome(t: string, from: nat)
    requires TitleSearch(t, from).Some?
    ensures var (i, e) := TitleSearch(t, from).value;
      && from <= i
      && TitleMatchesAt(t, i, e)
      && (forall i': nat, j: nat :: from <= i' < i ==> !TitleMatchesAt(t, i', j))
      && (forall j: nat :: TitleMatchesAt(t, i, j) ==> j <= e)
    decreases |t| - from
  {
    TitleScanExact(t, from);
    if TitleScanAt(t, from).None? {
      var r := TitleSearch(t, from + 1);
      assert TitleSearch(t, from) == r;
      TitleSearchSome(t, from + 1);
      TitleNoMatchFrom(t, from, r.value.0);
    }
  }

  /** re.search(title pattern, t): the span of the match, if any. */
  function FindTitle(t: string): (r: Option<(nat, nat)>)
    ensures r.None? <==> !HasTitleMatch(t)
    ensures r.Some? ==> IsTitleLeftmostLongest(t, r.value.0, r.value.1)
  {
    var r := TitleSearch(t, 0);
    if r.None? then TitleSearchNone(t, 0); r
    else TitleSearchSome(t, 0); r
  }

  /** A match starts and ends with a letter and has a '-' between two
      whitespace characters; every character in it is a letter, whitespace
      or '-'. */
  lemma TitleMatchShape(t: string, i: nat, j: nat)
    requires TitleMatchesAt(t, i, j)
    ensures i + 5 <= j <= |t|
    ensures IsTitleLetter(t[i]) && IsTitleLetter(t[j - 1])
    ensures exists b :: i < b < j - 1 && t[b] == '-' && IsSpace(t[b - 1]) && IsSpace(t[b + 1])
    ensures forall q :: i <= q < j ==> IsTitleLetter(t[q]) || IsSpace(t[q]) || t[q] == '-'
  {
    var a: nat, b: nat, c: nat :| TitleSplitsAt(t, i, a, b, c, j);
    assert IsSpace(t[b - 1]) && IsSpace(t[b + 1]);
  }
}
