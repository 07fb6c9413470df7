/** The BiancoGres link collector (botbiancolink.py): press "Ver mais"
    until it fails, then keep the gallery hrefs once each, in the order
    they first appear, and write them one per line. */
module BiancogresLinks {
  import opened UrlLists

  /** The index of the first occurrence of x in s. */
  function Position(s: seq<string>, x: string): (k: nat)
    requires x in s
    ensures k < |s| && s[k] == x
    ensures forall i :: 0 <= i < k ==> s[i] != x
  {
    if s[0] == x then 0 else 1 + Position(s[1..], x)
  }

  predicate NoDuplicates(r: seq<string>) {
    forall i, j :: 0 <= i < j < |r| ==> r[i] != r[j]
  }

  /** The elements of keys come in the order of their first occurrence in s. */
  predicate InFirstOccurrenceOrder(keys: seq<string>, s: seq<string>)
    requires forall i :: 0 <= i < |keys| ==> keys[i] in s
  {
    forall i, j :: 0 <= i < j < |keys| ==> Position(s, keys[i]) < Position(s, keys[j])
  }

  /** The keys of dict.fromkeys(s), in insertion order: each element at its
      first occurrence. */
  function FromKeys(s: seq<string>): (r: seq<string>)
    ensures NoDuplicates(r)
    ensures forall x :: x in r <==> x in s
  {
    if s == [] then []
    else
      var r := FromKeys(s[..|s| - 1]);
      var x := s[|s| - 1];
      assert forall y :: y in s <==> y in s[..|s| - 1] || y == x by {
        assert s == s[..|s| - 1] + [x];
      }
      if x in r then r else r + [x]
  }

  lemma PositionInFront(s: seq<string>, x: string)
    requires s != [] && x in s[..|s| - 1]
    ensures Position(s, x) == Position(s[..|s| - 1], x) < |s| - 1
  {
    var f := s[..|s| - 1];
    var k := Position(f, x);
    assert s[k] == x;
    assert forall i :: 0 <= i < k ==> s[i] == f[i];
  }

  lemma PositionOfNew(s: seq<string>)
    requires s != [] && s[|s| - 1] !in s[..|s| - 1]
    ensures Position(s, s[|s| - 1]) == |s| - 1
  {
    forall i | 0 <= i < |s| - 1
      ensures s[i] != s[|s| - 1]
    {
      assert s[..|s| - 1][i] == s[i];
    }
  }

  /** The keys come in the order of their first occurrence. */
  lemma {:induction false} FromKeysOrder(s: seq<string>)
    ensures InFirstOccurrenceOrder(FromKeys(s), s)
  {
    if s != [] {
      var f := s[..|s| - 1];
      var x := s[|s| - 1];
      var rf := FromKeys(f);
      FromKeysOrder(f);
      forall i | 0 <= i < |rf|
        ensures rf[i] in f && Position(s, rf[i]) == Position(f, rf[i]) < |f|
      {
        assert rf[i] in f;
        PositionInFront(s, rf[i]);
      }
      if x !in rf {
        PositionOfNew(s);
      }
    }
  }

  /** Dropping the empty strings. */
  function NonEmpty(s: seq<string>): (r: seq<string>)
    ensures forall x :: x in r <==> x in s && x != []
  {
    if s == [] then []
    else
      var r := NonEmpty(s[..|s| - 1]);
      var x := s[|s| - 1];
      assert forall y :: y in s <==> y in s[..|s| - 1] || y == x by {
        assert s == s[..|s| - 1] + [x];
      }
      if x == [] then r else r + [x]
  }

  /** R holds of every pair of elements in list order. */
  predicate Pairwise(keys: seq<string>, R: (string, string) -> bool) {
    forall i, j :: 0 <= i < j < |keys| ==> R(keys[i], keys[j])
  }

  /** Dropping the empty strings keeps any pairwise property of the rest. */
  lemma {:induction false} NonEmptyPairwise(keys: seq<string>, R: (string, string) -> bool)
    requires Pairwise(keys, R)
    ensures Pairwise(NonEmpty(keys), R)
  {
    if keys != [] {
      var f := keys[..|keys| - 1];
      var x := keys[|keys| - 1];
      assert forall i :: 0 <= i < |f| ==> f[i] == keys[i];
      NonEmptyPairwise(f, R);
      var rf := NonEmpty(f);
      forall i | 0 <= i < |rf|
        ensures R(rf[i], x)
      {
        assert rf[i] in f;
        var k :| 0 <= k < |f| && f[k] == rf[i];
      }
    }
  }

  /** [h for h in dict.fromkeys(hrefs) if h] */
  function Unique(hrefs: seq<string>): (r: seq<string>)
    ensures forall x :: x in r <==> x in hrefs && x != []
  {
    NonEmpty(FromKeys(hrefs))
  }

  /** No link twice, and the links in the order they first appear. */
  lemma UniqueOrder(hrefs: seq<string>)
    ensures NoDuplicates(Unique(hrefs))
    ensures InFirstOccurrenceOrder(Unique(hrefs), hrefs)
  {
    var keys := FromKeys(hrefs);
    FromKeysOrder(hrefs);
    NonEmptyPairwise(keys, (a, b) => a != b);
    var before := (a, b) => a in hrefs && b in hrefs && Position(hrefs, a) < Position(hrefs, b);
    assert forall i :: 0 <= i < |keys| ==> keys[i] in hrefs;
    assert Pairwise(keys, before);
    NonEmptyPairwise(keys, before);
    var r := Unique(hrefs);
    assert forall i :: 0 <= i < |r| ==> r[i] in hrefs;
  }

  lemma {:induction false} FromKeysNoop(s: seq<string>)
    requires NoDuplicates(s)
    ensures FromKeys(s) == s
  {
    if s != [] {
      var f := s[..|s| - 1];
      FromKeysNoop(f);
      assert s[|s| - 1] !in f;
      assert s == f + [s[|s| - 1]];
    }
  }

  lemma {:induction false} NonEmptyNoop(s: seq<string>)
    requires forall i :: 0 <= i < |s| ==> s[i] != []
    ensures NonEmpty(s) == s
  {
    if s != [] {
      NonEmptyNoop(s[..|s| - 1]);
      assert s == s[..|s| - 1] + [s[|s| - 1]];
    }
  }

  /** Deduplicating a second time changes nothing. */
  lemma UniqueIdempotent(hrefs: seq<string>)
    ensures Unique(Unique(hrefs)) == Unique(hrefs)
  {
    var r := Unique(hrefs);
    UniqueOrder(hrefs);
    assert forall i :: 0 <= i < |r| ==> r[i] in r;
    FromKeysNoop(r);
    NonEmptyNoop(r);
  }

  /** The "Ver mais" loop: each round waits for the button and clicks it;
      the first round whose wait or click fails ends the loop. outcome(k)
      tells whether round k succeeds. There is no cap on the rounds, so
      the loop ends only if some round fails. */
  method ClickMore(outcome: nat -> bool) returns (clicks: nat)
    requires exists k :: !outcome(k)
    ensures forall i :: 0 <= i < clicks ==> outcome(i)
    ensures !outcome(clicks)
  {
    ghost var bound: nat :| !outcome(bound);
    clicks := 0;
    while true
      invariant clicks <= bound
      invariant forall i :: 0 <= i < clicks ==> outcome(i)
      decreases bound - clicks
    {
      if !outcome(clicks) {
        return;
      }
      clicks := clicks + 1;
    }
  }

  /** main(): click while possible, then collect, deduplicate and write
      the gallery links. hrefsAfter(n) lists the gallery's hrefs after n
      clicks. */
  method CollectLinks(outcome: nat -> bool, hrefsAfter: nat -> seq<string>) returns (clicks: nat, content: string)
    requires exists k :: !outcome(k)
    ensures forall i :: 0 <= i < clicks ==> outcome(i)
    ensures !outcome(clicks)
    ensures content == Serialize(Unique(hrefsAfter(clicks)))
  {
    clicks := ClickMore(outcome);
    var unique := Unique(hrefsAfter(clicks));
    content := WriteLines(unique);
  }

  /** Reading the file back gives the deduplicated links when each href is
      one line, with no surrounding whitespace and not starting with '#'. */
  lemma LinksFileRoundTrip(hrefs: seq<string>)
    requires forall i :: 0 <= i < |hrefs| && hrefs[i] != [] ==>
      '\n' !in hrefs[i] && IsStripped(hrefs[i]) && hrefs[i][0] != '#'
    ensures ReadUrls(Serialize(Unique(hrefs))) == Unique(hrefs)
  {
    var r := Unique(hrefs);
    forall i | 0 <= i < |r|
      ensures IsRoundTrip(r[i])
    {
      assert r[i] in hrefs;
      var k :| 0 <= k < |hrefs| && hrefs[k] == r[i];
    }
    ReadSerialized(r);
  }
}
