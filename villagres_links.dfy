/** The Villagres link collector (botgorganizadolinkvila.py): the catalogue
    page lists collections, each collection page lists subcollections, each
    subcollection page lists products; the product links end up, sorted,
    in a file with one link per line. A page is given as the list of the
    trimmed hrefs of its anchors, as a function of the page's URL. */
module VillagresLinks {
  import opened Text
  import opened Sorting
  import opened UrlLists

  const BaseUrl: string := "https://villagres.com.br/PT/produtos"
  const Prefix: string := "https://villagres.com.br/PT/produtos/"

  /** [^/]+ */
  predicate IsSegment(s: string) {
    s != [] && '/' !in s
  }

  /** [0-9A-Za-z]+$ : Python's `$` also matches just before a final '\n'. */
  predicate IsCode(s: string) {
    || (s != [] && forall i :: 0 <= i < |s| ==> IsAsciiAlnum(s[i]))
    || (|s| >= 2 && s[|s| - 1] == '\n' && forall i :: 0 <= i < |s| - 1 ==> IsAsciiAlnum(s[i]))
  }

  /** COLLECTION_REGEX: the prefix, then one segment. */
  predicate IsCollection(u: string) {
    StartsWith(u, Prefix) && IsSegment(u[|Prefix|..])
  }

  /** SUBCOL_REGEX: the prefix, then two segments. */
  predicate IsSubcollection(u: string) {
    StartsWith(u, Prefix) &&
    var ps := Split(u[|Prefix|..], '/');
    |ps| == 2 && ps[0] != [] && ps[1] != []
  }

  /** PRODUCT_REGEX: the prefix, two segments, then a product code. */
  predicate IsProduct(u: string) {
    StartsWith(u, Prefix) &&
    var ps := Split(u[|Prefix|..], '/');
    |ps| == 3 && ps[0] != [] && ps[1] != [] && IsCode(ps[2])
  }

  lemma SplitCons(a: string, t: string, sep: char)
    requires sep !in a
    ensures Split(a + [sep] + t, sep) == [a] + Split(t, sep)
  {
    var c := a + [sep] + t;
    assert forall i :: 0 <= i < |a| ==> c[i] == a[i] && c[i] != sep;
    assert c[|a|] == sep;
    assert IndexOf(c, sep) == |a|;
    assert c[..|a|] == a && c[|a| + 1..] == t;
  }

  /** The first piece, the separator, and the pieces of the rest. */
  lemma SplitFirst(s: string, sep: char)
    requires |Split(s, sep)| >= 2
    ensures var k := IndexOf(s, sep);
      && k < |s|
      && s == s[..k] + [sep] + s[k + 1..]
      && Split(s, sep) == [s[..k]] + Split(s[k + 1..], sep)
  {
    var k := IndexOf(s, sep);
    SplitWhole(s, sep);
    assert k < |s|;
    AroundSep(s, k, sep);
    SplitStep(s, sep, k);
  }

  lemma SplitWhole(s: string, sep: char)
    ensures IndexOf(s, sep) == |s| ==> Split(s, sep) == [s]
  {
  }

  lemma SplitSingle(s: string, sep: char)
    requires |Split(s, sep)| == 1
    ensures sep !in s && Split(s, sep) == [s]
  {
  }

  lemma PrefixRest(a: string)
    ensures StartsWith(Prefix + a, Prefix) && (Prefix + a)[|Prefix|..] == a
  {
    assert (Prefix + a)[..|Prefix|] == Prefix;
  }

  lemma RestOf(u: string)
    requires StartsWith(u, Prefix)
    ensures u == Prefix + u[|Prefix|..]
  {
    assert u == u[..|Prefix|] + u[|Prefix|..];
  }

  lemma Regroup(p: string, a: string, b: string, c: string)
    ensures p + (a + "/" + (b + "/" + c)) == p + a + "/" + b + "/" + c
  {
    assert a + "/" + (b + "/" + c) == a + "/" + b + "/" + c;
  }

  /** A text that splits on '/' into two pieces is those pieces joined. */
  lemma SplitTwo(r: string) returns (a: string, b: string)
    requires |Split(r, '/')| == 2
    ensures Split(r, '/') == [a, b] && r == a + "/" + b
  {
    SplitFirst(r, '/');
    var k := IndexOf(r, '/');
    SplitSingle(r[k + 1..], '/');
    a, b := r[..k], r[k + 1..];
  }

  /** A text that splits on '/' into three pieces is those pieces joined. */
  lemma SplitThree(r: string) returns (a: string, b: string, c: string)
    requires |Split(r, '/')| == 3
    ensures Split(r, '/') == [a, b, c] && r == a + "/" + (b + "/" + c)
  {
    SplitFirst(r, '/');
    var k := IndexOf(r, '/');
    var r2 := r[k + 1..];
    b, c := SplitTwo(r2);
    a := r[..k];
  }

  lemma SplitJoinTwo(a: string, b: string)
    requires '/' !in a && '/' !in b
    ensures Split(a + "/" + b, '/') == [a, b]
  {
    SplitCons(a, b, '/');
    SplitNoSep(b, '/');
  }

  lemma SplitJoinThree(a: string, b: string, c: string)
    requires '/' !in a && '/' !in b && '/' !in c
    ensures Split(a + "/" + (b + "/" + c), '/') == [a, b, c]
  {
    SplitCons(a, b + "/" + c, '/');
    SplitJoinTwo(b, c);
  }

  /** SUBCOL_REGEX as a pattern: prefix, segment, '/', segment. */
  predicate IsSubcollectionShape(u: string, a: string, b: string) {
    IsSegment(a) && IsSegment(b) && u == Prefix + a + "/" + b
  }

  lemma SubcollectionPieces(u: string) returns (a: string, b: string)
    requires IsSubcollection(u)
    ensures IsSubcollectionShape(u, a, b)
  {
    var r := u[|Prefix|..];
    a, b := SplitTwo(r);
    RestOf(u);
    assert Prefix + (a + "/" + b) == Prefix + a + "/" + b;
  }

  lemma SubcollectionOfPieces(u: string, a: string, b: string)
    requires IsSubcollectionShape(u, a, b)
    ensures IsSubcollection(u)
  {
    var r := a + "/" + b;
    assert u == Prefix + r;
    PrefixRest(r);
    SplitJoinTwo(a, b);
  }

  lemma SubcollectionShape(u: string)
    ensures IsSubcollection(u) <==> exists a, b :: IsSubcollectionShape(u, a, b)
  {
    if IsSubcollection(u) {
      var a, b := SubcollectionPieces(u);
    }
    if exists a, b :: IsSubcollectionShape(u, a, b) {
      var a, b :| IsSubcollectionShape(u, a, b);
      SubcollectionOfPieces(u, a, b);
    }
  }

  /** PRODUCT_REGEX as a pattern: prefix, segment, '/', segment, '/', code. */
  predicate IsProductShape(u: string, a: string, b: string, c: string) {
    IsSegment(a) && IsSegment(b) && IsCode(c) && u == Prefix + a + "/" + b + "/" + c
  }

  lemma ProductPieces(u: string) returns (a: string, b: string, c: string)
    requires IsProduct(u)
    ensures IsProductShape(u, a, b, c)
  {
    var r := u[|Prefix|..];
    a, b, c := SplitThree(r);
    RestOf(u);
    Regroup(Prefix, a, b, c);
  }

  lemma ProductOfPieces(u: string, a: string, b: string, c: string)
    requires IsProductShape(u, a, b, c)
    ensures IsProduct(u)
  {
    assert forall i :: 0 <= i < |c| ==> c[i] != '/';
    var r := a + "/" + (b + "/" + c);
    Regroup(Prefix, a, b, c);
    PrefixRest(r);
    SplitJoinThree(a, b, c);
  }

  lemma ProductShape(u: string)
    ensures IsProduct(u) <==> exists a, b, c :: IsProductShape(u, a, b, c)
  {
    if IsProduct(u) {
      var a, b, c := ProductPieces(u);
    }
    if exists a, b, c :: IsProductShape(u, a, b, c) {
      var a, b, c :| IsProductShape(u, a, b, c);
      ProductOfPieces(u, a, b, c);
    }
  }

  /** The three patterns are told apart by the number of segments, and the
      catalogue URL itself matches none of them. */
  lemma LevelsAreDisjoint(u: string)
    ensures !(IsCollection(u) && IsSubcollection(u))
    ensures !(IsCollection(u) && IsProduct(u))
    ensures !(IsSubcollection(u) && IsProduct(u))
    ensures !IsCollection(BaseUrl) && !IsSubcollection(BaseUrl) && !IsProduct(BaseUrl)
  {
    if IsCollection(u) {
      SplitNoSep(u[|Prefix|..], '/');
    }
  }

  /** With no line break in it, a product link ends in a non-empty run of
      ASCII letters and digits after its last '/'. */
  lemma ProductCode(u: string)
    requires IsProduct(u) && '\n' !in u
    ensures var c := LastPiece(u, '/');
      c != [] && forall i :: 0 <= i < |c| ==> IsAsciiAlnum(c[i])
  {
    var a, b, c := ProductPieces(u);
    assert c[|c| - 1] in u by {
      assert u[|u| - 1] == c[|c| - 1];
    }
    assert forall i :: 0 <= i < |c| ==> c[i] != '/';
    var front := Prefix + a + "/" + b + "/";
    assert u == front + c;
    assert LastPiece(front, '/') == [];
    LastPieceAppend(front, c, '/');
  }

  /** A product link without a line break is written and read back intact. */
  lemma ProductRoundTrips(u: string)
    requires IsProduct(u) && '\n' !in u
    ensures IsRoundTrip(u)
  {
    ProductCode(u);
    var c := LastPiece(u, '/');
    LastPieceSuffix(u, '/');
    assert u[|u| - 1] == c[|c| - 1];
    assert u[0] == Prefix[0];
  }

  /** {u.rstrip('/') for u in urls if P(u.rstrip('/'))} */
  function Level(urls: seq<string>, P: string -> bool): (r: set<string>)
    ensures forall x :: x in r ==> P(x) && (x == [] || x[|x| - 1] != '/')
    ensures forall i :: 0 <= i < |urls| && P(RStripChar(urls[i], '/')) ==> RStripChar(urls[i], '/') in r
  {
    set u | u in urls && P(RStripChar(u, '/')) :: RStripChar(u, '/')
  }

  /** Every member of a level set is a stripped href of the page. */
  lemma LevelOrigin(urls: seq<string>, P: string -> bool, x: string)
    requires x in Level(urls, P)
    ensures exists i :: 0 <= i < |urls| && x == RStripChar(urls[i], '/')
  {
    var u :| u in urls && P(RStripChar(u, '/')) && x == RStripChar(u, '/');
    var i :| 0 <= i < |urls| && urls[i] == u;
  }

  function Collections(pageLinks: string -> seq<string>): set<string> {
    Level(pageLinks(BaseUrl), IsCollection)
  }

  function Subcollections(pageLinks: string -> seq<string>, col: string): set<string> {
    Level(pageLinks(col), IsSubcollection)
  }

  function Products(pageLinks: string -> seq<string>, sub: string): set<string> {
    Level(pageLinks(sub), IsProduct)
  }

  /* The traversal, stated for any level sets: subsOf(c) is the
     subcollection set of collection page c, productsOf(s) the product set
     of subcollection page s. */

  /** Every product reached from the collections through one of their
      subcollections. */
  ghost function Reachable(cols: set<string>, subsOf: string -> set<string>, productsOf: string -> set<string>): (r: set<string>)
    ensures forall p :: p in r <==> exists c, s :: c in cols && s in subsOf(c) && p in productsOf(s)
  {
    set c, s, p | c in cols && s in subsOf(c) && p in productsOf(s) :: p
  }

  /** The products of the subcollections visited so far. */
  function FromSubs(productsOf: string -> set<string>, subs: seq<string>): set<string> {
    if subs == [] then {}
    else FromSubs(productsOf, subs[..|subs| - 1]) + productsOf(subs[|subs| - 1])
  }

  lemma {:induction false} FromSubsMembers(productsOf: string -> set<string>, subs: seq<string>, p: string)
    ensures p in FromSubs(productsOf, subs) <==> exists j :: 0 <= j < |subs| && p in productsOf(subs[j])
  {
    if subs != [] {
      var init := subs[..|subs| - 1];
      FromSubsMembers(productsOf, init, p);
      assert forall j :: 0 <= j < |init| ==> init[j] == subs[j];
    }
  }

  /** The products found under the collections visited so far. */
  ghost function FromCollections(subsOf: string -> set<string>, productsOf: string -> set<string>, cols: seq<string>): set<string> {
    if cols == [] then {}
    else
      FromCollections(subsOf, productsOf, cols[..|cols| - 1])
      + FromSubs(productsOf, Sorted(subsOf(cols[|cols| - 1])))
  }

  /** The pages visited, in order: each collection, then its sorted
      subcollections. */
  ghost function Visits(subsOf: string -> set<string>, cols: seq<string>): seq<string> {
    if cols == [] then []
    else Visits(subsOf, cols[..|cols| - 1]) + [cols[|cols| - 1]] + Sorted(subsOf(cols[|cols| - 1]))
  }

  /** Collection page c links, through one of its subcollections, to p. */
  ghost predicate Reaches(subsOf: string -> set<string>, productsOf: string -> set<string>, c: string, p: string) {
    exists s :: s in subsOf(c) && p in productsOf(s)
  }

  lemma FromSortedSubs(subsOf: string -> set<string>, productsOf: string -> set<string>, c: string, p: string)
    ensures p in FromSubs(productsOf, Sorted(subsOf(c))) <==> Reaches(subsOf, productsOf, c, p)
  {
    var ss := Sorted(subsOf(c));
    FromSubsMembers(productsOf, ss, p);
    if p in FromSubs(productsOf, ss) {
      var j :| 0 <= j < |ss| && p in productsOf(ss[j]);
      assert ss[j] in subsOf(c);
    }
    if Reaches(subsOf, productsOf, c, p) {
      var s :| s in subsOf(c) && p in productsOf(s);
      assert s in ss;
      var j :| 0 <= j < |ss| && ss[j] == s;
    }
  }

  /** A product found under the visited collections is reached from one
      of them. */
  lemma {:induction false} FromCollectionsSound(subsOf: string -> set<string>, productsOf: string -> set<string>, cols: seq<string>, p: string)
    requires p in FromCollections(subsOf, productsOf, cols)
    ensures exists i :: 0 <= i < |cols| && Reaches(subsOf, productsOf, cols[i], p)
  {
    var init := cols[..|cols| - 1];
    var last := cols[|cols| - 1];
    if p in FromCollections(subsOf, productsOf, init) {
      FromCollectionsSound(subsOf, productsOf, init, p);
      var i :| 0 <= i < |init| && Reaches(subsOf, productsOf, init[i], p);
      assert cols[i] == init[i];
    } else {
      FromSortedSubs(subsOf, productsOf, last, p);
      assert Reaches(subsOf, productsOf, cols[|cols| - 1], p);
    }
  }

  /** A product reached from a visited collection is found. */
  lemma {:induction false} FromCollectionsComplete(subsOf: string -> set<string>, productsOf: string -> set<string>, cols: seq<string>, p: string, i: nat)
    requires i < |cols| && Reaches(subsOf, productsOf, cols[i], p)
    ensures p in FromCollections(subsOf, productsOf, cols)
  {
    var init := cols[..|cols| - 1];
    if i < |init| {
      assert init[i] == cols[i];
      FromCollectionsComplete(subsOf, productsOf, init, p, i);
    } else {
      FromSortedSubs(subsOf, productsOf, cols[i], p);
    }
  }

  /** Visiting the collections of cols, each once in any order, finds
      exactly the reachable products. */
  lemma VisitAnyOrder(cols: set<string>, cs: seq<string>, subsOf: string -> set<string>, productsOf: string -> set<string>)
    requires forall x :: x in cs <==> x in cols
    ensures FromCollections(subsOf, productsOf, cs) == Reachable(cols, subsOf, productsOf)
  {
    forall p
      ensures p in FromCollections(subsOf, productsOf, cs) <==> p in Reachable(cols, subsOf, productsOf)
    {
      if p in Reachable(cols, subsOf, productsOf) {
        var c, s :| c in cols && s in subsOf(c) && p in productsOf(s);
        var i :| 0 <= i < |cs| && cs[i] == c;
        assert Reaches(subsOf, productsOf, cs[i], p);
        FromCollectionsComplete(subsOf, productsOf, cs, p, i);
      }
      if p in FromCollections(subsOf, productsOf, cs) {
        FromCollectionsSound(subsOf, productsOf, cs, p);
        var i :| 0 <= i < |cs| && Reaches(subsOf, productsOf, cs[i], p);
        var s :| s in subsOf(cs[i]) && p in productsOf(s);
        assert cs[i] in cols;
      }
    }
  }

  /** Visiting the sorted collections finds exactly the reachable products. */
  lemma VisitFindsReachable(cols: set<string>, subsOf: string -> set<string>, productsOf: string -> set<string>)
    ensures FromCollections(subsOf, productsOf, Sorted(cols)) == Reachable(cols, subsOf, productsOf)
  {
    VisitAnyOrder(cols, Sorted(cols), subsOf, productsOf);
  }

  /** The pages among `pages` that P accepts, in order. */
  function FilterPages(pages: seq<string>, P: string -> bool): (r: seq<string>)
    ensures forall i :: 0 <= i < |r| ==> P(r[i])
  {
    if pages == [] then []
    else
      var last := pages[|pages| - 1];
      FilterPages(pages[..|pages| - 1], P) + (if P(last) then [last] else [])
  }

  lemma {:induction false} FilterPagesAppend(a: seq<string>, b: seq<string>, P: string -> bool)
    ensures FilterPages(a + b, P) == FilterPages(a, P) + FilterPages(b, P)
    decreases |b|
  {
    if b != [] {
      assert (a + b)[..|a + b| - 1] == a + b[..|b| - 1];
      FilterPagesAppend(a, b[..|b| - 1], P);
    } else {
      assert a + b == a;
    }
  }

  lemma {:induction false} FilterPagesNone(pages: seq<string>, P: string -> bool)
    requires forall i :: 0 <= i < |pages| ==> !P(pages[i])
    ensures FilterPages(pages, P) == []
    decreases |pages|
  {
    if pages != [] {
      FilterPagesNone(pages[..|pages| - 1], P);
    }
  }

  /** When P holds of the collections and of no subcollection, the pages P
      accepts among the visited ones are the collections, in visit order:
      each collection is visited once, in the order given. */
  lemma {:induction false} CollectionsVisitedInOrder(subsOf: string -> set<string>, cols: seq<string>, P: string -> bool)
    requires forall i :: 0 <= i < |cols| ==> P(cols[i])
    requires forall c, s :: s in subsOf(c) ==> !P(s)
    ensures FilterPages(Visits(subsOf, cols), P) == cols
    decreases |cols|
  {
    if cols != [] {
      var init := cols[..|cols| - 1];
      var last := cols[|cols| - 1];
      var ss := Sorted(subsOf(last));
      CollectionsVisitedInOrder(subsOf, init, P);
      FilterPagesAppend(Visits(subsOf, init) + [last], ss, P);
      FilterPagesAppend(Visits(subsOf, init), [last], P);
      assert FilterPages([last], P) == [last] by {
        assert [last][..0] == [];
      }
      assert forall j :: 0 <= j < |ss| ==> ss[j] in subsOf(last);
      FilterPagesNone(ss, P);
      FrontLast(cols);
    }
  }

  lemma SortedVisitedInOrder(subsOf: string -> set<string>, cols: set<string>, P: string -> bool)
    requires forall c :: c in cols ==> P(c)
    requires forall c, s :: s in subsOf(c) ==> !P(s)
    ensures FilterPages(Visits(subsOf, Sorted(cols)), P) == Sorted(cols)
  {
    var cs := Sorted(cols);
    assert forall i :: 0 <= i < |cs| ==> cs[i] in cols;
    CollectionsVisitedInOrder(subsOf, cs, P);
  }

  /* The Villagres instance. */

  function SubsOf(pageLinks: string -> seq<string>): string -> set<string> {
    c => Subcollections(pageLinks, c)
  }

  function ProductsOf(pageLinks: string -> seq<string>): string -> set<string> {
    s => Products(pageLinks, s)
  }

  /** The product links the collector gathers. */
  ghost function AllLinks(pageLinks: string -> seq<string>): set<string> {
    Reachable(Collections(pageLinks), SubsOf(pageLinks), ProductsOf(pageLinks))
  }

  /** The inner loop of main(): each subcollection page in turn, its
      product links added to all_links. */
  method VisitSubcollections(productsOf: string -> set<string>, subs: seq<string>, links0: set<string>)
    returns (links: set<string>, visited: seq<string>)
    ensures links == links0 + FromSubs(productsOf, subs)
    ensures visited == subs
  {
    links, visited := links0, [];
    var j := 0;
    while j < |subs|
      invariant j <= |subs|
      invariant links == links0 + FromSubs(productsOf, subs[..j])
      invariant visited == subs[..j]
    {
      var sub := subs[j];
      visited := visited + [sub];
      links := links + productsOf(sub);
      assert subs[..j + 1][..j] == subs[..j];
      j := j + 1;
    }
    assert subs[..j] == subs;
  }

  /** Visiting one more collection. */
  lemma VisitStep(subsOf: string -> set<string>, productsOf: string -> set<string>, cols: seq<string>, i: nat)
    requires i < |cols|
    ensures FromCollections(subsOf, productsOf, cols[..i + 1])
      == FromCollections(subsOf, productsOf, cols[..i]) + FromSubs(productsOf, Sorted(subsOf(cols[i])))
    ensures Visits(subsOf, cols[..i + 1]) == Visits(subsOf, cols[..i]) + [cols[i]] + Sorted(subsOf(cols[i]))
  {
    assert cols[..i + 1][..i] == cols[..i];
  }

  /** main(): the sorted collections, and under each its sorted
      subcollections, gathering every product link into all_links; also
      the pages visited, in order. */
  method DiscoverLinks(collections: set<string>, subsOf: string -> set<string>, productsOf: string -> set<string>)
    returns (links: set<string>, visited: seq<string>)
    ensures links == Reachable(collections, subsOf, productsOf)
    ensures visited == Visits(subsOf, Sorted(collections))
  {
    var cols := SortSet(collections);
    links := {};
    visited := [];
    var i := 0;
    while i < |cols|
      invariant i <= |cols|
      invariant links == FromCollections(subsOf, productsOf, cols[..i])
      invariant visited == Visits(subsOf, cols[..i])
    {
      var col := cols[i];
      var subs := SortSet(subsOf(col));
      var pages;
      links, pages := VisitSubcollections(productsOf, subs, links);
      visited := visited + [col] + pages;
      VisitStep(subsOf, productsOf, cols, i);
      i := i + 1;
    }
    assert cols[..i] == cols;
    VisitFindsReachable(collections, subsOf, productsOf);
  }

  /** Every gathered link is the trailing-'/'-stripped form of a product
      href of some page. */
  lemma AllLinksAreProducts(pageLinks: string -> seq<string>, p: string)
    requires p in AllLinks(pageLinks)
    ensures IsProduct(p) && p[|p| - 1] != '/'
    ensures exists s, h :: h in pageLinks(s) && p == RStripChar(h, '/')
  {
    var c, s :| c in Collections(pageLinks) && s in SubsOf(pageLinks)(c) && p in ProductsOf(pageLinks)(s);
    assert p in Products(pageLinks, s);
    LevelOrigin(pageLinks(s), IsProduct, p);
    var k :| 0 <= k < |pageLinks(s)| && p == RStripChar(pageLinks(s)[k], '/');
    assert pageLinks(s)[k] in pageLinks(s);
  }

  lemma SubcollectionsAreNotCollections(pageLinks: string -> seq<string>)
    ensures forall c, s :: s in SubsOf(pageLinks)(c) ==> !IsCollection(s)
  {
    forall c, s | s in SubsOf(pageLinks)(c)
      ensures !IsCollection(s)
    {
      assert s in Subcollections(pageLinks, c);
      LevelsAreDisjoint(s);
    }
  }

  /** Each collection is visited once, in the order of the sorted
      collections (which Sorting.SortedAscending shows ascending). */
  lemma CollectionsVisitedOnce(pageLinks: string -> seq<string>)
    ensures var cols := Sorted(Collections(pageLinks));
      FilterPages(Visits(SubsOf(pageLinks), cols), IsCollection) == cols
  {
    SubcollectionsAreNotCollections(pageLinks);
    SortedVisitedInOrder(SubsOf(pageLinks), Collections(pageLinks), IsCollection);
  }

  /** The whole collector: the text the links file ends with. */
  method CollectLinks(pageLinks: string -> seq<string>) returns (content: string)
    ensures content == Serialize(Sorted(AllLinks(pageLinks)))
  {
    var links, visited := DiscoverLinks(Collections(pageLinks), SubsOf(pageLinks), ProductsOf(pageLinks));
    var sorted := SortSet(links);
    content := WriteLines(sorted);
  }

  lemma NoBreakAfterStrip(h: string)
    requires '\n' !in h
    ensures '\n' !in RStripChar(h, '/')
  {
    var p := RStripChar(h, '/');
    assert forall q :: 0 <= q < |p| ==> p[q] == h[q];
  }

  /** No href of any page holds a line break. */
  ghost predicate NoLineBreaks(pageLinks: string -> seq<string>) {
    forall u, x :: x in pageLinks(u) ==> '\n' !in x
  }

  /** Reading the links file back with the downloader's line filter gives
      the sorted links, provided no href holds a line break. */
  lemma LinksFileRoundTrip(pageLinks: string -> seq<string>)
    requires NoLineBreaks(pageLinks)
    ensures ReadUrls(Serialize(Sorted(AllLinks(pageLinks)))) == Sorted(AllLinks(pageLinks))
  {
    var all := AllLinks(pageLinks);
    forall p | p in all
      ensures IsRoundTrip(p)
    {
      LinkRoundTrips(pageLinks, p);
    }
    SortedRoundTrip(all);
  }

  /** A set of links that each survive the file is written, sorted, and
      read back intact. */
  lemma SortedRoundTrip(all: set<string>)
    requires forall x :: x in all ==> IsRoundTrip(x)
    ensures ReadUrls(Serialize(Sorted(all))) == Sorted(all)
  {
    var links := Sorted(all);
    assert forall i :: 0 <= i < |links| ==> links[i] in all;
    ReadSerialized(links);
  }

  lemma LinkRoundTrips(pageLinks: string -> seq<string>, p: string)
    requires NoLineBreaks(pageLinks)
    requires p in AllLinks(pageLinks)
    ensures IsRoundTrip(p)
  {
    AllLinksAreProducts(pageLinks, p);
    var s, h :| h in pageLinks(s) && p == RStripChar(h, '/');
    NoBreakAfterStrip(h);
    ProductRoundTrips(p);
  }
}
