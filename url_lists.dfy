/** The one-URL-per-line link files: the collectors write them and the
    Villagres downloader reads them back (Bot_vilagress.py,
    ler_urls_do_arquivo). */
module UrlLists {
  import opened Text

  /** f.readlines() on the decoded text: every line keeps its '\n', the last
      one may lack it, and no line is empty. */
  function ReadLines(c: string): (r: seq<string>)
    ensures Concat(r) == c
    ensures forall i :: 0 <= i < |r| ==> r[i] != []
    ensures forall i :: 0 <= i < |r| ==> '\n' !in r[i][..|r[i]| - 1]
    ensures forall i :: 0 <= i < |r| - 1 ==> r[i][|r[i]| - 1] == '\n'
    decreases |c|
  {
    var k := IndexOf(c, '\n');
    if k == |c| then (if c == [] then [] else [c])
    else
      var line := c[..k + 1];
      assert line[..|line| - 1] == c[..k];
      assert c == line + c[k + 1..];
      [line] + ReadLines(c[k + 1..])
  }

  function Concat(ls: seq<string>): (r: string)
    ensures ls == [] ==> r == []
  {
    if ls == [] then [] else ls[0] + Concat(ls[1..])
  }

  /** A stripped line the reader keeps: not blank and not a comment. */
  predicate IsUrlLine(u: string) {
    u != [] && u[0] != '#'
  }

  /** No whitespace at either end: what str.strip() leaves. */
  predicate IsStripped(u: string) {
    u == [] || (!IsSpace(u[0]) && !IsSpace(u[|u| - 1]))
  }

  /** What the reader keeps of a line: stripped, not blank, not a comment. */
  predicate IsUrl(u: string) {
    IsUrlLine(u) && IsStripped(u)
  }

  lemma StripKept(line: string)
    ensures IsUrlLine(Strip(line)) ==> IsUrl(Strip(line))
  {
  }

  /** The list comprehensions of ler_urls_do_arquivo over the lines. */
  function UrlsOf(lines: seq<string>): (r: seq<string>)
    ensures |r| <= |lines|
    ensures forall i :: 0 <= i < |r| ==> IsUrl(r[i])
  {
    if lines == [] then []
    else
      var u := Strip(lines[0]);
      var rest := UrlsOf(lines[1..]);
      if IsUrlLine(u) then
        StripKept(lines[0]);
        KeepUrl(u, rest)
      else rest
  }

  function KeepUrl(u: string, rest: seq<string>): (r: seq<string>)
    requires IsUrl(u) && forall i :: 0 <= i < |rest| ==> IsUrl(rest[i])
    ensures r == [u] + rest
    ensures forall i :: 0 <= i < |r| ==> IsUrl(r[i])
  {
    assert forall i :: 1 <= i <= |rest| ==> ([u] + rest)[i] == rest[i - 1];
    [u] + rest
  }

  /** The URLs read from a link file with the text c. */
  function ReadUrls(c: string): (r: seq<string>)
    ensures forall i :: 0 <= i < |r| ==> IsUrl(r[i])
  {
    UrlsOf(ReadLines(c))
  }

  /** The text of a written link file: each link followed by '\n'. */
  function Serialize(links: seq<string>): (c: string)
    ensures |c| >= |links|
    ensures links != [] ==> c[|c| - 1] == '\n'
  {
    if links == [] then [] else links[0] + "\n" + Serialize(links[1..])
  }

  /** for url in links: f.write(url + '\n') */
  method WriteLines(links: seq<string>) returns (c: string)
    ensures c == Serialize(links)
  {
    c := [];
    var i := 0;
    while i < |links|
      invariant 0 <= i <= |links|
      invariant c + Serialize(links[i..]) == Serialize(links)
    {
      SerializeStep(c, links, i);
      c := c + links[i] + "\n";
      i := i + 1;
    }
  }

  lemma SerializeStep(c: string, links: seq<string>, i: nat)
    requires i < |links|
    ensures c + Serialize(links[i..]) == c + links[i] + "\n" + Serialize(links[i + 1..])
  {
    assert links[i..][1..] == links[i + 1..];
    var u, r := links[i] + "\n", Serialize(links[i + 1..]);
    assert Serialize(links[i..]) == u + r;
    assert c + (u + r) == c + u + r;
  }

  /** A link the reader gets back unchanged: one line, nothing stripped,
      not blank and not a comment. */
  predicate IsRoundTrip(u: string) {
    '\n' !in u && IsUrlLine(u) && IsStripped(u)
  }

  lemma StripLine(u: string)
    requires IsRoundTrip(u)
    ensures Strip(u + "\n") == u
  {
    var t := u + "\n";
    assert StripLeft(t) == t;
    assert t[..|t| - 1] == u;
    assert StripRight(u) == u;
  }

  lemma ReadLinesCons(u: string, rest: string)
    requires '\n' !in u
    ensures ReadLines(u + "\n" + rest) == [u + "\n"] + ReadLines(rest)
  {
    var c := u + "\n" + rest;
    assert c[|u|] == '\n';
    assert forall i :: 0 <= i < |u| ==> c[i] == u[i];
    assert IndexOf(c, '\n') == |u|;
    assert c[..|u| + 1] == u + "\n";
    assert c[|u| + 1..] == rest;
  }

  lemma UrlsOfCons(line: string, lines: seq<string>)
    ensures UrlsOf([line] + lines) ==
      (if IsUrlLine(Strip(line)) then [Strip(line)] else []) + UrlsOf(lines)
  {
    assert ([line] + lines)[1..] == lines;
  }

  /** Reading a written link file returns exactly the links written. */
  lemma {:induction false} ReadSerialized(links: seq<string>)
    requires forall i :: 0 <= i < |links| ==> IsRoundTrip(links[i])
    ensures ReadUrls(Serialize(links)) == links
  {
    if links != [] {
      var u := links[0];
      var rest := Serialize(links[1..]);
      assert Serialize(links) == u + "\n" + rest;
      ReadLinesCons(u, rest);
      StripLine(u);
      UrlsOfCons(u + "\n", ReadLines(rest));
      ReadSerialized(links[1..]);
      HeadRest(links);
    }
  }
}
