/** String primitives shared by the scraping scripts, written to follow the
    Python built-ins they stand for (str.strip, str.split, str.lower, ...). */
module Text {

  datatype Option<T> = None | Some(value: T)

  /** Python's whitespace class: what `\s` matches on str patterns and what
      str.isspace / str.strip treat as whitespace. */
  predicate IsSpace(c: char) {
    c == ' ' || ('\t' <= c <= '\r') || ('\U{1c}' <= c <= '\U{1f}')
    || c == '\U{85}' || c == '\U{a0}' || c == '\U{1680}'
    || ('\U{2000}' <= c <= '\U{200a}') || c == '\U{2028}' || c == '\U{2029}'
    || c == '\U{202f}' || c == '\U{205f}' || c == '\U{3000}'
  }

  predicate IsDigit(c: char) { '0' <= c <= '9' }

  predicate IsAsciiUpper(c: char) { 'A' <= c <= 'Z' }
  predicate IsAsciiLower(c: char) { 'a' <= c <= 'z' }
  predicate IsAsciiAlnum(c: char) { IsDigit(c) || IsAsciiUpper(c) || IsAsciiLower(c) }
  predicate IsAscii(c: char) { c < '\U{80}' }

  /** Latin-1 upper-case letters À..Þ (without ×) and lower-case letters ß..ÿ (without ÷). */
  predicate IsLatin1Upper(c: char) { 'À' <= c <= 'Þ' && c != '×' }
  predicate IsLatin1Lower(c: char) { 'ß' <= c <= 'ÿ' && c != '÷' }

  predicate IsCased(c: char) {
    IsAsciiUpper(c) || IsAsciiLower(c) || IsLatin1Upper(c) || IsLatin1Lower(c)
  }

  function LowerChar(c: char): (d: char)
    ensures IsAsciiUpper(c) ==> IsAsciiLower(d)
    ensures !IsAsciiUpper(c) && !IsLatin1Upper(c) ==> d == c
  {
    if IsAsciiUpper(c) || IsLatin1Upper(c) then (c as int + 32) as char else c
  }

  function UpperChar(c: char): (d: char)
    ensures IsAsciiLower(c) ==> IsAsciiUpper(d)
    ensures !IsAsciiLower(c) && !IsLatin1Lower(c) ==> d == c
  {
    if IsAsciiLower(c) || (IsLatin1Lower(c) && c != 'ß' && c != 'ÿ') then (c as int - 32) as char
    else if c == 'ÿ' then 'Ÿ'
    else c
  }

  /** str.lower() */
  function Lower(s: string): (r: string)
    ensures |r| == |s|
    ensures forall i :: 0 <= i < |s| ==> r[i] == LowerChar(s[i])
  {
    if s == [] then [] else [LowerChar(s[0])] + Lower(s[1..])
  }

  /** str.upper() */
  function Upper(s: string): (r: string)
    ensures |r| == |s|
    ensures forall i :: 0 <= i < |s| ==> r[i] == UpperChar(s[i])
  {
    if s == [] then [] else [UpperChar(s[0])] + Upper(s[1..])
  }

  /** str.title(): a cased character is upper-cased when the character before
      it is not cased, and lower-cased otherwise. */
  function TitleFrom(s: string, prevCased: bool): (r: string)
    ensures |r| == |s|
    ensures forall i :: 0 <= i < |s| && !IsCased(s[i]) ==> r[i] == s[i]
    ensures s != [] && IsCased(s[0]) ==> r[0] == if prevCased then LowerChar(s[0]) else UpperChar(s[0])
    ensures forall i :: 0 < i < |s| && IsCased(s[i]) ==>
      r[i] == if IsCased(s[i - 1]) then LowerChar(s[i]) else UpperChar(s[i])
  {
    if s == [] then []
    else
      var c := s[0];
      var d := if !IsCased(c) then c else if prevCased then LowerChar(c) else UpperChar(c);
      var rest := TitleFrom(s[1..], IsCased(c));
      assert forall i :: 0 < i < |s| ==> s[1..][i - 1] == s[i];
      [d] + rest
  }

  function Title(s: string): (r: string)
    ensures |r| == |s|
    ensures forall i :: 0 <= i < |s| && !IsCased(s[i]) ==> r[i] == s[i]
    ensures forall i :: 0 <= i < |s| && IsCased(s[i]) ==>
      r[i] == if i > 0 && IsCased(s[i - 1]) then LowerChar(s[i]) else UpperChar(s[i])
  {
    TitleFrom(s, false)
  }

  /** Title-casing after turning hyphens into spaces (the URL-segment names of
      both vendor scripts): a hyphen becomes a space, other uncased characters
      stay, and a cased character is upper-cased at the start of each word
      and lower-cased inside it. */
  predicate IsDehyphenTitled(seg: string, r: string) {
    && |r| == |seg|
    && (forall q :: 0 <= q < |seg| && seg[q] == '-' ==> r[q] == ' ')
    && (forall q :: 0 <= q < |seg| && !IsCased(seg[q]) && seg[q] != '-' ==> r[q] == seg[q])
    && (forall q :: 0 <= q < |seg| && IsCased(seg[q]) ==>
          r[q] == if q > 0 && IsCased(seg[q - 1]) then LowerChar(seg[q]) else UpperChar(seg[q]))
  }

  lemma TitleOfDehyphenated(seg: string)
    ensures IsDehyphenTitled(seg, Title(ReplaceChar(seg, '-', ' ')))
  {
    var t := ReplaceChar(seg, '-', ' ');
    assert forall q :: 0 <= q < |seg| ==> (IsCased(t[q]) <==> IsCased(seg[q]));
  }

  /** str.replace(a, b) for single characters. */
  function ReplaceChar(s: string, a: char, b: char): (r: string)
    ensures |r| == |s|
    ensures forall i :: 0 <= i < |s| ==> r[i] == (if s[i] == a then b else s[i])
  {
    if s == [] then [] else [if s[0] == a then b else s[0]] + ReplaceChar(s[1..], a, b)
  }

  /** Removes every occurrence of the characters in `bad` (re.sub with a
      character class and an empty replacement, or str.replace(c, '')). */
  function RemoveChars(s: string, bad: set<char>): (r: string)
    ensures forall i :: 0 <= i < |r| ==> r[i] !in bad
    ensures forall i :: 0 <= i < |r| ==> r[i] in s
    ensures |r| <= |s|
  {
    if s == [] then []
    else if s[0] in bad then RemoveChars(s[1..], bad)
    else [s[0]] + RemoveChars(s[1..], bad)
  }

  /** Every character outside `bad` survives, as often as it occurs. */
  lemma {:induction false} RemoveCharsKeeps(s: string, bad: set<char>)
    ensures forall c :: c !in bad ==> multiset(RemoveChars(s, bad))[c] == multiset(s)[c]
  {
    if s != [] {
      assert s == [s[0]] + s[1..];
      RemoveCharsKeeps(s[1..], bad);
    }
  }

  /** Removal works character by character and keeps the order: removing
      from a concatenation concatenates the removals ... */
  lemma {:induction false} RemoveCharsAppend(a: string, b: string, bad: set<char>)
    ensures RemoveChars(a + b, bad) == RemoveChars(a, bad) + RemoveChars(b, bad)
    decreases |a|
  {
    if a == [] {
      assert a + b == b;
    } else {
      assert (a + b)[0] == a[0] && (a + b)[1..] == a[1..] + b;
      RemoveCharsAppend(a[1..], b, bad);
    }
  }

  /** ... and a single character is dropped exactly when it is in `bad`. */
  lemma RemoveCharsOne(c: char, bad: set<char>)
    ensures RemoveChars([c], bad) == if c in bad then [] else [c]
  {
  }

  lemma {:induction false} RemoveCharsNoop(s: string, bad: set<char>)
    requires forall i :: 0 <= i < |s| ==> s[i] !in bad
    ensures RemoveChars(s, bad) == s
  {
    if s != [] { RemoveCharsNoop(s[1..], bad); }
  }

  /** texto.replace(' ', '') */
  function RemoveSpaces(s: string): (r: string)
    ensures ' ' !in r
  {
    RemoveChars(s, {' '})
  }

  /** Every character but the space survives, as often as it occurs ... */
  lemma RemoveSpacesKeeps(s: string)
    ensures forall c :: c != ' ' ==> multiset(RemoveSpaces(s))[c] == multiset(s)[c]
  {
    RemoveCharsKeeps(s, {' '});
  }

  /** ... in order. */
  lemma RemoveSpacesAppend(a: string, b: string)
    ensures RemoveSpaces(a + b) == RemoveSpaces(a) + RemoveSpaces(b)
  {
    RemoveCharsAppend(a, b, {' '});
  }

  lemma RemoveSpacesOne(c: char)
    ensures RemoveSpaces([c]) == if c == ' ' then [] else [c]
  {
  }

  function StripLeft(s: string): (r: string)
    ensures r == [] || !IsSpace(r[0])
    ensures |r| <= |s| && r == s[|s| - |r|..]
    ensures forall i :: 0 <= i < |s| - |r| ==> IsSpace(s[i])
  {
    if s != [] && IsSpace(s[0]) then StripLeft(s[1..]) else s
  }

  function StripRight(s: string): (r: string)
    ensures r == [] || !IsSpace(r[|r| - 1])
    ensures |r| <= |s| && r == s[..|r|]
    ensures forall i :: |r| <= i < |s| ==> IsSpace(s[i])
  {
    if s != [] && IsSpace(s[|s| - 1]) then StripRight(s[..|s| - 1]) else s
  }

  /** r is the slice of s that starts at a, and every character of s
      outside it is whitespace. */
  predicate StrippedAt(s: string, a: nat, r: string) {
    && a + |r| <= |s| && r == s[a..a + |r|]
    && (forall i :: 0 <= i < a ==> IsSpace(s[i]))
    && (forall i :: a + |r| <= i < |s| ==> IsSpace(s[i]))
  }

  /** str.strip() with no argument. */
  function Strip(s: string): (r: string)
    ensures r == [] || (!IsSpace(r[0]) && !IsSpace(r[|r| - 1]))
    ensures forall i :: 0 <= i < |r| ==> r[i] in s
  {
    StripRight(StripLeft(s))
  }

  /** Where the stripped text starts: after the leading whitespace. */
  function StripStart(s: string): nat {
    |s| - |StripLeft(s)|
  }

  /** str.strip() is the slice between the leading and the trailing
      whitespace. */
  lemma StripSlice(s: string)
    ensures StrippedAt(s, StripStart(s), Strip(s))
  {
    var l := StripLeft(s);
    TrimSpaces(s, l, StripRight(l));
  }

  /** Stripping the leading whitespace (leaving l) and then the trailing
      whitespace (leaving r) leaves the slice of s that starts at |s| - |l|. */
  lemma TrimSpaces(s: string, l: string, r: string)
    requires |l| <= |s| && l == s[|s| - |l|..]
    requires forall i :: 0 <= i < |s| - |l| ==> IsSpace(s[i])
    requires |r| <= |l| && r == l[..|r|]
    requires forall i :: |r| <= i < |l| ==> IsSpace(l[i])
    ensures StrippedAt(s, |s| - |l|, r)
  {
    var a := |s| - |l|;
    forall i | a + |r| <= i < |s| ensures IsSpace(s[i]) {
      assert s[i] == l[i - a];
    }
  }

  lemma StripNoop(s: string)
    requires s == [] || (!IsSpace(s[0]) && !IsSpace(s[|s| - 1]))
    ensures Strip(s) == s
  {
  }

  /** Drops the whitespace at the head of s. */
  function DropSpaces(s: string): (r: string)
    ensures |r| <= |s| && r == s[|s| - |r|..]
    ensures r == [] || !IsSpace(r[0])
    ensures forall i :: 0 <= i < |s| - |r| ==> IsSpace(s[i])
  {
    StripLeft(s)
  }

  /** re.sub(r'\s+', ' ', s): every maximal run of whitespace becomes one space. */
  function CollapseSpaces(s: string): (r: string)
    ensures forall i :: 0 <= i < |r| && IsSpace(r[i]) ==> r[i] == ' '
    ensures forall i :: 0 <= i < |r| - 1 ==> !(IsSpace(r[i]) && IsSpace(r[i + 1]))
    ensures s == [] <==> r == []
    ensures r != [] ==> (IsSpace(r[0]) <==> IsSpace(s[0]))
    ensures forall i :: 0 <= i < |r| && !IsSpace(r[i]) ==> r[i] in s
    decreases |s|
  {
    if s == [] then []
    else if IsSpace(s[0]) then
      var d := DropSpaces(s);
      var rest := CollapseSpaces(d);
      SuffixIn(d, s);
      CollapseHead([' '], rest, s)
    else
      var rest := CollapseSpaces(s[1..]);
      SuffixIn(s[1..], s);
      CollapseHead([s[0]], rest, s)
  }

  lemma SuffixIn(d: string, s: string)
    requires |d| <= |s| && d == s[|s| - |d|..]
    ensures forall x :: x in d ==> x in s
  {
    forall x | x in d
      ensures x in s
    {
      var i :| 0 <= i < |d| && d[i] == x;
      assert s[|s| - |d| + i] == x;
    }
  }

  /** Glues the head of a collapsed string to its collapsed tail. */
  function CollapseHead(h: string, rest: string, s: string): (r: string)
    requires |h| == 1
    requires !IsSpace(h[0]) ==> h[0] in s
    requires IsSpace(h[0]) ==> h[0] == ' ' && (rest == [] || !IsSpace(rest[0]))
    requires forall i :: 0 <= i < |rest| && IsSpace(rest[i]) ==> rest[i] == ' '
    requires forall i :: 0 <= i < |rest| - 1 ==> !(IsSpace(rest[i]) && IsSpace(rest[i + 1]))
    requires forall i :: 0 <= i < |rest| && !IsSpace(rest[i]) ==> rest[i] in s
    ensures r == h + rest && r[0] == h[0]
    ensures forall i :: 0 <= i < |r| && IsSpace(r[i]) ==> r[i] == ' '
    ensures forall i :: 0 <= i < |r| - 1 ==> !(IsSpace(r[i]) && IsSpace(r[i + 1]))
    ensures forall i :: 0 <= i < |r| && !IsSpace(r[i]) ==> r[i] in s
  {
    var r := h + rest;
    assert forall i :: 1 <= i < |r| ==> r[i] == rest[i - 1];
    r
  }

  /** CollapseSpaces changes nothing in a string whose only whitespace is
      single plain spaces. */
  lemma {:induction false} CollapseSpacesNoop(s: string)
    requires forall i :: 0 <= i < |s| && IsSpace(s[i]) ==> s[i] == ' '
    requires forall i :: 0 <= i < |s| - 1 ==> !(IsSpace(s[i]) && IsSpace(s[i + 1]))
    ensures CollapseSpaces(s) == s
    decreases |s|
  {
    if s != [] {
      if IsSpace(s[0]) {
        assert DropSpaces(s) == s[1..] by {
          assert s[1..] == [] || !IsSpace(s[1..][0]);
        }
        CollapseSpacesNoop(s[1..]);
      } else {
        CollapseSpacesNoop(s[1..]);
      }
    }
  }

  /** The characters of s that are not whitespace, in order. */
  function NonSpaces(s: string): (r: string)
    ensures forall i :: 0 <= i < |r| ==> !IsSpace(r[i])
  {
    if s == [] then [] else (if IsSpace(s[0]) then [] else [s[0]]) + NonSpaces(s[1..])
  }

  lemma {:induction false} NonSpacesAppend(a: string, b: string)
    ensures NonSpaces(a + b) == NonSpaces(a) + NonSpaces(b)
    decreases |a|
  {
    if a == [] {
      assert a + b == b;
    } else {
      assert (a + b)[0] == a[0] && (a + b)[1..] == a[1..] + b;
      NonSpacesAppend(a[1..], b);
    }
  }

  lemma {:induction false} NonSpacesOfSpaces(w: string)
    requires forall i :: 0 <= i < |w| ==> IsSpace(w[i])
    ensures NonSpaces(w) == []
  {
    if w != [] { NonSpacesOfSpaces(w[1..]); }
  }

  /** Dropping leading whitespace loses no other character. */
  lemma NonSpacesDropSpaces(s: string)
    ensures NonSpaces(DropSpaces(s)) == NonSpaces(s)
  {
    var d := DropSpaces(s);
    var n := |s| - |d|;
    assert s == s[..n] + d;
    NonSpacesAppend(s[..n], d);
    NonSpacesOfSpaces(s[..n]);
  }

  /** Collapsing keeps every character that is not whitespace, in order. */
  lemma {:induction false} CollapseKeepsNonSpaces(s: string)
    ensures NonSpaces(CollapseSpaces(s)) == NonSpaces(s)
    decreases |s|
  {
    if s != [] {
      if IsSpace(s[0]) {
        var d := DropSpaces(s);
        CollapseKeepsNonSpaces(d);
        NonSpacesAppend([' '], CollapseSpaces(d));
        NonSpacesDropSpaces(s);
      } else {
        CollapseKeepsNonSpaces(s[1..]);
        NonSpacesAppend([s[0]], CollapseSpaces(s[1..]));
      }
    }
  }

  /** Replacing one whitespace character by another loses no other character. */
  lemma {:induction false} NonSpacesReplaceSpace(s: string, a: char, b: char)
    requires IsSpace(a) && IsSpace(b)
    ensures NonSpaces(ReplaceChar(s, a, b)) == NonSpaces(s)
  {
    if s != [] {
      var t := ReplaceChar(s, a, b);
      assert t[1..] == ReplaceChar(s[1..], a, b);
      NonSpacesReplaceSpace(s[1..], a, b);
    }
  }

  /** Removing characters commutes with dropping whitespace. */
  lemma {:induction false} NonSpacesRemoveChars(s: string, bad: set<char>)
    ensures NonSpaces(RemoveChars(s, bad)) == RemoveChars(NonSpaces(s), bad)
  {
    if s != [] {
      NonSpacesRemoveChars(s[1..], bad);
      var c := s[0];
      var rest := RemoveChars(s[1..], bad);
      if c !in bad {
        NonSpacesAppend([c], rest);
      }
      RemoveCharsAppend(if IsSpace(c) then [] else [c], NonSpaces(s[1..]), bad);
    }
  }

  /** Stripping loses no character that is not whitespace. */
  lemma NonSpacesStrip(s: string)
    ensures NonSpaces(Strip(s)) == NonSpaces(s)
  {
    StripSlice(s);
    NonSpacesOfStripped(s, StripStart(s), Strip(s));
  }

  /** A slice with only whitespace outside it keeps every other character. */
  lemma NonSpacesOfStripped(s: string, a: nat, r: string)
    requires StrippedAt(s, a, r)
    ensures NonSpaces(r) == NonSpaces(s)
  {
    var e := a + |r|;
    var p, q := s[..a], s[e..];
    ThreeParts(s, a, e);
    NonSpacesAppend(p + r, q);
    NonSpacesAppend(p, r);
    assert forall i :: 0 <= i < |p| ==> p[i] == s[i];
    NonSpacesOfSpaces(p);
    assert forall i :: 0 <= i < |q| ==> q[i] == s[e + i];
    NonSpacesOfSpaces(q);
  }

  lemma ThreeParts(s: string, a: nat, e: nat)
    requires a <= e <= |s|
    ensures s == s[..a] + s[a..e] + s[e..]
  {
  }

  /** StripLeft of a concatenation: whitespace is dropped from a, and also
      from b when a is all whitespace. */
  lemma {:induction false} StripLeftAppend(a: string, b: string)
    ensures StripLeft(a) != [] ==> StripLeft(a + b) == StripLeft(a) + b
    ensures StripLeft(a) == [] ==> StripLeft(a + b) == StripLeft(b)
    decreases |a|
  {
    if a == [] {
      assert a + b == b;
    } else {
      assert (a + b)[0] == a[0] && (a + b)[1..] == a[1..] + b;
      if IsSpace(a[0]) { StripLeftAppend(a[1..], b); }
    }
  }

  /** A non-empty run of whitespace collapses to one space. */
  lemma CollapseSpacesRun(w: string)
    requires w != [] && forall i :: 0 <= i < |w| ==> IsSpace(w[i])
    ensures CollapseSpaces(w) == " "
  {
  }

  /** Collapsing works run by run: a concatenation that does not join two
      whitespace characters collapses to the concatenation of the collapsed
      parts. With CollapseSpacesRun and CollapseSpacesNoop this says that
      each maximal run of whitespace becomes one space and nothing else
      changes. */
  lemma {:induction false} CollapseSpacesAppend(a: string, b: string)
    requires a == [] || b == [] || !IsSpace(a[|a| - 1]) || !IsSpace(b[0])
    ensures CollapseSpaces(a + b) == CollapseSpaces(a) + CollapseSpaces(b)
    decreases |a|, 1
  {
    if a == [] {
      assert a + b == b;
    } else if b == [] {
      assert a + b == a;
    } else if !IsSpace(a[0]) {
      CollapseAppendWord(a, b);
    } else {
      CollapseAppendSpace(a, b);
    }
  }

  /** CollapseSpacesAppend when a starts with a non-space. */
  lemma {:induction false} CollapseAppendWord(a: string, b: string)
    requires a != [] && b != [] && !IsSpace(a[0])
    requires !IsSpace(a[|a| - 1]) || !IsSpace(b[0])
    ensures CollapseSpaces(a + b) == CollapseSpaces(a) + CollapseSpaces(b)
    decreases |a|, 0
  {
    var t := a[1..];
    CollapseWordHead(a, b);
    if t != [] {
      LastOfSuffix(a, t);
    }
    CollapseSpacesAppend(t, b);
    ConcatAssoc([a[0]], CollapseSpaces(t), CollapseSpaces(b));
  }

  lemma LastOfSuffix<T>(s: seq<T>, d: seq<T>)
    requires d != [] && |d| <= |s| && d == s[|s| - |d|..]
    ensures d[|d| - 1] == s[|s| - 1]
  {
  }

  lemma StripLeftNoop(s: string)
    requires s != [] && !IsSpace(s[0])
    ensures DropSpaces(s) == s
  {
  }

  /** CollapseSpacesAppend when a starts with whitespace. */
  lemma {:induction false} CollapseAppendSpace(a: string, b: string)
    requires a != [] && b != [] && IsSpace(a[0])
    requires !IsSpace(a[|a| - 1]) || !IsSpace(b[0])
    ensures CollapseSpaces(a + b) == CollapseSpaces(a) + CollapseSpaces(b)
    decreases |a|, 0
  {
    var d := DropSpaces(a);
    CollapseSpaceHead(a, b);
    if d != [] {
      LastOfSuffix(a, d);
      CollapseSpacesAppend(d, b);
      ConcatAssoc(" ", CollapseSpaces(d), CollapseSpaces(b));
    } else {
      assert IsSpace(a[|a| - 1]);
      CollapseAppendRun(a, b);
    }
  }

  /** CollapseSpacesAppend when a is all whitespace. */
  lemma CollapseAppendRun(a: string, b: string)
    requires a != [] && IsSpace(a[0]) && DropSpaces(a) == []
    requires b != [] && !IsSpace(b[0])
    ensures CollapseSpaces(a + b) == CollapseSpaces(a) + CollapseSpaces(b)
  {
    CollapseSpaceHead(a, b);
    StripLeftNoop(b);
  }

  lemma ConcatAssoc<T>(x: seq<T>, y: seq<T>, z: seq<T>)
    ensures x + (y + z) == (x + y) + z
  {
  }

  /** One step of CollapseSpacesAppend when a starts with a non-space. */
  lemma CollapseWordHead(a: string, b: string)
    requires a != [] && !IsSpace(a[0])
    ensures CollapseSpaces(a + b) == [a[0]] + CollapseSpaces(a[1..] + b)
    ensures CollapseSpaces(a) == [a[0]] + CollapseSpaces(a[1..])
  {
    var ab := a + b;
    assert ab[0] == a[0] && ab[1..] == a[1..] + b;
  }

  /** One step of CollapseSpacesAppend when a starts with whitespace. */
  lemma CollapseSpaceHead(a: string, b: string)
    requires a != [] && IsSpace(a[0])
    ensures CollapseSpaces(a) == [' '] + CollapseSpaces(DropSpaces(a))
    ensures DropSpaces(a) != [] ==> CollapseSpaces(a + b) == [' '] + CollapseSpaces(DropSpaces(a) + b)
    ensures DropSpaces(a) == [] ==> CollapseSpaces(a + b) == [' '] + CollapseSpaces(DropSpaces(b))
  {
    var ab := a + b;
    assert ab[0] == a[0];
    StripLeftAppend(a, b);
  }

  function StartsWith(s: string, p: string): bool {
    |p| <= |s| && s[..|p|] == p
  }

  function EndsWith(s: string, p: string): bool {
    |p| <= |s| && s[|s| - |p|..] == p
  }

  lemma LowerAppend(a: string, b: string)
    ensures Lower(a + b) == Lower(a) + Lower(b)
  {
    assert forall i :: 0 <= i < |a + b| ==> Lower(a + b)[i] == (Lower(a) + Lower(b))[i];
  }

  /** A non-empty sequence is its front and its last element. */
  lemma HeadRest<T>(s: seq<T>)
    requires s != []
    ensures s == [s[0]] + s[1..]
  {
  }

  lemma FrontLast<T>(s: seq<T>)
    requires s != []
    ensures s == s[..|s| - 1] + [s[|s| - 1]]
  {
  }

  lemma AppendAssoc(a: string, b: string, c: string, d: string)
    ensures a + (b + c + d) == a + b + c + d
  {
  }

  lemma StartsWithAppend(s: string, t: string)
    ensures StartsWith(s + t, s)
  {
    assert (s + t)[..|s|] == s;
  }

  /** p occurs in s at position i. */
  predicate OccursAt(s: string, p: string, i: nat) {
    i + |p| <= |s| && s[i..i + |p|] == p
  }

  /** Python's `p in s` for strings. */
  function ContainsSub(s: string, p: string): (b: bool)
    ensures b <==> exists i: nat :: OccursAt(s, p, i)
  {
    if StartsWith(s, p) then
      assert OccursAt(s, p, 0);
      true
    else if s == [] then
      assert forall i: nat :: !OccursAt(s, p, i);
      false
    else
      var rest := ContainsSub(s[1..], p);
      assert forall i: nat :: OccursAt(s[1..], p, i) <==> OccursAt(s, p, i + 1) by {
        forall i: nat ensures OccursAt(s[1..], p, i) <==> OccursAt(s, p, i + 1) {
          if i + 1 + |p| <= |s| { assert s[1..][i..i + |p|] == s[i + 1..i + 1 + |p|]; }
        }
      }
      assert !OccursAt(s, p, 0);
      assert (exists i: nat :: OccursAt(s, p, i)) ==> exists i: nat :: OccursAt(s[1..], p, i) by {
        if exists i: nat :: OccursAt(s, p, i) {
          var i: nat :| OccursAt(s, p, i);
          assert i > 0;
          assert OccursAt(s[1..], p, i - 1);
        }
      }
      rest
  }

  /** p occurs in s whenever p occurs in a part of s. */
  lemma ContainsSubOfSlice(s: string, lo: nat, hi: nat, p: string)
    requires lo <= hi <= |s|
    requires ContainsSub(s[lo..hi], p)
    ensures ContainsSub(s, p)
  {
    var i: nat :| OccursAt(s[lo..hi], p, i);
    assert i + |p| <= hi - lo;
    var inner, outer := s[lo..hi][i..i + |p|], s[lo + i..lo + i + |p|];
    assert |inner| == |outer|;
    forall k | 0 <= k < |p| ensures inner[k] == outer[k] { }
    assert inner == outer;
    assert OccursAt(s, p, lo + i);
  }

  /** Index of the first element satisfying P (a loop with break). */
  function FirstWhere<T>(s: seq<T>, P: T -> bool): (r: Option<nat>)
    ensures r.Some? ==> r.value < |s| && P(s[r.value])
    ensures r.Some? ==> forall j :: 0 <= j < r.value ==> !P(s[j])
    ensures r.None? ==> forall j :: 0 <= j < |s| ==> !P(s[j])
  {
    if s == [] then None
    else if P(s[0]) then Some(0)
    else
      var r := FirstWhere(s[1..], P);
      assert forall j :: 1 <= j < |s| ==> s[1..][j - 1] == s[j];
      if r.Some? then Some(r.value + 1) else None
  }

  /** f of each element, in order (a for loop over a list that acts on every
      element). */
  function Mapped<T, U>(xs: seq<T>, f: T -> U): (r: seq<U>)
    ensures |r| == |xs|
    ensures forall i :: 0 <= i < |xs| ==> r[i] == f(xs[i])
  {
    if xs == [] then []
    else
      var front := xs[..|xs| - 1];
      var r := Mapped(front, f) + [f(xs[|xs| - 1])];
      assert forall i :: 0 <= i < |front| ==> front[i] == xs[i];
      r
  }

  /** f of each element satisfying P, in order (a for loop over a list that
      acts on the elements passing a filter). */
  function Picked<T, U>(xs: seq<T>, P: T -> bool, f: T -> U): (r: seq<U>)
    ensures |r| <= |xs|
  {
    if xs == [] then []
    else (if P(xs[0]) then [f(xs[0])] else []) + Picked(xs[1..], P, f)
  }

  /** Everything picked comes from an element that passes the filter ... */
  lemma {:induction false} PickedOrigin<T, U>(xs: seq<T>, P: T -> bool, f: T -> U, i: nat)
    requires i < |Picked(xs, P, f)|
    ensures exists k :: 0 <= k < |xs| && P(xs[k]) && Picked(xs, P, f)[i] == f(xs[k])
  {
    var head := if P(xs[0]) then [f(xs[0])] else [];
    var rest := Picked(xs[1..], P, f);
    assert Picked(xs, P, f) == head + rest;
    if i < |head| {
      assert P(xs[0]) && Picked(xs, P, f)[i] == f(xs[0]);
    } else {
      PickedOrigin(xs[1..], P, f, i - |head|);
      var k :| 0 <= k < |xs[1..]| && P(xs[1..][k]) && rest[i - |head|] == f(xs[1..][k]);
      assert xs[1..][k] == xs[k + 1];
    }
  }

  /** ... and every element that passes it is picked. */
  lemma {:induction false} PickedComplete<T, U>(xs: seq<T>, P: T -> bool, f: T -> U, k: nat)
    requires k < |xs| && P(xs[k])
    ensures f(xs[k]) in Picked(xs, P, f)
  {
    var head := if P(xs[0]) then [f(xs[0])] else [];
    var rest := Picked(xs[1..], P, f);
    assert Picked(xs, P, f) == head + rest;
    if k == 0 {
      assert (head + rest)[0] == f(xs[0]);
    } else {
      assert xs[1..][k - 1] == xs[k];
      PickedComplete(xs[1..], P, f, k - 1);
      var i :| 0 <= i < |rest| && rest[i] == f(xs[k]);
      assert (head + rest)[|head| + i] == f(xs[k]);
    }
  }

  /** A loop that stopped at k (or ran off the end) found the first match. */
  lemma FirstWhereAt<T>(s: seq<T>, P: T -> bool, k: nat)
    requires k <= |s|
    requires forall j :: 0 <= j < k ==> !P(s[j])
    requires k < |s| ==> P(s[k])
    ensures FirstWhere(s, P) == if k < |s| then Some(k) else None
  {
  }

  /** A for loop with an early break: the index of the first element that
      satisfies P. */
  method FindIndex<T>(s: seq<T>, P: T -> bool) returns (r: Option<nat>)
    ensures r == FirstWhere(s, P)
  {
    var k := 0;
    while k < |s|
      invariant 0 <= k <= |s|
      invariant forall j :: 0 <= j < k ==> !P(s[j])
    {
      if P(s[k]) {
        FirstWhereAt(s, P, k);
        return Some(k);
      }
      k := k + 1;
    }
    FirstWhereAt(s, P, k);
    return None;
  }

  /** Some word of `words` occurs in s. */
  predicate AnyOccurs(s: string, words: seq<string>) {
    exists k :: 0 <= k < |words| && ContainsSub(s, words[k])
  }

  /** Position of the first c in s, or |s|. */
  function IndexOf(s: string, c: char): (k: nat)
    ensures k <= |s|
    ensures k < |s| ==> s[k] == c
    ensures forall i :: 0 <= i < k ==> s[i] != c
  {
    if s == [] then 0 else if s[0] == c then 0 else 1 + IndexOf(s[1..], c)
  }

  /** Python's s.split(sep) for a one-character separator: always at least
      one piece, and the pieces never contain the separator. */
  function Split(s: string, sep: char): (r: seq<string>)
    ensures |r| >= 1
    ensures forall i :: 0 <= i < |r| ==> sep !in r[i]
    decreases |s|
  {
    var k := IndexOf(s, sep);
    if k == |s| then [s] else [s[..k]] + Split(s[k + 1..], sep)
  }

  lemma {:induction false} SplitNoSep(s: string, sep: char)
    requires sep !in s
    ensures Split(s, sep) == [s]
  {
  }

  /** One step of split: the piece before the first separator, then the
      pieces of the rest. */
  lemma SplitStep(s: string, sep: char, k: nat)
    requires k == IndexOf(s, sep) && k < |s|
    ensures Split(s, sep) == [s[..k]] + Split(s[k + 1..], sep)
  {
  }

  /** sep.join(pieces) */
  function Join(pieces: seq<string>, sep: char): string {
    if pieces == [] then []
    else if |pieces| == 1 then pieces[0]
    else pieces[0] + [sep] + Join(pieces[1..], sep)
  }

  /** Joining the pieces of a split with the separator gives back the text. */
  lemma {:induction false} JoinSplit(s: string, sep: char)
    ensures Join(Split(s, sep), sep) == s
    decreases |s|
  {
    var k := IndexOf(s, sep);
    if k == |s| {
      SplitNoSep(s, sep);
    } else {
      var rest := s[k + 1..];
      JoinSplit(rest, sep);
      SplitStep(s, sep, k);
      JoinCons(s[..k], Split(rest, sep), sep);
      AroundSep(s, k, sep);
    }
  }

  lemma JoinCons(p: string, ps: seq<string>, sep: char)
    requires |ps| >= 1
    ensures Join([p] + ps, sep) == p + [sep] + Join(ps, sep)
  {
    assert ([p] + ps)[1..] == ps;
  }

  lemma AroundSep(s: string, k: nat, sep: char)
    requires k < |s| && s[k] == sep
    ensures s == s[..k] + [sep] + s[k + 1..]
  {
  }

  /** The first separator of s is at k. */
  lemma {:induction false} IndexOfAt(s: string, c: char, k: nat)
    requires k < |s| && s[k] == c
    requires forall i :: 0 <= i < k ==> s[i] != c
    ensures IndexOf(s, c) == k
  {
    if k > 0 {
      assert s[1..][k - 1] == c;
      IndexOfAt(s[1..], c, k - 1);
    }
  }

  /** Splitting the join of separator-free pieces gives back the pieces. */
  lemma {:induction false} SplitJoin(pieces: seq<string>, sep: char)
    requires |pieces| >= 1
    requires forall i :: 0 <= i < |pieces| ==> sep !in pieces[i]
    ensures Split(Join(pieces, sep), sep) == pieces
    decreases |pieces|
  {
    if |pieces| == 1 {
      SplitNoSep(pieces[0], sep);
    } else {
      var p := pieces[0];
      var tail := Join(pieces[1..], sep);
      var s := p + [sep] + tail;
      assert s[|p|] == sep;
      assert forall i :: 0 <= i < |p| ==> s[i] == p[i];
      IndexOfAt(s, sep, |p|);
      assert s[..|p|] == p && s[|p| + 1..] == tail;
      SplitJoin(pieces[1..], sep);
      assert pieces == [p] + pieces[1..];
    }
  }

  /** Text after a separator has the same last piece as the whole. */
  lemma {:induction false} LastPieceAfterSep(a: string, b: string, sep: char)
    ensures LastPiece(a + [sep] + b, sep) == LastPiece(b, sep)
    decreases |b|
  {
    var s := a + [sep] + b;
    if b == [] {
      assert s[|s| - 1] == sep;
    } else if b[|b| - 1] == sep {
      assert s[|s| - 1] == sep;
    } else {
      var b' := b[..|b| - 1];
      assert s[..|s| - 1] == a + [sep] + b';
      LastPieceStep(s, sep);
      LastPieceStep(b, sep);
      LastPieceAfterSep(a, b', sep);
    }
  }

  /** The last piece of split(sep) is the text after the last separator. */
  lemma SplitLast(s: string, sep: char)
    ensures var pieces := Split(s, sep); pieces[|pieces| - 1] == LastPiece(s, sep)
  {
    var pieces := Split(s, sep);
    JoinSplit(s, sep);
    LastPieceJoin(pieces, sep);
  }

  /** The last piece of a join of separator-free pieces is the last of them. */
  lemma {:induction false} LastPieceJoin(pieces: seq<string>, sep: char)
    requires |pieces| >= 1
    requires forall i :: 0 <= i < |pieces| ==> sep !in pieces[i]
    ensures LastPiece(Join(pieces, sep), sep) == pieces[|pieces| - 1]
    decreases |pieces|
  {
    if |pieces| == 1 {
      LastPieceWhole(pieces[0], sep);
    } else {
      var rest := pieces[1..];
      LastPieceJoin(rest, sep);
      LastPieceAfterSep(pieces[0], Join(rest, sep), sep);
    }
  }

  lemma LastPieceWhole(s: string, sep: char)
    requires sep !in s
    ensures LastPiece(s, sep) == s
  {
    LastPieceAppend([], s, sep);
    assert [] + s == s;
  }


  /** str.strip(c) and str.rstrip(c) for one character. */
  function StripCharLeft(s: string, c: char): (r: string)
    ensures r == [] || r[0] != c
    ensures |r| <= |s| && r == s[|s| - |r|..]
    ensures forall i :: 0 <= i < |s| - |r| ==> s[i] == c
  {
    if s != [] && s[0] == c then StripCharLeft(s[1..], c) else s
  }

  function RStripChar(s: string, c: char): (r: string)
    ensures r == [] || r[|r| - 1] != c
    ensures |r| <= |s| && r == s[..|r|]
    ensures forall i :: |r| <= i < |s| ==> s[i] == c
  {
    if s != [] && s[|s| - 1] == c then RStripChar(s[..|s| - 1], c) else s
  }

  /** r is the slice of s that starts at a, and every character of s
      outside it is c. */
  predicate StrippedCharAt(s: string, a: nat, r: string, c: char) {
    && a + |r| <= |s| && r == s[a..a + |r|]
    && (forall i :: 0 <= i < a ==> s[i] == c)
    && (forall i :: a + |r| <= i < |s| ==> s[i] == c)
  }

  function StripChar(s: string, c: char): (r: string)
    ensures r == [] || (r[0] != c && r[|r| - 1] != c)
  {
    RStripChar(StripCharLeft(s, c), c)
  }

  /** str.strip(c) is the slice between the leading and the trailing runs
      of c. */
  lemma StripCharSlice(s: string, c: char)
    ensures StrippedCharAt(s, |s| - |StripCharLeft(s, c)|, StripChar(s, c), c)
  {
    var l := StripCharLeft(s, c);
    TrimChars(s, l, RStripChar(l, c), c);
  }

  /** TrimSpaces for runs of the one character c. */
  lemma TrimChars(s: string, l: string, r: string, c: char)
    requires |l| <= |s| && l == s[|s| - |l|..]
    requires forall i :: 0 <= i < |s| - |l| ==> s[i] == c
    requires |r| <= |l| && r == l[..|r|]
    requires forall i :: |r| <= i < |l| ==> l[i] == c
    ensures StrippedCharAt(s, |s| - |l|, r, c)
  {
    var a := |s| - |l|;
    forall i | a + |r| <= i < |s| ensures s[i] == c {
      assert s[i] == l[i - a];
    }
  }

  /** The last piece of s.split(sep): everything after the last separator. */
  function LastPiece(s: string, sep: char): (r: string)
    ensures sep !in r
    ensures |r| <= |s|
    ensures |r| < |s| ==> s[|s| - |r| - 1] == sep
  {
    if s == [] then []
    else if s[|s| - 1] == sep then []
    else LastPiece(s[..|s| - 1], sep) + [s[|s| - 1]]
  }

  /** The last piece is a suffix of the text. */
  lemma {:induction false} LastPieceSuffix(s: string, sep: char)
    ensures EndsWith(s, LastPiece(s, sep))
    decreases |s|
  {
    if s != [] && s[|s| - 1] != sep {
      var u := s[..|s| - 1];
      LastPieceSuffix(u, sep);
      var p := LastPiece(u, sep);
      assert s == u + [s[|s| - 1]];
      assert s[|s| - |p| - 1..] == u[|u| - |p|..] + [s[|s| - 1]];
    }
  }

  lemma LastPieceStep(u: string, sep: char)
    requires u != [] && u[|u| - 1] != sep
    ensures LastPiece(u, sep) == LastPiece(u[..|u| - 1], sep) + [u[|u| - 1]]
  {
  }

  /** Appending text without a separator extends the last piece. */
  lemma {:induction false} LastPieceAppend(s: string, t: string, sep: char)
    requires sep !in t
    ensures LastPiece(s + t, sep) == LastPiece(s, sep) + t
    decreases |t|
  {
    if t == [] {
      assert s + t == s;
    } else {
      var t' := t[..|t| - 1];
      var c := t[|t| - 1];
      assert t == t' + [c];
      var st := s + t;
      assert st[..|st| - 1] == s + t';
      assert st[|st| - 1] == c;
      assert c != sep by {
        assert c in t;
      }
      LastPieceStep(st, sep);
      LastPieceAppend(s, t', sep);
    }
  }

  /** The end of the run of characters satisfying inRun that starts at i. */
  function RunEnd(t: string, i: nat, inRun: char -> bool): (e: nat)
    requires i <= |t|
    ensures i <= e <= |t|
    ensures forall k :: i <= k < e ==> inRun(t[k])
    ensures e == |t| || !inRun(t[e])
    decreases |t| - i
  {
    if i < |t| && inRun(t[i]) then RunEnd(t, i + 1, inRun) else i
  }

  /** A run is measured exactly when it is followed by a character outside it. */
  lemma {:induction false} RunEndAt(t: string, i: nat, e: nat, inRun: char -> bool)
    requires i <= e <= |t|
    requires forall k :: i <= k < e ==> inRun(t[k])
    requires e == |t| || !inRun(t[e])
    ensures RunEnd(t, i, inRun) == e
    decreases e - i
  {
    if i < e { RunEndAt(t, i + 1, e, inRun); }
  }

  /** A run covers every stretch of characters satisfying inRun from i. */
  lemma {:induction false} RunEndCovers(t: string, i: nat, e: nat, inRun: char -> bool)
    requires i <= e <= |t|
    requires forall k :: i <= k < e ==> inRun(t[k])
    ensures RunEnd(t, i, inRun) >= e
    decreases e - i
  {
    if i < e { RunEndCovers(t, i + 1, e, inRun); }
  }

  /** s[:n] */
  function Take(s: string, n: nat): (r: string)
    ensures |r| == if |s| <= n then |s| else n
    ensures r == s[..|r|]
  {
    if |s| <= n then s else s[..n]
  }

  predicate IsHexDigit(c: char) {
    IsDigit(c) || 'a' <= c <= 'f' || 'A' <= c <= 'F'
  }

  function HexValue(c: char): (v: nat)
    requires IsHexDigit(c)
    ensures v < 16
  {
    if IsDigit(c) then c as nat - '0' as nat
    else if 'a' <= c <= 'f' then c as nat - 'a' as nat + 10
    else c as nat - 'A' as nat + 10
  }

  /** s starts with an escape %XX that stands for an ASCII character. */
  predicate AsciiEscapeAt(s: string, i: nat) {
    && i + 3 <= |s| && s[i] == '%' && IsHexDigit(s[i + 1]) && IsHexDigit(s[i + 2])
    && HexValue(s[i + 1]) * 16 + HexValue(s[i + 2]) < 0x80
  }

  /** urllib.parse.unquote restricted to escapes of ASCII characters: each
      %XX below %80 becomes its character; everything else is kept. */
  /** The character an ASCII escape %XX at i stands for. */
  function EscapedChar(s: string, i: nat): char
    requires AsciiEscapeAt(s, i)
  {
    (HexValue(s[i + 1]) * 16 + HexValue(s[i + 2])) as char
  }

  function PercentDecode(s: string): (r: string)
    ensures |r| <= |s|
    ensures '%' !in s ==> r == s
    ensures AsciiEscapeAt(s, 0) ==> r != [] && r[0] == EscapedChar(s, 0)
    ensures s != [] && !AsciiEscapeAt(s, 0) ==> r != [] && r[0] == s[0]
    decreases |s|
  {
    if s == [] then []
    else if AsciiEscapeAt(s, 0) then
      [EscapedChar(s, 0)] + PercentDecode(s[3..])
    else [s[0]] + PercentDecode(s[1..])
  }

  /** Text before the first % is copied unchanged, and decoding goes on
      after it. */
  lemma {:induction false} PercentDecodePlainPrefix(a: string, b: string)
    requires forall i :: 0 <= i < |a| ==> a[i] != '%'
    ensures PercentDecode(a + b) == a + PercentDecode(b)
    decreases |a|
  {
    if a == [] {
      assert a + b == b;
    } else {
      var a' := a[1..];
      PercentDecodePlainHead(a, b);
      assert forall i :: 0 <= i < |a'| ==> a'[i] == a[i + 1];
      PercentDecodePlainPrefix(a', b);
      assert [a[0]] + (a' + PercentDecode(b)) == ([a[0]] + a') + PercentDecode(b);
      assert a == [a[0]] + a';
    }
  }

  lemma PercentDecodePlainHead(a: string, b: string)
    requires a != [] && a[0] != '%'
    ensures PercentDecode(a + b) == [a[0]] + PercentDecode(a[1..] + b)
  {
    var ab := a + b;
    assert ab[0] == a[0];
    PercentDecodePlainStep(ab);
    assert ab[1..] == a[1..] + b;
  }

  lemma PercentDecodePlainStep(s: string)
    requires s != [] && s[0] != '%'
    ensures PercentDecode(s) == [s[0]] + PercentDecode(s[1..])
  {
  }

  /** An ASCII escape becomes its character, and decoding goes on after it. */
  lemma PercentDecodeEscape(s: string)
    requires AsciiEscapeAt(s, 0)
    ensures PercentDecode(s) == [EscapedChar(s, 0)] + PercentDecode(s[3..])
  {
  }

  /** "%3F" decodes to a question mark. */
  lemma DecodeQuestionMark()
    ensures PercentDecode("%3F") == "?"
  {
    var s := "%3F";
    assert AsciiEscapeAt(s, 0) by {
      assert HexValue('3') == 3 && HexValue('F') == 15;
    }
    assert s[3..] == [];
  }

  /** The number a string of decimal digits denotes (Python's int(s)). */
  function DigitsValue(s: string): nat
    requires forall i :: 0 <= i < |s| ==> IsDigit(s[i])
  {
    if s == [] then 0
    else
      var c := s[|s| - 1];
      assert IsDigit(c);
      DigitsValue(s[..|s| - 1]) * 10 + (c as int - '0' as int)
  }

  /** str(n): the decimal digits of n, with no leading zero. */
  function NatToString(n: nat): (r: string)
    ensures |r| >= 1
    ensures forall i :: 0 <= i < |r| ==> IsDigit(r[i])
    ensures DigitsValue(r) == n
    ensures r[0] != '0' || n == 0
  {
    var d := ['0' + (n % 10) as char];
    if n < 10 then d
    else
      var h := NatToString(n / 10);
      var r := h + d;
      assert r[..|r| - 1] == h;
      r
  }
}
