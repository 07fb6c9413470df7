/** The folder-name sanitiser that both vendor scripts define
    (limpar_nome in the Villagres script, limpar_nome_para_pasta in the
    Biancogres script; the two bodies are the same four steps). */
module Sanitize {
  import opened Text

  /** The characters Windows refuses in file names: \ / * ? : " < > | */
  const Forbidden: set<char> := {'\\', '/', '*', '?', ':', '"', '<', '>', '|'}

  /** No forbidden character is a letter, whitespace or a hyphen. */
  lemma ForbiddenIsPlain(c: char)
    requires c in Forbidden
    ensures !IsCased(c) && !IsSpace(c) && c != '-'
  {
  }

  /** Whitespace stays only as plain spaces: true after CollapseSpaces, and
      kept by any step whose output characters all come from its input. */
  predicate OnlyPlainSpaces(s: string) {
    forall i :: 0 <= i < |s| && IsSpace(s[i]) ==> s[i] == ' '
  }

  lemma OnlyPlainSpacesOfPart(s: string, t: string)
    requires OnlyPlainSpaces(s)
    requires forall i :: 0 <= i < |t| ==> t[i] in s
    ensures OnlyPlainSpaces(t)
  {
    forall i | 0 <= i < |t| && IsSpace(t[i]) ensures t[i] == ' ' {
      var j :| 0 <= j < |s| && s[j] == t[i];
    }
  }

  /** newline -> space, whitespace runs -> one space, forbidden characters
      removed, then stripped. */
  function CleanName(name: string): (r: string)
    ensures forall i :: 0 <= i < |r| ==> r[i] !in Forbidden
    ensures r == [] || (!IsSpace(r[0]) && !IsSpace(r[|r| - 1]))
    ensures OnlyPlainSpaces(r)
  {
    var t1 := ReplaceChar(name, '\n', ' ');
    var t2 := CollapseSpaces(t1);
    var t3 := RemoveChars(t2, Forbidden);
    var r := Strip(t3);
    OnlyPlainSpacesOfPart(t2, t3);
    OnlyPlainSpacesOfPart(t3, r);
    forall i | 0 <= i < |r| ensures r[i] !in Forbidden {
      var j :| 0 <= j < |t3| && t3[j] == r[i];
    }
    r
  }

  /** Every character of the name that is neither forbidden nor whitespace
      survives, in order: dropping the whitespace from the cleaned name gives
      the name without its whitespace and its forbidden characters. */
  lemma CleanNameKeepsText(name: string)
    ensures NonSpaces(CleanName(name)) == RemoveChars(NonSpaces(name), Forbidden)
  {
    var t1 := ReplaceChar(name, '\n', ' ');
    var t2 := CollapseSpaces(t1);
    var t3 := RemoveChars(t2, Forbidden);
    CleanNameSteps(name);
    NonSpacesStrip(t3);
    NonSpacesRemoveChars(t2, Forbidden);
    CollapseKeepsNonSpaces(t1);
    NonSpacesReplaceSpace(name, '\n', ' ');
  }

  /** The sanitiser does not promise single spaces: a forbidden character
      between two spaces leaves two spaces behind. */
  lemma CleanNameCanLeaveDoubleSpace()
    ensures CleanName("a ? b") == "a  b"
  {
    CleanNameSteps("a ? b");
    KeepNewlineFree();
    CollapseSingleSpaces();
    RemoveQuestionMark();
    StripDoubleSpace();
  }

  /** The four steps of the sanitiser, one after the other. */
  lemma CleanNameSteps(name: string)
    ensures CleanName(name) ==
      Strip(RemoveChars(CollapseSpaces(ReplaceChar(name, '\n', ' ')), Forbidden))
  {
  }

  lemma KeepNewlineFree()
    ensures ReplaceChar("a ? b", '\n', ' ') == "a ? b"
  {
    ReplaceNoNewline("a ? b");
  }

  lemma ReplaceNoNewline(s: string)
    requires '\n' !in s
    ensures ReplaceChar(s, '\n', ' ') == s
  {
    assert forall i :: 0 <= i < |s| ==> s[i] != '\n';
  }

  lemma CollapseSingleSpaces()
    ensures CollapseSpaces("a ? b") == "a ? b"
  {
    var s := "a ? b";
    assert !IsSpace('a') && !IsSpace('?') && !IsSpace('b');
    assert s[0] == 'a' && s[1] == ' ' && s[2] == '?' && s[3] == ' ' && s[4] == 'b';
    CollapseSpacesNoop(s);
  }

  lemma StripDoubleSpace()
    ensures Strip("a  b") == "a  b"
  {
    var t := "a  b";
    assert t[0] == 'a' && t[|t| - 1] == 'b';
    assert !IsSpace('a') && !IsSpace('b');
    StripNoop(t);
  }

  lemma RemoveQuestionMark()
    ensures RemoveChars("a ? b", Forbidden) == "a  b"
  {
    assert 'a' !in Forbidden && ' ' !in Forbidden && 'b' !in Forbidden && '?' in Forbidden;
    var t3: string := [' ', 'b'];
    RemoveCharsNoop(t3, Forbidden);
    var t2 := ['?'] + t3;
    DropChar('?', t3, Forbidden);
    var t1 := [' '] + t2;
    KeepChar(' ', t2, Forbidden);
    var t0 := ['a'] + t1;
    KeepChar('a', t1, Forbidden);
    Display5('a', ' ', '?', ' ', 'b');
    Display4('a', ' ', ' ', 'b');
  }

  lemma Display5(a: char, b: char, c: char, d: char, e: char)
    ensures [a] + ([b] + ([c] + [d, e])) == [a, b, c, d, e]
  {
  }

  lemma Display4(a: char, b: char, c: char, d: char)
    ensures [a] + ([b] + [c, d]) == [a, b, c, d]
  {
  }

  lemma DropChar(c: char, rest: string, bad: set<char>)
    requires c in bad
    ensures RemoveChars([c] + rest, bad) == RemoveChars(rest, bad)
  {
    assert ([c] + rest)[1..] == rest;
  }

  lemma KeepChar(c: char, rest: string, bad: set<char>)
    requires c !in bad
    ensures RemoveChars([c] + rest, bad) == [c] + RemoveChars(rest, bad)
  {
    assert ([c] + rest)[1..] == rest;
  }

  /** A name that is already clean is left as it is. */
  lemma {:induction false} CleanNameKeepsCleanName(s: string)
    requires forall i :: 0 <= i < |s| ==> s[i] !in Forbidden && s[i] != '\n'
    requires OnlyPlainSpaces(s)
    requires forall i :: 0 <= i < |s| - 1 ==> !(s[i] == ' ' && s[i + 1] == ' ')
    requires s == [] || (s[0] != ' ' && s[|s| - 1] != ' ')
    ensures CleanName(s) == s
  {
    assert ReplaceChar(s, '\n', ' ') == s;
    CollapseSpacesNoop(s);
    RemoveCharsNoop(s, Forbidden);
    StripNoop(s);
  }
}
