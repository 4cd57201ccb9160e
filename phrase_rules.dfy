/** The field rules of the inline encoding, stated on the text of the line: what the
    token loop of `parse1` does with the next field, for every line and every state of
    the loop. Together they cover every way a field can start. */
module PhraseRules {
  import opened Text
  import opened Phrase
  import PhraseProofs

  /** A word from `i` to `j`: no white space in it, and white space or the end of the
      line right after it. */
  predicate Word(s: string, i: nat, j: nat)
    requires i <= j <= |s|
  {
    i < j && (forall k :: i <= k < j ==> !IsSpace(s[k])) && (j == |s| || IsSpace(s[j]))
  }

  /** The next field starts at `c`, after white space from `p`. */
  predicate FieldAt(s: string, p: nat, c: nat)
  {
    p <= c < |s| && Blank(s, p, c) && !IsSpace(s[c])
  }

  /** The control token of the field at `c` ends at `e`. */
  lemma ControlAt(s: string, p: nat, c: nat, e: nat)
    requires FieldAt(s, p, c) && c < e <= |s| && Word(s, c, e)
    ensures SkipSpaces(s, p) == c && WordEnd(s, c) == e
  {
    PhraseProofs.SkipSpacesAt(s, p, c);
    PhraseProofs.WordEndAt(s, c, e);
  }

  /** Nothing but white space to the end: the loop stops and the line adds nothing. */
  lemma LineEnds(s: string, p: nat, acc: Scan)
    requires p <= |s| && !acc.malformed && Blank(s, p, |s|)
    ensures ScanStep(s, p, acc) == Done(acc)
  {
    PhraseProofs.SkipSpacesAt(s, p, |s|);
  }

  /** `#` with no word after it on the line: malformed. */
  lemma HashWithoutWord(s: string, p: nat, c: nat, acc: Scan)
    requires !acc.malformed && FieldAt(s, p, c) && s[c] == '#' && Blank(s, c + 1, |s|)
    ensures ScanStep(s, p, acc) == Done(acc.(sawControl := true, malformed := true))
  {
    ControlAt(s, p, c, c + 1);
    assert s[c..c + 1] == "#";
    PhraseProofs.SkipSpacesAt(s, c + 1, |s|);
  }

  /** `# word`: the word, up to the next white space, is the field, and the loop goes
      on after it; this is the only rule that sets `sawWord`. */
  lemma HashWord(s: string, p: nat, c: nat, d: nat, f: nat, acc: Scan)
    requires !acc.malformed && FieldAt(s, p, c) && s[c] == '#' && c + 1 < d <= |s|
    requires Blank(s, c + 1, d) && d < f <= |s| && Word(s, d, f)
    ensures ScanStep(s, p, acc)
            == Next(f, acc.(tokens := acc.tokens + [s[d..f]], sawWord := true, sawControl := true))
  {
    ControlAt(s, p, c, c + 1);
    assert s[c..c + 1] == "#";
    PhraseProofs.SkipSpacesAt(s, c + 1, d);
    PhraseProofs.WordEndAt(s, d, f);
  }

  /** `#N` whose count does not read as a number: malformed. */
  lemma CountUnreadable(s: string, p: nat, c: nat, e: nat, acc: Scan)
    requires !acc.malformed && FieldAt(s, p, c) && s[c] == '#' && c + 1 < e <= |s| && Word(s, c, e)
    requires ParseNat(s[c + 1..e]).None?
    ensures ScanStep(s, p, acc) == Done(acc.(sawControl := true, malformed := true))
  {
    ControlAt(s, p, c, e);
    assert s[c..e][1..] == s[c + 1..e];
  }

  /** `#0`: an empty field that adds nothing; the loop goes on right after it. */
  lemma CountZero(s: string, p: nat, c: nat, e: nat, acc: Scan)
    requires !acc.malformed && FieldAt(s, p, c) && s[c] == '#' && c + 1 < e <= |s| && Word(s, c, e)
    requires ParseNat(s[c + 1..e]) == Some(0)
    ensures ScanStep(s, p, acc) == Next(e, acc.(sawControl := true))
  {
    ControlAt(s, p, c, e);
    assert s[c..e][1..] == s[c + 1..e];
  }

  /** `#N` with N > 0 not followed by one space: malformed. */
  lemma CountWithoutSpace(s: string, p: nat, c: nat, e: nat, n: nat, acc: Scan)
    requires !acc.malformed && FieldAt(s, p, c) && s[c] == '#' && c + 1 < e <= |s| && Word(s, c, e)
    requires ParseNat(s[c + 1..e]) == Some(n) && n > 0 && (e == |s| || s[e] != ' ')
    ensures ScanStep(s, p, acc) == Done(acc.(sawControl := true, malformed := true))
  {
    ControlAt(s, p, c, e);
    assert s[c..e][1..] == s[c + 1..e];
  }

  /** `#N` with N > 0 and a space: the next N characters, or as many as the line has
      left, are the field, cut at the first NUL; the loop goes on after them. */
  lemma CountedField(s: string, p: nat, c: nat, e: nat, n: nat, acc: Scan)
    requires !acc.malformed && FieldAt(s, p, c) && s[c] == '#' && c + 1 < e < |s| && Word(s, c, e)
    requires ParseNat(s[c + 1..e]) == Some(n) && n > 0 && s[e] == ' '
    ensures var k := if n < |s| - (e + 1) then n else |s| - (e + 1);
      ScanStep(s, p, acc)
      == Next(e + 1 + k, acc.(tokens := acc.tokens + [UpToNul(s[e + 1..e + 1 + k])], sawControl := true))
  {
    ControlAt(s, p, c, e);
    assert s[c..e][1..] == s[c + 1..e];
  }

  /** `;`: it and the rest of the line are the comment, and the loop stops. */
  lemma CommentField(s: string, p: nat, c: nat, acc: Scan)
    requires !acc.malformed && FieldAt(s, p, c) && s[c] == ';'
    ensures ScanStep(s, p, acc) == Done(acc.(comment := acc.comment + s[c..], sawControl := true))
  {
    ControlAt(s, p, c, WordEnd(s, c));
  }

  /** Any other field: malformed, with no control token recognised. */
  lemma UnknownField(s: string, p: nat, c: nat, acc: Scan)
    requires !acc.malformed && FieldAt(s, p, c) && s[c] != '#' && s[c] != ';'
    ensures ScanStep(s, p, acc) == Done(acc.(malformed := true))
  {
    ControlAt(s, p, c, WordEnd(s, c));
  }
}
