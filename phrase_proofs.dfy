/** The inline phrase encoding read back: `phrase::print` followed by `parse1` gives the
    phrase again (with the status corrected), while the status as written reports a line
    of length-prefixed tokens as a null object. */
module PhraseProofs {
  import opened Text
  import PS = ParseStatus
  import opened Phrase

  /** A token `print_token` can write so that `parse1` reads it back: not empty (an
      empty token would print as a bare "# "), and free of the line's newline and of
      NUL, which ends a length-prefixed field early. */
  predicate EncodableToken(t: string) {
    |t| > 0 && forall i :: 0 <= i < |t| ==> t[i] != '\n' && t[i] != '\0'
  }

  /** A comment `parse1` can give back: none, or a ';' and the rest of the line. */
  predicate CommentOk(c: string) {
    c == "" || (c[0] == ';' && NoNewline(c))
  }

  /** Every token of `ts` is encodable. */
  predicate AllEncodable(ts: seq<string>) {
    ts == [] || (EncodableToken(ts[0]) && AllEncodable(ts[1..]))
  }

  predicate Encodable(ph: Phrase) {
    |ph.tokens| > 0 && AllEncodable(ph.tokens) && CommentOk(ph.comment)
  }

  /** Whether some token is printed in the bare `# word` form. */
  predicate AnyPrintable(ts: seq<string>) {
    ts != [] && (AllPrintable(ts[0]) || AnyPrintable(ts[1..]))
  }

  lemma PrintableIsNotSpace(c: char)
    requires IsPrintableAscii(c)
    ensures !IsSpace(c) && c != '\n' && c != '\0'
  {
  }

  lemma {:induction false} SkipSpacesAt(s: string, p: nat, q: nat)
    requires p <= q <= |s|
    requires forall i :: p <= i < q ==> IsSpace(s[i])
    requires q == |s| || !IsSpace(s[q])
    ensures SkipSpaces(s, p) == q
    decreases q - p
  {
    if p < q {
      SkipSpacesAt(s, p + 1, q);
    }
  }

  lemma {:induction false} WordEndAt(s: string, p: nat, q: nat)
    requires p <= q <= |s|
    requires forall i :: p <= i < q ==> !IsSpace(s[i])
    requires q == |s| || IsSpace(s[q])
    ensures WordEnd(s, p) == q
    decreases q - p
  {
    if p < q {
      WordEndAt(s, p + 1, q);
    }
  }

  /** The scan state after one token was read back. */
  function Took(acc: Scan, t: string): Scan {
    acc.(tokens := acc.tokens + [t], sawWord := acc.sawWord || AllPrintable(t), sawControl := true)
  }

  /** The turn of the loop on a `# word` field, from the positions `>>` finds. */
  lemma BareStep(s: string, p: nat, c: nat, f: nat, acc: Scan)
    requires p <= c && c + 2 < f <= |s| && SkipSpaces(s, p) == c && WordEnd(s, c) == c + 1
    requires s[c] == '#' && SkipSpaces(s, c + 1) == c + 2 && WordEnd(s, c + 2) == f
    requires !acc.malformed
    ensures ScanStep(s, p, acc) ==
              Next(f, acc.(tokens := acc.tokens + [s[c + 2..f]], sawWord := true, sawControl := true))
  {
    assert s[c..c + 1] == "#";
  }

  /** A token printed bare holds no whitespace. */
  lemma PrintableHasNoSpace(t: string)
    requires AllPrintable(t)
    ensures forall i :: 0 <= i < |t| ==> !IsSpace(t[i])
  {
    AllPrintableIsEvery(t);
    forall i | 0 <= i < |t| ensures !IsSpace(t[i]) {
      PrintableIsNotSpace(t[i]);
    }
  }

  /** A bare `# word` field, at `c` after the optional separating space. */
  lemma BareTokenStep(s: string, p: nat, c: nat, t: string, acc: Scan)
    requires p <= c <= p + 1 && c + 2 + |t| <= |s| && (c == p + 1 ==> s[p] == ' ')
    requires |t| > 0 && (forall i :: 0 <= i < |t| ==> !IsSpace(t[i])) && !acc.malformed
    requires s[c..c + 2 + |t|] == "# " + t
    requires c + 2 + |t| == |s| || s[c + 2 + |t|] == ' '
    ensures ScanStep(s, p, acc) ==
              Next(c + 2 + |t|, acc.(tokens := acc.tokens + [t], sawWord := true, sawControl := true))
  {
    var q := c + 2 + |t|;
    CountedLayout(s, c, "#", t);
    assert s[c] == '#' by { assert s[c] == s[c..c + 1][0]; }
    forall i | c + 2 <= i < q ensures !IsSpace(s[i]) {
      assert s[i] == s[c + 2..q][i - c - 2];
    }
    SkipSpacesAt(s, p, c);
    WordEndAt(s, c, c + 1);
    SkipSpacesAt(s, c + 1, c + 2);
    WordEndAt(s, c + 2, q);
    BareStep(s, p, c, q, acc);
  }

  /** The pieces of a three-part concatenation. */
  lemma Pieces3(a: string, b: string, c: string)
    ensures (a + b + c)[..|a|] == a
    ensures (a + b + c)[|a|..|a| + |b|] == b
    ensures (a + b + c)[|a| + |b|..] == c
  {
  }

  /** A slice of a string that lies in `s` at `p` lies in `s` at the shifted place. */
  lemma SliceAt(s: string, p: nat, w: string, i: nat, j: nat)
    requires p + |w| <= |s| && s[p..p + |w|] == w && i <= j <= |w|
    ensures s[p + i..p + j] == w[i..j]
  {
    forall k | 0 <= k < j - i ensures s[p + i..p + j][k] == w[i..j][k] {
      assert s[p + i + k] == s[p..p + |w|][i + k];
    }
  }

  /** The three pieces of a concatenation found in `s` from `p` to its end. */
  lemma Layout3(s: string, p: nat, a: string, b: string, c: string)
    requires p <= |s| && s[p..] == a + b + c
    ensures p + |a| + |b| <= |s|
    ensures s[p..p + |a|] == a
    ensures s[p + |a|..p + |a| + |b|] == b
    ensures s[p + |a| + |b|..] == c
  {
    Pieces3(a, b, c);
    assert s[p..p + |a|] == s[p..][..|a|];
    assert s[p + |a|..p + |a| + |b|] == s[p..][|a|..|a| + |b|];
    assert s[p + |a| + |b|..] == s[p..][|a| + |b|..];
  }

  lemma SuffixAt(s: string, p: nat, w: string, i: nat)
    requires p <= |s| && s[p..] == w && i <= |w|
    ensures s[p + i..] == w[i..]
  {
    assert s[p + i..] == s[p..][i..];
  }

  /** A `#N` field as the loop finds it: the word `#N` from `c` to `e` after white
      space from `p`, N the length of `t`, then one space and `t`. */
  predicate CountedAt(s: string, p: nat, c: nat, e: nat, t: string) {
    && p <= c < e < |s| && SkipSpaces(s, p) == c && WordEnd(s, c) == e
    && s[c] == '#' && c + 1 < e && ParseNat(s[c + 1..e]) == Some(|t|)
    && s[e] == ' ' && |t| > 0 && e + 1 + |t| <= |s| && s[e + 1..e + 1 + |t|] == t
  }

  /** The turn of the loop on a `#N` field, from the positions `>>` finds. */
  lemma CountedStep(s: string, p: nat, c: nat, e: nat, t: string, acc: Scan)
    requires CountedAt(s, p, c, e, t)
    requires (forall i :: 0 <= i < |t| ==> t[i] != '\0') && !acc.malformed
    ensures ScanStep(s, p, acc) == Next(e + 1 + |t|, acc.(tokens := acc.tokens + [t], sawControl := true))
  {
    assert s[c..e][0] == '#' && s[c..e] != "#";
    assert s[c..e][1..] == s[c + 1..e];
    assert UpToNul(t) == t;
  }

  /** Where the parts of a `#N` field lie. */
  lemma CountedLayout(s: string, c: nat, head: string, t: string)
    requires c + |head| + 1 + |t| <= |s| && s[c..c + |head| + 1 + |t|] == head + " " + t
    ensures s[c..c + |head|] == head && s[c + |head|] == ' '
    ensures s[c + |head| + 1..c + |head| + 1 + |t|] == t
  {
    Pieces3(head, " ", t);
    SliceAt(s, c, head + " " + t, 0, |head|);
    SliceAt(s, c, head + " " + t, |head|, |head| + 1);
    SliceAt(s, c, head + " " + t, |head| + 1, |head| + 1 + |t|);
    assert s[c + |head|] == s[c + |head|..c + |head| + 1][0];
  }

  /** Where a printed `#N` field at `c` puts its count, its space and its text. */
  lemma CountedPieces(s: string, c: nat, t: string)
    requires var text := "#" + NatToString(|t|) + " " + t;
             c + |text| <= |s| && s[c..c + |text|] == text
    ensures var e := c + 1 + |NatToString(|t|)|;
      && e + 1 + |t| <= |s| && s[c] == '#' && s[c + 1..e] == NatToString(|t|)
      && s[e] == ' ' && s[e + 1..e + 1 + |t|] == t
  {
    var digits := NatToString(|t|);
    var head := "#" + digits;
    var e := c + |head|;
    CountedLayout(s, c, head, t);
    assert s[c] == '#' by { assert s[c] == s[c..e][0]; }
    assert s[c + 1..e] == digits by { assert s[c + 1..e] == s[c..e][1..]; }
  }

  /** The loop of `parse1` finds the word `#N` at `c`, with N the length of `t`. */
  lemma CountedWord(s: string, p: nat, c: nat, e: nat, t: string)
    requires p <= c <= p + 1 && c < e < |s| && (c == p + 1 ==> s[p] == ' ')
    requires s[c] == '#' && s[c + 1..e] == NatToString(|t|) && s[e] == ' ' && |t| > 0
    ensures SkipSpaces(s, p) == c && WordEnd(s, c) == e && ParseNat(s[c + 1..e]) == Some(|t|)
  {
    var digits := NatToString(|t|);
    forall i | c + 1 <= i < e ensures !IsSpace(s[i]) {
      assert s[i] == digits[i - c - 1];
      assert IsDigit(digits[i - c - 1]);
    }
    SkipSpacesAt(s, p, c);
    WordEndAt(s, c, e);
    NatRoundTrip(|t|);
  }

  /** The turn of the loop on a printed `#N` field, from where its parts lie. */
  lemma CountedTurn(s: string, p: nat, c: nat, e: nat, t: string, acc: Scan)
    requires p <= c <= p + 1 && c < e && e + 1 + |t| <= |s| && (c == p + 1 ==> s[p] == ' ')
    requires s[c] == '#' && s[c + 1..e] == NatToString(|t|) && s[e] == ' ' && s[e + 1..e + 1 + |t|] == t
    requires EncodableToken(t) && !AllPrintable(t) && !acc.malformed
    ensures ScanStep(s, p, acc) == Next(e + 1 + |t|, Took(acc, t))
  {
    CountedWord(s, p, c, e, t);
    CountedStep(s, p, c, e, t, acc);
  }

  /** A length-prefixed `#N` field, at `c` after the optional separating space. */
  lemma CountedTokenStep(s: string, p: nat, c: nat, t: string, acc: Scan)
    requires p <= c <= p + 1 && c < |s| && (c == p + 1 ==> s[p] == ' ')
    requires EncodableToken(t) && !AllPrintable(t) && !acc.malformed
    requires var text := "#" + NatToString(|t|) + " " + t;
             c + |text| <= |s| && s[c..c + |text|] == text
    ensures ScanStep(s, p, acc) == Next(c + |"#" + NatToString(|t|) + " " + t|, Took(acc, t))
  {
    var e := c + 1 + |NatToString(|t|)|;
    CountedPieces(s, c, t);
    CountedTurn(s, p, c, e, t, acc);
    assert e + 1 + |t| == c + |"#" + NatToString(|t|) + " " + t|;
  }

  /** One printed token, at `p` or after a space at `p`, is read back in one turn of
      the loop, which then goes on after it. */
  lemma TokenStep(s: string, p: nat, c: nat, t: string, x: string, acc: Scan)
    requires p <= c <= p + 1 && c < |s| && (c == p + 1 ==> s[p] == ' ')
    requires EncodableToken(t) && !acc.malformed && x == TokenText(t)
    requires c + |x| <= |s| && s[c..c + |x|] == x
    requires c + |x| == |s| || s[c + |x|] == ' '
    ensures ScanStep(s, p, acc) == Next(c + |x|, Took(acc, t))
  {
    if AllPrintable(t) {
      PrintableHasNoSpace(t);
      BareTokenStep(s, p, c, t, acc);
    } else {
      CountedTokenStep(s, p, c, t, acc);
    }
  }

  /** A comment after a space ends the loop and is kept whole. */
  lemma CommentStep(s: string, p: nat, acc: Scan)
    requires p < |s| && s[p] == ' ' && p + 1 < |s| && s[p + 1] == ';' && !acc.malformed
    ensures ScanStep(s, p, acc) == Done(acc.(comment := acc.comment + s[p + 1..], sawControl := true))
  {
    SkipSpacesAt(s, p, p + 1);
  }

  /** The loop goes on after a turn that reads a field. */
  lemma ScanFromNext(s: string, p: nat, acc: Scan, q: nat, a: Scan)
    requires p <= |s| && !acc.malformed && ScanStep(s, p, acc) == Next(q, a)
    ensures q <= |s| && !a.malformed
    ensures ScanFrom(s, p, acc) == ScanFrom(s, q, a)
  {
  }

  /** The turn of the loop over a printed comment, or over nothing, is the last. */
  lemma CommentDone(s: string, p: nat, c: string, acc: Scan)
    requires p <= |s| && s[p..] == CommentText(c)
    requires CommentOk(c) && !acc.malformed
    ensures ScanStep(s, p, acc) == Done(ReadBack(acc, [], c))
  {
    ReadBackComment(acc, c);
    if c == "" {
      assert p == |s|;
      SkipSpacesAt(s, p, p);
    } else {
      assert s[p..] == " " + c;
      assert s[p] == ' ' && s[p + 1] == ';';
      CommentStep(s, p, acc);
      assert s[p + 1..] == c;
    }
  }

  /** What follows a printed token is the end of the line or a space. */
  lemma RestStartsWithSpace(xs: seq<string>, c: string)
    ensures var more := SepTexts(xs) + CommentText(c); more == "" || more[0] == ' '
  {
  }

  /** A space, a field `t`, and what follows it, which is empty or starts with a space. */
  lemma SpacedLayout(s: string, p: nat, t: string, more: string)
    requires p <= |s| && s[p..] == " " + t + more && (more == "" || more[0] == ' ')
    ensures p + 1 + |t| <= |s| && s[p] == ' ' && s[p + 1..p + 1 + |t|] == t
    ensures s[p + 1 + |t|..] == more
    ensures p + 1 + |t| == |s| || s[p + 1 + |t|] == ' '
  {
    Layout3(s, p, " ", t, more);
    FirstOf(s, p, " ");
    if more != "" {
      FirstOf(s, p + 1 + |t|, more);
    }
  }

  /** Where the first of several printed texts lies. */
  lemma SepLayout(s: string, p: nat, xs: seq<string>, c: string)
    requires p <= |s| && s[p..] == SepTexts(xs) + CommentText(c) && xs != []
    ensures p + 1 + |xs[0]| <= |s|
    ensures s[p] == ' '
    ensures s[p + 1..p + 1 + |xs[0]|] == xs[0]
    ensures s[p + 1 + |xs[0]|..] == SepTexts(xs[1..]) + CommentText(c)
    ensures p + 1 + |xs[0]| == |s| || s[p + 1 + |xs[0]|] == ' '
  {
    var more := SepTexts(xs[1..]) + CommentText(c);
    SepHead(xs, c);
    RestStartsWithSpace(xs[1..], c);
    SpacedLayout(s, p, xs[0], more);
  }

  /** Texts separated by spaces: a space, the first, then the rest. */
  lemma SepHead(xs: seq<string>, c: string)
    requires xs != []
    ensures SepTexts(xs) + CommentText(c) == " " + xs[0] + (SepTexts(xs[1..]) + CommentText(c))
  {
    Associative(" " + xs[0], SepTexts(xs[1..]), CommentText(c));
  }

  lemma FirstOf(s: string, p: nat, w: string)
    requires p <= |s| && |w| > 0 && ((p + |w| <= |s| && s[p..p + |w|] == w) || s[p..] == w)
    ensures p < |s| && s[p] == w[0]
  {
    if s[p..] == w {
      assert s[p] == s[p..][0];
    } else {
      assert s[p] == s[p..p + |w|][0];
    }
  }

  /** What the loop should make of printed tokens `ts` and a printed comment `c`:
      every token appended, the comment appended, and the flags raised accordingly. */
  function ReadBack(acc: Scan, ts: seq<string>, c: string): Scan {
    acc.(tokens := acc.tokens + ts, comment := acc.comment + c,
         sawWord := acc.sawWord || AnyPrintable(ts),
         sawControl := acc.sawControl || ts != [] || c != "")
  }

  lemma ReadBackCons(acc: Scan, ts: seq<string>, c: string)
    requires ts != []
    ensures ReadBack(Took(acc, ts[0]), ts[1..], c) == ReadBack(acc, ts, c)
  {
    HeadTail(acc.tokens, ts);
  }

  lemma ReadBackComment(acc: Scan, c: string)
    ensures ReadBack(acc, [], c) == if c == "" then acc else acc.(comment := acc.comment + c, sawControl := true)
  {
    assert acc.tokens + [] == acc.tokens;
    assert acc.comment + "" == acc.comment;
  }

  /** The turns of the loop from `p` on: one per token of `ts`, each appending that
      token, then a last one that takes the comment `c`. */
  predicate Steps(s: string, p: nat, acc: Scan, ts: seq<string>, c: string)
    requires p <= |s| && !acc.malformed
    decreases |ts|
  {
    var r := ScanStep(s, p, acc);
    if ts == [] then r == Done(ReadBack(acc, [], c))
    else r.Next? && r.acc == Took(acc, ts[0]) && Steps(s, r.p, r.acc, ts[1..], c)
  }

  /** Turns that each read a token, then a last turn on the comment, make the loop
      give back the tokens and the comment. */
  lemma {:induction false} StepsReadBack(s: string, p: nat, acc: Scan, ts: seq<string>, c: string)
    requires p <= |s| && !acc.malformed && Steps(s, p, acc, ts, c)
    ensures ScanFrom(s, p, acc) == ReadBack(acc, ts, c)
    decreases |ts|
  {
    var r := ScanStep(s, p, acc);
    if ts != [] {
      ScanFromNext(s, p, acc, r.p, r.acc);
      StepsReadBack(s, r.p, r.acc, ts[1..], c);
      ReadBackCons(acc, ts, c);
    }
  }

  lemma StepsCons(s: string, p: nat, acc: Scan, ts: seq<string>, c: string, q: nat)
    requires p <= |s| && !acc.malformed && ts != []
    requires ScanStep(s, p, acc) == Next(q, Took(acc, ts[0]))
    requires q <= |s| && Steps(s, q, Took(acc, ts[0]), ts[1..], c)
    ensures Steps(s, p, acc, ts, c)
  {
  }

  /** The layout of printed texts and a printed comment from position `p`, one text
      at a time. */
  predicate Printed(s: string, p: nat, xs: seq<string>, c: string)
    requires p <= |s|
    decreases |xs|
  {
    if xs == [] then s[p..] == CommentText(c)
    else
      var q := p + 1 + |xs[0]|;
      q <= |s| && s[p] == ' ' && s[p + 1..q] == xs[0] && (q == |s| || s[q] == ' ')
      && Printed(s, q, xs[1..], c)
  }

  lemma {:induction false} SepPrinted(s: string, p: nat, xs: seq<string>, c: string)
    requires p <= |s| && s[p..] == SepTexts(xs) + CommentText(c)
    ensures Printed(s, p, xs, c)
    decreases |xs|
  {
    if xs != [] {
      var q := p + 1 + |xs[0]|;
      assert q <= |s| && s[q..] == SepTexts(xs[1..]) + CommentText(c) by { SepLayout(s, p, xs, c); }
      SepPrinted(s, q, xs[1..], c);
      SepCons(s, p, xs, c);
    }
  }

  /** Texts separated by spaces are printed when all but the first are. */
  lemma SepCons(s: string, p: nat, xs: seq<string>, c: string)
    requires p <= |s| && s[p..] == SepTexts(xs) + CommentText(c) && xs != []
    requires p + 1 + |xs[0]| <= |s| && Printed(s, p + 1 + |xs[0]|, xs[1..], c)
    ensures Printed(s, p, xs, c)
  {
    SepLayout(s, p, xs, c);
    PrintedCons(s, p, xs, c);
  }

  /** A printed first text, then the rest printed after it. */
  lemma PrintedCons(s: string, p: nat, xs: seq<string>, c: string)
    requires p <= |s| && xs != []
    requires p + 1 + |xs[0]| <= |s| && s[p] == ' ' && s[p + 1..p + 1 + |xs[0]|] == xs[0]
    requires p + 1 + |xs[0]| == |s| || s[p + 1 + |xs[0]|] == ' '
    requires Printed(s, p + 1 + |xs[0]|, xs[1..], c)
    ensures Printed(s, p, xs, c)
  {
  }

  /** The first of several printed texts, and where the rest begin. */
  lemma PrintedFirst(s: string, p: nat, xs: seq<string>, c: string)
    requires p <= |s| && Printed(s, p, xs, c) && xs != []
    ensures p + 1 + |xs[0]| <= |s| && s[p] == ' ' && s[p + 1..p + 1 + |xs[0]|] == xs[0]
    ensures p + 1 + |xs[0]| == |s| || s[p + 1 + |xs[0]|] == ' '
    ensures Printed(s, p + 1 + |xs[0]|, xs[1..], c)
  {
  }

  /** The first printed token is read in one turn, up to where the rest are printed. */
  lemma PrintedFirstToken(s: string, p: nat, ts: seq<string>, c: string, acc: Scan)
    requires p <= |s| && ts != [] && Printed(s, p, Rendered(ts), c)
    requires AllEncodable(ts) && !acc.malformed
    ensures ScanStep(s, p, acc) == Next(p + 1 + |TokenText(ts[0])|, Took(acc, ts[0]))
  {
    PrintedFirst(s, p, Rendered(ts), c);
    RenderedCons(ts);
    TokenStep(s, p, p + 1, ts[0], Rendered(ts)[0], acc);
  }

  /** The tokens after the first are printed after it. */
  lemma PrintedTail(s: string, p: nat, ts: seq<string>, c: string)
    requires p <= |s| && ts != [] && Printed(s, p, Rendered(ts), c)
    ensures p + 1 + |TokenText(ts[0])| <= |s|
    ensures Printed(s, p + 1 + |TokenText(ts[0])|, Rendered(ts[1..]), c)
  {
    PrintedFirst(s, p, Rendered(ts), c);
    RenderedCons(ts);
  }

  /** Printed tokens and a printed comment are read in one turn each. */
  lemma {:induction false} PrintedSteps(s: string, p: nat, ts: seq<string>, c: string, acc: Scan)
    requires p <= |s| && Printed(s, p, Rendered(ts), c)
    requires AllEncodable(ts)
    requires CommentOk(c) && !acc.malformed
    ensures Steps(s, p, acc, ts, c)
    decreases |ts|
  {
    if ts == [] {
      CommentDone(s, p, c, acc);
    } else {
      var q := p + 1 + |TokenText(ts[0])|;
      PrintedTail(s, p, ts, c);
      PrintedFirstToken(s, p, ts, c, acc);
      PrintedSteps(s, q, ts[1..], c, Took(acc, ts[0]));
      StepsCons(s, p, acc, ts, c, q);
    }
  }

  lemma HeadTail<T>(acc: seq<T>, ts: seq<T>)
    requires |ts| > 0
    ensures acc + [ts[0]] + ts[1..] == acc + ts
  {
    assert ts == [ts[0]] + ts[1..];
  }

  lemma NoNewlineConcat(a: string, b: string)
    requires NoNewline(a) && NoNewline(b)
    ensures NoNewline(a + b)
  {
  }

  lemma {:induction false} TokenTextNoNewline(t: string)
    requires EncodableToken(t)
    ensures NoNewline(TokenText(t))
  {
    var digits := NatToString(|t|);
    assert forall i :: 0 <= i < |digits| ==> IsDigit(digits[i]);
  }

  lemma {:induction false} SepTokensNoNewline(ts: seq<string>)
    requires AllEncodable(ts)
    ensures NoNewline(SepTokens(ts))
    decreases |ts|
  {
    if ts != [] {
      TokenTextNoNewline(ts[0]);
      SepTokensNoNewline(ts[1..]);
      NoNewlineConcat(" " + TokenText(ts[0]), SepTokens(ts[1..]));
    }
  }

  /** The printed line of an encodable phrase is one line. */
  lemma LineNoNewline(ph: Phrase)
    requires Encodable(ph)
    ensures NoNewline(Line(ph))
  {
    TokenTextNoNewline(ph.tokens[0]);
    SepTokensNoNewline(ph.tokens[1..]);
    NoNewlineConcat(TokenText(ph.tokens[0]), SepTokens(ph.tokens[1..]));
    NoNewlineConcat(TokenText(ph.tokens[0]) + SepTokens(ph.tokens[1..]), CommentText(ph.comment));
  }

  /** A field at the start of a line, and what follows it. */
  lemma LeadLayout(s: string, t: string, more: string)
    requires s == t + more && (more == "" || more[0] == ' ')
    ensures |t| <= |s| && s[0..|t|] == t && s[|t|..] == more
    ensures |t| == |s| || s[|t|] == ' '
  {
    if more != "" {
      assert s[|t|] == more[0];
    }
  }

  /** The layout of a printed line: the first field at the start, then the rest. */
  lemma LeadPrinted(s: string, head: string, xs: seq<string>, c: string)
    requires s == head + (SepTexts(xs) + CommentText(c))
    ensures |head| <= |s| && s[0..|head|] == head && (|head| == |s| || s[|head|] == ' ')
    ensures Printed(s, |head|, xs, c)
  {
    RestStartsWithSpace(xs, c);
    LeadLayout(s, head, SepTexts(xs) + CommentText(c));
    SepPrinted(s, |head|, xs, c);
  }

  /** A printed line is the first token's text, then the other texts and the comment. */
  lemma LineTexts(ph: Phrase)
    requires |ph.tokens| > 0
    ensures Line(ph) == TokenText(ph.tokens[0]) + (SepTexts(Rendered(ph.tokens[1..])) + CommentText(ph.comment))
  {
    var rest := ph.tokens[1..];
    SepTokensTexts(rest);
    Associative(TokenText(ph.tokens[0]), SepTokens(rest), CommentText(ph.comment));
  }

  /** The first turn of the loop over a printed line reads the first token. */
  lemma LineFirstStep(ph: Phrase)
    requires Encodable(ph)
    ensures ScanStep(Line(ph), 0, Start(Empty)) == Next(|TokenText(ph.tokens[0])|, Took(Start(Empty), ph.tokens[0]))
  {
    var t := ph.tokens[0];
    LineTexts(ph);
    LeadPrinted(Line(ph), TokenText(t), Rendered(ph.tokens[1..]), ph.comment);
    TokenStep(Line(ph), 0, 0, t, TokenText(t), Start(Empty));
  }

  /** The turns after the first read the other tokens, then the comment. */
  lemma LineRestSteps(ph: Phrase)
    requires Encodable(ph)
    ensures |TokenText(ph.tokens[0])| <= |Line(ph)|
    ensures Steps(Line(ph), |TokenText(ph.tokens[0])|, Took(Start(Empty), ph.tokens[0]), ph.tokens[1..], ph.comment)
  {
    var t := ph.tokens[0];
    LineTexts(ph);
    LeadPrinted(Line(ph), TokenText(t), Rendered(ph.tokens[1..]), ph.comment);
    PrintedSteps(Line(ph), |TokenText(t)|, ph.tokens[1..], ph.comment, Took(Start(Empty), t));
  }

  /** The loop over a printed line reads one token per turn, then the comment. */
  lemma LineSteps(ph: Phrase)
    requires Encodable(ph)
    ensures Steps(Line(ph), 0, Start(Empty), ph.tokens, ph.comment)
  {
    LineFirstStep(ph);
    LineRestSteps(ph);
    StepsCons(Line(ph), 0, Start(Empty), ph.tokens, ph.comment, |TokenText(ph.tokens[0])|);
  }

  /** The loop of `parse1` over a printed line gives back every token and the comment. */
  lemma ScanLineOfPrinted(ph: Phrase)
    requires Encodable(ph)
    ensures NoNewline(Line(ph))
    ensures ScanFrom(Line(ph), 0, Start(Empty)) == ReadBack(Start(Empty), ph.tokens, ph.comment)
  {
    LineNoNewline(ph);
    LineSteps(ph);
    StepsReadBack(Line(ph), 0, Start(Empty), ph.tokens, ph.comment);
  }

  /** Printing a phrase and parsing the line back gives the phrase, found. */
  lemma Parse1RoundTrip(ph: Phrase)
    requires Encodable(ph)
    ensures NoNewline(Line(ph))
    ensures Parse1(Line(ph), Empty) == Parsed(PS.Status(PS.Found), ph)
    ensures Parse(Line(ph), "", Empty) == Parsed(PS.Status(PS.Found), ph)
  {
    ScanLineOfPrinted(ph);
    assert Line(ph)[0] == '#';
  }

  /** As written, the status of a printed line depends on whether some token was
      printed bare: a phrase whose tokens all need a length prefix reads back as a
      null object, although every token is recovered. */
  lemma Parse1AsWrittenStatus(ph: Phrase)
    requires Encodable(ph)
    ensures NoNewline(Line(ph))
    ensures Parse1AsWritten(Line(ph), Empty).phrase == ph
    ensures Parse1AsWritten(Line(ph), Empty).status.value ==
              if AnyPrintable(ph.tokens) then PS.Found else PS.NullObject
  {
    ScanLineOfPrinted(ph);
  }

  /** The smallest instance: the one-token phrase "a b" prints as "#3 a b", which the
      status as written calls a null object. */
  lemma Parse1AsWrittenLosesFound()
    ensures Line(Phrase(["a b"], "")) == "#3 a b"
    ensures Parse1AsWritten("#3 a b", Empty) == Parsed(PS.Status(PS.NullObject), Phrase(["a b"], ""))
    ensures Parse1("#3 a b", Empty) == Parsed(PS.Status(PS.Found), Phrase(["a b"], ""))
  {
    var ph := Phrase(["a b"], "");
    assert !IsPrintableAscii(' ');
    assert "a b"[1] == ' ';
    assert !AllPrintable("a b");
    assert NatToString(3) == "3";
    assert TokenText("a b") == "#3 a b";
    assert Line(ph) == "#3 a b";
    assert !AnyPrintable(ph.tokens);
    Parse1AsWrittenStatus(ph);
    Parse1RoundTrip(ph);
  }

  /** `getline` stops at the first newline. */
  lemma LineEndAt(text: string, p: nat, e: nat)
    requires p <= e < |text| && NoNewline(text[p..e]) && text[e] == '\n'
    ensures LineEnd(text, p) == e
    decreases e - p
  {
    if p < e {
      assert text[p] == text[p..e][0];
      assert text[p + 1..e] == text[p..e][1..];
      LineEndAt(text, p + 1, e);
    }
  }

  /** `getphraseline` on a printed phrase returns its line, in the inline encoding. */
  lemma ReadPrintedLine(text: string, pos: nat, lineno: nat, ph: Phrase)
    requires Encodable(ph)
    requires pos + |PhraseText(ph)| <= |text| && text[pos..pos + |PhraseText(ph)|] == PhraseText(ph)
    ensures GetPhraseLine(text, pos, lineno) ==
              PhraseLine(PS.Status(PS.Found), Line(ph), "", pos + |PhraseText(ph)|, lineno + 1, false)
  {
    LineNoNewline(ph);
    var line := Line(ph);
    var e := pos + |line|;
    assert text[pos..e] == line by { assert text[pos..e] == text[pos..pos + |PhraseText(ph)|][..|line|]; }
    assert text[e] == '\n' by { assert text[e] == text[pos..pos + |PhraseText(ph)|][|line|]; }
    LineEndAt(text, pos, e);
    assert line[0] == '#';
  }
}
