/** The phrase codec of the taxonomy file (src/phrase.h): a phrase is a list of string
    tokens and a trailing comment. `GetPhraseLine` splits the input into one line, or a
    control line and a data line; `Parse` decodes them; `Print` writes a phrase in the
    inline encoding, one line per phrase. */
module Phrase {
  import opened Text
  import PS = ParseStatus
  import ColumnCodec

  datatype Phrase = Phrase(tokens: seq<string>, comment: string)

  const Empty: Phrase := Phrase([], "")

  /** A decoded line: the status and the phrase after the tokens were appended. */
  datatype Parsed = Parsed(status: PS.Status, phrase: Phrase)

  predicate NoNewline(s: string) {
    forall i :: 0 <= i < |s| ==> s[i] != '\n'
  }

  // ---------------------------------------------------------------------------
  // Reading lines: `getline` and `getphraseline`
  // ---------------------------------------------------------------------------

  /** The position of the first newline at or after `p`, or the end of the text. */
  function LineEnd(text: string, p: nat): (e: nat)
    requires p <= |text|
    ensures p <= e <= |text|
    ensures NoNewline(text[p..e])
    ensures e < |text| ==> text[e] == '\n'
    decreases |text| - p
  {
    if p == |text| || text[p] == '\n' then p else LineEnd(text, p + 1)
  }

  /** One successful `getline`: the line without its newline, the position after it,
      and whether the end of the text was reached while reading (the stream's eof bit). */
  datatype LineRead = LineRead(line: string, next: nat, eof: bool)

  /** `getline(is, line)` on a stream over `text` positioned at `p`; `None` is the
      failed read at the end of the text, which also sets the eof bit. */
  function GetLine(text: string, p: nat): (r: Option<LineRead>)
    requires p <= |text|
    ensures r.None? <==> p == |text|
    ensures r.Some? ==> p < r.value.next <= |text| && NoNewline(r.value.line)
    ensures r.Some? ==> text[p..r.value.next] == r.value.line + (if r.value.eof then "" else "\n")
    ensures r.Some? ==> (r.value.eof <==> r.value.next == |text| && (p == |text| || text[|text| - 1] != '\n'))
  {
    if p == |text| then None
    else
      var e := LineEnd(text, p);
      if e < |text| then Some(LineRead(text[p..e], e + 1, false))
      else Some(LineRead(text[p..], |text|, true))
  }

  /** What `getphraseline` hands to the phrase parser. For a column-encoded phrase
      (control line starting with '.') `data` is the line under it; otherwise the data
      stream is not consulted and `data` is empty. */
  datatype PhraseLine = PhraseLine(status: PS.Status, control: string, data: string,
                                   next: nat, lineno: nat, eof: bool)

  /** `getphraseline`: reads one line, and a second one when the first starts with '.'. */
  function GetPhraseLine(text: string, pos: nat, lineno: nat): (r: PhraseLine)
    requires pos <= |text|
    ensures pos <= r.next <= |text|
    // end of input: nothing consumed
    ensures r.status.value == PS.NotFound <==> pos == |text|
    ensures r.status.value == PS.NotFound ==> r.next == pos && r.lineno == lineno && r.eof
    // an empty line is a null object
    ensures r.status.value == PS.NullObject <==> pos < |text| && text[pos] == '\n'
    ensures r.status.value == PS.NullObject ==> r.next == pos + 1 && r.lineno == lineno + 1
    // a control line with no data line after it
    ensures r.status.value == PS.Malformed ==>
              r.next == |text| && r.lineno == lineno + 1 && r.eof && |r.control| > 0 && r.control[0] == '.'
    ensures r.status.value in {PS.Found, PS.NotFound, PS.NullObject, PS.Malformed}
    ensures r.status.value == PS.Found ==> |r.control| > 0 && pos < r.next
    ensures r.status.value == PS.Found && r.control[0] != '.' ==>
              r.lineno == lineno + 1 && text[pos..r.next] == r.control + (if r.eof then "" else "\n")
    ensures r.status.value == PS.Found && r.control[0] == '.' ==> r.lineno == lineno + 2
    ensures NoNewline(r.control) && NoNewline(r.data)
  {
    match GetLine(text, pos)
    case None => PhraseLine(PS.Status(PS.NotFound), "", "", pos, lineno, true)
    case Some(first) =>
      if |first.line| == 0 then
        PhraseLine(PS.Status(PS.NullObject), "", "", first.next, lineno + 1, first.eof)
      else if first.line[0] == '.' then
        match GetLine(text, first.next)
        case None => PhraseLine(PS.Status(PS.Malformed), first.line, "", first.next, lineno + 1, true)
        case Some(second) =>
          PhraseLine(PS.Status(PS.Found), first.line, second.line, second.next, lineno + 2, second.eof)
      else
        PhraseLine(PS.Status(PS.Found), first.line, "", first.next, lineno + 1, first.eof)
  }

  // ---------------------------------------------------------------------------
  // Printing: `is_printable_ASCII`, `print_token`, `phrase::print`
  // ---------------------------------------------------------------------------

  /** The bytes a token may hold and still be printed as a bare word. */
  predicate IsPrintableAscii(c: char) {
    var b := c as int;
    (0x21 <= b <= 0x7E && c != '(' && c != ')' && c != '`' && c != '\'' && c != '"')
    || (0x80 <= b <= 0xFE && b != 0xF9 && b != 0xFA)
  }

  /** Whether every byte of a token is safe to print bare. */
  predicate AllPrintable(tok: string)
    decreases |tok|
  {
    tok == [] || (IsPrintableAscii(tok[0]) && AllPrintable(tok[1..]))
  }

  /** `AllPrintable` holds exactly when no byte of the token is unsafe. */
  lemma {:induction false} AllPrintableIsEvery(tok: string)
    ensures AllPrintable(tok) <==> forall i :: 0 <= i < |tok| ==> IsPrintableAscii(tok[i])
    decreases |tok|
  {
    if tok != [] {
      AllPrintableIsEvery(tok[1..]);
      if forall i :: 0 <= i < |tok| ==> IsPrintableAscii(tok[i]) {
        forall i | 0 <= i < |tok[1..]| ensures IsPrintableAscii(tok[1..][i]) {
          assert tok[1..][i] == tok[i + 1];
        }
      }
      if AllPrintable(tok) {
        forall i | 0 <= i < |tok| ensures IsPrintableAscii(tok[i]) {
          if i > 0 {
            assert tok[i] == tok[1..][i - 1];
          }
        }
      }
    }
  }

  /** The text `print_token` writes for one token. */
  function TokenText(tok: string): string {
    if AllPrintable(tok) then "# " + tok
    else "#" + NatToString(|tok|) + " " + tok
  }

  /** Every token after the first, each preceded by one space. */
  function SepTokens(ts: seq<string>): string {
    if ts == [] then "" else " " + TokenText(ts[0]) + SepTokens(ts[1..])
  }

  function CommentText(comment: string): string {
    if |comment| > 0 then " " + comment else ""
  }

  /** The line `phrase::print` writes, without its newline. */
  function Line(ph: Phrase): string
    requires |ph.tokens| > 0
  {
    TokenText(ph.tokens[0]) + SepTokens(ph.tokens[1..]) + CommentText(ph.comment)
  }

  /** All `phrase::print` writes: nothing for a phrase without tokens. */
  function PhraseText(ph: Phrase): string {
    if ph.tokens == [] then "" else Line(ph) + "\n"
  }

  /** `print_token`: scans for the first byte that is not safe. */
  method PrintToken(tok: string) returns (out: string)
    ensures out == TokenText(tok)
  {
    var i := 0;
    while i < |tok| && IsPrintableAscii(tok[i])
      invariant 0 <= i <= |tok|
      invariant forall j :: 0 <= j < i ==> IsPrintableAscii(tok[j])
    {
      i := i + 1;
    }
    AllPrintableIsEvery(tok);
    if i == |tok| {
      out := "# " + tok;
    } else {
      out := "#" + NatToString(|tok|) + " " + tok;
    }
  }

  /** A token is written bare exactly when all its bytes are safe; otherwise its
      length comes first, so the two forms never meet. */
  lemma BareExactlyWhenPrintable(tok: string)
    ensures AllPrintable(tok) <==> TokenText(tok) == "# " + tok
  {
    if !AllPrintable(tok) {
      var out := TokenText(tok);
      assert out[1] != ' ' by { assert out[1] == NatToString(|tok|)[0]; }
    }
  }

  /** The texts `print_token` writes for the tokens, in order. */
  function Rendered(ts: seq<string>): (xs: seq<string>)
    ensures |xs| == |ts|
    decreases |ts|
  {
    if ts == [] then [] else [TokenText(ts[0])] + Rendered(ts[1..])
  }

  lemma RenderedCons(ts: seq<string>)
    requires ts != []
    ensures Rendered(ts)[0] == TokenText(ts[0]) && Rendered(ts)[1..] == Rendered(ts[1..])
  {
  }

  /** Texts, each preceded by one space. */
  function SepTexts(xs: seq<string>): string
    decreases |xs|
  {
    if xs == [] then "" else " " + xs[0] + SepTexts(xs[1..])
  }

  lemma {:induction false} SepTokensTexts(ts: seq<string>)
    ensures SepTokens(ts) == SepTexts(Rendered(ts))
    decreases |ts|
  {
    if ts != [] {
      SepTokensTexts(ts[1..]);
      RenderedCons(ts);
    }
  }

  lemma RenderedAt(ts: seq<string>, i: nat)
    requires i < |ts|
    ensures Rendered(ts)[i] == TokenText(ts[i])
  {
    if i > 0 {
      RenderedCons(ts);
      RenderedAt(ts[1..], i - 1);
      assert ts[1..][i - 1] == ts[i];
    }
  }

  /** Texts with one more at the end. */
  lemma {:induction false} SepTextsSnoc(xs: seq<string>, i: nat)
    requires i < |xs|
    ensures SepTexts(xs[..i + 1]) == SepTexts(xs[..i]) + " " + xs[i]
    decreases i
  {
    if i > 0 {
      SepTextsSnoc(xs[1..], i - 1);
      assert xs[1..][..i] == xs[..i + 1][1..];
      assert xs[1..][..i - 1] == xs[..i][1..];
      assert xs[1..][i - 1] == xs[i];
    } else {
      assert xs[..1] == [xs[0]];
    }
  }

  /** The loop of `phrase::print` over the tokens after the first. */
  method PrintRest(ts: seq<string>) returns (out: string)
    ensures out == SepTokens(ts)
  {
    out := "";
    var i := 0;
    while i < |ts|
      invariant 0 <= i <= |ts|
      invariant out == SepTexts(Rendered(ts)[..i])
    {
      var t := PrintToken(ts[i]);
      RenderedAt(ts, i);
      SepTextsSnoc(Rendered(ts), i);
      out := out + " " + t;
      i := i + 1;
    }
    assert Rendered(ts)[..i] == Rendered(ts);
    SepTokensTexts(ts);
  }

  /** `phrase::print`: the tokens separated by single spaces, then the comment after a
      space when there is one, then a newline; nothing at all for an empty phrase. */
  method Print(ph: Phrase) returns (out: string)
    ensures out == PhraseText(ph)
  {
    if ph.tokens == [] {
      return "";
    }
    var first := PrintToken(ph.tokens[0]);
    var rest := PrintRest(ph.tokens[1..]);
    var comment := if |ph.comment| > 0 then " " + ph.comment else "";
    out := first + rest + comment + "\n";
  }

  // ---------------------------------------------------------------------------
  // The inline encoding: `parse1`
  // ---------------------------------------------------------------------------

  /** What the token loop of `parse1` leaves behind: the phrase so far, whether a
      `# word` field was read (the `data` variable is non-empty), whether any control
      token was recognised (`found_control`), and whether it stopped on an error. */
  datatype Scan = Scan(tokens: seq<string>, comment: string, sawWord: bool,
                       sawControl: bool, malformed: bool)

  function Start(ph: Phrase): Scan {
    Scan(ph.tokens, ph.comment, false, false, false)
  }

  /** A raw field becomes a C string before it is stored: it ends at the first NUL. */
  function UpToNul(s: string): (r: string)
    ensures r <= s
    ensures forall i :: 0 <= i < |r| ==> r[i] != '\0'
    ensures r == s || s[|r|] == '\0'
  {
    if s == [] || s[0] == '\0' then "" else [s[0]] + UpToNul(s[1..])
  }

  /** How one field of `parse1` ends: the loop stops (at the end of the line, on a
      comment or on an error), or goes on from a later position. */
  datatype Step = Done(acc: Scan) | Next(p: nat, acc: Scan)

  /** One turn of the token loop of `parse1` at position `p` of the line.
      `# word` takes the next white-space-delimited word; `#N` with N > 0 needs one
      space and then takes up to N raw bytes; `#0` takes nothing; `;` takes itself and
      the rest of the line as the comment; any other token is an error. */
  function ScanStep(s: string, p: nat, acc: Scan): (r: Step)
    requires p <= |s| && !acc.malformed
    ensures r.Next? ==> p < r.p <= |s| && !r.acc.malformed
  {
    var c := SkipSpaces(s, p);
    if c == |s| then Done(acc)
    else
      var e := WordEnd(s, c);
      var control := s[c..e];
      if control == "#" then
        var d := SkipSpaces(s, e);
        if d == |s| then Done(acc.(sawControl := true, malformed := true))
        else
          var f := WordEnd(s, d);
          Next(f, acc.(tokens := acc.tokens + [s[d..f]], sawWord := true, sawControl := true))
      else if control[0] == '#' then
        match ParseNat(control[1..])
        case None => Done(acc.(sawControl := true, malformed := true))
        case Some(n) =>
          if n == 0 then Next(e, acc.(sawControl := true))
          else if e == |s| || s[e] != ' ' then Done(acc.(sawControl := true, malformed := true))
          else
            var k := if n < |s| - (e + 1) then n else |s| - (e + 1);
            Next(e + 1 + k, acc.(tokens := acc.tokens + [UpToNul(s[e + 1..e + 1 + k])], sawControl := true))
      else if control[0] == ';' then
        Done(acc.(comment := acc.comment + s[c..], sawControl := true))
      else
        Done(acc.(malformed := true))
  }

  /** One turn of the loop only appends: at most one token, the comment only grows,
      the flags once set stay set, and a token comes only with a control. */
  lemma ScanStepGrows(s: string, p: nat, acc: Scan)
    requires p <= |s| && !acc.malformed
    ensures var r := ScanStep(s, p, acc);
      && |acc.tokens| <= |r.acc.tokens| <= |acc.tokens| + 1
      && r.acc.tokens[..|acc.tokens|] == acc.tokens
      && acc.comment <= r.acc.comment
      && (acc.sawWord ==> r.acc.sawWord)
      && (acc.sawControl ==> r.acc.sawControl)
      && (|r.acc.tokens| > |acc.tokens| ==> r.acc.sawControl)
  {
  }

  /** The token loop of `parse1` from position `p` of the line. */
  function ScanFrom(s: string, p: nat, acc: Scan): Scan
    requires p <= |s|
    requires !acc.malformed
    decreases |s| - p
  {
    match ScanStep(s, p, acc)
    case Done(a) => a
    case Next(q, a) => ScanFrom(s, q, a)
  }

  /** The loop only appends: tokens already in the phrase are kept in order, the
      comment only grows, and the flags once set stay set. */
  lemma {:induction false} ScanFromGrows(s: string, p: nat, acc: Scan)
    requires p <= |s| && !acc.malformed
    ensures var r := ScanFrom(s, p, acc);
      |acc.tokens| <= |r.tokens| && r.tokens[..|acc.tokens|] == acc.tokens
      && acc.comment <= r.comment
      && (acc.sawWord ==> r.sawWord)
      && (acc.sawControl ==> r.sawControl)
      && (|r.tokens| > |acc.tokens| ==> r.sawControl)
    decreases |s| - p
  {
    ScanStepGrows(s, p, acc);
    match ScanStep(s, p, acc)
    case Done(a) =>
    case Next(q, a) =>
      ScanFromGrows(s, q, a);
      var r := ScanFrom(s, q, a);
      assert r.tokens[..|acc.tokens|] == r.tokens[..|a.tokens|][..|acc.tokens|];
  }

  /** A line of white space leaves the loop's state alone; on any other line the loop
      recognises a control token or stops on an error. */
  lemma {:induction false} ScanFromBlank(s: string, p: nat, acc: Scan)
    requires p <= |s| && !acc.malformed
    ensures var r := ScanFrom(s, p, acc);
      Blank(s, p, |s|) ==> r == acc
    ensures var r := ScanFrom(s, p, acc);
      !Blank(s, p, |s|) ==> r.malformed || r.sawControl
  {
    ScanStepGrows(s, p, acc);
    match ScanStep(s, p, acc)
    case Done(a) =>
    case Next(q, a) =>
      ScanFromGrows(s, q, a);
  }

  /** The loop of `parse1`, appending to the phrase it is given. */
  method ScanLine(s: string, ph: Phrase) returns (r: Scan)
    requires NoNewline(s)
    ensures r == ScanFrom(s, 0, Start(ph))
  {
    var p := 0;
    var acc := Start(ph);
    while true
      invariant p <= |s| && !acc.malformed
      invariant ScanFrom(s, p, acc) == ScanFrom(s, 0, Start(ph))
      decreases |s| - p
    {
      match ScanStep(s, p, acc)
      case Done(a) =>
        return a;
      case Next(q, a) =>
        p, acc := q, a;
    }
  }

  /** `parse1` as written: `Found` depends on the `data` variable of the `# word`
      branch alone, so a line whose fields are all length-prefixed is a null object. */
  function Parse1AsWritten(s: string, ph: Phrase): (r: Parsed)
    requires NoNewline(s)
    ensures r.status.value in {PS.Found, PS.NullObject, PS.NotFound, PS.Malformed}
    ensures r.status.value == PS.Found <==> !ScanFrom(s, 0, Start(ph)).malformed && ScanFrom(s, 0, Start(ph)).sawWord
    ensures r.status.value == PS.NotFound <==> Blank(s, 0, |s|)
  {
    ScanFromBlank(s, 0, Start(ph));
    var sc := ScanFrom(s, 0, Start(ph));
    var status :=
      if sc.malformed then PS.Malformed
      else if sc.sawWord then PS.Found
      else if sc.sawControl then PS.NullObject
      else PS.NotFound;
    Parsed(PS.Status(status), Phrase(sc.tokens, sc.comment))
  }

  /** `parse1` with its status corrected: `Found` exactly when the line contributed a
      field, `NullObject` for a line of `#0` fields and comments only. */
  function Parse1(s: string, ph: Phrase): (r: Parsed)
    requires NoNewline(s)
    ensures r.status.value in {PS.Found, PS.NullObject, PS.NotFound, PS.Malformed}
    ensures |ph.tokens| <= |r.phrase.tokens| && r.phrase.tokens[..|ph.tokens|] == ph.tokens
    ensures r.status.value == PS.Found ==> |r.phrase.tokens| > |ph.tokens|
    ensures r.status.value == PS.NullObject ==> r.phrase.tokens == ph.tokens
    // a well-formed line is found exactly when it added a field, not found exactly
    // when it is white space, and a null object otherwise
    ensures r.status.value == PS.Found <==> r.status.value != PS.Malformed && |r.phrase.tokens| > |ph.tokens|
    ensures r.status.value == PS.NotFound <==> Blank(s, 0, |s|)
    ensures r.status.value == PS.NullObject <==>
              r.status.value != PS.Malformed && r.phrase.tokens == ph.tokens && !Blank(s, 0, |s|)
  {
    ScanFromGrows(s, 0, Start(ph));
    ScanFromBlank(s, 0, Start(ph));
    var sc := ScanFrom(s, 0, Start(ph));
    var status :=
      if sc.malformed then PS.Malformed
      else if |sc.tokens| > |ph.tokens| then PS.Found
      else if sc.sawControl then PS.NullObject
      else PS.NotFound;
    Parsed(PS.Status(status), Phrase(sc.tokens, sc.comment))
  }

  // ---------------------------------------------------------------------------
  // `phrase::parse`: choose the encoding by the first character
  // ---------------------------------------------------------------------------

  /** `phrase::parse` on a line `getphraseline` returned (never empty). */
  function Parse(control: string, data: string, ph: Phrase): (r: Parsed)
    requires |control| > 0 && NoNewline(control)
    ensures |ph.tokens| <= |r.phrase.tokens| && r.phrase.tokens[..|ph.tokens|] == ph.tokens
    ensures r.status.value == PS.Found ==> |r.phrase.tokens| > |ph.tokens|
    // a line starting with '.' is a column pair, whose tokens and comment are appended;
    // any other line is read inline
    ensures control[0] == '.' ==>
              var c := ColumnCodec.Parse2(control, data);
              r == Parsed(c.status, Phrase(ph.tokens + c.tokens, ph.comment + c.comment))
    ensures control[0] != '.' ==> r == Parse1(control, ph)
  {
    if control[0] == '.' then
      var c := ColumnCodec.Parse2(control, data);
      Parsed(c.status, Phrase(ph.tokens + c.tokens, ph.comment + c.comment))
    else
      Parse1(control, ph)
  }

  /** The imperative form of `phrase::parse`. */
  method ParseLine(control: string, data: string, ph: Phrase) returns (r: Parsed)
    requires |control| > 0 && NoNewline(control)
    ensures r == Parse(control, data, ph)
  {
    if control[0] == '.' {
      var c := ColumnCodec.Parse2Method(control, data);
      r := Parsed(c.status, Phrase(ph.tokens + c.tokens, ph.comment + c.comment));
    } else {
      var sc := ScanLine(control, ph);
      var status :=
        if sc.malformed then PS.Malformed
        else if |sc.tokens| > |ph.tokens| then PS.Found
        else if sc.sawControl then PS.NullObject
        else PS.NotFound;
      r := Parsed(PS.Status(status), Phrase(sc.tokens, sc.comment));
    }
  }
}
