/** The column encoding read back: a control line of dot runs over a data line that
    holds the tokens in those columns decodes to exactly those tokens (the layout of
    src/phrase.h's `parse2` comment), and the trailing-data check as written lets data
    past the control line go missing. */
module ColumnProofs {
  import opened Text
  import PS = ParseStatus
  import opened ColumnCodec
  import ColumnRules

  predicate Encodable(ts: seq<string>) {
    |ts| > 0 && forall i :: 0 <= i < |ts| ==> |ts[i]| > 0
  }

  /** The control line after its ". " lead: one dot run per token, one space apart. */
  function ControlRuns(ts: seq<string>): (r: string)
    requires Encodable(ts)
    ensures |r| == |DataRuns(ts)|
  {
    if |ts| == 1 then Repeat('.', |ts[0]|) else Repeat('.', |ts[0]|) + " " + ControlRuns(ts[1..])
  }

  /** The data line after its two-character lead: the tokens, one space apart. */
  function DataRuns(ts: seq<string>): string
    requires Encodable(ts)
  {
    if |ts| == 1 then ts[0] else ts[0] + " " + DataRuns(ts[1..])
  }

  /** The two lines of a phrase in the column encoding. */
  function EncodeControl(ts: seq<string>): string
    requires Encodable(ts)
  {
    ". " + ControlRuns(ts)
  }

  function EncodeData(ts: seq<string>, comment: string): string
    requires Encodable(ts)
  {
    "  " + DataRuns(ts) + (if comment == "" then "" else " " + comment)
  }

  /** The channels `k` columns further on along a dot run, data not yet ended. */
  function Advance(ch: Channels, k: nat): Channels
    requires ch.id + k <= |ch.data|
  {
    ch.(ic := ch.ic + k, id := ch.id + k,
        chData := if k == 0 then ch.chData else Char(ch.data[ch.id + k - 1]))
  }

  /** `gather_token` over a run of `k` more dots copies the data under them. */
  lemma {:induction false} GatherRun(ch: Channels, tok: string, k: nat)
    requires Valid(ch) && ch.chControl == Char('.') && ch.chData.Char?
    requires ch.ic == ch.id && ch.ic + k <= |ch.control| && ch.ic + k <= |ch.data|
    requires forall i :: ch.ic <= i < ch.ic + k ==> ch.control[i] == '.'
    requires ch.ic + k == |ch.control| || ch.control[ch.ic + k] != '.'
    ensures Valid(Advance(ch, k))
    ensures Gather(ch, tok) ==
              (GetCh(Advance(ch, k)).0, GetCh(Advance(ch, k)).1, tok + [ch.chData.c] + ch.data[ch.ic..ch.ic + k])
    decreases k
  {
    var j := ch.ic;
    if k == 0 {
      GatherLast(ch, tok);
      assert tok + [ch.chData.c] + ch.data[j..j] == tok + [ch.chData.c];
      assert Advance(ch, k) == ch;
    } else {
      var c1 := ch.(ic := j + 1, id := j + 1, chControl := Char('.'), chData := Char(ch.data[j]));
      GatherRun(c1, tok + [ch.chData.c], k - 1);
      GatherRunCons(ch, tok, k);
    }
  }

  /** A run of `k` dots is gathered when the run after its first dot is. */
  lemma GatherRunCons(ch: Channels, tok: string, k: nat)
    requires Valid(ch) && ch.chControl == Char('.') && ch.chData.Char? && 0 < k
    requires ch.ic == ch.id && ch.ic + k <= |ch.control| && ch.ic + k <= |ch.data|
    requires ch.control[ch.ic] == '.'
    requires var j := ch.ic;
      var c1 := ch.(ic := j + 1, id := j + 1, chControl := Char('.'), chData := Char(ch.data[j]));
      && Valid(Advance(c1, k - 1))
      && Gather(c1, tok + [ch.chData.c])
         == (GetCh(Advance(c1, k - 1)).0, GetCh(Advance(c1, k - 1)).1, tok + [ch.chData.c] + [ch.data[j]] + ch.data[j + 1..j + k])
    ensures Valid(Advance(ch, k))
    ensures Gather(ch, tok) ==
              (GetCh(Advance(ch, k)).0, GetCh(Advance(ch, k)).1, tok + [ch.chData.c] + ch.data[ch.ic..ch.ic + k])
  {
    var j := ch.ic;
    GatherDot(ch, tok);
    AdvanceAfterDot(ch, k);
    SliceAfter(tok + [ch.chData.c], ch.data, j, j + k);
  }

  /** Advancing over a first dot column, then over the rest of the run. */
  lemma AdvanceAfterDot(ch: Channels, k: nat)
    requires 0 < k && ch.ic == ch.id && ch.id + k <= |ch.data| && ch.chControl == Char('.')
    ensures Advance(ch.(ic := ch.ic + 1, id := ch.id + 1, chControl := Char('.'), chData := Char(ch.data[ch.id])), k - 1)
            == Advance(ch, k)
  {
  }

  lemma SliceAfter(pre: string, d: string, j: nat, e: nat)
    requires j < e <= |d|
    ensures pre + [d[j]] + d[j + 1..e] == pre + d[j..e]
  {
    assert d[j..e] == [d[j]] + d[j + 1..e];
  }

  /** `gather_token` at the end of a run stops after the current column. */
  lemma GatherLast(ch: Channels, tok: string)
    requires Valid(ch) && ch.chControl == Char('.') && ch.chData.Char?
    requires ch.ic == |ch.control| || ch.control[ch.ic] != '.'
    ensures Gather(ch, tok) == (GetCh(ch).0, GetCh(ch).1, tok + [ch.chData.c])
  {
    assert GetCh(ch).1.chControl != Char('.');
  }

  /** `gather_token` on a dot column takes the data under it and goes on. */
  lemma GatherDot(ch: Channels, tok: string)
    requires Valid(ch) && ch.chControl == Char('.') && ch.chData.Char?
    requires ch.ic == ch.id && ch.ic < |ch.control| && ch.ic < |ch.data| && ch.control[ch.ic] == '.'
    ensures Gather(ch, tok) ==
              Gather(ch.(ic := ch.ic + 1, id := ch.id + 1, chControl := Char('.'), chData := Char(ch.data[ch.id])),
                     tok + [ch.chData.c])
  {
    var c1 := ch.(ic := ch.ic + 1, id := ch.id + 1, chControl := Char('.'), chData := Char(ch.data[ch.id]));
    assert GetCh(ch) == (true, c1);
  }

  /** Splits the runs of the first token off an encoded pair of lines. */
  lemma RunsHead(ts: seq<string>)
    requires Encodable(ts) && |ts| > 1
    ensures Encodable(ts[1..])
    ensures ControlRuns(ts) == Repeat('.', |ts[0]|) + " " + ControlRuns(ts[1..])
    ensures DataRuns(ts) == ts[0] + " " + DataRuns(ts[1..])
  {
  }

  /** Where the first token's runs lie in an encoded pair of lines. */
  lemma {:induction false} RunsLayout(control: string, data: string, j: nat, ts: seq<string>)
    requires Encodable(ts) && j <= |control|
    requires control[j..] == ControlRuns(ts)
    requires j + |DataRuns(ts)| <= |data| && data[j..j + |DataRuns(ts)|] == DataRuns(ts)
    ensures j + |ts[0]| <= |control|
    ensures forall i :: j <= i < j + |ts[0]| ==> control[i] == '.'
    ensures data[j..j + |ts[0]|] == ts[0]
    ensures |ts| == 1 ==> j + |ts[0]| == |control|
    ensures |ts| > 1 ==> var k := j + |ts[0]|;
              k < |control| && control[k] == ' ' && data[k] == ' ' &&
              control[k + 1..] == ControlRuns(ts[1..]) &&
              k + 1 + |DataRuns(ts[1..])| <= |data| &&
              data[k + 1..k + 1 + |DataRuns(ts[1..])|] == DataRuns(ts[1..])
  {
    var m := |ts[0]|;
    var rest := if |ts| == 1 then "" else " " + ControlRuns(ts[1..]);
    var drest := if |ts| == 1 then "" else " " + DataRuns(ts[1..]);
    if |ts| > 1 { RunsHead(ts); }
    assert ControlRuns(ts) == Repeat('.', m) + rest;
    assert DataRuns(ts) == ts[0] + drest;
    forall i | j <= i < j + m ensures control[i] == '.' {
      assert control[i] == control[j..][i - j];
    }
    assert data[j..j + m] == data[j..j + |DataRuns(ts)|][..m];
    if |ts| > 1 {
      assert control[j + m] == control[j..][m];
      assert data[j + m] == data[j..j + |DataRuns(ts)|][m];
      assert control[j + m + 1..] == control[j..][m + 1..];
      assert data[j + m + 1..j + m + 1 + |DataRuns(ts[1..])|] == data[j..j + |DataRuns(ts)|][m + 1..];
    }
  }

  /** The channels after the first column of a token's dot run. */
  function Entered(ch: Channels): Channels
    requires ch.id < |ch.data|
  {
    ch.(ic := ch.ic + 1, id := ch.id + 1, chControl := Char('.'), chData := Char(ch.data[ch.id]))
  }

  /** The channels on the last column `k - 1` of a dot run, before the final `get_ch`. */
  function RunEnd(ch: Channels, k: nat): Channels
    requires 0 < k <= |ch.data|
  {
    ch.(ic := k, id := k, chControl := Char('.'), chData := Char(ch.data[k - 1]))
  }

  lemma RunEndOfEntered(ch: Channels, m: nat)
    requires 0 < m && ch.ic == ch.id && ch.id + m <= |ch.data|
    ensures RunEnd(ch, ch.ic + m) == Advance(Entered(ch), m - 1)
  {
  }

  /** One token of the loop: its first column, then `gather_token` over the rest. */
  lemma FirstToken(ch: Channels, tok: string)
    requires Valid(ch) && ch.chControl == Char(' ') && ch.chData.Char? && ch.ic == ch.id
    requires |tok| > 0 && ch.ic + |tok| <= |ch.control| && ch.id + |tok| <= |ch.data|
    requires forall i :: ch.ic <= i < ch.ic + |tok| ==> ch.control[i] == '.'
    requires ch.ic + |tok| == |ch.control| || ch.control[ch.ic + |tok|] != '.'
    requires ch.data[ch.id..ch.id + |tok|] == tok
    ensures Valid(RunEnd(ch, ch.ic + |tok|))
    ensures GetCh(ch) == (true, Entered(ch))
    ensures Gather(Entered(ch), "").0 == GetCh(RunEnd(ch, ch.ic + |tok|)).0
    ensures Gather(Entered(ch), "").1 == GetCh(RunEnd(ch, ch.ic + |tok|)).1
    ensures Gather(Entered(ch), "").2 == tok
  {
    assert ch.control[ch.ic] == '.';
    assert GetCh(ch) == (true, Entered(ch));
    RestOfRun(ch, tok);
  }

  /** `gather_token` from the first column of a token's dot run reads the token. */
  lemma RestOfRun(ch: Channels, tok: string)
    requires Valid(ch) && ch.chData.Char? && ch.ic == ch.id
    requires |tok| > 0 && ch.ic + |tok| <= |ch.control| && ch.id + |tok| <= |ch.data|
    requires forall i :: ch.ic <= i < ch.ic + |tok| ==> ch.control[i] == '.'
    requires ch.ic + |tok| == |ch.control| || ch.control[ch.ic + |tok|] != '.'
    requires ch.data[ch.id..ch.id + |tok|] == tok
    ensures Valid(RunEnd(ch, ch.ic + |tok|))
    ensures Gather(Entered(ch), "").0 == GetCh(RunEnd(ch, ch.ic + |tok|)).0
    ensures Gather(Entered(ch), "").1 == GetCh(RunEnd(ch, ch.ic + |tok|)).1
    ensures Gather(Entered(ch), "").2 == tok
  {
    var j := ch.ic;
    var m := |tok|;
    var c1 := Entered(ch);
    GatherRun(c1, "", m - 1);
    RunEndOfEntered(ch, m);
    SliceAfter("", ch.data, j, j + m);
  }

  /** The channels on the space column `k` between two dot runs. */
  function Separator(ch: Channels, k: nat): Channels {
    ch.(ic := k + 1, id := k + 1, chControl := Char(' '), chData := Char(' '))
  }

  lemma HeadTail<T>(acc: seq<T>, ts: seq<T>)
    requires |ts| > 0
    ensures acc + [ts[0]] + ts[1..] == acc + ts
    ensures |ts| == 1 ==> acc + [ts[0]] == acc + ts
  {
    assert ts == [ts[0]] + ts[1..];
  }

  lemma SeparatorStep(ch: Channels, k: nat)
    requires 0 < k < |ch.control| && k < |ch.data| && ch.control[k] == ' ' && ch.data[k] == ' '
    ensures GetCh(RunEnd(ch, k)) == (true, Separator(ch, k))
  {
  }

  /** One turn of the token loop over a dot run of `tok`'s length. */
  lemma LoopAfterToken(ch: Channels, tok: string, acc: seq<string>)
    requires Valid(ch) && ch.chControl == Char(' ') && ch.chData.Char? && ch.ic == ch.id
    requires |tok| > 0 && ch.ic + |tok| <= |ch.control| && ch.id + |tok| <= |ch.data|
    requires forall i :: ch.ic <= i < ch.ic + |tok| ==> ch.control[i] == '.'
    requires ch.ic + |tok| == |ch.control| || ch.control[ch.ic + |tok|] != '.'
    requires ch.data[ch.id..ch.id + |tok|] == tok
    ensures Valid(RunEnd(ch, ch.ic + |tok|))
    ensures !GetCh(RunEnd(ch, ch.ic + |tok|)).0 ==>
              Loop(ch, acc) == Broke(GetCh(RunEnd(ch, ch.ic + |tok|)).1, acc + [tok], true)
    ensures GetCh(RunEnd(ch, ch.ic + |tok|)).0 && GetCh(RunEnd(ch, ch.ic + |tok|)).1.chControl == Char(' ') ==>
              Loop(ch, acc) == Loop(GetCh(RunEnd(ch, ch.ic + |tok|)).1, acc + [tok])
  {
    FirstToken(ch, tok);
  }

  /** Channels positioned on the space before the encoded runs of `ts`. */
  predicate AtRuns(ch: Channels, ts: seq<string>) {
    Valid(ch) && ch.chControl == Char(' ') && ch.chData.Char? && ch.ic == ch.id
    && Encodable(ts)
    && ch.control[ch.ic..] == ControlRuns(ts)
    && ch.id + |DataRuns(ts)| <= |ch.data|
    && ch.data[ch.id..ch.id + |DataRuns(ts)|] == DataRuns(ts)
  }

  /** A token that is not the last is followed by a space column and the runs of the rest. */
  lemma NextRuns(ch: Channels, ts: seq<string>)
    requires AtRuns(ch, ts) && |ts| > 1
    ensures ch.ic + |ts[0]| < |ch.control| && ch.ic + |ts[0]| < |ch.data|
    ensures AtRuns(Separator(ch, ch.ic + |ts[0]|), ts[1..])
  {
    RunsLayout(ch.control, ch.data, ch.ic, ts);
  }

  /** The first token of several: its dot run over its data, then a space column. */
  lemma FirstRun(ch: Channels, ts: seq<string>)
    requires AtRuns(ch, ts) && |ts| > 1
    ensures var k := ch.ic + |ts[0]|;
      && 0 < k < |ch.control| && k < |ch.data| && ch.control[k] == ' ' && ch.data[k] == ' '
      && |ts[0]| > 0 && (forall i :: ch.ic <= i < k ==> ch.control[i] == '.')
      && ch.data[ch.id..k] == ts[0]
  {
    RunsLayout(ch.control, ch.data, ch.ic, ts);
  }

  /** A token that is not the last: the loop reads it and goes on at the space after. */
  lemma LoopStep(ch: Channels, acc: seq<string>, ts: seq<string>)
    requires AtRuns(ch, ts) && |ts| > 1
    ensures ch.ic + |ts[0]| < |ch.control| && ch.ic + |ts[0]| < |ch.data|
    ensures Loop(ch, acc) == Loop(Separator(ch, ch.ic + |ts[0]|), acc + [ts[0]])
  {
    var k := ch.ic + |ts[0]|;
    var tok := ts[0];
    FirstRun(ch, ts);
    SeparatorStep(ch, k);
    var g := GetCh(RunEnd(ch, k));
    assert g.0 && g.1 == Separator(ch, k);
    LoopAfterToken(ch, tok, acc);
    assert Loop(ch, acc) == Loop(g.1, acc + [tok]);
  }

  /** The last token: the loop reads it and stops at the end of the control line. */
  lemma LoopLast(ch: Channels, acc: seq<string>, ts: seq<string>)
    requires AtRuns(ch, ts) && |ts| == 1
    ensures ch.ic + |ts[0]| == |ch.control| && 0 < |ch.control| <= |ch.data|
    ensures Valid(RunEnd(ch, |ch.control|))
    ensures Loop(ch, acc) == Broke(GetCh(RunEnd(ch, |ch.control|)).1, acc + [ts[0]], true)
  {
    LastRun(ch, ts);
    assert ch.ic + |ts[0]| == |ch.control|;
    RunEndAtEnd(ch);
    LoopAfterToken(ch, ts[0], acc);
  }

  /** The only token: its dot run over its data, up to the end of the control line. */
  lemma LastRun(ch: Channels, ts: seq<string>)
    requires AtRuns(ch, ts) && |ts| == 1
    ensures var tok := ts[0];
      && ch.ic + |tok| == |ch.control| && ch.id + |tok| <= |ch.data| && |tok| > 0
      && (forall i :: ch.ic <= i < ch.ic + |tok| ==> ch.control[i] == '.')
      && ch.data[ch.id..ch.id + |tok|] == tok
  {
    RunsLayout(ch.control, ch.data, ch.ic, ts);
  }

  /** After the last column of the control channel, `get_ch` finds it ended. */
  lemma RunEndAtEnd(ch: Channels)
    requires 0 < |ch.control| <= |ch.data|
    ensures !GetCh(RunEnd(ch, |ch.control|)).0
  {
  }

  /** The token loop of `parse2` over encoded runs: every token comes back, and the
      loop ends on the control channel's end with `found_tok` set. */
  lemma {:induction false} LoopRuns(ch: Channels, acc: seq<string>, ts: seq<string>)
    requires AtRuns(ch, ts)
    ensures 0 < |ch.control| <= |ch.data| && Valid(RunEnd(ch, |ch.control|))
    ensures Loop(ch, acc) == Broke(GetCh(RunEnd(ch, |ch.control|)).1, acc + ts, true)
    decreases |ts|
  {
    HeadTail(acc, ts);
    if |ts| > 1 {
      var c3 := Separator(ch, ch.ic + |ts[0]|);
      NextRuns(ch, ts);
      LoopStep(ch, acc, ts);
      LoopRuns(c3, acc + [ts[0]], ts[1..]);
      assert RunEnd(c3, |ch.control|) == RunEnd(ch, |ch.control|);
    } else {
      LoopLast(ch, acc, ts);
    }
  }

  /** Decoding the column encoding of a phrase gives its tokens and comment back,
      with status `Found`. */
  lemma RoundTrip(ts: seq<string>, comment: string)
    requires Encodable(ts)
    requires comment == "" || comment[0] == ';'
    ensures Parse2(EncodeControl(ts), EncodeData(ts, comment)) == Columns(ts, comment, PS.Status(PS.Found))
  {
    var control, data := EncodeControl(ts), EncodeData(ts, comment);
    var n := |control|;
    assert data[..n] == "  " + DataRuns(ts);
    var c2 := Channels(control, data, 2, 2, Char(' '), Char(' '));
    assert Parse2(control, data) == ColumnRules.Finish(Loop(c2, []), data, true) by {
      assert control[0] == '.' && control[1] == ' ' && data[1] == ' ';
      ColumnRules.DecodeFront(control, data, true);
      assert ColumnRules.ReadTo(control, data, 2) == c2;
    }
    var e := RunEnd(c2, n);
    assert Loop(c2, []) == Broke(GetCh(e).1, ts, true) by {
      assert control[2..] == ControlRuns(ts);
      assert data[2..2 + |DataRuns(ts)|] == DataRuns(ts);
      LoopRuns(c2, [], ts);
    }
    var c := GetCh(e).1;
    assert c.chData == (if comment == "" then Eof else Char(' ')) && (comment != "" ==> c.id == n + 1) by {
      if comment == "" {
        assert |data| == n;
      } else {
        assert data[n] == ' ';
      }
    }
    FinishEncoded(ts, comment, c);
  }

  /** After the last column of an encoded control line, `parse2` finds nothing more
      in the data line, or a space and then the comment. */
  lemma FinishEncoded(ts: seq<string>, comment: string, c: Channels)
    requires Encodable(ts) && (comment == "" || comment[0] == ';')
    requires Valid(c) && c.data == EncodeData(ts, comment)
    requires c.chData == (if comment == "" then Eof else Char(' '))
    requires comment != "" ==> c.id == |EncodeControl(ts)| + 1
    ensures ColumnRules.Finish(Broke(c, ts, true), c.data, true) == Columns(ts, comment, PS.Status(PS.Found))
  {
    if comment != "" {
      var data, n := c.data, |EncodeControl(ts)|;
      assert data == "  " + DataRuns(ts) + " " + comment;
      assert data[n + 1..] == comment;
      assert SkipBlanks(data, n + 1) == n + 1;
    }
  }

  /** As written, the data character under the first column past the control line is
      skipped unexamined: here 'X' is lost and the line still counts as `Found`, where
      the corrected check reports it. */
  lemma TrailingCharacterLost()
    ensures Parse2AsWritten(". .", ". aX;c") == Columns(["a"], ";c", PS.Status(PS.Found))
    ensures Parse2(". .", ". aX;c") == Columns(["a"], "", PS.Status(PS.Malformed))
  {
    var control, data := ". .", ". aX;c";
    var c1 := Channels(control, data, 1, 1, Char('.'), Char('.'));
    assert GetCh(Initial(control, data)) == (true, c1);
    var c2 := Channels(control, data, 2, 2, Char(' '), Char(' '));
    assert GetCh(c1) == (true, c2);
    var c3 := Channels(control, data, 3, 3, Char('.'), Char('a'));
    assert GetCh(c2) == (true, c3);
    var c4 := Channels(control, data, 3, 4, Eof, Char('X'));
    assert GetCh(c3) == (false, c4);
    assert "" + [c3.chData.c] == "a";
    assert Gather(c3, "") == (false, c4, "a");
    assert Loop(c2, []) == Broke(c4, ["a"], true);
    assert SkipBlanks(data, 4) == 4;
    assert data[4..] == ";c";
  }
}
