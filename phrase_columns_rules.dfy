/** What a column pair means, for every control line and data line: `parse2` rejects a
    control line that does not start ". " or holds a column other than '.' and ' ';
    otherwise each maximal run of dots gives one token, the data under the run with a
    space for every column past the data's end, the status says whether the control
    line ends inside a run, and the data past the control line must be spaces and a
    comment, or nothing. */
module ColumnRules {
  import opened Text
  import PS = ParseStatus
  import opened ColumnCodec

  // ---------------------------------------------------------------------------
  // The reference reading of a column pair
  // ---------------------------------------------------------------------------

  /** The data character under column `j`: the data line's, or a space past its end. */
  function DataAt(data: string, j: nat): char {
    if j < |data| then data[j] else ' '
  }

  /** The data under columns `i` up to `j`. */
  function Under(data: string, i: nat, j: nat): (r: string)
    requires i <= j
    ensures |r| == j - i
    ensures forall k :: 0 <= k < j - i ==> r[k] == DataAt(data, i + k)
    decreases j - i
  {
    if i == j then "" else [DataAt(data, i)] + Under(data, i + 1, j)
  }

  /** The first column at or after `p` that is not a dot. */
  function DotsEnd(s: string, p: nat): (q: nat)
    requires p <= |s|
    ensures p <= q <= |s|
    ensures forall i :: p <= i < q ==> s[i] == '.'
    ensures q < |s| ==> s[q] != '.'
    decreases |s| - p
  {
    if p == |s| || s[p] != '.' then p else DotsEnd(s, p + 1)
  }

  /** Every column from `j` on is a dot or a space. */
  predicate Columnar(control: string, j: nat) {
    forall k :: j <= k < |control| ==> control[k] == '.' || control[k] == ' '
  }

  /** The tokens the columns from `j` on encode: one per maximal run of dots, holding
      the data under the run. */
  function Tokens(control: string, data: string, j: nat): seq<string>
    requires j <= |control|
    decreases |control| - j
  {
    if j == |control| then []
    else if control[j] != '.' then Tokens(control, data, j + 1)
    else
      var e := DotsEnd(control, j);
      [Under(data, j, e)] + Tokens(control, data, e)
  }

  /** What a column pair stands for when its control line is ". " followed by dots and
      spaces only: the tokens of the dot runs; `Found` when the last column is a dot
      and `NotFound` otherwise; and the data past the control line, if any, which
      the trailing-data check (as written or corrected) must accept. */
  function Meaning(control: string, data: string, corrected: bool): Columns
    requires |control| >= 2 && Columnar(control, 2)
  {
    var tokens := Tokens(control, data, 2);
    var status := PS.Status(if control[|control| - 1] == '.' then PS.Found else PS.NotFound);
    if |data| <= |control| then Columns(tokens, "", status)
    else
      var trailing := if corrected then Trailing(data[|control|], data, |control| + 1)
                      else TrailingAsWritten(data[|control|], data, |control| + 1);
      match trailing
      case None => Columns(tokens, "", PS.Status(PS.Malformed))
      case Some(comment) => Columns(tokens, comment, status)
  }

  // ---------------------------------------------------------------------------
  // The channels column by column
  // ---------------------------------------------------------------------------

  /** The channels once `get_ch` has read column `j - 1`: both lines are read in
      lockstep until the data line ends, and the data character is the one under the
      column, a space under a dot past the data's end, or the end of the data. */
  function ReadTo(control: string, data: string, j: nat): Channels
    requires 1 <= j <= |control|
  {
    Channels(control, data, j, if j < |data| then j else |data|, Char(control[j - 1]),
             if j - 1 < |data| then Char(data[j - 1])
             else if control[j - 1] == '.' then Char(' ')
             else Eof)
  }

  /** The channels once `get_ch` has met the end of the control line: the data
      character is the first one past the control line, if the data line has one. */
  function Ended(control: string, data: string): Channels {
    Channels(control, data, |control|, if |control| + 1 < |data| then |control| + 1 else |data|, Eof,
             if |control| < |data| then Char(data[|control|]) else Eof)
  }

  /** The first `get_ch` reads column 0 of both lines. */
  lemma GetChInitial(control: string, data: string)
    requires |control| >= 1
    ensures GetCh(Initial(control, data)) == (true, ReadTo(control, data, 1))
  {
  }

  /** Each `get_ch` reads the next column, or meets the control line's end. */
  lemma GetChRead(control: string, data: string, j: nat)
    requires 1 <= j <= |control|
    ensures GetCh(ReadTo(control, data, j))
            == if j < |control| then (true, ReadTo(control, data, j + 1)) else (false, Ended(control, data))
  {
  }

  /** `collapse_spaces` after a space column stops on the next column that is not a
      space, or at the control line's end. */
  lemma {:induction false} CollapseRead(control: string, data: string, j: nat)
    requires 1 <= j <= |control| && control[j - 1] == ' '
    ensures var k := SkipBlanks(control, j);
      Collapse(ReadTo(control, data, j))
      == if k < |control| then (true, ReadTo(control, data, k + 1)) else (false, Ended(control, data))
    decreases |control| - j
  {
    GetChRead(control, data, j);
    if j < |control| && control[j] == ' ' {
      CollapseRead(control, data, j + 1);
    }
  }

  /** `gather_token` after a dot column appends the data under the whole run of dots
      and stops on the column after it, or at the control line's end. */
  lemma {:induction false} GatherRead(control: string, data: string, j: nat, t: string)
    requires 1 <= j <= |control| && control[j - 1] == '.'
    ensures var e := DotsEnd(control, j);
      Gather(ReadTo(control, data, j), t)
      == (e < |control|, if e < |control| then ReadTo(control, data, e + 1) else Ended(control, data),
          t + Under(data, j - 1, e))
    decreases |control| - j
  {
    var t' := t + [DataAt(data, j - 1)];
    assert ReadTo(control, data, j).chData == Char(DataAt(data, j - 1));
    GetChRead(control, data, j);
    if j < |control| && control[j] == '.' {
      GatherRead(control, data, j + 1, t');
      assert t' + Under(data, j, DotsEnd(control, j + 1)) == t + Under(data, j - 1, DotsEnd(control, j));
    } else {
      assert Under(data, j - 1, j) == [DataAt(data, j - 1)];
    }
  }

  /** Spaces between runs encode nothing. */
  lemma {:induction false} TokensSkip(control: string, data: string, j: nat)
    requires j <= |control|
    ensures Tokens(control, data, j) == Tokens(control, data, SkipBlanks(control, j))
    decreases |control| - j
  {
    if j < |control| && control[j] == ' ' {
      TokensSkip(control, data, j + 1);
    }
  }

  /** How the token loop goes on after `gather_token` has answered `g`: the control
      line's end stops it with the token found, a space goes on with the next turn,
      and any other column makes it fail. */
  function Continue(g: (bool, Channels, string), acc: seq<string>): LoopEnd
    requires Valid(g.1)
  {
    if !g.0 then Broke(g.1, acc + [g.2], true)
    else if g.1.chControl == Char(' ') then Loop(g.1, acc + [g.2])
    else Bad(acc + [g.2])
  }

  /** Gathering from the dot at column `k`. */
  lemma GatherAtRun(control: string, data: string, k: nat)
    requires k < |control| && control[k] == '.'
    ensures var e := DotsEnd(control, k);
      Gather(ReadTo(control, data, k + 1), "")
      == (e < |control|, if e < |control| then ReadTo(control, data, e + 1) else Ended(control, data),
          Under(data, k, e))
  {
    var e := DotsEnd(control, k + 1);
    assert DotsEnd(control, k) == e;
    GatherRead(control, data, k + 1, "");
    assert "" + Under(data, k, e) == Under(data, k, e);
  }

  /** The first turn of the loop: after the channels have reached the first column
      that is not a space, either the end, a run of dots, or another column. */
  lemma LoopFirst(ch: Channels, c2: Channels, acc: seq<string>)
    requires Valid(ch) && GetCh(ch).0
    requires GetCh(ch).1.chControl == Char(' ') ==> Collapse(GetCh(ch).1) == (c2.chControl != Eof, c2)
    requires GetCh(ch).1.chControl != Char(' ') ==> c2 == GetCh(ch).1
    ensures c2.chControl == Eof ==> Loop(ch, acc) == Broke(c2, acc, false)
    ensures c2.chControl != Eof && c2.chControl != Char('.') ==> Loop(ch, acc) == Bad(acc + [""])
    ensures c2.chControl == Char('.') ==> Loop(ch, acc) == Continue(Gather(c2, ""), acc)
  {
  }

  /** How one turn of the token loop ends: the loop stops with its result, or goes
      on with the next turn from column `next`. */
  datatype Turned = Stop(end: LoopEnd) | Go(next: nat, tokens: seq<string>)

  /** One turn of the token loop of `parse2` from column `j`, by columns: the spaces
      are skipped; then the control line's end stops the loop, any column other than
      '.' makes it fail with an empty token pushed, and a run of dots is pushed as a
      token. After the run, the control line's end stops the loop, a space goes on
      with the next turn, and any other column makes it fail. */
  function Turn(control: string, data: string, j: nat, acc: seq<string>): (r: Turned)
    requires j <= |control|
    ensures r.Go? ==> j < r.next <= |control|
  {
    var k := SkipBlanks(control, j);
    if k == |control| then Stop(Broke(Ended(control, data), acc, false))
    else if control[k] != '.' then Stop(Bad(acc + [""]))
    else
      var e := DotsEnd(control, k);
      var tokens := acc + [Under(data, k, e)];
      if e == |control| then Stop(Broke(Ended(control, data), tokens, true))
      else if control[e] == ' ' then Go(e + 1, tokens)
      else Stop(Bad(tokens))
  }

  /** The loop's result after a turn: where it stopped, or the loop from the next
      column on. */
  function Resume(control: string, data: string, t: Turned): LoopEnd
    requires t.Go? ==> 1 <= t.next <= |control|
  {
    match t
    case Stop(r) => r
    case Go(n, ts) => Loop(ReadTo(control, data, n), ts)
  }

  /** The turn from the channels `ch`, whose next non-space column is `k`, when that
      column is not a dot or there is none. */
  lemma TurnFromOther(control: string, data: string, ch: Channels, j: nat, k: nat, acc: seq<string>)
    requires 1 <= j <= k <= |control| && k == SkipBlanks(control, j) && Valid(ch) && GetCh(ch).0
    requires k == |control| || control[k] != '.'
    requires var c2 := if k < |control| then ReadTo(control, data, k + 1) else Ended(control, data);
      && (GetCh(ch).1.chControl == Char(' ') ==> Collapse(GetCh(ch).1) == (c2.chControl != Eof, c2))
      && (GetCh(ch).1.chControl != Char(' ') ==> c2 == GetCh(ch).1)
    ensures Loop(ch, acc) == Resume(control, data, Turn(control, data, j, acc))
  {
    var c2 := if k < |control| then ReadTo(control, data, k + 1) else Ended(control, data);
    LoopFirst(ch, c2, acc);
  }

  /** The turn from the channels `ch`, whose next non-space column `k` is a dot. */
  lemma TurnFromRun(control: string, data: string, ch: Channels, j: nat, k: nat, acc: seq<string>)
    requires 1 <= j <= k < |control| && k == SkipBlanks(control, j) && Valid(ch) && GetCh(ch).0
    requires control[k] == '.'
    requires var c2 := ReadTo(control, data, k + 1);
      && (GetCh(ch).1.chControl == Char(' ') ==> Collapse(GetCh(ch).1) == (true, c2))
      && (GetCh(ch).1.chControl != Char(' ') ==> c2 == GetCh(ch).1)
    ensures Loop(ch, acc) == Resume(control, data, Turn(control, data, j, acc))
  {
    var c2 := ReadTo(control, data, k + 1);
    assert Loop(ch, acc) == Continue(Gather(c2, ""), acc) by {
      LoopFirst(ch, c2, acc);
    }
    GatheredRun(control, data, j, k, acc);
  }

  /** The turn's outcome once the run of dots from column `k` has been gathered. */
  lemma GatheredRun(control: string, data: string, j: nat, k: nat, acc: seq<string>)
    requires j <= k < |control| && k == SkipBlanks(control, j) && control[k] == '.'
    ensures Continue(Gather(ReadTo(control, data, k + 1), ""), acc)
            == Resume(control, data, Turn(control, data, j, acc))
  {
    GatherAtRun(control, data, k);
    var e := DotsEnd(control, k);
    var u := Under(data, k, e);
    var g := Gather(ReadTo(control, data, k + 1), "");
    if e == |control| {
      assert g == (false, Ended(control, data), u);
      assert Turn(control, data, j, acc) == Stop(Broke(Ended(control, data), acc + [u], true));
    } else {
      var c := ReadTo(control, data, e + 1);
      assert g == (true, c, u);
      assert c.chControl == Char(control[e]);
      if control[e] == ' ' {
        assert Turn(control, data, j, acc) == Go(e + 1, acc + [u]);
      } else {
        assert Turn(control, data, j, acc) == Stop(Bad(acc + [u]));
      }
    }
  }

  /** The loop from the channels after column `j - 1` is one turn, then the rest. */
  lemma LoopStep(control: string, data: string, j: nat, acc: seq<string>)
    requires 1 <= j <= |control|
    ensures Loop(ReadTo(control, data, j), acc) == Resume(control, data, Turn(control, data, j, acc))
  {
    GetChRead(control, data, j);
    if j < |control| {
      var k := j;
      if control[j] == ' ' {
        CollapseRead(control, data, j + 1);
        k := SkipBlanks(control, j + 1);
      }
      assert SkipBlanks(control, j) == k;
      if k < |control| && control[k] == '.' {
        TurnFromRun(control, data, ReadTo(control, data, j), j, k, acc);
      } else {
        TurnFromOther(control, data, ReadTo(control, data, j), j, k, acc);
      }
    }
  }

  /** The token loop by columns: turn after turn until one stops it. */
  function Run(control: string, data: string, j: nat, acc: seq<string>): LoopEnd
    requires j <= |control|
    decreases |control| - j
  {
    match Turn(control, data, j, acc)
    case Stop(r) => r
    case Go(n, ts) => Run(control, data, n, ts)
  }

  /** The token loop over the channels is the loop by columns. */
  lemma {:induction false} LoopIsRun(control: string, data: string, j: nat, acc: seq<string>)
    requires 1 <= j <= |control|
    ensures Loop(ReadTo(control, data, j), acc) == Run(control, data, j, acc)
    decreases |control| - j
  {
    LoopStep(control, data, j, acc);
    match Turn(control, data, j, acc)
    case Stop(_) =>
    case Go(n, ts) =>
      LoopIsRun(control, data, n, ts);
  }

  /** The tokens of the columns from `j`, read turn by turn. */
  lemma TokensStep(control: string, data: string, j: nat)
    requires j <= |control|
    ensures var k := SkipBlanks(control, j);
      && Tokens(control, data, j) == Tokens(control, data, k)
      && (k < |control| && control[k] == '.' ==>
            var e := DotsEnd(control, k);
            Tokens(control, data, j) == [Under(data, k, e)] + Tokens(control, data, e))
  {
    TokensSkip(control, data, j);
  }

  /** The columns from `j` seen one turn at a time: the spaces up to `k`, then the
      end of the line, a column that is neither '.' nor ' ', or a run of dots up to
      `e` followed by the end, a space, or another column. */
  lemma ColumnsTurn(control: string, data: string, j: nat)
    requires j <= |control|
    ensures var k := SkipBlanks(control, j);
      && (k == |control| ==> Columnar(control, j) && Tokens(control, data, j) == []
                             && (j < |control| ==> control[|control| - 1] == ' '))
      && (k < |control| && control[k] != '.' ==> !Columnar(control, j))
    ensures var k := SkipBlanks(control, j);
      k < |control| && control[k] == '.' ==>
        var e := DotsEnd(control, k);
        && (e == |control| ==> Columnar(control, j) && control[|control| - 1] == '.'
                               && Tokens(control, data, j) == [Under(data, k, e)])
        && (e < |control| && control[e] != ' ' ==> !Columnar(control, j))
        && (e < |control| && control[e] == ' ' ==>
              && (Columnar(control, j) <==> Columnar(control, e + 1))
              && Tokens(control, data, j) == [Under(data, k, e)] + Tokens(control, data, e + 1)
              && (control[|control| - 1] == '.' ==> e + 1 < |control|))
  {
    TokensStep(control, data, j);
    var k := SkipBlanks(control, j);
    if k < |control| && control[k] == '.' {
      var e := DotsEnd(control, k);
      if e < |control| && control[e] == ' ' {
        assert forall i :: j <= i <= e ==> control[i] == '.' || control[i] == ' ';
      }
    }
  }

  /** The loop by columns from column `j`: on dots and spaces it pushes the tokens of
      the dot runs and stops at the control line's end, with `found_tok` set exactly
      when the line ends inside a run; any other column makes it fail. */
  lemma {:induction false} RunMeaning(control: string, data: string, j: nat, acc: seq<string>)
    requires j <= |control|
    ensures Columnar(control, j) ==>
              Run(control, data, j, acc)
              == Broke(Ended(control, data), acc + Tokens(control, data, j),
                       j < |control| && control[|control| - 1] == '.')
    ensures !Columnar(control, j) ==> Run(control, data, j, acc).Bad?
    decreases |control| - j
  {
    ColumnsTurn(control, data, j);
    match Turn(control, data, j, acc)
    case Stop(_) =>
    case Go(n, ts) =>
      RunMeaning(control, data, n, ts);
      var k := SkipBlanks(control, j);
      var tok := Under(data, k, DotsEnd(control, k));
      assert acc + [tok] + Tokens(control, data, n) == acc + ([tok] + Tokens(control, data, n));
  }

  /** The token loop of `parse2`, once column `j - 1` has been read: on dots and
      spaces it pushes the tokens of the dot runs from column `j` on and stops at the
      control line's end, with `found_tok` set exactly when the line ends inside a
      run; any other column makes it fail. */
  lemma LoopRead(control: string, data: string, j: nat, acc: seq<string>)
    requires 1 <= j <= |control|
    ensures Columnar(control, j) ==>
              Loop(ReadTo(control, data, j), acc)
              == Broke(Ended(control, data), acc + Tokens(control, data, j),
                       j < |control| && control[|control| - 1] == '.')
    ensures !Columnar(control, j) ==> Loop(ReadTo(control, data, j), acc).Bad?
  {
    LoopIsRun(control, data, j, acc);
    RunMeaning(control, data, j, acc);
  }

  // ---------------------------------------------------------------------------
  // The trailing data and the whole decoder
  // ---------------------------------------------------------------------------

  /** The corrected trailing-data check accepts every run of spaces followed by a
      comment: with `Trailing`'s own contract, it holds exactly on that shape. */
  lemma {:induction false} TrailingAccepts(cur: char, data: string, id: nat, k: nat, comment: string)
    requires id <= |data| && |comment| > 0 && comment[0] == ';'
    requires [cur] + data[id..] == Repeat(' ', k) + comment
    ensures Trailing(cur, data, id) == Some(comment)
    decreases k
  {
    if k == 0 {
      assert Repeat(' ', 0) + comment == comment;
      assert cur == ([cur] + data[id..])[0] == ';';
      assert [';'] + data[id..] == comment;
    } else {
      assert cur == ([cur] + data[id..])[0] == ' ';
      assert id < |data| by {
        assert |[cur] + data[id..]| == k + |comment| >= 2;
      }
      TrailingStep(data, id);
      assert [data[id]] + data[id + 1..] == Repeat(' ', k - 1) + comment by {
        assert [data[id]] + data[id + 1..] == ([cur] + data[id..])[1..];
        assert Repeat(' ', k) == Repeat(' ', k - 1) + " ";
        assert Repeat(' ', k) + comment == [' '] + (Repeat(' ', k - 1) + comment) by {
          SpacesCons(k);
        }
      }
      TrailingAccepts(data[id], data, id + 1, k - 1, comment);
    }
  }

  lemma SpacesCons(k: nat)
    requires k > 0
    ensures Repeat(' ', k) == [' '] + Repeat(' ', k - 1)
  {
  }

  /** What `parse2` makes of the token loop's end: a failed loop is malformed; a
      finished one is found or not by `found_tok`, and the data past the control
      line, if any, goes through the trailing-data check. */
  function Finish(r: LoopEnd, data: string, corrected: bool): Columns
    requires r.Broke? ==> Valid(r.ch) && r.ch.data == data
  {
    match r
    case Bad(tokens) => Columns(tokens, "", PS.Status(PS.Malformed))
    case Broke(c, tokens, foundTok) =>
      var status := PS.Status(if foundTok then PS.Found else PS.NotFound);
      if c.chData == Eof then Columns(tokens, "", status)
      else
        var trailing := if corrected then Trailing(c.chData.c, data, c.id)
                        else TrailingAsWritten(c.chData.c, data, c.id);
        match trailing
        case None => Columns(tokens, "", PS.Status(PS.Malformed))
        case Some(comment) => Columns(tokens, comment, status)
  }

  /** The first two columns of `parse2`: they must be '.' and ' ', and then the token
      loop runs from the third. */
  lemma DecodeFront(control: string, data: string, corrected: bool)
    ensures !(|control| >= 2 && control[0] == '.' && control[1] == ' ') ==>
              Decode(control, data, corrected) == Columns([], "", PS.Status(PS.Malformed))
    ensures |control| >= 2 && control[0] == '.' && control[1] == ' ' ==>
              Decode(control, data, corrected) == Finish(Loop(ReadTo(control, data, 2), []), data, corrected)
  {
    if |control| >= 1 {
      GetChInitial(control, data);
      GetChRead(control, data, 1);
    }
  }

  /** `parse2`, as written or corrected, for every pair of lines: a control line that
      does not start ". " gives nothing and `Malformed`; one with a column other than
      '.' and ' ' is `Malformed`; any other gives what the columns stand for. */
  lemma DecodeMeaning(control: string, data: string, corrected: bool)
    ensures !(|control| >= 2 && control[0] == '.' && control[1] == ' ') ==>
              Decode(control, data, corrected) == Columns([], "", PS.Status(PS.Malformed))
    ensures |control| >= 2 && control[0] == '.' && control[1] == ' ' && !Columnar(control, 2) ==>
              Decode(control, data, corrected).status.value == PS.Malformed
    ensures |control| >= 2 && control[0] == '.' && control[1] == ' ' && Columnar(control, 2) ==>
              Decode(control, data, corrected) == Meaning(control, data, corrected)
  {
    DecodeFront(control, data, corrected);
    if |control| >= 2 && control[0] == '.' && control[1] == ' ' {
      if Columnar(control, 2) {
        var foundTok := 2 < |control| && control[|control| - 1] == '.';
        assert Loop(ReadTo(control, data, 2), [])
               == Broke(Ended(control, data), Tokens(control, data, 2), foundTok) by {
          LoopRead(control, data, 2, []);
          assert [] + Tokens(control, data, 2) == Tokens(control, data, 2);
        }
        FinishMeaning(control, data, corrected);
      } else {
        LoopRead(control, data, 2, []);
      }
    }
  }

  /** The end of a token loop that ran to the end of a control line of dots and
      spaces, seen by `parse2`, is what the columns stand for. */
  lemma FinishMeaning(control: string, data: string, corrected: bool)
    requires |control| >= 2 && control[1] == ' ' && Columnar(control, 2)
    ensures Finish(Broke(Ended(control, data), Tokens(control, data, 2),
                         2 < |control| && control[|control| - 1] == '.'), data, corrected)
            == Meaning(control, data, corrected)
  {
    var c := Ended(control, data);
    if |data| <= |control| {
      assert c.chData == Eof;
    } else {
      assert c.chData == Char(data[|control|]) && c.id == |control| + 1;
    }
  }
}
