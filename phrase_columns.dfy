/** The column encoding of a phrase (`parse2`, `get_ch`, `collapse_spaces` and
    `gather_token` in src/phrase.h). A control line of the form ". ..  ...." lies over a
    data line; each run of dots marks the columns of one token in the data line. */
module ColumnCodec {
  import opened Text
  import PS = ParseStatus

  /** A character read with `istream::get`, or the end of the stream (-1). */
  datatype Ch = Eof | Char(c: char)

  /** The two channels walked in lockstep: both lines, the read position in each, and
      the last character read from each (`ch_control`, `ch_data`). */
  datatype Channels = Channels(control: string, data: string, ic: nat, id: nat,
                               chControl: Ch, chData: Ch)

  predicate Valid(ch: Channels) {
    ch.ic <= |ch.control| && ch.id <= |ch.data|
  }

  /** Decreases with every `get_ch` that finds the control channel still open. */
  function Measure(ch: Channels): nat
    requires Valid(ch)
  {
    |ch.control| - ch.ic + (if ch.chControl == Eof then 0 else 1)
  }

  /** `get_ch`: reads one column of both channels. The data channel is read only while
      it has not ended; a '.' column whose data has run out reads as a space. */
  function GetCh(ch: Channels): (r: (bool, Channels))
    requires Valid(ch)
    ensures Valid(r.1) && r.1.control == ch.control && r.1.data == ch.data
    ensures r.0 <==> r.1.chControl != Eof
    ensures ch.chControl != Eof ==> Measure(r.1) < Measure(ch)
    ensures ch.chControl == Eof ==> r == (false, ch)
    ensures r.1.chControl == Char('.') ==> r.1.chData.Char?
    ensures ch.chControl != Eof && ch.ic < |ch.control| ==>
              r.1.ic == ch.ic + 1 && r.1.chControl == Char(ch.control[ch.ic])
    ensures ch.chControl != Eof && ch.ic == |ch.control| ==> r.1.ic == ch.ic && r.1.chControl == Eof
  {
    if ch.chControl == Eof then (false, ch)
    else
      var more := ch.ic < |ch.control|;
      var c := if more then Char(ch.control[ch.ic]) else Eof;
      var dataOpen := ch.chData != Eof && ch.id < |ch.data|;
      var d := if dataOpen then Char(ch.data[ch.id]) else Eof;
      (c != Eof,
       ch.(ic := if more then ch.ic + 1 else ch.ic,
           id := if dataOpen then ch.id + 1 else ch.id,
           chControl := c,
           chData := if c == Char('.') && d == Eof then Char(' ') else d))
  }

  /** The data channel of `get_ch` gives the next data character while the data line
      lasts; once it has ended it gives nothing, except a space under a '.' column. */
  lemma GetChData(ch: Channels)
    requires Valid(ch) && ch.chControl != Eof
    ensures var r := GetCh(ch);
      ch.chData != Eof && ch.id < |ch.data| ==>
        r.1.id == ch.id + 1 && r.1.chData == Char(ch.data[ch.id])
    ensures var r := GetCh(ch);
      ch.chData == Eof || ch.id == |ch.data| ==>
        r.1.id == ch.id && r.1.chData == (if r.1.chControl == Char('.') then Char(' ') else Eof)
  {
  }

  /** `collapse_spaces`: steps over a run of space columns. */
  function Collapse(ch: Channels): (r: (bool, Channels))
    requires Valid(ch) && ch.chControl == Char(' ')
    ensures Valid(r.1) && r.1.control == ch.control && r.1.data == ch.data
    ensures Measure(r.1) < Measure(ch)
    ensures r.0 <==> r.1.chControl != Eof
    ensures r.1.chControl != Char(' ')
    ensures r.1.chControl == Char('.') ==> r.1.chData.Char?
    decreases Measure(ch)
  {
    var g := GetCh(ch);
    if g.0 && g.1.chControl == Char(' ') then Collapse(g.1) else g
  }

  /** `gather_token`: appends the data under a run of dot columns to `token`. */
  function Gather(ch: Channels, token: string): (r: (bool, Channels, string))
    requires Valid(ch) && ch.chControl == Char('.') && ch.chData.Char?
    ensures Valid(r.1) && r.1.control == ch.control && r.1.data == ch.data
    ensures Measure(r.1) < Measure(ch)
    ensures r.0 <==> r.1.chControl != Eof
    ensures r.1.chControl != Char('.')
    decreases Measure(ch)
  {
    var t := token + [ch.chData.c];
    var g := GetCh(ch);
    if !g.0 then (false, g.1, t)
    else if g.1.chControl == Char('.') then Gather(g.1, t)
    else (true, g.1, t)
  }

  /** `gather_token` keeps the token it is given in front and appends at least one
      character. */
  lemma {:induction false} GatherAppends(ch: Channels, token: string)
    requires Valid(ch) && ch.chControl == Char('.') && ch.chData.Char?
    ensures var r := Gather(ch, token); |r.2| > |token| && r.2[..|token|] == token
    decreases Measure(ch)
  {
    var t := token + [ch.chData.c];
    var g := GetCh(ch);
    if g.0 && g.1.chControl == Char('.') {
      GatherAppends(g.1, t);
      var r := Gather(g.1, t);
      assert r.2[..|token|] == r.2[..|t|][..|token|];
    }
  }

  /** How the token loop of `parse2` ends: by a `break`, with the channels, the tokens
      and whether the control line ended inside a dot run (`found_tok`); or on a
      control character other than '.' and ' '. */
  datatype LoopEnd = Broke(ch: Channels, tokens: seq<string>, foundTok: bool)
                   | Bad(tokens: seq<string>)

  /** The token loop of `parse2`, from channels `ch` with `tokens` pushed so far. */
  function Loop(ch: Channels, tokens: seq<string>): (r: LoopEnd)
    requires Valid(ch)
    ensures r.Broke? ==> Valid(r.ch) && r.ch.control == ch.control && r.ch.data == ch.data
    ensures |tokens| <= |r.tokens| && r.tokens[..|tokens|] == tokens
    ensures r.Broke? ==> r.ch.chControl == Eof
    decreases Measure(ch)
  {
    var g1 := GetCh(ch);
    if !g1.0 then Broke(g1.1, tokens, false)
    else
      var g2 := if g1.1.chControl == Char(' ') then Collapse(g1.1) else g1;
      if !g2.0 then Broke(g2.1, tokens, false)
      else if g2.1.chControl == Char('.') then
        var g3 := Gather(g2.1, "");
        if !g3.0 then Broke(g3.1, tokens + [g3.2], true)
        else if g3.1.chControl == Char(' ') then Loop(g3.1, tokens + [g3.2])
        else Bad(tokens + [g3.2])
      else
        // the column is neither '.' nor ' ': an empty token is pushed, then the error
        Bad(tokens + [""])
  }

  /** The decoded phrase pieces and the status of `parse2`. */
  datatype Columns = Columns(tokens: seq<string>, comment: string, status: PS.Status)

  /** The first position at or after `p` that does not hold a space. */
  function SkipBlanks(s: string, p: nat): (q: nat)
    requires p <= |s|
    ensures p <= q <= |s|
    ensures forall i :: p <= i < q ==> s[i] == ' '
    ensures q < |s| ==> s[q] != ' '
    decreases |s| - p
  {
    if p == |s| || s[p] != ' ' then p else SkipBlanks(s, p + 1)
  }

  /** The trailing-data check as written: `while ((ch_data = idata.get()) == ' ');`
      reads on from position `id`, so the character already held in `ch_data` (the
      one under the first column past the control line) is never examined. */
  function TrailingAsWritten(cur: char, data: string, id: nat): Option<string>
    requires id <= |data|
  {
    var q := SkipBlanks(data, id);
    if q < |data| && data[q] == ';' then Some(data[q..]) else None
  }

  /** The trailing-data check corrected: the examination starts with the character
      already read, so every data character past the control line is either a space
      before the comment or part of the comment. */
  function Trailing(cur: char, data: string, id: nat): (r: Option<string>)
    requires id <= |data|
    ensures r.Some? ==> |r.value| > 0 && r.value[0] == ';'
    ensures r.Some? ==> exists k :: 0 <= k <= |data| - id &&
                          [cur] + data[id..] == Repeat(' ', k) + r.value
  {
    if cur == ';' then
      assert [cur] + data[id..] == Repeat(' ', 0) + ([';'] + data[id..]);
      Some([';'] + data[id..])
    else if cur == ' ' then
      var q := SkipBlanks(data, id);
      if q < |data| && data[q] == ';' then
        assert [cur] + data[id..] == Repeat(' ', q - id + 1) + data[q..] by {
          assert data[id..] == data[id..q] + data[q..];
          assert data[id..q] == Repeat(' ', q - id);
        }
        Some(data[q..])
      else None
    else None
  }

  /** A space ahead of the comment may be consumed one character at a time. */
  lemma TrailingStep(data: string, id: nat)
    requires id < |data|
    ensures Trailing(' ', data, id) == Trailing(data[id], data, id + 1)
  {
    if data[id] == ';' {
      assert data[id..] == [';'] + data[id + 1..];
    }
  }

  /** `n` copies of `c`: the runs of spaces and of dots in the column encoding. */
  function Repeat(c: char, n: nat): (r: string)
    ensures |r| == n && forall i :: 0 <= i < n ==> r[i] == c
  {
    if n == 0 then "" else Repeat(c, n - 1) + [c]
  }

  /** The channels as `parse2` finds them: both lines unread and the two character
      variables not yet assigned; they are taken to hold some character, not -1. */
  function Initial(control: string, data: string): Channels {
    Channels(control, data, 0, 0, Char('\0'), Char('\0'))
  }

  /** `parse2`, with the trailing-data check as written or corrected. */
  function Decode(control: string, data: string, corrected: bool): (r: Columns)
    ensures r.status.value in {PS.Found, PS.NotFound, PS.Malformed}
  {
    var g1 := GetCh(Initial(control, data));
    if !g1.0 || g1.1.chControl != Char('.') then Columns([], "", PS.Status(PS.Malformed))
    else
      var g2 := GetCh(g1.1);
      if !g2.0 || g2.1.chControl != Char(' ') then Columns([], "", PS.Status(PS.Malformed))
      else
        match Loop(g2.1, [])
        case Bad(tokens) => Columns(tokens, "", PS.Status(PS.Malformed))
        case Broke(c, tokens, foundTok) =>
          var status := PS.Status(if foundTok then PS.Found else PS.NotFound);
          if c.chData == Eof then Columns(tokens, "", status)
          else
            var trailing := if corrected then Trailing(c.chData.c, data, c.id)
                            else TrailingAsWritten(c.chData.c, data, c.id);
            match trailing
            case None => Columns(tokens, "", PS.Status(PS.Malformed))
            case Some(comment) => Columns(tokens, comment, status)
  }

  /** `parse2` as written. */
  function Parse2AsWritten(control: string, data: string): Columns {
    Decode(control, data, false)
  }

  /** `parse2` with the trailing-data check corrected. */
  function Parse2(control: string, data: string): Columns {
    Decode(control, data, true)
  }

  // ---------------------------------------------------------------------------
  // The imperative routines
  // ---------------------------------------------------------------------------

  /** `collapse_spaces` */
  method CollapseSpaces(ch: Channels) returns (ok: bool, out: Channels)
    requires Valid(ch) && ch.chControl == Char(' ')
    ensures (ok, out) == Collapse(ch)
  {
    out := ch;
    ok := false;
    while out.chControl == Char(' ')
      invariant Valid(out)
      invariant out.chControl == Char(' ') ==> Collapse(out) == Collapse(ch)
      invariant out.chControl != Char(' ') ==> (ok, out) == Collapse(ch)
      decreases Measure(out)
    {
      ok, out := GetCh(out).0, GetCh(out).1;
      if !ok {
        break;
      }
    }
  }

  /** `gather_token` */
  method GatherToken(ch: Channels, token: string) returns (ok: bool, out: Channels, tok: string)
    requires Valid(ch) && ch.chControl == Char('.') && ch.chData.Char?
    ensures (ok, out, tok) == Gather(ch, token)
  {
    ok, out, tok := true, ch, token;
    while out.chControl == Char('.')
      invariant Valid(out)
      invariant out.chControl == Char('.') ==> out.chData.Char? && Gather(out, tok) == Gather(ch, token)
      invariant out.chControl != Char('.') ==> (ok, out, tok) == Gather(ch, token)
      decreases Measure(out)
    {
      tok := tok + [out.chData.c];
      ok, out := GetCh(out).0, GetCh(out).1;
      if !ok {
        break;
      }
    }
  }

  /** The token loop of `parse2`. */
  method TokenLoop(start: Channels) returns (r: LoopEnd)
    requires Valid(start)
    ensures r == Loop(start, [])
  {
    var ch := start;
    var tokens: seq<string> := [];
    while true
      invariant Valid(ch) && ch.control == start.control && ch.data == start.data
      invariant Loop(ch, tokens) == Loop(start, [])
      decreases Measure(ch)
    {
      var ok;
      ok, ch := GetCh(ch).0, GetCh(ch).1;
      if !ok {
        return Broke(ch, tokens, false);
      }
      if ch.chControl == Char(' ') {
        ok, ch := CollapseSpaces(ch);
        if !ok {
          return Broke(ch, tokens, false);
        }
      }
      var token := "";
      if ch.chControl == Char('.') {
        ok, ch, token := GatherToken(ch, token);
        if !ok {
          return Broke(ch, tokens + [token], true);
        }
      }
      tokens := tokens + [token];
      if ch.chControl != Char(' ') {
        return Bad(tokens);
      }
    }
  }

  /** The check on the data past the control line, corrected: spaces, then either
      the end of the line or a comment. */
  method TrailingCheck(cur: char, data: string, id: nat) returns (r: Option<string>)
    requires id <= |data|
    ensures r == Trailing(cur, data, id)
  {
    var c := cur;
    var i := id;
    while c == ' ' && i < |data|
      invariant id <= i <= |data|
      invariant Trailing(cur, data, id) == Trailing(c, data, i)
      decreases |data| - i
    {
      TrailingStep(data, i);
      c := data[i];
      i := i + 1;
    }
    if c == ';' {
      r := Some([';'] + data[i..]);
    } else {
      r := None;
    }
  }

  /** `parse2`, with the trailing-data check corrected. */
  method Parse2Method(control: string, data: string) returns (r: Columns)
    ensures r == Parse2(control, data)
  {
    var ok, ch := GetCh(Initial(control, data)).0, GetCh(Initial(control, data)).1;
    if !ok || ch.chControl != Char('.') {
      return Columns([], "", PS.Status(PS.Malformed));
    }
    ok, ch := GetCh(ch).0, GetCh(ch).1;
    if !ok || ch.chControl != Char(' ') {
      return Columns([], "", PS.Status(PS.Malformed));
    }
    var end := TokenLoop(ch);
    if end.Bad? {
      return Columns(end.tokens, "", PS.Status(PS.Malformed));
    }
    var status := PS.Status(if end.foundTok then PS.Found else PS.NotFound);
    if end.ch.chData == Eof {
      return Columns(end.tokens, "", status);
    }
    var comment := TrailingCheck(end.ch.chData.c, data, end.ch.id);
    if comment.None? {
      return Columns(end.tokens, "", PS.Status(PS.Malformed));
    }
    r := Columns(end.tokens, comment.value, status);
  }
}
