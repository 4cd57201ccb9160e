/** The taxonomy file read back: what `node_set::print` and `nodes_map::print` write,
    `node_set::parse` and `nodes_map::parse` read as the same node sets, so that a
    taxonomy printed, parsed and printed again comes out as it went in.

    The proofs go in two stages. The first turns "this text is printed at `pos`" into
    what the readers see line by line (`LineAt`, `SourcesAt`, `OthersAt`, `NodeSetAt`):
    where each line starts, where each empty line stands, and what `getphraseline` and
    `phrase::parse` return there. The second follows the parse loops over those lines,
    one node set at a time, in ascending key order. */
module TaxonomyRoundTrip {
  import opened Text
  import PS = ParseStatus
  import opened Phrase
  import opened PhraseProofs
  import opened Directory
  import Files
  import opened KeyOrder
  import opened Taxonomy
  import opened TaxonomyProofs

  /** A node set that `print` writes so that `parse` reads it back whole: its records
      sorted, as the set holds them, with paths that print as tokens; its other phrases
      encodable and starting with neither the `node` nor the `source` keyword. */
  predicate Printable(ns: NodeSet) {
    Sorted(ns.sources)
    && (forall r :: r in ns.sources ==> EncodableToken(r.pathname))
    && (forall ph :: ph in ns.others ==> Encodable(ph) && ph.tokens[0] != "node" && ph.tokens[0] != "source")
  }

  /** Every node set of a map is printable. */
  predicate AllPrintable(m: map<nat, NodeSet>) {
    forall k :: k in m ==> Printable(m[k])
  }

  // ---------------------------------------------------------------------------
  // Printed text, character by character
  // ---------------------------------------------------------------------------

  /** The text `s` stands in `text` at `pos`. */
  predicate At(text: string, pos: nat, s: string) {
    pos + |s| <= |text| && text[pos..pos + |s|] == s
  }

  /** Text standing at `pos` as `a + b` has `a` at `pos` and `b` at `q`, just after. */
  lemma AtSplit(text: string, pos: nat, whole: string, a: string, b: string, q: nat)
    requires At(text, pos, whole) && whole == a + b && q == pos + |a|
    ensures At(text, pos, a) && At(text, q, b)
  {
    var w := text[pos..pos + |whole|];
    assert text[pos..pos + |a|] == w[..|a|];
    assert text[q..q + |b|] == w[|a|..];
  }

  /** A line standing at `pos` with its newline, and the text after it: the line, the
      newline at `r`, and the rest just after it. */
  lemma AtLine(text: string, pos: nat, line: string, rest: string, r: nat)
    requires At(text, pos, line + "\n" + rest) && r == pos + |line|
    ensures At(text, pos, line) && r < |text| && text[r] == '\n' && At(text, r + 1, rest)
  {
    AtSplit(text, pos, line + "\n" + rest, line + "\n", rest, r + 1);
    AtSplit(text, pos, line + "\n", line, "\n", r);
    AtChar(text, r, "\n");
  }

  /** A line standing, with its newline at `r`, after `a` in text standing at `pos`. */
  lemma AtPiece(text: string, pos: nat, whole: string, a: string, line: string, rest: string, q: nat, r: nat)
    requires At(text, pos, whole) && whole == a + (line + "\n" + rest) && q == pos + |a| && r == q + |line|
    ensures At(text, q, line) && r < |text| && text[r] == '\n'
  {
    AtSplit(text, pos, whole, a, line + "\n" + rest, q);
    AtLine(text, q, line, rest, r);
  }

  lemma AtChar(text: string, pos: nat, s: string)
    requires At(text, pos, s) && |s| == 1
    ensures pos < |text| && text[pos] == s[0]
  {
    assert text[pos] == text[pos..pos + 1][0];
  }

  lemma AtWhole(text: string)
    ensures At(text, 0, text)
  {
    assert text[0..|text|] == text;
  }

  // ---------------------------------------------------------------------------
  // Printed text, line by line
  // ---------------------------------------------------------------------------

  /** The phrase `ph` is printed at `pos` as the reader sees it: `getphraseline` returns
      its line and the position `next` after the newline, and `phrase::parse` gives
      `ph` back. */
  predicate LineAt(text: string, pos: nat, ph: Phrase, next: nat) {
    |ph.tokens| > 0 && pos < next <= |text|
    && GetPhraseLine(text, pos, 0) == PhraseLine(PS.Status(PS.Found), Line(ph), "", next, 1, false)
    && Parse(Line(ph), "", Empty) == Parsed(PS.Status(PS.Found), ph)
  }

  /** The records `rs` are printed as source lines, the `i`-th from `ps[i]` to
      `ps[i + 1]`, each reading back as its record. */
  predicate SourceLineAt(text: string, rs: seq<FileRecord>, ps: seq<nat>, i: nat)
    requires i < |rs| && |ps| == |rs| + 1
  {
    var ph := RecordPhrase("source", rs[i]);
    LineAt(text, ps[i], ph, ps[i + 1])
    && ParseFields(FileRecord("", 0), Phrase(ph.tokens[1..], "")) == RecordParse(PS.Status(PS.Found), rs[i], Empty)
  }

  predicate SourcesAt(text: string, rs: seq<FileRecord>, ps: seq<nat>) {
    |ps| == |rs| + 1 && ps[|rs|] <= |text| && forall i | 0 <= i < |rs| :: SourceLineAt(text, rs, ps, i)
  }

  /** The phrases `os` are printed as lines, the `i`-th from `ps[i]`, each followed by
      an empty line, at `bs[i]`, just before `ps[i + 1]`; none is a node or a source
      phrase. */
  predicate OtherLineAt(text: string, os: seq<Phrase>, ps: seq<nat>, bs: seq<nat>, i: nat)
    requires i < |os| && |ps| == |os| + 1 && |bs| == |os|
  {
    bs[i] < |text| && text[bs[i]] == '\n' && ps[i + 1] == bs[i] + 1
    && LineAt(text, ps[i], os[i], bs[i])
    && os[i].tokens[0] != "node" && os[i].tokens[0] != "source"
  }

  predicate OthersAt(text: string, os: seq<Phrase>, ps: seq<nat>, bs: seq<nat>) {
    |ps| == |os| + 1 && |bs| == |os| && ps[|os|] <= |text|
    && forall i | 0 <= i < |os| :: OtherLineAt(text, os, ps, bs, i)
  }

  /** The node set `ns` is printed from `pos`: its node line up to `sps[0]`, its source
      lines at `sps`, its other phrases at `ops` with their empty lines at `obs`. */
  predicate NodeSetLaidOut(text: string, pos: nat, ns: NodeSet, sps: seq<nat>, ops: seq<nat>, obs: seq<nat>) {
    LineAt(text, pos, NodePhrase(ns), if sps == [] then 0 else sps[0])
    && SourcesAt(text, ns.sources, sps) && OthersAt(text, ns.others, ops, obs)
    && ops[0] == sps[|ns.sources|]
  }

  /** The node set `ns` is printed from `pos` to `end`. */
  ghost predicate NodeSetAt(text: string, pos: nat, ns: NodeSet, end: nat) {
    exists sps: seq<nat>, ops: seq<nat>, obs: seq<nat> ::
      NodeSetLaidOut(text, pos, ns, sps, ops, obs) && ops[|ns.others|] == end
  }

  // ---------------------------------------------------------------------------
  // Where the lines of a printed list start
  // ---------------------------------------------------------------------------

  lemma {:induction false} ListTextAppend(a: seq<FileRecord>, b: seq<FileRecord>, head: string)
    ensures ListText(a + b, head) == ListText(a, head) + ListText(b, head)
    decreases |a|
  {
    if a == [] {
      assert a + b == b;
    } else {
      assert (a + b)[1..] == a[1..] + b;
      ListTextAppend(a[1..], b, head);
    }
  }

  lemma {:induction false} OthersTextAppend(a: seq<Phrase>, b: seq<Phrase>)
    ensures OthersText(a + b) == OthersText(a) + OthersText(b)
    decreases |a|
  {
    if a == [] {
      assert a + b == b;
    } else {
      assert (a + b)[1..] == a[1..] + b;
      OthersTextAppend(a[1..], b);
    }
  }

  /** The start of each source line of `rs` printed from `pos`, and the end of the last. */
  function SourcePositions(pos: nat, rs: seq<FileRecord>): (ps: seq<nat>)
    ensures |ps| == |rs| + 1
  {
    seq(|rs| + 1, j requires 0 <= j <= |rs| => pos + |ListText(rs[..j], "source")|)
  }

  /** The start of each other phrase of `os` printed from `pos`, and the end of the
      empty line after the last. */
  function OtherPositions(pos: nat, os: seq<Phrase>): (ps: seq<nat>)
    ensures |ps| == |os| + 1
  {
    seq(|os| + 1, j requires 0 <= j <= |os| => pos + |OthersText(os[..j])|)
  }

  /** Where the empty line after each phrase of a printed list stands, from `pos`. */
  function OtherBlanks(pos: nat, os: seq<Phrase>): (bs: seq<nat>)
    ensures |bs| == |os|
  {
    seq(|os|, j requires 0 <= j < |os| => pos + |OthersText(os[..j])| + |PhraseText(os[j])|)
  }

  lemma SourcePositionsNext(pos: nat, rs: seq<FileRecord>, i: nat)
    requires i < |rs|
    ensures SourcePositions(pos, rs)[i + 1] == SourcePositions(pos, rs)[i] + |PhraseText(RecordPhrase("source", rs[i]))|
  {
    assert rs[..i + 1] == rs[..i] + [rs[i]];
    ListTextAppend(rs[..i], [rs[i]], "source");
    assert [rs[i]][1..] == [];
  }

  lemma SourcePositionsEnds(pos: nat, rs: seq<FileRecord>)
    ensures SourcePositions(pos, rs)[0] == pos
    ensures SourcePositions(pos, rs)[|rs|] == pos + |ListText(rs, "source")|
  {
    assert rs[..0] == [];
    assert rs[..|rs|] == rs;
  }

  lemma OtherPositionsNext(pos: nat, os: seq<Phrase>, i: nat)
    requires i < |os|
    ensures OtherPositions(pos, os)[i + 1] == OtherPositions(pos, os)[i] + |PhraseText(os[i])| + 1
  {
    assert os[..i + 1] == os[..i] + [os[i]];
    OthersTextAppend(os[..i], [os[i]]);
    assert [os[i]][1..] == [];
  }

  lemma OtherPositionsEnds(pos: nat, os: seq<Phrase>)
    ensures OtherPositions(pos, os)[0] == pos
    ensures OtherPositions(pos, os)[|os|] == pos + |OthersText(os)|
  {
    assert os[..0] == [];
    assert os[..|os|] == os;
  }

  // ---------------------------------------------------------------------------
  // From characters to lines
  // ---------------------------------------------------------------------------

  /** A printed phrase is read by `getphraseline` and `phrase::parse` as itself. */
  lemma PrintedLineAt(text: string, pos: nat, ph: Phrase, next: nat)
    requires Encodable(ph) && At(text, pos, PhraseText(ph)) && next == pos + |PhraseText(ph)|
    ensures LineAt(text, pos, ph, next)
  {
    ReadPrintedLine(text, pos, 0, ph);
    Parse1RoundTrip(ph);
  }

  /** The node phrase of every node set is one `parse1` reads back. */
  lemma NodePhraseEncodable(ns: NodeSet)
    ensures Encodable(NodePhrase(ns))
  {
    var ts := NodePhrase(ns).tokens;
    var digits := NatToString(ns.node);
    assert forall i :: 0 <= i < |digits| ==> IsDigit(digits[i]);
    TimeIsEncodable(ns.mtime);
    var hex := Files.HexText(ns.signature);
    Files.HexTextLength(ns.signature);
    forall i | 0 <= i < |hex| ensures hex[i] != '\n' && hex[i] != '\0' {
      Files.HexTextIsHex(ns.signature, i);
    }
    assert AllEncodable(ts[3..]) by { assert ts[3..][1..] == []; }
    assert AllEncodable(ts[2..]) by { assert ts[2..][1..] == ts[3..]; }
    assert AllEncodable(ts[1..]) by { assert ts[1..][1..] == ts[2..]; }
  }

  /** The `source` keyword prints as a bare token. */
  lemma SourceKeywordEncodable()
    ensures EncodableToken("source")
  {
    var k := "source";
    assert forall i :: 0 <= i < |k| ==> k[i] in "ceorsu";
  }

  /** A printed record list around its `i`-th line. */
  lemma ListTextSplit(rs: seq<FileRecord>, head: string, i: nat)
    requires i < |rs|
    ensures ListText(rs, head)
            == ListText(rs[..i], head) + PhraseText(RecordPhrase(head, rs[i])) + ListText(rs[i + 1..], head)
  {
    assert rs == rs[..i] + rs[i..];
    ListTextAppend(rs[..i], rs[i..], head);
    ListTextAt(rs, head, i);
  }

  /** The text of the `i`-th record of a printed list stands where its line starts. */
  lemma SourceTextAt(text: string, pos: nat, rs: seq<FileRecord>, i: nat)
    requires i < |rs| && At(text, pos, ListText(rs, "source"))
    ensures At(text, SourcePositions(pos, rs)[i], PhraseText(RecordPhrase("source", rs[i])))
  {
    ListTextSplit(rs, "source", i);
    var a := ListText(rs[..i], "source");
    var b := PhraseText(RecordPhrase("source", rs[i]));
    var p := SourcePositions(pos, rs)[i];
    AtSplit(text, pos, ListText(rs, "source"), a + b, ListText(rs[i + 1..], "source"), p + |b|);
    AtSplit(text, pos, a + b, a, b, p);
  }

  lemma PrintedSourceLineAt(text: string, pos: nat, rs: seq<FileRecord>, i: nat)
    requires i < |rs| && At(text, pos, ListText(rs, "source")) && EncodableToken(rs[i].pathname)
    ensures SourceLineAt(text, rs, SourcePositions(pos, rs), i)
  {
    var ps := SourcePositions(pos, rs);
    SourceTextAt(text, pos, rs, i);
    SourceKeywordEncodable();
    RecordLineReadsBack("source", rs[i], FileRecord("", 0));
    SourcePositionsNext(pos, rs, i);
    PrintedLineAt(text, ps[i], RecordPhrase("source", rs[i]), ps[i + 1]);
  }

  lemma PrintedSourcesAt(text: string, pos: nat, rs: seq<FileRecord>)
    requires At(text, pos, ListText(rs, "source")) && forall r :: r in rs ==> EncodableToken(r.pathname)
    ensures SourcesAt(text, rs, SourcePositions(pos, rs))
    ensures SourcePositions(pos, rs)[0] == pos
    ensures SourcePositions(pos, rs)[|rs|] == pos + |ListText(rs, "source")|
  {
    forall i | 0 <= i < |rs| ensures SourceLineAt(text, rs, SourcePositions(pos, rs), i) {
      PrintedSourceLineAt(text, pos, rs, i);
    }
    SourcePositionsEnds(pos, rs);
  }

  /** A printed phrase list around its `i`-th phrase. */
  lemma OthersTextSplit(os: seq<Phrase>, i: nat)
    requires i < |os|
    ensures OthersText(os) == OthersText(os[..i]) + (PhraseText(os[i]) + "\n" + OthersText(os[i + 1..]))
  {
    assert os == os[..i] + os[i..];
    OthersTextAppend(os[..i], os[i..]);
    OthersTextAt(os, i);
  }

  /** The text of the `i`-th phrase of a printed list stands where its line starts, at
      `q`, and the newline after it at `r`. */
  lemma OtherTextAt(text: string, pos: nat, os: seq<Phrase>, i: nat, q: nat, r: nat)
    requires i < |os| && At(text, pos, OthersText(os))
    requires q == pos + |OthersText(os[..i])| && r == q + |PhraseText(os[i])|
    ensures At(text, q, PhraseText(os[i]))
    ensures r < |text| && text[r] == '\n'
  {
    OthersTextSplit(os, i);
    AtPiece(text, pos, OthersText(os), OthersText(os[..i]), PhraseText(os[i]), OthersText(os[i + 1..]), q, r);
  }

  lemma PrintedOtherLineAt(text: string, pos: nat, os: seq<Phrase>, i: nat, ps: seq<nat>, bs: seq<nat>)
    requires i < |os| && At(text, pos, OthersText(os)) && ps == OtherPositions(pos, os) && bs == OtherBlanks(pos, os)
    requires Encodable(os[i]) && os[i].tokens[0] != "node" && os[i].tokens[0] != "source"
    ensures OtherLineAt(text, os, ps, bs, i)
  {
    var q, r := ps[i], bs[i];
    OtherPositionsNext(pos, os, i);
    OtherTextAt(text, pos, os, i, q, r);
    PrintedLineAt(text, q, os[i], r);
  }

  lemma PrintedOthersAt(text: string, pos: nat, os: seq<Phrase>)
    requires At(text, pos, OthersText(os))
    requires forall ph :: ph in os ==> Encodable(ph) && ph.tokens[0] != "node" && ph.tokens[0] != "source"
    ensures OthersAt(text, os, OtherPositions(pos, os), OtherBlanks(pos, os))
    ensures OtherPositions(pos, os)[0] == pos
    ensures OtherPositions(pos, os)[|os|] == pos + |OthersText(os)|
  {
    forall i | 0 <= i < |os| ensures OtherLineAt(text, os, OtherPositions(pos, os), OtherBlanks(pos, os), i) {
      PrintedOtherLineAt(text, pos, os, i, OtherPositions(pos, os), OtherBlanks(pos, os));
    }
    OtherPositionsEnds(pos, os);
  }

  lemma PrintedNodeSetAt(text: string, pos: nat, ns: NodeSet)
    requires Printable(ns) && At(text, pos, NodeSetText(ns))
    ensures NodeSetAt(text, pos, ns, pos + |NodeSetText(ns)|)
  {
    var head := PhraseText(NodePhrase(ns));
    var sources := ListText(ns.sources, "source");
    var p := pos + |head|;
    var q := p + |sources|;
    AtSplit(text, pos, NodeSetText(ns), head + sources, OthersText(ns.others), q);
    AtSplit(text, pos, head + sources, head, sources, p);
    NodePhraseEncodable(ns);
    PrintedLineAt(text, pos, NodePhrase(ns), p);
    PrintedSourcesAt(text, p, ns.sources);
    PrintedOthersAt(text, q, ns.others);
    var sps := SourcePositions(p, ns.sources);
    var ops, obs := OtherPositions(q, ns.others), OtherBlanks(q, ns.others);
    assert NodeSetLaidOut(text, pos, ns, sps, ops, obs) && ops[|ns.others|] == pos + |NodeSetText(ns)|;
  }

  /** The node sets after the first of a printed list stand after its empty line. */
  lemma EntriesRestAt(text: string, pos: nat, m: map<nat, NodeSet>, keys: set<nat>, end: nat)
    requires keys <= m.Keys && keys != {}
    requires At(text, pos, EntriesText(m, keys)) && pos + |EntriesText(m, keys)| == |text|
    requires end == pos + |NodeSetText(m[Least(keys)])|
    ensures At(text, end + 1, EntriesText(m, keys - {Least(keys)}))
    ensures end + 1 + |EntriesText(m, keys - {Least(keys)})| == |text|
  {
    AtLine(text, pos, NodeSetText(m[Least(keys)]), EntriesText(m, keys - {Least(keys)}), end);
  }

  /** The first node set of a printed list is laid out, followed by its empty line. */
  lemma EntriesHeadAt(text: string, pos: nat, m: map<nat, NodeSet>, keys: set<nat>, end: nat)
    requires keys <= m.Keys && keys != {} && AllPrintable(m)
    requires At(text, pos, EntriesText(m, keys)) && end == pos + |NodeSetText(m[Least(keys)])|
    ensures NodeSetAt(text, pos, m[Least(keys)], end) && end < |text| && text[end] == '\n'
  {
    var ns := m[Least(keys)];
    AtLine(text, pos, NodeSetText(ns), EntriesText(m, keys - {Least(keys)}), end);
    PrintedNodeSetAt(text, pos, ns);
  }

  /** What `node_set::print` writes is, line by line, the node set. */
  lemma NodeSetTextAt(ns: NodeSet)
    requires Printable(ns)
    ensures NodeSetAt(NodeSetText(ns), 0, ns, |NodeSetText(ns)|)
  {
    AtWhole(NodeSetText(ns));
    PrintedNodeSetAt(NodeSetText(ns), 0, ns);
  }

  // ---------------------------------------------------------------------------
  // node_set::parse over printed lines
  //
  // These lemmas take every position and node set they read at as a parameter, tied
  // to its value by a precondition, so that reads are related at equal arguments.
  // ---------------------------------------------------------------------------

  /** The fields of a printed node phrase read back as its number, time and
      signature, whatever the node set read into held before. */
  lemma NodeFieldsOfPrinted(ns: NodeSet, c: NodeSet, h: NodeSet)
    requires h == NodeSet(ns.node, ns.mtime, ns.signature, c.sources, c.others)
    ensures NodeFields(NodePhrase(ns).tokens, 1, c) == (true, h)
  {
    NatRoundTrip(ns.node);
    IntRoundTrip(ns.mtime);
    Files.ParseOfPrint(ns.signature, c.signature);
  }

  /** The node line of a printed node set reads back as its number, time and
      signature, whatever the signature buffer held. */
  lemma HeadOfPrinted(text: string, pos: nat, ns: NodeSet, sig: Files.Digest, c: NodeSet, p: nat, h: NodeSet)
    requires LineAt(text, pos, NodePhrase(ns), p) && c == Cleared(sig)
    requires h == NodeSet(ns.node, ns.mtime, ns.signature, [], [])
    ensures Head(text, pos, c) == Read(PS.Status(PS.Found), h, p, false)
  {
    assert NodeFields(NodePhrase(ns).tokens, 1, c) == (true, h) by {
      NodeFieldsOfPrinted(ns, c, h);
    }
  }

  /** One turn of the body loop over a line that parses to a phrase other than a node
      or source phrase. */
  lemma BodyKeepsPhrase(text: string, pos: nat, sp: nat, ns: NodeSet)
    requires sp <= pos <= |text| && Sorted(ns.sources)
    requires GetPhraseLine(text, pos, 0).status.value == PS.Found
    requires Parse(GetPhraseLine(text, pos, 0).control, GetPhraseLine(text, pos, 0).data, Empty).status.value == PS.Found
    requires var ph := Parse(GetPhraseLine(text, pos, 0).control, GetPhraseLine(text, pos, 0).data, Empty).phrase;
             ph.tokens[0] != "node" && ph.tokens[0] != "source"
    ensures var pl := GetPhraseLine(text, pos, 0);
            var ph := Parse(pl.control, pl.data, Empty).phrase;
            Body(text, pos, sp, ns) == Body(text, pl.next, pl.next, ns.(others := ns.others + [ph]))
  {
  }

  /** One turn of the body loop over a line that parses to a source phrase whose
      fields read as a record. */
  lemma BodyAddsRecord(text: string, pos: nat, sp: nat, ns: NodeSet)
    requires sp <= pos <= |text| && Sorted(ns.sources)
    requires GetPhraseLine(text, pos, 0).status.value == PS.Found
    requires Parse(GetPhraseLine(text, pos, 0).control, GetPhraseLine(text, pos, 0).data, Empty).status.value == PS.Found
    requires var ph := Parse(GetPhraseLine(text, pos, 0).control, GetPhraseLine(text, pos, 0).data, Empty).phrase;
             ph.tokens[0] == "source" && ParseFields(FileRecord("", 0), Phrase(ph.tokens[1..], ph.comment)).status.value == PS.Found
    ensures var pl := GetPhraseLine(text, pos, 0);
            var ph := Parse(pl.control, pl.data, Empty).phrase;
            var rec := ParseFields(FileRecord("", 0), Phrase(ph.tokens[1..], ph.comment)).rec;
            Body(text, pos, sp, ns) == Body(text, pl.next, pl.next, ns.(sources := Insert(ns.sources, rec)))
  {
  }

  /** One turn of the body loop over a line that parses to a node phrase: the set ends
      and the stream goes back to the rewind point. */
  lemma BodyStopsAtNode(text: string, pos: nat, sp: nat, ns: NodeSet)
    requires sp <= pos <= |text| && Sorted(ns.sources)
    requires GetPhraseLine(text, pos, 0).status.value == PS.Found
    requires Parse(GetPhraseLine(text, pos, 0).control, GetPhraseLine(text, pos, 0).data, Empty).status.value == PS.Found
    requires Parse(GetPhraseLine(text, pos, 0).control, GetPhraseLine(text, pos, 0).data, Empty).phrase.tokens[0] == "node"
    ensures Body(text, pos, sp, ns) == Read(PS.Status(PS.Found), ns, sp, false)
  {
  }

  /** A source line whose record is above all the others appends it, and moves the
      rewind point past the line. */
  lemma RecordLineStep(text: string, pos: nat, sp: nat, ns: NodeSet, rec: FileRecord, e: nat, grown: NodeSet)
    requires sp <= pos && grown == ns.(sources := ns.sources + [rec]) && Sorted(grown.sources)
    requires LineAt(text, pos, RecordPhrase("source", rec), e)
    requires ParseFields(FileRecord("", 0), Phrase(RecordPhrase("source", rec).tokens[1..], ""))
             == RecordParse(PS.Status(PS.Found), rec, Empty)
    ensures Sorted(ns.sources)
    ensures Body(text, pos, sp, ns) == Body(text, e, e, grown)
  {
    InsertLast(ns.sources, rec);
    BodyAddsRecord(text, pos, sp, ns);
  }

  /** Any other phrase is kept, and the rewind point moves past its line. */
  lemma OtherLineStep(text: string, pos: nat, sp: nat, ns: NodeSet, ph: Phrase, e: nat, grown: NodeSet)
    requires sp <= pos && Sorted(ns.sources) && grown == ns.(others := ns.others + [ph])
    requires LineAt(text, pos, ph, e) && ph.tokens[0] != "node" && ph.tokens[0] != "source"
    ensures Body(text, pos, sp, ns) == Body(text, e, e, grown)
  {
    BodyKeepsPhrase(text, pos, sp, ns);
  }

  /** An empty line is passed over without moving the rewind point. */
  lemma BlankLineStep(text: string, pos: nat, sp: nat, ns: NodeSet, q: nat)
    requires sp <= pos < |text| && text[pos] == '\n' && q == pos + 1 && Sorted(ns.sources)
    ensures Body(text, pos, sp, ns) == Body(text, q, sp, ns)
  {
  }

  /** At the end of the text the node set is complete. */
  lemma EndStep(text: string, n: nat, sp: nat, ns: NodeSet)
    requires n == |text| && sp <= n && Sorted(ns.sources)
    ensures Body(text, n, sp, ns) == Read(PS.Status(PS.Found), ns, n, true)
  {
  }

  /** The node line of the next node set ends this one, and the stream goes back to the
      rewind point. */
  lemma NodeLineStep(text: string, pos: nat, sp: nat, ns: NodeSet, next: NodeSet, e: nat)
    requires sp <= pos && Sorted(ns.sources) && LineAt(text, pos, NodePhrase(next), e)
    ensures Body(text, pos, sp, ns) == Read(PS.Status(PS.Found), ns, sp, false)
  {
    BodyStopsAtNode(text, pos, sp, ns);
  }

  lemma SortedPrefix(s: seq<FileRecord>, n: nat)
    requires Sorted(s) && n <= |s|
    ensures Sorted(s[..n])
  {
  }

  /** Inserting a record above all the others appends it. */
  lemma {:induction false} InsertLast(s: seq<FileRecord>, x: FileRecord)
    requires Sorted(s + [x])
    ensures Sorted(s) && Insert(s, x) == s + [x]
    decreases |s|
  {
    SortedPrefix(s + [x], |s|);
    assert (s + [x])[..|s|] == s;
    if s != [] {
      assert Less(s[0], x) by { assert (s + [x])[0] == s[0] && (s + [x])[|s|] == x; }
      LessIsStrictTotalOrder(x, s[0], s[0]);
      assert (s + [x])[1..] == s[1..] + [x];
      InsertLast(s[1..], x);
      assert [s[0]] + (s[1..] + [x]) == s + [x];
    }
  }

  /** The first `i + 1` elements are the first `i` and the `i`-th. */
  lemma TakeNext<T>(s: seq<T>, i: nat)
    requires i < |s|
    ensures s[..i + 1] == s[..i] + [s[i]]
  {
  }

  /** Equal reads chain. */
  lemma BodyChain(text: string, pos: nat, sp: nat, p: nat, q: nat, e: nat, s: nat,
                  ns: NodeSet, ns1: NodeSet, ns2: NodeSet)
    requires sp <= pos <= |text| && q <= p <= |text| && s <= e <= |text|
    requires Sorted(ns.sources) && Sorted(ns1.sources) && Sorted(ns2.sources)
    requires Body(text, pos, sp, ns) == Body(text, p, q, ns1)
    requires Body(text, p, q, ns1) == Body(text, e, s, ns2)
    ensures Body(text, pos, sp, ns) == Body(text, e, s, ns2)
  {
  }

  /** The source lines of a node set, printed in set order at `ps`, give back the
      records in the same order: from the `i`-th on, the body adds the rest of them,
      and leaves the rewind point `s` after the last. */
  lemma {:induction false} BodyOverSources(text: string, rs: seq<FileRecord>, ps: seq<nat>, i: nat,
                                           pos: nat, sp: nat, ns: NodeSet, e: nat, s: nat, whole: NodeSet)
    requires SourcesAt(text, rs, ps) && Sorted(rs) && i <= |rs|
    requires pos == ps[i] && sp <= pos && ns.sources == rs[..i]
    requires e == ps[|rs|] && s == (if i == |rs| then sp else e)
    requires whole == ns.(sources := rs)
    ensures Sorted(ns.sources) && pos <= e <= |text|
    ensures Body(text, pos, sp, ns) == Body(text, e, s, whole)
    decreases |rs| - i
  {
    SortedPrefix(rs, i);
    if i == |rs| {
      assert rs[..i] == rs;
    } else {
      var p := ps[i + 1];
      var grown := ns.(sources := rs[..i + 1]);
      SourceLineStep(text, rs, ps, i, pos, sp, ns);
      BodyOverSources(text, rs, ps, i + 1, p, p, grown, e, e, whole);
      BodyChain(text, pos, sp, p, p, e, e, ns, grown, whole);
    }
  }

  /** The `i`-th source line, read by the body: its record is added, and the rewind
      point moves past it. */
  lemma SourceLineStep(text: string, rs: seq<FileRecord>, ps: seq<nat>, i: nat, pos: nat, sp: nat, ns: NodeSet)
    requires SourcesAt(text, rs, ps) && Sorted(rs) && i < |rs|
    requires pos == ps[i] && sp <= pos && ns.sources == rs[..i]
    ensures Sorted(ns.sources) && Sorted(rs[..i + 1]) && pos <= ps[i + 1] <= |text|
    ensures Body(text, pos, sp, ns) == Body(text, ps[i + 1], ps[i + 1], ns.(sources := rs[..i + 1]))
  {
    assert SourceLineAt(text, rs, ps, i);
    var p := ps[i + 1];
    var grown := ns.(sources := rs[..i + 1]);
    TakeNext(rs, i);
    SortedPrefix(rs, i + 1);
    RecordLineStep(text, pos, sp, ns, rs[i], p, grown);
  }

  /** The last of a list of laid-out phrases ends with an empty line, at `b`. */
  lemma OthersEnd(text: string, os: seq<Phrase>, ps: seq<nat>, bs: seq<nat>, k: nat, b: nat)
    requires OthersAt(text, os, ps, bs) && k + 1 == |os| && b == bs[k]
    ensures b < |text| && text[b] == '\n'
    ensures ps[k + 1] == b + 1
  {
    assert OtherLineAt(text, os, ps, bs, k);
  }

  /** The `i`-th of a list of laid-out phrases is kept, with the empty line after it
      passed over, and the rewind point left before that empty line. */
  lemma OtherLineThenBlank(text: string, os: seq<Phrase>, ps: seq<nat>, bs: seq<nat>, i: nat,
                           pos: nat, sp: nat, ns: NodeSet, grown: NodeSet)
    requires OthersAt(text, os, ps, bs) && i < |os| && pos == ps[i] && sp <= pos && Sorted(ns.sources)
    requires grown == ns.(others := ns.others + [os[i]])
    ensures pos <= bs[i] && ps[i + 1] == bs[i] + 1 && ps[i + 1] <= |text|
    ensures Body(text, pos, sp, ns) == Body(text, ps[i + 1], bs[i], grown)
  {
    assert OtherLineAt(text, os, ps, bs, i);
    var q := ps[i + 1];
    var p := bs[i];
    OtherLineStep(text, pos, sp, ns, os[i], p, grown);
    BlankLineStep(text, p, p, grown, q);
    BodyChain(text, pos, sp, p, p, q, p, ns, grown, grown);
  }

  /** The other phrases of a node set, printed at `ps` with an empty line after each,
      are kept in order: from the `i`-th on, the body adds the rest of them, and leaves
      the rewind point `s` before the last empty line. */
  lemma {:induction false} BodyOverOthers(text: string, os: seq<Phrase>, ps: seq<nat>, bs: seq<nat>, i: nat,
                                          pos: nat, sp: nat, ns: NodeSet, e: nat, s: nat, whole: NodeSet)
    requires OthersAt(text, os, ps, bs) && i <= |os|
    requires pos == ps[i] && sp <= pos && ns.others == os[..i] && Sorted(ns.sources)
    requires e == ps[|os|] && if i == |os| then s == sp else s == bs[|os| - 1] && s + 1 == e
    requires whole == ns.(others := os) && Sorted(whole.sources)
    ensures pos <= e <= |text|
    ensures Body(text, pos, sp, ns) == Body(text, e, s, whole)
    decreases |os| - i
  {
    if i == |os| {
      assert os[..i] == os;
      assert whole == ns && e == pos && s == sp;
    } else {
      var q, b := ps[i + 1], bs[i];
      var grown := ns.(others := os[..i + 1]);
      assert Sorted(grown.sources);
      TakeNext(os, i);
      OtherLineThenBlank(text, os, ps, bs, i, pos, sp, ns, grown);
      BodyOverOthers(text, os, ps, bs, i + 1, q, b, grown, e, s, whole);
      BodyChain(text, pos, sp, q, b, e, s, ns, grown, whole);
    }
  }

  /** A laid-out node set with other phrases ends with an empty line, at `b`. */
  lemma LaidOutEnd(text: string, pos: nat, ns: NodeSet, sps: seq<nat>, ops: seq<nat>, obs: seq<nat>, b: nat)
    requires NodeSetLaidOut(text, pos, ns, sps, ops, obs) && ns.others != [] && b == obs[|ns.others| - 1]
    ensures b < |text| && text[b] == '\n'
    ensures ops[|ns.others|] == b + 1
  {
    var k := |ns.others| - 1;
    OthersEnd(text, ns.others, ops, obs, k, b);
  }

  /** Reading a printed node set gives it back, with the stream at the end `e` of its
      text, and the rewind point `s` before its last empty line when it has other
      phrases. */
  lemma ReadPrintedBody(text: string, pos: nat, ns: NodeSet, sig: Files.Digest, c: NodeSet,
                        sps: seq<nat>, ops: seq<nat>, obs: seq<nat>, e: nat, s: nat)
    requires Sorted(ns.sources) && NodeSetLaidOut(text, pos, ns, sps, ops, obs) && c == Cleared(sig)
    requires e == ops[|ns.others|] && s == (if ns.others == [] then e else obs[|ns.others| - 1])
    ensures s <= e <= |text|
    ensures ReadNodeSet(text, pos, c) == Body(text, e, s, ns)
  {
    var p := sps[0];
    var h := NodeSet(ns.node, ns.mtime, ns.signature, [], []);
    HeadOfPrinted(text, pos, ns, sig, c, p, h);
    var q := sps[|ns.sources|];
    var listed := h.(sources := ns.sources);
    BodyOverSources(text, ns.sources, sps, 0, p, p, h, q, q, listed);
    if ns.others != [] {
      LaidOutEnd(text, pos, ns, sps, ops, obs, s);
    }
    BodyOverOthers(text, ns.others, ops, obs, 0, q, q, listed, e, s, ns);
    BodyChain(text, p, p, q, q, e, s, h, listed, ns);
  }

  // ---------------------------------------------------------------------------
  // node_set: print, then parse
  // ---------------------------------------------------------------------------

  /** A printed node set, alone in the file, reads back as itself, found, with the
      stream at the end of the file. */
  lemma NodeSetRoundTrip(ns: NodeSet, sig: Files.Digest)
    requires Printable(ns)
    ensures ReadNodeSet(NodeSetText(ns), 0, Cleared(sig))
            == Read(PS.Status(PS.Found), ns, |NodeSetText(ns)|, true)
  {
    var text := NodeSetText(ns);
    var e := |text|;
    NodeSetTextAt(ns);
    var sps, ops, obs :| NodeSetLaidOut(text, 0, ns, sps, ops, obs) && ops[|ns.others|] == e;
    var s := if ns.others == [] then e else obs[|ns.others| - 1];
    ReadPrintedBody(text, 0, ns, sig, Cleared(sig), sps, ops, obs, e, s);
    EndStep(text, e, s, ns);
  }

  // ---------------------------------------------------------------------------
  // nodes_map: print, then parse
  // ---------------------------------------------------------------------------

  /** An empty line between node sets is dropped without counting as a misparse. */
  lemma MapFromBlank(text: string, pos: nat, sig: Files.Digest, m: map<nat, NodeSet>, q: nat)
    requires pos < |text| && text[pos] == '\n' && q == pos + 1
    ensures MapFrom(text, pos, false, sig, m, 0, false) == MapFrom(text, q, false, sig, m, 0, false)
  {
    assert GetLine(text, pos) == Some(LineRead("", pos + 1, false));
    assert ReadNodeSet(text, pos, Cleared(sig)) == Read(PS.Status(PS.NullObject), Cleared(sig), pos + 1, false);
    assert Skipped(PS.Status(PS.NullObject));
  }

  /** A node set found by the `nodes_map::parse` loop, under a number not yet in the
      map, is added to it, and the loop goes on from where the read left the stream. */
  lemma MapFromFound(text: string, pos: nat, sig: Files.Digest, m: map<nat, NodeSet>, c: NodeSet,
                     ns: NodeSet, p: nat, eof: bool, sig': Files.Digest, m': map<nat, NodeSet>)
    requires pos <= |text| && c == Cleared(sig)
    requires ReadNodeSet(text, pos, c) == Read(PS.Status(PS.Found), ns, p, eof)
    requires ns.node !in m && m' == m[ns.node := ns] && sig' == ns.signature
    ensures MapFrom(text, pos, false, sig, m, 0, false) == MapFrom(text, p, eof, sig', m', 0, false)
  {
    MapFromStep(text, pos, sig, m, 0, ReadNodeSet(text, pos, c));
  }

  /** The node set after a printed one starts with its node line. */
  lemma NextNodeLine(text: string, n: nat, m: map<nat, NodeSet>, rest: set<nat>)
    requires rest <= m.Keys && rest != {} && AllPrintable(m) && At(text, n, EntriesText(m, rest))
    ensures exists x: nat :: LineAt(text, n, NodePhrase(m[Least(rest)]), x)
  {
    var ns := m[Least(rest)];
    EntriesHeadAt(text, n, m, rest, n + |NodeSetText(ns)|);
    var sps, ops, obs :| NodeSetLaidOut(text, n, ns, sps, ops, obs);
    assert LineAt(text, n, NodePhrase(ns), sps[0]);
  }

  /** One printed node set read by the `nodes_map::parse` loop: it is filed under its
      node number `k`, and the loop goes on after the empty line that follows it, at
      `n`, with the node set's signature in the buffer. */
  lemma MapFromPrinted(text: string, pos: nat, sig: Files.Digest, m: map<nat, NodeSet>, acc: map<nat, NodeSet>,
                       keys: set<nat>, k: nat, ns: NodeSet, e: nat, n: nat, sig': Files.Digest,
                       acc': map<nat, NodeSet>)
    requires keys <= m.Keys && k in keys && Indexed(m) && ns == m[k] && k !in acc && acc' == acc[k := ns]
    requires NodeSetAt(text, pos, ns, e) && e < |text| && text[e] == '\n' && n == e + 1 && sig' == ns.signature
    requires AllPrintable(m) && At(text, n, EntriesText(m, keys - {k})) && n + |EntriesText(m, keys - {k})| == |text|
    ensures n <= |text|
    ensures keys == {k} ==> MapFrom(text, pos, false, sig, acc, 0, false) == MapRead(PS.Status(PS.Found), acc')
    ensures keys != {k} ==> MapFrom(text, pos, false, sig, acc, 0, false) == MapFrom(text, n, false, sig', acc', 0, false)
  {
    var sps, ops, obs :| NodeSetLaidOut(text, pos, ns, sps, ops, obs) && ops[|ns.others|] == e;
    var s := if ns.others == [] then e else obs[|ns.others| - 1];
    if ns.others != [] {
      LaidOutEnd(text, pos, ns, sps, ops, obs, s);
    }
    var c := Cleared(sig);
    ReadPrintedBody(text, pos, ns, sig, c, sps, ops, obs, e, s);
    BlankLineStep(text, e, s, ns, n);
    var rest := keys - {k};
    if rest == {} {
      assert keys == {k};
      EndStep(text, n, s, ns);
      MapFromFound(text, pos, sig, acc, c, ns, n, true, sig', acc');
    } else {
      assert keys != {k};
      NextNodeLine(text, n, m, rest);
      var x: nat :| LineAt(text, n, NodePhrase(m[Least(rest)]), x);
      NodeLineStep(text, n, s, ns, m[Least(rest)], x);
      MapFromFound(text, pos, sig, acc, c, ns, s, false, sig', acc');
      if ns.others != [] {
        MapFromBlank(text, s, sig', acc', e);
      }
      MapFromBlank(text, e, sig', acc', n);
    }
  }

  /** `acc` with the entries of `m` under `keys` added. */
  function Added(acc: map<nat, NodeSet>, m: map<nat, NodeSet>, keys: set<nat>): (r: map<nat, NodeSet>)
    requires keys <= m.Keys
    ensures r.Keys == acc.Keys + keys
  {
    acc + map k | k in keys :: m[k]
  }

  /** Adding no entries leaves the map as it is. */
  lemma AddNothing(acc: map<nat, NodeSet>, m: map<nat, NodeSet>, keys: set<nat>)
    requires keys == {} && keys <= m.Keys
    ensures Added(acc, m, keys) == acc
  {
  }

  /** Adding the first key's entry, then the rest, is adding them all. */
  lemma AddFirst(acc: map<nat, NodeSet>, m: map<nat, NodeSet>, keys: set<nat>, k: nat)
    requires keys <= m.Keys && k in keys
    ensures Added(acc[k := m[k]], m, keys - {k}) == Added(acc, m, keys)
  {
  }

  /** Adding every entry of a map to the empty map gives that map. */
  lemma AddAll(m: map<nat, NodeSet>)
    ensures Added(map[], m, m.Keys) == m
  {
  }

  /** At the end of the text the `nodes_map::parse` loop stops, found. */
  lemma MapFromEnd(text: string, pos: nat, sig: Files.Digest, acc: map<nat, NodeSet>)
    requires pos == |text|
    ensures MapFrom(text, pos, false, sig, acc, 0, false) == MapRead(PS.Status(PS.Found), acc)
  {
    var r := ReadNodeSet(text, pos, Cleared(sig));
    assert r == Read(PS.Status(PS.NotFound), Cleared(sig), pos, true);
    assert Skipped(r.status);
    assert MapFrom(text, pos, true, r.ns.signature, acc, 0, false) == MapRead(PS.Status(PS.Found), acc);
  }

  /** The first of the printed node sets of `keys`, the one with the least key `k`, is
      read into `acc`, and the rest stand from `n`, after its empty line. */
  lemma EntriesStep(text: string, pos: nat, sig: Files.Digest, m: map<nat, NodeSet>,
                    acc: map<nat, NodeSet>, keys: set<nat>, k: nat, n: nat)
    requires keys <= m.Keys && keys != {} && Indexed(m) && AllPrintable(m) && k == Least(keys) && k !in acc
    requires At(text, pos, EntriesText(m, keys)) && pos + |EntriesText(m, keys)| == |text|
    requires n == pos + |NodeSetText(m[k])| + 1
    ensures At(text, n, EntriesText(m, keys - {k})) && n + |EntriesText(m, keys - {k})| == |text|
    ensures keys == {k} ==> MapFrom(text, pos, false, sig, acc, 0, false) == MapRead(PS.Status(PS.Found), acc[k := m[k]])
    ensures keys != {k} ==> MapFrom(text, pos, false, sig, acc, 0, false)
                            == MapFrom(text, n, false, m[k].signature, acc[k := m[k]], 0, false)
  {
    var ns := m[k];
    var e := pos + |NodeSetText(ns)|;
    var rest := keys - {k};
    assert NodeSetAt(text, pos, ns, e) && e < |text| && text[e] == '\n' by {
      EntriesHeadAt(text, pos, m, keys, e);
    }
    assert At(text, n, EntriesText(m, rest)) && n + |EntriesText(m, rest)| == |text| by {
      EntriesRestAt(text, pos, m, keys, e);
    }
    MapFromPrinted(text, pos, sig, m, acc, keys, k, ns, e, n, ns.signature, acc[k := ns]);
  }

  /** The node sets of `keys`, printed in ascending order from `pos` to the end of the
      text, are read into the map `acc`, which holds none of those keys, and the parse
      ends found. */
  lemma {:induction false} EntriesReadBack(text: string, pos: nat, sig: Files.Digest, m: map<nat, NodeSet>,
                                           acc: map<nat, NodeSet>, keys: set<nat>)
    requires keys <= m.Keys && Indexed(m) && AllPrintable(m)
    requires At(text, pos, EntriesText(m, keys)) && pos + |EntriesText(m, keys)| == |text|
    requires forall k :: k in keys ==> k !in acc
    ensures MapFrom(text, pos, false, sig, acc, 0, false) == MapRead(PS.Status(PS.Found), Added(acc, m, keys))
    decreases |keys|
  {
    if keys == {} {
      MapFromEnd(text, pos, sig, acc);
      AddNothing(acc, m, keys);
    } else {
      var k := Least(keys);
      var ns := m[k];
      var n := pos + |NodeSetText(ns)| + 1;
      var acc' := acc[k := ns];
      var rest := keys - {k};
      EntriesStep(text, pos, sig, m, acc, keys, k, n);
      AddFirst(acc, m, keys, k);
      if rest != {} {
        EntriesReadBack(text, n, ns.signature, m, acc', rest);
      } else {
        AddNothing(acc', m, rest);
      }
    }
  }

  /** A printed taxonomy reads back as the map it was printed from, found. */
  lemma MapRoundTrip(m: map<nat, NodeSet>, sig: Files.Digest)
    requires Indexed(m) && AllPrintable(m)
    ensures ParseMap(MapText(m), sig, map[]) == MapRead(PS.Status(PS.Found), m)
  {
    AtWhole(MapText(m));
    EntriesReadBack(MapText(m), 0, sig, m, map[], m.Keys);
    AddAll(m);
  }

  /** A taxonomy file that `print` wrote comes out of `parse` and `print` unchanged. */
  lemma PrintOfParse(m: map<nat, NodeSet>, sig: Files.Digest)
    requires Indexed(m) && AllPrintable(m)
    ensures ParseMap(MapText(m), sig, map[]).status.value == PS.Found
    ensures MapText(ParseMap(MapText(m), sig, map[]).entries) == MapText(m)
  {
    MapRoundTrip(m, sig);
  }
}
