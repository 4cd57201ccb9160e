/** The taxonomy file (src/taxonomy.h): a sequence of node sets, each a node phrase
    naming a file of the content store followed by the phrases that describe it, read
    into a map from node number to node set. */
module Taxonomy {
  import opened Text
  import PS = ParseStatus
  import opened Phrase
  import opened Directory
  import Files
  import opened KeyOrder

  /** `node_set`: the node number, its modification time and signature, the source
      records, and every other phrase of the set in order. */
  datatype NodeSet = NodeSet(node: nat, mtime: int, signature: Files.Digest,
                             sources: seq<FileRecord>, others: seq<Phrase>)

  /** `clear()` on a node set: the signature is not reset. */
  function Cleared(signature: Files.Digest): NodeSet {
    NodeSet(0, 0, signature, [], [])
  }

  // ---------------------------------------------------------------------------
  // node_set::print
  // ---------------------------------------------------------------------------

  /** The node phrase `print` builds: the tag, the number, the time and the signature
      in hexadecimal. */
  function NodePhrase(ns: NodeSet): Phrase {
    Phrase(["node", NatToString(ns.node), IntToString(ns.mtime), Files.HexText(ns.signature)], "")
  }

  /** Each other phrase, printed and followed by an empty line. */
  function OthersText(ps: seq<Phrase>): string
    decreases |ps|
  {
    if ps == [] then "" else PhraseText(ps[0]) + "\n" + OthersText(ps[1..])
  }

  /** Everything `node_set::print` writes. */
  function NodeSetText(ns: NodeSet): string {
    PhraseText(NodePhrase(ns)) + ListText(ns.sources, "source") + OthersText(ns.others)
  }

  lemma OthersTextAt(ps: seq<Phrase>, i: nat)
    requires i < |ps|
    ensures OthersText(ps[i..]) == PhraseText(ps[i]) + "\n" + OthersText(ps[i + 1..])
  {
    assert ps[i..][1..] == ps[i + 1..];
  }

  /** `node_set::print`. */
  method PrintNodeSet(ns: NodeSet) returns (out: string)
    ensures out == NodeSetText(ns)
  {
    var head := Print(NodePhrase(ns));
    var sources := PrintList(ns.sources, "source");
    out := head + sources;
    var i := 0;
    assert ns.others[0..] == ns.others;
    while i < |ns.others|
      invariant 0 <= i <= |ns.others|
      invariant out + OthersText(ns.others[i..]) == NodeSetText(ns)
    {
      var line := Print(ns.others[i]);
      OthersTextAt(ns.others, i);
      Associative(out, line + "\n", OthersText(ns.others[i + 1..]));
      out := out + (line + "\n");
      i := i + 1;
    }
    assert ns.others[i..] == [];
  }

  // ---------------------------------------------------------------------------
  // node_set::parse
  // ---------------------------------------------------------------------------

  /** Where a node set parse leaves things: its status, the node set, and the stream's
      position and end-of-file flag. */
  datatype Read = Read(status: PS.Status, ns: NodeSet, pos: nat, eof: bool)

  /** `ss >> node` when the extraction fails: a field of white space only leaves the
      variable alone, any other failure stores zero. */
  function FailedNode(field: string, before: nat): nat {
    if SkipSpaces(field, 0) == |field| then before else 0
  }

  /** A read from `pos` leaves the stream at or after `pos`, and moves on unless it
      has reached the end of the file. */
  predicate Progress(text: string, pos: nat, r: Read) {
    pos <= r.pos <= |text| && (r.eof || pos < r.pos)
  }

  /** The fields of a node phrase after the keyword, read in turn from field `i` on
      (1: the node number, 2: the modification time, 3: the signature); the first
      that fails to read ends the parse as malformed. */
  function NodeFields(ts: seq<string>, i: nat, ns: NodeSet): (r: (bool, NodeSet))
    requires |ts| == 4 && 1 <= i <= 3
    // the fields from `i` on all read exactly when the parse succeeds ...
    ensures r.0 <==> (i > 1 || ParseNat(ts[1]).Some?) && (i > 2 || ParseInt(ts[2]).Some?)
                     && Files.ParseDigest(ts[3], ns.signature).ok
    // ... and then the node set holds the values they name
    ensures r.0 ==> r.1 == ns.(node := if i == 1 then ParseNat(ts[1]).value else ns.node,
                               mtime := if i <= 2 then ParseInt(ts[2]).value else ns.mtime,
                               signature := Files.ParseDigest(ts[3], ns.signature).data)
    ensures r.1.sources == ns.sources && r.1.others == ns.others
    decreases 3 - i
  {
    if i == 1 then
      match ParseNat(ts[1])
      case None => (false, ns.(node := FailedNode(ts[1], ns.node)))
      case Some(n) => NodeFields(ts, 2, ns.(node := n))
    else if i == 2 then
      match ParseInt(ts[2])
      case None => (false, ns.(mtime := FailedTime(ts[2], ns.mtime)))
      case Some(t) => NodeFields(ts, 3, ns.(mtime := t))
    else
      var sig := Files.ParseDigest(ts[3], ns.signature);
      (sig.ok, ns.(signature := sig.data))
  }

  /** A parsed line that is a node phrase: it parsed, it holds exactly the keyword
      `node` and three fields, and the number, the time and the signature all read. */
  predicate IsNodeHead(p: Parsed, sig: Files.Digest) {
    var ts := p.phrase.tokens;
    p.status.value == PS.Found && |ts| == 4 && ts[0] == "node"
    && ParseNat(ts[1]).Some? && ParseInt(ts[2]).Some? && Files.ParseDigest(ts[3], sig).ok
  }

  /** The node set `ns` with the number, time and signature a node phrase names. */
  function WithHead(ns: NodeSet, p: Parsed): NodeSet
    requires IsNodeHead(p, ns.signature)
  {
    var ts := p.phrase.tokens;
    ns.(node := ParseNat(ts[1]).value, mtime := ParseInt(ts[2]).value,
        signature := Files.ParseDigest(ts[3], ns.signature).data)
  }

  /** The first phrase of a node set, which must be a node phrase. A `Found` status
      means the node fields have been read and the rest of the set follows. */
  function Head(text: string, pos: nat, ns: NodeSet): (r: Read)
    requires pos <= |text|
    ensures pos <= r.pos <= |text| && (r.eof || pos < r.pos)
    ensures r.status.value in {PS.Found, PS.NotFound, PS.NullObject, PS.Malformed}
    ensures r.status.value == PS.NotFound <==> pos == |text|
    // a first line that is not a phrase passes its status on
    ensures var pl := GetPhraseLine(text, pos, 0);
      pl.status.value != PS.Found ==> r.status == pl.status && r.ns == ns
    ensures r.ns.sources == ns.sources && r.ns.others == ns.others
  {
    var pl := GetPhraseLine(text, pos, 0);
    if pl.status.value != PS.Found then Read(pl.status, ns, pl.next, pl.eof)
    else
      var parsed := Parse(pl.control, pl.data, Empty);
      var ts := parsed.phrase.tokens;
      if parsed.status.value != PS.Found || |ts| != 4 || ts[0] != "node" then
        Read(PS.Status(PS.Malformed), ns, pl.next, pl.eof)
      else
        var fields := NodeFields(ts, 1, ns);
        Read(PS.Status(if fields.0 then PS.Found else PS.Malformed), fields.1, pl.next, pl.eof)
  }

  /** A first line that is a phrase but not a well-formed node phrase is malformed;
      a node phrase is found, and the node set then holds the fields it names. */
  lemma HeadStatus(text: string, pos: nat, ns: NodeSet)
    requires pos <= |text|
    ensures var pl := GetPhraseLine(text, pos, 0);
            var r := Head(text, pos, ns);
      pl.status.value == PS.Found ==>
        var p := Parse(pl.control, pl.data, Empty);
        && r.status.value == (if IsNodeHead(p, ns.signature) then PS.Found else PS.Malformed)
        && (IsNodeHead(p, ns.signature) ==> r.ns == WithHead(ns, p))
  {
  }

  /** The flags of a phrase status that make the body loop drop the line quietly and
      move the rewind point past it. */
  const Dropped: bv8 := PS.NotFound | PS.NoObject | PS.NullObject

  /** The loop over the rest of a node set, from `pos`, with the rewind point `sp`:
      the position after the last phrase that belongs to the set. It runs `Turn`
      until a turn ends it. */
  function Body(text: string, pos: nat, sp: nat, ns: NodeSet): (r: Read)
    requires sp <= pos <= |text| && Sorted(ns.sources)
    ensures r.status.value == PS.Found && sp <= r.pos <= |text|
    ensures r.ns.node == ns.node && r.ns.mtime == ns.mtime && r.ns.signature == ns.signature
    decreases |text| - pos, 1
  {
    Turn(text, pos, sp, ns)
  }

  /** One turn of the loop: the line at `pos` is read. Empty lines and lines that
      fail to parse do not move `sp`; a node phrase ends the set and rewinds the
      stream to `sp`; a source phrase adds its record to the sources when it parses;
      any other phrase is kept. */
  function Turn(text: string, pos: nat, sp: nat, ns: NodeSet): (r: Read)
    requires sp <= pos <= |text| && Sorted(ns.sources)
    ensures r.status.value == PS.Found && sp <= r.pos <= |text|
    ensures r.ns.node == ns.node && r.ns.mtime == ns.mtime && r.ns.signature == ns.signature
    decreases |text| - pos, 0
  {
    var pl := GetPhraseLine(text, pos, 0);
    if pl.status.value == PS.NotFound then Read(PS.Status(PS.Found), ns, pl.next, pl.eof)
    else if pl.status.value == PS.NullObject || pl.status.value == PS.Malformed then Body(text, pl.next, sp, ns)
    else
      var parsed := Parse(pl.control, pl.data, Empty);
      if parsed.status.value != PS.Found then
        Body(text, pl.next, if PS.Has(parsed.status, Dropped) then pl.next else sp, ns)
      else
        var ph := parsed.phrase;
        if ph.tokens[0] == "node" then Read(PS.Status(PS.Found), ns, sp, false)
        else if ph.tokens[0] == "source" then
          var rp := ParseFields(FileRecord("", 0), Phrase(ph.tokens[1..], ph.comment));
          if rp.status.value == PS.Found then
            Body(text, pl.next, pl.next, ns.(sources := Insert(ns.sources, rp.rec)))
          else
            Body(text, pl.next, pl.next, ns)
        else
          Body(text, pl.next, pl.next, ns.(others := ns.others + [ph]))
  }

  /** `node_set::parse`: the node phrase, then the body. */
  function ReadNodeSet(text: string, pos: nat, ns: NodeSet): (r: Read)
    requires pos <= |text| && Sorted(ns.sources)
    ensures Progress(text, pos, r)
    ensures r.status.value in {PS.Found, PS.NotFound, PS.NullObject, PS.Malformed}
    ensures r.status.value == PS.NotFound <==> pos == |text|
  {
    var h := Head(text, pos, ns);
    if h.status.value != PS.Found then h else Body(text, h.pos, h.pos, h.ns)
  }

  /** A node set is found exactly when its first line is a node phrase, and then it
      holds the number, time and signature that phrase names; it is malformed when
      its first line is, or when that line is a phrase but not a node phrase. */
  lemma NodeSetStatus(text: string, pos: nat, ns: NodeSet)
    requires pos <= |text| && Sorted(ns.sources)
    ensures var r := ReadNodeSet(text, pos, ns);
            var pl := GetPhraseLine(text, pos, 0);
      && (r.status.value == PS.Found <==>
            pl.status.value == PS.Found && IsNodeHead(Parse(pl.control, pl.data, Empty), ns.signature))
      && (r.status.value == PS.Malformed <==>
            pl.status.value == PS.Malformed
            || (pl.status.value == PS.Found && !IsNodeHead(Parse(pl.control, pl.data, Empty), ns.signature)))
      && (r.status.value == PS.Found ==>
            var h := WithHead(ns, Parse(pl.control, pl.data, Empty));
            r.ns.node == h.node && r.ns.mtime == h.mtime && r.ns.signature == h.signature)
  {
    HeadStatus(text, pos, ns);
  }

  /** The imperative form of `node_set::parse`. */
  method ParseNodeSet(text: string, pos: nat, ns: NodeSet) returns (r: Read)
    requires pos <= |text| && Sorted(ns.sources)
    ensures r == ReadNodeSet(text, pos, ns)
  {
    var h := Head(text, pos, ns);
    if h.status.value != PS.Found {
      return h;
    }
    var cur := h.ns;
    var p: nat := h.pos;
    var sp: nat := p;
    ghost var whole := Body(text, p, sp, cur);
    while true
      invariant sp <= p <= |text| && Sorted(cur.sources)
      invariant Body(text, p, sp, cur) == whole
      decreases |text| - p
    {
      assert Body(text, p, sp, cur) == Turn(text, p, sp, cur);
      var pl := GetPhraseLine(text, p, 0);
      if pl.status.value == PS.NotFound {
        return Read(PS.Status(PS.Found), cur, pl.next, pl.eof);
      }
      if pl.status.value == PS.NullObject || pl.status.value == PS.Malformed {
        p := pl.next;
        continue;
      }
      var parsed := ParseLine(pl.control, pl.data, Empty);
      if parsed.status.value != PS.Found {
        if PS.Has(parsed.status, Dropped) {
          sp := pl.next;
        }
        p := pl.next;
        continue;
      }
      var ph := parsed.phrase;
      if ph.tokens[0] == "node" {
        return Read(PS.Status(PS.Found), cur, sp, false);
      }
      if ph.tokens[0] == "source" {
        var rp := ParseFields(FileRecord("", 0), Phrase(ph.tokens[1..], ph.comment));
        if rp.status.value == PS.Found {
          cur := cur.(sources := Insert(cur.sources, rp.rec));
        }
      } else {
        cur := cur.(others := cur.others + [ph]);
      }
      p, sp := pl.next, pl.next;
    }
  }

  // ---------------------------------------------------------------------------
  // nodes_map::parse
  // ---------------------------------------------------------------------------

  /** `MaxMisparseCount` in `nodes_map::parse`. */
  const MaxMisparses: nat := 10

  /** The test that lets a failed node set pass without counting as a misparse, as
      written: `stat.value && (mask)` is a logical and, true for every non-zero
      status. */
  predicate SkippedAsWritten(s: PS.Status) {
    s.value != 0 && Dropped != 0
  }

  /** The same test as evidently intended: a bitwise and with the mask. */
  predicate Skipped(s: PS.Status) {
    PS.Has(s, Dropped)
  }

  datatype MapRead = MapRead(status: PS.Status, entries: map<nat, NodeSet>)

  /** The loop of `nodes_map::parse` from `pos`, until the stream reports end of
      file: each found node set is inserted unless its number is already a key;
      failed node sets pass or count as misparses, by the corrected test or, with
      `asWritten`, by the test as written. */
  function MapFrom(text: string, pos: nat, eof: bool, sig: Files.Digest, m: map<nat, NodeSet>,
                   misparses: nat, asWritten: bool): (r: MapRead)
    requires pos <= |text| && misparses < MaxMisparses
    ensures r.status.value in {PS.Found, PS.Malformed, PS.MaxErrors}
    decreases |text| - pos + (if eof then 0 else 1), 1
  {
    MapTurn(text, pos, eof, sig, m, misparses, asWritten)
  }

  /** One turn of the `nodes_map::parse` loop: the end of file ends it, otherwise one
      node set is read and the loop goes on. */
  function MapTurn(text: string, pos: nat, eof: bool, sig: Files.Digest, m: map<nat, NodeSet>,
                   misparses: nat, asWritten: bool): (r: MapRead)
    requires pos <= |text| && misparses < MaxMisparses
    ensures r.status.value in {PS.Found, PS.Malformed, PS.MaxErrors}
    decreases |text| - pos + (if eof then 0 else 1), 0
  {
    if eof then MapRead(PS.Status(if misparses == 0 then PS.Found else PS.Malformed), m)
    else
      var r := ReadNodeSet(text, pos, Cleared(sig));
      var found := r.status.value == PS.Found;
      var passed := found || (if asWritten then SkippedAsWritten(r.status) else Skipped(r.status));
      var m' := if found && r.ns.node !in m then m[r.ns.node := r.ns] else m;
      if !passed && misparses + 1 == MaxMisparses then MapRead(PS.Status(PS.MaxErrors), m)
      else MapFrom(text, r.pos, r.eof, r.ns.signature, m', if passed then misparses else misparses + 1, asWritten)
  }

  /** One turn of the `nodes_map::parse` loop, given the node set read. */
  lemma MapFromStep(text: string, pos: nat, sig: Files.Digest, m: map<nat, NodeSet>, misparses: nat,
                    r: Read)
    requires pos <= |text| && misparses < MaxMisparses && r == ReadNodeSet(text, pos, Cleared(sig))
    ensures r.status.value == PS.Found ==>
              MapFrom(text, pos, false, sig, m, misparses, false)
              == MapFrom(text, r.pos, r.eof, r.ns.signature, if r.ns.node in m then m else m[r.ns.node := r.ns], misparses, false)
    ensures r.status.value != PS.Found && Skipped(r.status) ==>
              MapFrom(text, pos, false, sig, m, misparses, false)
              == MapFrom(text, r.pos, r.eof, r.ns.signature, m, misparses, false)
    ensures r.status.value != PS.Found && !Skipped(r.status) ==>
              MapFrom(text, pos, false, sig, m, misparses, false)
              == if misparses + 1 == MaxMisparses then MapRead(PS.Status(PS.MaxErrors), m)
                 else MapFrom(text, r.pos, r.eof, r.ns.signature, m, misparses + 1, false)
  {
  }

  /** `nodes_map::parse` on a freshly opened stream over `text`, adding to the map
      `m`; `sig` is what the node set's signature buffer holds before the first read. */
  function ParseMap(text: string, sig: Files.Digest, m: map<nat, NodeSet>): MapRead {
    MapFrom(text, 0, false, sig, m, 0, false)
  }

  function ParseMapAsWritten(text: string, sig: Files.Digest, m: map<nat, NodeSet>): MapRead {
    MapFrom(text, 0, false, sig, m, 0, true)
  }

  /** `nodes_map`: a map from node number to node set, filled in place by `Parse`. */
  class NodesMap {
    var entries: map<nat, NodeSet>

    constructor()
      ensures entries == map[]
    {
      entries := map[];
    }

    /** `nodes_map::parse`, with the misparse test corrected (see `SkippedAsWritten`). */
    method Parse(text: string, sig0: Files.Digest) returns (status: PS.Status)
      modifies this
      ensures MapRead(status, entries) == ParseMap(text, sig0, old(entries))
    {
      var pos: nat := 0;
      var eof := false;
      var misparses: nat := 0;
      var sig := sig0;
      while !eof
        invariant pos <= |text| && misparses < MaxMisparses
        invariant MapFrom(text, pos, eof, sig, entries, misparses, false) == ParseMap(text, sig0, old(entries))
        decreases |text| - pos + (if eof then 0 else 1)
      {
        var r, stop;
        r, misparses, stop := ParseOne(text, pos, sig, misparses);
        if stop {
          return PS.Status(PS.MaxErrors);
        }
        pos, eof, sig := r.pos, r.eof, r.ns.signature;
      }
      status := PS.Status(if misparses == 0 then PS.Found else PS.Malformed);
    }

    /** The body of the `nodes_map::parse` loop: one node set read from `pos` and filed
        unless its node is already a key, or a misparse counted; `stop` when that
        misparse is the last one allowed. */
    method ParseOne(text: string, pos: nat, sig: Files.Digest, misparses: nat)
      returns (r: Read, count: nat, stop: bool)
      requires pos <= |text| && misparses < MaxMisparses
      modifies this
      ensures Progress(text, pos, r) && count < MaxMisparses
      ensures MapFrom(text, pos, false, sig, old(entries), misparses, false)
              == if stop then MapRead(PS.Status(PS.MaxErrors), entries)
                 else MapFrom(text, r.pos, r.eof, r.ns.signature, entries, count, false)
    {
      r := ParseNodeSet(text, pos, Cleared(sig));
      ghost var before := MapFrom(text, pos, false, sig, entries, misparses, false);
      ghost var m := entries;
      count, stop := misparses, false;
      if r.status.value == PS.Found {
        if r.ns.node !in entries {
          entries := entries[r.ns.node := r.ns];
        }
        assert before == MapFrom(text, r.pos, r.eof, r.ns.signature, entries, count, false) by {
          MapFromStep(text, pos, sig, m, misparses, r);
        }
      } else if !Skipped(r.status) {
        if misparses + 1 == MaxMisparses {
          stop := true;
          assert before == MapRead(PS.Status(PS.MaxErrors), entries) by {
            MapFromStep(text, pos, sig, m, misparses, r);
          }
        } else {
          count := misparses + 1;
          assert before == MapFrom(text, r.pos, r.eof, r.ns.signature, entries, count, false) by {
            MapFromStep(text, pos, sig, m, misparses, r);
          }
        }
      } else {
        assert before == MapFrom(text, r.pos, r.eof, r.ns.signature, entries, count, false) by {
          MapFromStep(text, pos, sig, m, misparses, r);
        }
      }
    }

    /** `nodes_map::print`. */
    method Print() returns (out: string)
      ensures out == MapText(entries)
    {
      var rest := entries.Keys;
      out := "";
      while rest != {}
        invariant rest <= entries.Keys
        invariant out + EntriesText(entries, rest) == MapText(entries)
        decreases |rest|
      {
        var k := First(rest);
        var text := PrintNodeSet(entries[k]);
        Associative(out, text + "\n", EntriesText(entries, rest - {k}));
        out := out + (text + "\n");
        rest := rest - {k};
      }
    }
  }

  /** The node sets of a set of keys, in ascending key order, each printed and
      followed by an empty line. */
  ghost function EntriesText(m: map<nat, NodeSet>, keys: set<nat>): string
    requires keys <= m.Keys
    decreases |keys|
  {
    if keys == {} then "" else NodeSetText(m[Least(keys)]) + "\n" + EntriesText(m, keys - {Least(keys)})
  }

  /** Everything `nodes_map::print` writes: the node sets in ascending node order. */
  ghost function MapText(m: map<nat, NodeSet>): string {
    EntriesText(m, m.Keys)
  }
}
