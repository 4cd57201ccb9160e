/** What `node_set::parse` and `nodes_map::parse` promise: the node fields and the
    records already read are kept, the first node set of a number wins, and the
    misparse test as written lets every failed node set through. */
module TaxonomyProofs {
  import opened Text
  import PS = ParseStatus
  import opened Phrase
  import opened Directory
  import Files
  import opened Taxonomy

  // ---------------------------------------------------------------------------
  // node_set::parse
  // ---------------------------------------------------------------------------

  /** The body of a node set only adds: it keeps the node number, time and
      signature, every source record already collected (and keeps them sorted), and
      the other phrases already collected, in order, in front of the new ones. */
  lemma {:induction false} BodyKeeps(text: string, pos: nat, sp: nat, ns: NodeSet)
    requires sp <= pos <= |text| && Sorted(ns.sources)
    ensures var r := Body(text, pos, sp, ns);
            r.ns.node == ns.node && r.ns.mtime == ns.mtime && r.ns.signature == ns.signature
            && Sorted(r.ns.sources) && (forall x :: x in ns.sources ==> x in r.ns.sources)
            && |ns.others| <= |r.ns.others| && r.ns.others[..|ns.others|] == ns.others
    decreases |text| - pos
  {
    var pl := GetPhraseLine(text, pos, 0);
    if pl.status.value == PS.NotFound {
    } else if pl.status.value == PS.NullObject || pl.status.value == PS.Malformed {
      BodyKeeps(text, pl.next, sp, ns);
    } else {
      var parsed := Parse(pl.control, pl.data, Empty);
      if parsed.status.value != PS.Found {
        BodyKeeps(text, pl.next, if PS.Has(parsed.status, Dropped) then pl.next else sp, ns);
      } else {
        var ph := parsed.phrase;
        if ph.tokens[0] == "node" {
        } else if ph.tokens[0] == "source" {
          var rp := ParseFields(FileRecord("", 0), Phrase(ph.tokens[1..], ph.comment));
          if rp.status.value == PS.Found {
            BodyKeeps(text, pl.next, pl.next, ns.(sources := Insert(ns.sources, rp.rec)));
          } else {
            BodyKeeps(text, pl.next, pl.next, ns);
          }
        } else {
          var more := ns.(others := ns.others + [ph]);
          BodyKeeps(text, pl.next, pl.next, more);
          var r := Body(text, pl.next, pl.next, more);
          assert r.ns.others[..|ns.others|] == r.ns.others[..|more.others|][..|ns.others|];
        }
      }
    }
  }

  /** A node set read from a cleared node set has its source records sorted and
      without repetition, as the `std::set` holding them. */
  lemma ReadSourcesSorted(text: string, pos: nat, sig: Files.Digest)
    requires pos <= |text|
    ensures Sorted(ReadNodeSet(text, pos, Cleared(sig)).ns.sources)
  {
    var h := Head(text, pos, Cleared(sig));
    if h.status.value == PS.Found {
      BodyKeeps(text, h.pos, h.pos, h.ns);
    }
  }

  // ---------------------------------------------------------------------------
  // nodes_map::parse
  // ---------------------------------------------------------------------------

  /** `insert` does not overwrite: every node set already in the map is still there,
      unchanged, when the parse ends, by either misparse test. */
  lemma {:induction false} MapFromKeeps(text: string, pos: nat, eof: bool, sig: Files.Digest,
                                        m: map<nat, NodeSet>, misparses: nat, asWritten: bool)
    requires pos <= |text| && misparses < MaxMisparses
    ensures var r := MapFrom(text, pos, eof, sig, m, misparses, asWritten);
            forall k :: k in m ==> k in r.entries && r.entries[k] == m[k]
    decreases |text| - pos + (if eof then 0 else 1)
  {
    if !eof {
      var r := ReadNodeSet(text, pos, Cleared(sig));
      var found := r.status.value == PS.Found;
      var passed := found || (if asWritten then SkippedAsWritten(r.status) else Skipped(r.status));
      var m' := if found && r.ns.node !in m then m[r.ns.node := r.ns] else m;
      var count := if passed then misparses else misparses + 1;
      if passed || misparses + 1 != MaxMisparses {
        assert MapFrom(text, pos, eof, sig, m, misparses, asWritten)
            == MapFrom(text, r.pos, r.eof, r.ns.signature, m', count, asWritten);
        MapFromKeeps(text, r.pos, r.eof, r.ns.signature, m', count, asWritten);
      }
    }
  }

  /** Every node set of the map is filed under its own node number, and holds its
      source records as a `std::set` does: sorted, without repetition. */
  predicate Indexed(m: map<nat, NodeSet>) {
    forall k :: k in m ==> m[k].node == k && Sorted(m[k].sources)
  }

  /** Node sets are filed under their own node numbers with their records sorted: a
      map that is so stays so. */
  lemma {:induction false} MapFromIndexed(text: string, pos: nat, eof: bool, sig: Files.Digest,
                                                m: map<nat, NodeSet>, misparses: nat, asWritten: bool)
    requires pos <= |text| && misparses < MaxMisparses && Indexed(m)
    ensures Indexed(MapFrom(text, pos, eof, sig, m, misparses, asWritten).entries)
    decreases |text| - pos + (if eof then 0 else 1)
  {
    if !eof {
      var r := ReadNodeSet(text, pos, Cleared(sig));
      var found := r.status.value == PS.Found;
      var passed := found || (if asWritten then SkippedAsWritten(r.status) else Skipped(r.status));
      var m' := if found && r.ns.node !in m then m[r.ns.node := r.ns] else m;
      var count := if passed then misparses else misparses + 1;
      if passed || misparses + 1 != MaxMisparses {
        ReadSourcesSorted(text, pos, sig);
        assert Indexed(m');
        MapFromIndexed(text, r.pos, r.eof, r.ns.signature, m', count, asWritten);
      }
    }
  }

  /** A taxonomy read into an empty map is indexed. */
  lemma ParseMapIndexed(text: string, sig: Files.Digest)
    ensures Indexed(ParseMap(text, sig, map[]).entries)
  {
    MapFromIndexed(text, 0, false, sig, map[], 0, false);
  }

  /** With the test as written, no failed node set is counted: the parse goes on to
      the end of the input and reports what it was told of earlier misparses. */
  lemma {:induction false} MapFromAsWrittenCountsNothing(text: string, pos: nat, eof: bool,
                                                         sig: Files.Digest, m: map<nat, NodeSet>,
                                                         misparses: nat)
    requires pos <= |text| && misparses < MaxMisparses
    ensures MapFrom(text, pos, eof, sig, m, misparses, true).status.value
            == if misparses == 0 then PS.Found else PS.Malformed
    decreases |text| - pos + (if eof then 0 else 1)
  {
    if !eof {
      var r := ReadNodeSet(text, pos, Cleared(sig));
      assert r.status.value != 0;
      var m' := if r.status.value == PS.Found && r.ns.node !in m then m[r.ns.node := r.ns] else m;
      MapFromAsWrittenCountsNothing(text, r.pos, r.eof, r.ns.signature, m', misparses);
    }
  }

  /** As written, `nodes_map::parse` returns `Found` on every input: neither the
      `Malformed` result nor the misparse limit can be reached. */
  lemma ParseMapAsWrittenAlwaysFound(text: string, sig: Files.Digest, m: map<nat, NodeSet>)
    ensures ParseMapAsWritten(text, sig, m).status.value == PS.Found
  {
    MapFromAsWrittenCountsNothing(text, 0, false, sig, m, 0);
  }

  /** A file holding only a column control line with no data line under it: the node
      set read fails as `Malformed`, which the corrected test counts and the test as
      written lets through. */
  lemma MisparseCountedOnlyWhenCorrected(sig: Files.Digest)
    ensures ParseMap(".", sig, map[]) == MapRead(PS.Status(PS.Malformed), map[])
    ensures ParseMapAsWritten(".", sig, map[]) == MapRead(PS.Status(PS.Found), map[])
  {
    var text := ".";
    assert GetLine(text, 0) == Some(LineRead(".", 1, true));
    assert GetLine(text, 1) == None;
    var r := ReadNodeSet(text, 0, Cleared(sig));
    assert r == Read(PS.Status(PS.Malformed), Cleared(sig), 1, true);
    assert !Skipped(r.status) && SkippedAsWritten(r.status);
  }
}
