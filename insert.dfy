/** The insert engine (src/insert.cc): every file the traversal finds is looked up in
    the nodes map by signature and then by content. A file whose content is already
    stored gains a source record on that node; a new content gets a fresh node number,
    a node set and a copy in the content store. The updated map is written back only
    when every file went through. */
module InsertEngine {
  import opened Text
  import PS = ParseStatus
  import opened Directory
  import Files
  import opened KeyOrder
  import opened Taxonomy
  import opened TaxonomyProofs
  import opened Allocator

  /** The content store directory: the bytes of the file named by each node number. */
  type Store = map<nat, seq<Byte>>

  /** A file found by the traversal: its record, the bytes it holds, and whether the
      store accepts a copy of it (`open_write` and `copy` both succeed). */
  datatype Candidate = Candidate(rec: FileRecord, content: seq<Byte>, storable: bool)

  /** The result codes of `insert_if_unique`. */
  const NotInserted: nat := 0
  const Inserted: nat := 1
  const NameAllocationFailure: nat := 2
  /** `Insert_StorageFailure` as written: the same value as `NameAllocationFailure`. */
  const StorageFailureAsWritten: nat := 2
  const NodesMapFailure: nat := 3
  /** `Insert_StorageFailure` as evidently intended: a value of its own. */
  const StorageFailure: nat := 4

  /** `unique_count` is an `unsigned int`. */
  const UintModulus: nat := 0x1_0000_0000

  // ---------------------------------------------------------------------------
  // find
  // ---------------------------------------------------------------------------

  /** Node `k` holds the candidate: its signature is the candidate's, its store file
      can be opened, and that file is `same` as the candidate. */
  predicate Matches(m: map<nat, NodeSet>, store: Store, k: nat, sig: Files.Digest, content: seq<Byte>) {
    k in m && m[k].signature == sig && k in store && store[k] == content
  }

  /** `find` over the keys `keys`, in ascending order: the first node holding the
      candidate. A node whose store file cannot be opened is passed over. */
  ghost function FoundIn(m: map<nat, NodeSet>, store: Store, keys: set<nat>, sig: Files.Digest,
                         content: seq<Byte>): (r: Option<nat>)
    requires keys <= m.Keys
    ensures r.Some? ==> r.value in keys
    decreases |keys|
  {
    if keys == {} then None
    else
      var k := Least(keys);
      if Matches(m, store, k, sig, content) then Some(k) else FoundIn(m, store, keys - {k}, sig, content)
  }

  /** `find` answers with the lowest-numbered node holding the candidate, and with
      nothing exactly when no node holds it. */
  lemma {:induction false} FoundInIsLeastMatch(m: map<nat, NodeSet>, store: Store, keys: set<nat>,
                                               sig: Files.Digest, content: seq<Byte>)
    requires keys <= m.Keys
    ensures var r := FoundIn(m, store, keys, sig, content);
            (r.Some? ==> Matches(m, store, r.value, sig, content)
                         && forall j :: j in keys && j < r.value ==> !Matches(m, store, j, sig, content))
            && (r.None? <==> forall j :: j in keys ==> !Matches(m, store, j, sig, content))
    decreases |keys|
  {
    if keys != {} {
      var k := Least(keys);
      FoundInIsLeastMatch(m, store, keys - {k}, sig, content);
    }
  }

  /** `find`: walks the map in key order, opening and comparing the store file of
      every node whose signature is the candidate's. */
  method Find(nodes: NodesMap, store: Store, sig: Files.Digest, content: seq<Byte>)
    returns (found: Option<nat>)
    ensures found == FoundIn(nodes.entries, store, nodes.entries.Keys, sig, content)
  {
    var rest := nodes.entries.Keys;
    while rest != {}
      invariant rest <= nodes.entries.Keys
      invariant FoundIn(nodes.entries, store, rest, sig, content)
                == FoundIn(nodes.entries, store, nodes.entries.Keys, sig, content)
      decreases |rest|
    {
      var k := First(rest);
      if sig == nodes.entries[k].signature && k in store {
        var same := Files.Same(content, store[k]);
        if same {
          return Some(k);
        }
      }
      rest := rest - {k};
    }
    return None;
  }

  // ---------------------------------------------------------------------------
  // insert_if_unique
  // ---------------------------------------------------------------------------

  /** What `insert_if_unique` works on: the nodes map, the allocator, the store and
      `unique_count`. */
  datatype Archive = Archive(entries: map<nat, NodeSet>, alloc: State, store: Store, unique: nat)

  /** The store after `open_write` and `copy` as written: the file is opened without
      truncation, so the bytes of an older, longer file under that number stay behind
      the copy. */
  function WrittenAsWritten(store: Store, k: nat, content: seq<Byte>): (r: Store)
    ensures r.Keys == store.Keys + {k}
    ensures |r[k]| >= |content| && r[k][..|content|] == content
    ensures k !in store ==> r[k] == content
  {
    var before := if k in store then store[k] else [];
    store[k := content + if |before| > |content| then before[|content|..] else []]
  }

  /** The node set a match turns into: the record joins the sources, and the node
      keeps the older of the two times. */
  function Joined(ns: NodeSet, rec: FileRecord): (r: NodeSet)
    requires Sorted(ns.sources)
    ensures Sorted(r.sources) && rec in r.sources && (forall x :: x in ns.sources ==> x in r.sources)
    ensures r.mtime <= ns.mtime && r.mtime <= rec.mtime && (r.mtime == ns.mtime || r.mtime == rec.mtime)
    ensures r.node == ns.node && r.signature == ns.signature && r.others == ns.others
  {
    var added := ns.(sources := Insert(ns.sources, rec));
    if ns.mtime > rec.mtime then added.(mtime := rec.mtime) else added
  }

  /** `insert_if_unique` on the candidate `c`, under the MD5 function `md5`; `asWritten`
      selects the storage failure code and the store write as written. */
  ghost function Inserting(md5: seq<Byte> -> Files.Digest, a: Archive, c: Candidate, asWritten: bool)
    : (r: (nat, Archive))
    requires Indexed(a.entries)
    ensures Indexed(r.1.entries)
  {
    var sig := Files.Sign(md5, c.content);
    match FoundIn(a.entries, a.store, a.entries.Keys, sig, c.content)
    case Some(k) =>
      (NotInserted, a.(entries := a.entries[k := Joined(a.entries[k], c.rec)]))
    case None =>
      var unique := (a.unique + 1) % UintModulus;
      var al := Allocated(a.alloc, 0);
      if !al.ok then (NameAllocationFailure, a.(unique := unique))
      else
        var ns := NodeSet(al.node, c.rec.mtime, sig, [c.rec], []);
        var entries := if al.node in a.entries then a.entries else a.entries[al.node := ns];
        if !c.storable then
          (if asWritten then StorageFailureAsWritten else StorageFailure, Archive(entries, al.after, a.store, unique))
        else
          var store := if asWritten then WrittenAsWritten(a.store, al.node, c.content)
                       else a.store[al.node := c.content];
          (Inserted, Archive(entries, al.after, store, unique))
  }

  /** `insert_if_unique`, with a storage failure code of its own and a truncating store
      write (see `FailureCodeAmbiguousAsWritten` and `StaleTailSplitsDuplicatesAsWritten`).
      The store and `unique_count` are passed in and returned. */
  method InsertIfUnique(md5: seq<Byte> -> Files.Digest, unique: nat, nna: NodeNumberAllocator,
                        nodes: NodesMap, store: Store, c: Candidate)
    returns (code: nat, unique': nat, store': Store)
    requires Indexed(nodes.entries)
    modifies nna, nodes
    ensures (code, Archive(nodes.entries, nna.Value(), store', unique'))
            == Inserting(md5, Archive(old(nodes.entries), old(nna.Value()), store, unique), c, false)
  {
    var sig := Files.Sign(md5, c.content);
    var found := Find(nodes, store, sig, c.content);
    if found.Some? {
      var k := found.value;
      var ns := nodes.entries[k];
      ns := ns.(sources := Insert(ns.sources, c.rec));
      if ns.mtime > c.rec.mtime {
        ns := ns.(mtime := c.rec.mtime);
      }
      nodes.entries := nodes.entries[k := ns];
      return NotInserted, unique, store;
    }
    unique' := (unique + 1) % UintModulus;
    var ok, node := nna.Alloc(0);
    if !ok {
      return NameAllocationFailure, unique', store;
    }
    if node !in nodes.entries {
      nodes.entries := nodes.entries[node := NodeSet(node, c.rec.mtime, sig, [c.rec], [])];
    }
    if !c.storable {
      return StorageFailure, unique', store;
    }
    store' := store[node := c.content];
    code := Inserted;
  }

  /** The index invariant: the map is indexed and its keys are exactly the numbers
      the allocator has in use. */
  predicate Coherent(a: Archive) {
    Indexed(a.entries) && Consistent(a.alloc) && InUse(a.alloc) == a.entries.Keys
  }

  /** An insert keeps the map's keys and the allocator's numbers in use in step,
      whatever its outcome. */
  lemma InsertKeepsCoherent(md5: seq<Byte> -> Files.Digest, a: Archive, c: Candidate, asWritten: bool)
    requires Coherent(a)
    ensures Coherent(Inserting(md5, a, c, asWritten).1)
  {
    var sig := Files.Sign(md5, c.content);
    if FoundIn(a.entries, a.store, a.entries.Keys, sig, c.content).None? && Allocated(a.alloc, 0).ok {
      AllocTakesLeastUnused(a.alloc, 0);
    }
  }

  /** A content already stored: the node holding it gains the record and keeps the
      older time; nothing else changes. */
  lemma MatchJoinsNode(md5: seq<Byte> -> Files.Digest, a: Archive, c: Candidate, asWritten: bool, k: nat)
    requires Indexed(a.entries)
    requires k in a.entries && Matches(a.entries, a.store, k, Files.Sign(md5, c.content), c.content)
    requires forall j :: j in a.entries && j < k ==> !Matches(a.entries, a.store, j, Files.Sign(md5, c.content), c.content)
    ensures var r := Inserting(md5, a, c, asWritten);
            r.0 == NotInserted && r.1.entries.Keys == a.entries.Keys
            && c.rec in r.1.entries[k].sources
            && (forall x :: x in a.entries[k].sources ==> x in r.1.entries[k].sources)
            && r.1.entries[k].mtime == (if c.rec.mtime < a.entries[k].mtime then c.rec.mtime else a.entries[k].mtime)
            && (forall j :: j in a.entries && j != k ==> r.1.entries[j] == a.entries[j])
            && r.1.alloc == a.alloc && r.1.store == a.store && r.1.unique == a.unique
  {
    var sig := Files.Sign(md5, c.content);
    FoundInIsLeastMatch(a.entries, a.store, a.entries.Keys, sig, c.content);
  }

  /** A new content: `unique_count` goes up by one (modulo the `unsigned` range) and
      the least unused number names a node set holding only this record, added to the
      map before the store is written. The store gets the bytes unless it refuses them;
      then the node set stays in the map. */
  lemma NewContentGetsNode(md5: seq<Byte> -> Files.Digest, a: Archive, c: Candidate)
    requires Coherent(a)
    requires forall j :: j in a.entries ==> !Matches(a.entries, a.store, j, Files.Sign(md5, c.content), c.content)
    requires !(a.alloc.free == {} && a.alloc.maxNode == MaxAllocation)
    ensures var r := Inserting(md5, a, c, false);
            exists k :: (1 <= k && k !in a.entries && (forall j :: 1 <= j < k ==> j in a.entries)
                         && r.1.entries == a.entries[k := NodeSet(k, c.rec.mtime, Files.Sign(md5, c.content), [c.rec], [])]
                         && r.1.unique == (a.unique + 1) % UintModulus
                         && (c.storable ==> r.0 == Inserted && r.1.store == a.store[k := c.content])
                         && (!c.storable ==> r.0 == StorageFailure && r.1.store == a.store))
  {
    var sig := Files.Sign(md5, c.content);
    FoundInIsLeastMatch(a.entries, a.store, a.entries.Keys, sig, c.content);
    AllocTakesLeastUnused(a.alloc, 0);
    var k := Allocated(a.alloc, 0).node;
    assert k !in a.entries;
  }

  /** When nothing is free and the range is exhausted, the insert changes nothing but
      `unique_count`. */
  lemma AllocationFailureTouchesNothing(md5: seq<Byte> -> Files.Digest, a: Archive, c: Candidate, asWritten: bool)
    requires Indexed(a.entries)
    requires forall j :: j in a.entries ==> !Matches(a.entries, a.store, j, Files.Sign(md5, c.content), c.content)
    requires a.alloc.free == {} && a.alloc.maxNode == MaxAllocation
    ensures var r := Inserting(md5, a, c, asWritten);
            r.0 == NameAllocationFailure && r.1 == a.(unique := (a.unique + 1) % UintModulus)
  {
    FoundInIsLeastMatch(a.entries, a.store, a.entries.Keys, Files.Sign(md5, c.content), c.content);
  }

  /** With the storage failure code of its own, the code tells the caller whether the
      map changed: after an allocation failure it did not, after a storage failure it
      gained a node. */
  lemma FailureCodeTellsMap(md5: seq<Byte> -> Files.Digest, a: Archive, c: Candidate)
    requires Coherent(a)
    ensures var r := Inserting(md5, a, c, false);
            r.0 in {NotInserted, Inserted, NameAllocationFailure, StorageFailure}
            && (r.0 == NameAllocationFailure ==> r.1.entries == a.entries)
            && (r.0 == StorageFailure ==> a.entries.Keys < r.1.entries.Keys)
  {
    var sig := Files.Sign(md5, c.content);
    if FoundIn(a.entries, a.store, a.entries.Keys, sig, c.content).None? && Allocated(a.alloc, 0).ok {
      AllocTakesLeastUnused(a.alloc, 0);
    }
  }

  /** As written, the code 2 comes back both when the map is left as it was (no number
      could be allocated) and when it gained a node set (the store refused the copy). */
  lemma FailureCodeAmbiguousAsWritten(md5: seq<Byte> -> Files.Digest, c: Candidate)
    requires !c.storable
    ensures var exhausted := Archive(map[], State(MaxAllocation, {}), map[], 0);
            var empty := Archive(map[], State(0, {}), map[], 0);
            var r1 := Inserting(md5, exhausted, c, true);
            var r2 := Inserting(md5, empty, c, true);
            r1.0 == r2.0 == NameAllocationFailure
            && r1.1.entries == exhausted.entries && r2.1.entries != empty.entries
  {
    var empty := Archive(map[], State(0, {}), map[], 0);
    assert 1 in Inserting(md5, empty, c, true).1.entries;
  }

  /** As written, a store file left under a number from an earlier run (one whose map
      was never written back) keeps its tail when a shorter content is copied over it,
      and the same content found again no longer matches: it gets a second node. */
  lemma StaleTailSplitsDuplicatesAsWritten(md5: seq<Byte> -> Files.Digest)
    ensures var a := Archive(map[], State(0, {}), map[1 := [0, 0]], 0);
            var c1 := Candidate(FileRecord("a", 0), [7], true);
            var c2 := Candidate(FileRecord("b", 0), [7], true);
            var r1 := Inserting(md5, a, c1, true);
            var r2 := Inserting(md5, r1.1, c2, true);
            Coherent(a) && r1.0 == Inserted && r2.0 == Inserted && r2.1.entries.Keys == {1, 2}
  {
    var a := Archive(map[], State(0, {}), map[1 := [0, 0]], 0);
    var c1 := Candidate(FileRecord("a", 0), [7], true);
    var r1 := Inserting(md5, a, c1, true);
    assert r1.1.store[1] == [7, 0];
    assert r1.1.entries.Keys == {1} && r1.1.alloc == State(1, {});
    assert Least({1}) == 1;
    var sig := Files.Sign(md5, [7]);
    assert !Matches(r1.1.entries, r1.1.store, 1, sig, [7]);
    assert FoundIn(r1.1.entries, r1.1.store, {1}, sig, [7]) == None by {
      assert {1} - {1} == {};
    }
  }

  /** The same content reached by two paths is stored once: the second insert finds
      the node the first one made, and that node lists both records. */
  lemma SameContentOneNode(md5: seq<Byte> -> Files.Digest, a: Archive, c1: Candidate, c2: Candidate)
    requires Coherent(a) && c1.content == c2.content
    requires Inserting(md5, a, c1, false).0 == Inserted
    ensures var r1 := Inserting(md5, a, c1, false);
            var r2 := Inserting(md5, r1.1, c2, false);
            r2.0 == NotInserted && r2.1.entries.Keys == r1.1.entries.Keys
            && exists k :: k in r2.1.entries && k !in a.entries
                           && c1.rec in r2.1.entries[k].sources && c2.rec in r2.1.entries[k].sources
  {
    var sig := Files.Sign(md5, c1.content);
    var r1 := Inserting(md5, a, c1, false);
    FoundInIsLeastMatch(a.entries, a.store, a.entries.Keys, sig, c1.content);
    AllocTakesLeastUnused(a.alloc, 0);
    var k := Allocated(a.alloc, 0).node;
    assert k !in a.entries;
    assert r1.1.entries == a.entries[k := NodeSet(k, c1.rec.mtime, sig, [c1.rec], [])];
    assert r1.1.store == a.store[k := c1.content];
    forall j | j in r1.1.entries && j < k ensures !Matches(r1.1.entries, r1.1.store, j, sig, c2.content) {
      assert j in a.entries && !Matches(a.entries, a.store, j, sig, c1.content);
    }
    MatchJoinsNode(md5, r1.1, c2, false, k);
  }

  /** Equal signatures over different contents are told apart by the content
      comparison: the node made for the first content is left as it was by the second. */
  lemma SameSignatureOtherContentSeparate(md5: seq<Byte> -> Files.Digest, a: Archive,
                                          c1: Candidate, c2: Candidate)
    requires Coherent(a) && c1.content != c2.content
    requires Files.Sign(md5, c1.content) == Files.Sign(md5, c2.content)
    requires Inserting(md5, a, c1, false).0 == Inserted
    ensures var r1 := Inserting(md5, a, c1, false);
            var r2 := Inserting(md5, r1.1, c2, false);
            exists k :: k in r1.1.entries && k !in a.entries && r1.1.entries[k].sources == [c1.rec]
                        && k in r2.1.entries && r2.1.entries[k] == r1.1.entries[k]
  {
    var sig := Files.Sign(md5, c1.content);
    var r1 := Inserting(md5, a, c1, false);
    AllocTakesLeastUnused(a.alloc, 0);
    var k := Allocated(a.alloc, 0).node;
    assert k !in a.entries;
    assert r1.1.entries == a.entries[k := NodeSet(k, c1.rec.mtime, sig, [c1.rec], [])];
    assert r1.1.store == a.store[k := c1.content];
    assert !Matches(r1.1.entries, r1.1.store, k, sig, c2.content);
    FoundInIsLeastMatch(r1.1.entries, r1.1.store, r1.1.entries.Keys, sig, c2.content);
  }

  // ---------------------------------------------------------------------------
  // arch_insert
  // ---------------------------------------------------------------------------

  /** Some node set of the map lists the record among its sources. */
  predicate Recorded(m: map<nat, NodeSet>, rec: FileRecord) {
    exists k :: k in m && rec in m[k].sources
  }

  /** An insert loses no record, and one that succeeds records its file. */
  lemma InsertKeepsRecords(md5: seq<Byte> -> Files.Digest, a: Archive, c: Candidate, asWritten: bool)
    requires Coherent(a)
    ensures var r := Inserting(md5, a, c, asWritten);
            (forall rec :: Recorded(a.entries, rec) ==> Recorded(r.1.entries, rec))
            && (r.0 == Inserted || r.0 == NotInserted ==> Recorded(r.1.entries, c.rec))
  {
    var sig := Files.Sign(md5, c.content);
    var r := Inserting(md5, a, c, asWritten);
    var f := FoundIn(a.entries, a.store, a.entries.Keys, sig, c.content);
    if f.None? && Allocated(a.alloc, 0).ok {
      AllocTakesLeastUnused(a.alloc, 0);
    }
    forall rec | Recorded(a.entries, rec) ensures Recorded(r.1.entries, rec) {
      var k :| k in a.entries && rec in a.entries[k].sources;
      assert k in r.1.entries && rec in r.1.entries[k].sources;
    }
    if f.Some? {
      assert c.rec in r.1.entries[f.value].sources;
    } else if r.0 == Inserted {
      var k := Allocated(a.alloc, 0).node;
      assert c.rec in r.1.entries[k].sources;
    }
  }

  /** The record loop of `arch_insert`: the files in the order given (the source's
      set orders them by time and then path; nothing here depends on it), stopping at the
      first insert that neither inserted nor found its file; `false` when it stopped. */
  ghost function InsertAll(md5: seq<Byte> -> Files.Digest, a: Archive, files: seq<Candidate>)
    : (r: (bool, Archive))
    requires Indexed(a.entries)
    ensures Indexed(r.1.entries)
    decreases |files|
  {
    if files == [] then (true, a)
    else
      var step := Inserting(md5, a, files[0], false);
      if step.0 != Inserted && step.0 != NotInserted then (false, step.1)
      else InsertAll(md5, step.1, files[1..])
  }

  /** A loop that went through every file leaves each of them recorded; stopped or
      not, it keeps every record already present and the index coherent. */
  lemma {:induction false} InsertAllRecords(md5: seq<Byte> -> Files.Digest, a: Archive, files: seq<Candidate>)
    requires Coherent(a)
    ensures var r := InsertAll(md5, a, files);
            Coherent(r.1) && (forall rec :: Recorded(a.entries, rec) ==> Recorded(r.1.entries, rec))
            && (r.0 ==> forall i :: 0 <= i < |files| ==> Recorded(r.1.entries, files[i].rec))
    decreases |files|
  {
    if files != [] {
      var step := Inserting(md5, a, files[0], false);
      InsertKeepsCoherent(md5, a, files[0], false);
      InsertKeepsRecords(md5, a, files[0], false);
      if step.0 == Inserted || step.0 == NotInserted {
        InsertAllRecords(md5, step.1, files[1..]);
        var r := InsertAll(md5, a, files);
        forall i | 0 <= i < |files| && r.0 ensures Recorded(r.1.entries, files[i].rec) {
          if i > 0 {
            assert files[i] == files[1..][i - 1];
          }
        }
      }
    }
  }

  /** The result codes of `arch_insert`. */
  const Success: nat := 0
  const OpenFail: nat := 1
  const ParseFail: nat := 2
  const SystemErr: nat := 3

  /** How a run of `arch_insert` ends: its code, the store as it is left, and the
      taxonomy text written back, if any. `Unfinished` is a run that never ends:
      rebuilding the allocator from a map with a node 0 counts up through every
      `size_t` value looking for key 0. */
  datatype Run = Finished(code: nat, store: Store, taxonomy: Option<string>) | Unfinished

  /** `arch_insert`: `taxonomy` is the taxonomy file's text (nothing when it cannot be
      opened), `sig0` the signature the parse starts from, `files` the traversal's
      output in any order (the source's set orders it by time and then path), and
      `writable` whether the taxonomy file can be opened for writing at the end. */
  ghost function ArchInserting(md5: seq<Byte> -> Files.Digest, taxonomy: Option<string>, sig0: Files.Digest,
                               files: seq<Candidate>, store: Store, writable: bool): Run
  {
    if taxonomy.None? then Finished(OpenFail, store, None)
    else
      var parsed := ParseMap(taxonomy.value, sig0, map[]);
      if parsed.status.value != PS.Found then Finished(ParseFail, store, None)
      else if 0 in parsed.entries then Unfinished
      else
        var keys := parsed.entries.Keys;
        ParseMapIndexed(taxonomy.value, sig0);
        var r := InsertAll(md5, Archive(parsed.entries, State(Top(keys), Gaps(keys, Top(keys))), store, 0), files);
        if !r.0 then Finished(SystemErr, r.1.store, None)
        else if !writable then Finished(OpenFail, r.1.store, None)
        else Finished(Success, r.1.store, Some(MapText(r.1.entries)))
  }

  /** A failed parse ends the run before any file is looked at; a taxonomy is written
      back only by a successful run, and it then records every file of the traversal
      and every source the taxonomy read in already had. */
  lemma ArchInsertOutcomes(md5: seq<Byte> -> Files.Digest, taxonomy: Option<string>, sig0: Files.Digest,
                           files: seq<Candidate>, store: Store, writable: bool)
    ensures var run := ArchInserting(md5, taxonomy, sig0, files, store, writable);
            ((taxonomy.Some? && ParseMap(taxonomy.value, sig0, map[]).status.value != PS.Found)
             ==> run == Finished(ParseFail, store, None))
            && (run.Finished? && run.taxonomy.Some? ==> run.code == Success)
            && (run.Finished? && run.code == Success ==>
                  taxonomy.Some? &&
                  exists m :: run.taxonomy == Some(MapText(m)) && Indexed(m)
                              && (forall i :: 0 <= i < |files| ==> Recorded(m, files[i].rec))
                              && (forall rec :: Recorded(ParseMap(taxonomy.value, sig0, map[]).entries, rec)
                                                ==> Recorded(m, rec)))
  {
    var run := ArchInserting(md5, taxonomy, sig0, files, store, writable);
    if run.Finished? && run.code == Success {
      var parsed := ParseMap(taxonomy.value, sig0, map[]);
      var keys := parsed.entries.Keys;
      ParseMapIndexed(taxonomy.value, sig0);
      ParsedInUse(keys);
      var a := Archive(parsed.entries, State(Top(keys), Gaps(keys, Top(keys))), store, 0);
      InsertAllRecords(md5, a, files);
      var r := InsertAll(md5, a, files);
      assert run.taxonomy == Some(MapText(r.1.entries));
    }
  }

  /** The record loop of `arch_insert`: `ok` is false when it stopped at a failed
      insert. */
  method InsertFiles(md5: seq<Byte> -> Files.Digest, nna: NodeNumberAllocator, nodes: NodesMap,
                     store0: Store, unique0: nat, files: seq<Candidate>)
    returns (ok: bool, store: Store, unique: nat)
    requires Indexed(nodes.entries)
    modifies nna, nodes
    ensures (ok, Archive(nodes.entries, nna.Value(), store, unique))
            == InsertAll(md5, Archive(old(nodes.entries), old(nna.Value()), store0, unique0), files)
  {
    ghost var start := Archive(nodes.entries, nna.Value(), store0, unique0);
    store, unique := store0, unique0;
    var i := 0;
    while i < |files|
      invariant 0 <= i <= |files| && Indexed(nodes.entries)
      invariant InsertAll(md5, Archive(nodes.entries, nna.Value(), store, unique), files[i..])
                == InsertAll(md5, start, files)
    {
      var code;
      code, unique, store := InsertIfUnique(md5, unique, nna, nodes, store, files[i]);
      if code != Inserted && code != NotInserted {
        return false, store, unique;
      }
      assert files[i..][1..] == files[i + 1..];
      i := i + 1;
    }
    assert files[i..] == [];
    ok := true;
  }

  /** `arch_insert`. */
  method ArchInsert(md5: seq<Byte> -> Files.Digest, taxonomy: Option<string>, sig0: Files.Digest,
                    files: seq<Candidate>, store0: Store, writable: bool) returns (run: Run)
    ensures run == ArchInserting(md5, taxonomy, sig0, files, store0, writable)
  {
    if taxonomy.None? {
      return Finished(OpenFail, store0, None);
    }
    var nodes := new NodesMap();
    var status := nodes.Parse(taxonomy.value, sig0);
    ghost var parsed := ParseMap(taxonomy.value, sig0, map[]);
    assert status == parsed.status && nodes.entries == parsed.entries;
    if status.value != PS.Found {
      return Finished(ParseFail, store0, None);
    }
    if 0 in nodes.entries {
      return Unfinished;
    }
    ParseMapIndexed(taxonomy.value, sig0);
    ghost var keys := parsed.entries.Keys;
    var nna := new NodeNumberAllocator();
    nna.Parse(nodes.entries.Keys);
    assert nna.Value() == State(Top(keys), Gaps(keys, Top(keys)));
    ghost var r := InsertAll(md5, Archive(parsed.entries, State(Top(keys), Gaps(keys, Top(keys))), store0, 0), files);
    var ok, store, unique := InsertFiles(md5, nna, nodes, store0, 0, files);
    assert ok == r.0 && store == r.1.store && nodes.entries == r.1.entries;
    if !ok {
      return Finished(SystemErr, store, None);
    }
    if !writable {
      return Finished(OpenFail, store, None);
    }
    var out := nodes.Print();
    return Finished(Success, store, Some(out));
  }
}
