/** File records (src/directory.h): the path and modification time of one archived
    file, their order in a record set, their two phrase fields, and the trailing-slash
    cleanup of path names. */
module Directory {
  import opened Text
  import PS = ParseStatus
  import opened Phrase
  import PhraseProofs

  // ---------------------------------------------------------------------------
  // `strip_trailing`
  // ---------------------------------------------------------------------------

  /** The path without its trailing slashes. */
  function Stripped(path: string): (r: string)
    ensures r <= path
    decreases |path|
  {
    if path != [] && path[|path| - 1] == '/' then Stripped(path[..|path| - 1]) else path
  }

  /** `strip_trailing`: erases the last character while it is a slash. */
  method StripTrailing(path: string) returns (r: string)
    ensures r == Stripped(path)
  {
    r := path;
    while |r| != 0 && r[|r| - 1] == '/'
      invariant Stripped(r) == Stripped(path)
      decreases |r|
    {
      r := r[..|r| - 1];
    }
  }

  /** What is removed is exactly the run of slashes at the end: the result does not
      end in a slash, and everything after it in the path is a slash. */
  lemma {:induction false} StrippedRemovesTrailingSlashes(path: string)
    ensures var r := Stripped(path);
      r <= path && (r == [] || r[|r| - 1] != '/')
      && forall i :: |r| <= i < |path| ==> path[i] == '/'
    decreases |path|
  {
    if path != [] && path[|path| - 1] == '/' {
      var p := path[..|path| - 1];
      StrippedRemovesTrailingSlashes(p);
      var r := Stripped(p);
      forall i | |r| <= i < |path| ensures path[i] == '/' {
        if i < |p| { assert path[i] == p[i]; }
      }
    }
  }

  /** Those properties determine the result: any prefix that does not end in a slash
      and is followed only by slashes is the stripped path. */
  lemma {:induction false} StrippedIsUnique(path: string, r: string)
    requires r <= path && (r == [] || r[|r| - 1] != '/')
    requires forall i :: |r| <= i < |path| ==> path[i] == '/'
    ensures Stripped(path) == r
    decreases |path|
  {
    if |path| > |r| {
      var p := path[..|path| - 1];
      assert path[|path| - 1] == '/';
      assert r <= p by { assert forall i :: 0 <= i < |r| ==> r[i] == p[i]; }
      StrippedIsUnique(p, r);
    } else {
      assert path == r;
    }
  }

  lemma StrippedIsIdempotent(path: string)
    ensures Stripped(Stripped(path)) == Stripped(path)
  {
    var r := Stripped(path);
    StrippedRemovesTrailingSlashes(path);
    StrippedIsUnique(r, r);
  }

  /** A path made only of slashes becomes the empty string. */
  lemma SlashesStripToEmpty(path: string)
    requires forall i :: 0 <= i < |path| ==> path[i] == '/'
    ensures Stripped(path) == ""
  {
    StrippedIsUnique(path, "");
  }

  // ---------------------------------------------------------------------------
  // `file_record`
  // ---------------------------------------------------------------------------

  /** A file record: the full path of the file and its modification time (`time_t`). */
  datatype FileRecord = FileRecord(pathname: string, mtime: int)

  /** `std::string::operator<`: lexicographic on the characters, a proper prefix first. */
  predicate StrLess(a: string, b: string)
    decreases |a|
  {
    if a == [] then b != []
    else if b == [] then false
    else a[0] < b[0] || (a[0] == b[0] && StrLess(a[1..], b[1..]))
  }

  /** `file_record::operator<`: by modification time, then by path name. */
  predicate Less(a: FileRecord, b: FileRecord) {
    a.mtime < b.mtime || (a.mtime == b.mtime && StrLess(a.pathname, b.pathname))
  }

  lemma {:induction false} StrLessIrreflexive(a: string)
    ensures !StrLess(a, a)
    decreases |a|
  {
    if a != [] {
      StrLessIrreflexive(a[1..]);
    }
  }

  lemma {:induction false} StrLessTransitive(a: string, b: string, c: string)
    requires StrLess(a, b) && StrLess(b, c)
    ensures StrLess(a, c)
    decreases |a|
  {
    if a != [] && a[0] == b[0] && b[0] == c[0] {
      StrLessTransitive(a[1..], b[1..], c[1..]);
    }
  }

  lemma {:induction false} StrLessTotal(a: string, b: string)
    requires a != b
    ensures StrLess(a, b) || StrLess(b, a)
    decreases |a|
  {
    if a != [] && b != [] && a[0] == b[0] {
      assert a == [a[0]] + a[1..] && b == [b[0]] + b[1..];
      StrLessTotal(a[1..], b[1..]);
    }
  }

  /** The record order is a strict total order: records the order cannot tell apart
      are equal, so a record set keeps one of them. */
  lemma LessIsStrictTotalOrder(a: FileRecord, b: FileRecord, c: FileRecord)
    ensures !Less(a, a)
    ensures Less(a, b) && Less(b, c) ==> Less(a, c)
    ensures a != b ==> Less(a, b) || Less(b, a)
    ensures !(Less(a, b) && Less(b, a))
  {
    StrLessIrreflexive(a.pathname);
    if Less(a, b) && Less(b, c) && a.mtime == b.mtime == c.mtime {
      StrLessTransitive(a.pathname, b.pathname, c.pathname);
    }
    if a != b && a.mtime == b.mtime {
      StrLessTotal(a.pathname, b.pathname);
    }
    if Less(a, b) && Less(b, a) {
      StrLessTransitive(a.pathname, b.pathname, a.pathname);
    }
  }

  /** `file_record::print`: appends the path and the decimal modification time. */
  function PrintFields(rec: FileRecord, ph: Phrase): Phrase {
    ph.(tokens := ph.tokens + [rec.pathname, IntToString(rec.mtime)])
  }

  /** What `file_record::parse` leaves: its status, the record and the phrase. */
  datatype RecordParse = RecordParse(status: PS.Status, rec: FileRecord, rest: Phrase)

  /** `ss >> mtime` on a stream over `field` when the extraction fails: a field of
      white space only fails before the number is read and leaves the variable alone;
      otherwise the failed conversion stores zero. */
  function FailedTime(field: string, before: int): int {
    if SkipSpaces(field, 0) == |field| then before else 0
  }

  /** `file_record::parse`: takes the path and the modification time off the front of
      the phrase. The path is taken, and its field removed, before the time is read. */
  function ParseFields(rec: FileRecord, ph: Phrase): (r: RecordParse)
    ensures r.status.value in {PS.Found, PS.Malformed}
    ensures |ph.tokens| < 2 ==> r == RecordParse(PS.Status(PS.Malformed), rec, ph)
    ensures |ph.tokens| >= 2 ==> r.rec.pathname == ph.tokens[0]
    ensures |ph.tokens| >= 2 && r.status.value == PS.Malformed ==>
              ParseInt(ph.tokens[1]).None? && r.rest == ph.(tokens := ph.tokens[1..])
    ensures r.status.value == PS.Found <==> |ph.tokens| >= 2 && ParseInt(ph.tokens[1]).Some?
    ensures r.status.value == PS.Found ==>
              r.rec == FileRecord(ph.tokens[0], ParseInt(ph.tokens[1]).value)
              && r.rest == ph.(tokens := ph.tokens[2..])
  {
    if |ph.tokens| < 2 then RecordParse(PS.Status(PS.Malformed), rec, ph)
    else
      var named := rec.(pathname := ph.tokens[0]);
      var rest := ph.(tokens := ph.tokens[1..]);
      match ParseInt(rest.tokens[0])
      case None => RecordParse(PS.Status(PS.Malformed), named.(mtime := FailedTime(rest.tokens[0], rec.mtime)), rest)
      case Some(t) => RecordParse(PS.Status(PS.Found), named.(mtime := t), rest.(tokens := rest.tokens[1..]))
  }

  /** Parsing the fields `print` wrote gives the record back, and leaves whatever
      fields followed them. */
  lemma RecordRoundTrip(any: FileRecord, rec: FileRecord, ts: seq<string>, comment: string)
    ensures ParseFields(any, Phrase([rec.pathname, IntToString(rec.mtime)] + ts, comment))
            == RecordParse(PS.Status(PS.Found), rec, Phrase(ts, comment))
    ensures ParseFields(any, PrintFields(rec, Phrase([], comment)))
            == RecordParse(PS.Status(PS.Found), rec, Phrase([], comment))
  {
    IntRoundTrip(rec.mtime);
    var fields := [rec.pathname, IntToString(rec.mtime)];
    assert (fields + ts)[2..] == ts;
    assert PrintFields(rec, Phrase([], comment)).tokens == fields + [];
  }

  // ---------------------------------------------------------------------------
  // `file_record_list`: a `std::set<file_record>`
  // ---------------------------------------------------------------------------

  /** A record set, in the set's iteration order. */
  predicate Sorted(s: seq<FileRecord>) {
    forall i, j :: 0 <= i < j < |s| ==> Less(s[i], s[j])
  }

  /** `set::insert`: adds the record unless an equal one is present. */
  function Insert(s: seq<FileRecord>, x: FileRecord): (r: seq<FileRecord>)
    requires Sorted(s)
    ensures Sorted(r)
    ensures forall y :: y in r <==> y in s || y == x
    ensures x in s ==> r == s
    decreases |s|
  {
    if s == [] then [x]
    else if Less(x, s[0]) then
      SortedHead(x, s);
      [x] + s
    else if x == s[0] then s
    else
      LessIsStrictTotalOrder(x, s[0], s[0]);
      var t := Insert(s[1..], x);
      InsertAfterHead(s, x, t);
      [s[0]] + t
  }

  /** The head of a record set, ahead of the record being inserted, stays ahead of what
      inserting into the tail gives. */
  lemma InsertAfterHead(s: seq<FileRecord>, x: FileRecord, t: seq<FileRecord>)
    requires Sorted(s) && s != [] && Less(s[0], x)
    requires Sorted(t) && (forall y :: y in t <==> y in s[1..] || y == x) && (x in s[1..] ==> t == s[1..])
    ensures Sorted([s[0]] + t)
    ensures forall y :: y in [s[0]] + t <==> y in s || y == x
    ensures x in s ==> [s[0]] + t == s
  {
    assert s == [s[0]] + s[1..];
    LessIsStrictTotalOrder(s[0], x, s[0]);
    assert forall y :: y in t ==> Less(s[0], y);
  }

  lemma SortedHead(x: FileRecord, s: seq<FileRecord>)
    requires Sorted(s) && s != [] && Less(x, s[0])
    ensures Sorted([x] + s) && x !in s
  {
    forall j | 0 <= j < |s| ensures Less(x, s[j]) && x != s[j] {
      LessIsStrictTotalOrder(x, s[0], s[j]);
    }
  }

  /** The phrase `file_record_list::print` writes for one record: the head, then the
      record's fields, no comment. */
  function RecordPhrase(head: string, rec: FileRecord): Phrase {
    PrintFields(rec, Phrase([head], ""))
  }

  /** Everything `file_record_list::print` writes: one line per record, in set order. */
  function ListText(rs: seq<FileRecord>, head: string): string
    decreases |rs|
  {
    if rs == [] then "" else PhraseText(RecordPhrase(head, rs[0])) + ListText(rs[1..], head)
  }

  lemma ListTextAt(rs: seq<FileRecord>, head: string, i: nat)
    requires i < |rs|
    ensures ListText(rs[i..], head) == PhraseText(RecordPhrase(head, rs[i])) + ListText(rs[i + 1..], head)
  {
    assert rs[i..][1..] == rs[i + 1..];
  }

  /** `file_record_list::print`. */
  method PrintList(rs: seq<FileRecord>, head: string) returns (out: string)
    ensures out == ListText(rs, head)
  {
    out := "";
    var i := 0;
    assert rs[0..] == rs;
    while i < |rs|
      invariant 0 <= i <= |rs|
      invariant out + ListText(rs[i..], head) == ListText(rs, head)
    {
      var line := Print(RecordPhrase(head, rs[i]));
      ListTextAt(rs, head, i);
      Associative(out, line, ListText(rs[i + 1..], head));
      out := out + line;
      i := i + 1;
    }
    assert rs[i..] == [];
  }

  /** A printed time is a token `print_token` can write and `parse1` read back. */
  lemma TimeIsEncodable(t: int)
    ensures PhraseProofs.EncodableToken(IntToString(t))
  {
    var digits := NatToString(if t < 0 then -t else t);
    assert forall i :: 0 <= i < |digits| ==> IsDigit(digits[i]);
  }

  /** Each line of a printed record list reads back, through the inline decoder and
      `file_record::parse`, as the head and the record. */
  lemma RecordLineReadsBack(head: string, rec: FileRecord, any: FileRecord)
    requires PhraseProofs.EncodableToken(head) && PhraseProofs.EncodableToken(rec.pathname)
    ensures PhraseProofs.Encodable(RecordPhrase(head, rec))
    ensures NoNewline(Line(RecordPhrase(head, rec)))
    ensures Parse1(Line(RecordPhrase(head, rec)), Empty) == Parsed(PS.Status(PS.Found), RecordPhrase(head, rec))
    ensures ParseFields(any, Phrase(RecordPhrase(head, rec).tokens[1..], ""))
            == RecordParse(PS.Status(PS.Found), rec, Empty)
  {
    var ph := RecordPhrase(head, rec);
    assert ph.tokens == [head, rec.pathname, IntToString(rec.mtime)];
    TimeIsEncodable(rec.mtime);
    assert PhraseProofs.AllEncodable(ph.tokens[2..]) by {
      assert ph.tokens[2..][1..] == [];
    }
    assert PhraseProofs.AllEncodable(ph.tokens[1..]) by {
      assert ph.tokens[1..][1..] == ph.tokens[2..];
    }
    assert PhraseProofs.Encodable(ph);
    PhraseProofs.Parse1RoundTrip(ph);
    RecordRoundTrip(any, rec, [], "");
    assert ph.tokens[1..] == [rec.pathname, IntToString(rec.mtime)] + [];
  }
}
