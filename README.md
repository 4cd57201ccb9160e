# only-one: the index engine of a deduplicating archiver, in Dafny

only-one keeps one copy of each distinct file content. It stores the content in a
directory of numbered files, the content store, and it records which source paths
hold each content in a text file, the taxonomy. This project models the core of that
index engine and proves properties of the model. The parts are listed from the
leaves up:

- **The phrase codec** (`src/phrase.h`). A phrase is a list of string tokens plus a
  trailing comment, written one per line. It has two encodings:
  - the inline encoding (`# word`, `#N <N raw bytes>`, `; comment`), read by `parse1`;
  - the column encoding, a `. `-prefixed control line whose dot runs mark the columns
    of each token in the data line below it, read by `parse2`.

  The modules are `Phrase`, `PhraseRules`, `PhraseProofs`, `ColumnCodec`,
  `ColumnRules` and `ColumnProofs`. `PhraseRules` and `ColumnRules` state what each
  decoder does for every line.
- **`ParseStatus`** (`src/parse_status.h`), the bit-flag result of every parser.
  Module `ParseStatus`.
- **File records** (`src/directory.h`). A record is a path and a modification time.
  They are ordered by time, then path, and kept in a `std::set`. Module `Directory`.
- **Signatures** (`src/file.h`). A signature is the 16-byte MD5 digest of a file's
  first 4096 bytes. It is printed as 32 hexadecimal digits and parsed back, and a
  candidate file is compared with a stored one block by block. Module `Files`.
- **The taxonomy** (`src/taxonomy.h`):
  - `node_set` is one stored content: its node number, time, signature, source
    records and any other phrases;
  - `nodes_map` is every node set, keyed by node number;
  - `node_number_allocator` hands out node numbers.

  The modules are `Taxonomy`, `TaxonomyProofs`, `TaxonomyRoundTrip` and `Allocator`.
- **The insert engine** (`src/insert.cc`):
  - `find` looks a file up by signature and then by content;
  - `insert_if_unique` adds a source record to an existing node, or stores a new
    content under a fresh number;
  - `arch_insert` parses the taxonomy, inserts every file of a traversal, and writes
    the taxonomy back.

  Module `InsertEngine`.

Two helper modules sit under these:
- `Text` holds the C++ stream conversions `>>` and `<<` for numbers and white space.
- `KeyOrder` holds the ascending iteration order of `std::set` and `std::map` keys.

**How streams are modelled.** A stream is a text plus a cursor position. `tellg`
and `seekg` save and restore the position. The eof bit is returned as a flag.

**Values and objects.** Phrases, records and node sets are datatypes. The
signature's 16-byte buffer is an `array` inside class `Files.Signature`, because
`parse` and `=` write it in place. `node_number_allocator` and `nodes_map` are
classes whose methods update their fields.

**Loops.** Every loop of the source but two is a method with invariants, proved
equal to a function that specifies it. Properties are then proved about the
specifying functions. The two exceptions are the loops that copy a comment to the end
of its line:
- in `parse1` (`src/phrase.h:162-164`), the slice `s[c..]` in `Phrase.ScanStep`;
- in `parse2` (`src/phrase.h:223-225`), the slice `data[i..]` in
  `ColumnCodec.TrailingCheck`.

Where the source has a defect, the model keeps both versions:
- the code as written, with a lemma that shows the defect on a concrete input;
- the evidently intended version, with its property proved.

The rest of the model uses the corrected version. See "## Findings".

Where a comment in the source describes more than its code does, the model follows
the code:
- **Malformed node sets.** The comment on `node_set::parse` (`src/taxonomy.h:121-123`)
  says that a malformed set should skip ahead to the next node phrase before it returns.
  The code returns `Malformed` at once (`src/taxonomy.h:143-174`). With the test at
  `src/taxonomy.h:275` corrected, `nodes_map::parse` reads on to the end and then
  returns `Malformed` when any misparse was counted (`src/taxonomy.h:282-283`), or
  stops with `MaxErrors` at the tenth (`src/taxonomy.h:279`). As written it counts
  nothing and returns `Found`; see "## Findings".
- **Freeing a number below the largest.** The comment in `dealloc`
  (`src/taxonomy.h:363`) says that the code after it runs only when the freed number
  is the largest. It also runs after a smaller number is freed; see "## Findings".
- **Bytes printed bare.** A token is printed bare when every byte passes
  `is_printable_ASCII` (`src/phrase.h:90-95`). In the model each `char` of a string
  stands for one byte; see "## Left out" for chars above 255.

## Model

| member | source | states |
|---|---|---|
| ParseStatus.Default | src/parse_status.h:8 | a default status is `UnInitialized`: value 0, no flag set |
| ParseStatus.FromByte | src/parse_status.h:9 | constructing from a byte keeps the byte as the value |
| ParseStatus.FlagsAreDistinctSingleBits | src/parse_status.h:14-21 | the seven flags are single bits, pairwise disjoint, and none is `UnInitialized` |
| ParseStatus.EqualityIsOnValue | src/parse_status.h:11-12 | `==` and `!=` are exact complements, and two statuses are `==` exactly when their values are equal |
| Text.SkipSpaces | src/phrase.h:130 | `>>` skips exactly the run of white space ahead of a word |
| Text.WordEnd | src/phrase.h:130 | a word read by `>>` runs up to the first white space or the end |
| Text.NatToString | src/taxonomy.h:79-81 | `<<` of a number writes a non-empty run of decimal digits |
| Text.IntToString | src/directory.h:64-66 | `<<` of a time writes a non-empty text |
| Text.ParseNat | src/taxonomy.h:156-161 | `>>` into a `size_t` succeeds only on a text holding a digit |
| Text.ParseInt | src/directory.h:76-78 | `>>` into a `time_t` succeeds only on a text holding a digit |
| Text.NatRoundTrip | src/taxonomy.h:79-161 | reading back the number `<<` wrote gives the same number |
| Text.IntRoundTrip | src/directory.h:64-78 | reading back the time `<<` wrote gives the same time, negative times included |
| Text.NumbersHaveNoSpaces | src/directory.h:64-66 | printed numbers hold no white space, so `>>` reads each back as one word |
| Directory.StripTrailing | src/directory.h:36-38 | the loop erasing the last character while it is `/` computes `Stripped` |
| Directory.StrippedRemovesTrailingSlashes | src/directory.h:36-38 | the result is a prefix of the path and does not end in `/`, and everything removed is `/` |
| Directory.StrippedIsUnique | src/directory.h:36-38 | those two properties determine the result: any prefix with them is the result |
| Directory.StrippedIsIdempotent | src/directory.h:37 | stripping twice is the same as stripping once |
| Directory.SlashesStripToEmpty | src/directory.h:37 | a path made only of slashes becomes empty |
| Directory.LessIsStrictTotalOrder | src/directory.h:84-86 | the record order (time, then path) is irreflexive, transitive, asymmetric and total on distinct records |
| Directory.ParseFields | src/directory.h:70-82 | fewer than two fields give `Malformed` and change nothing; a bad time gives `Malformed` with the path already taken; otherwise `Found`, with path and time set and both fields removed |
| Directory.RecordRoundTrip | src/directory.h:62-82 | parsing the two fields `print` appended restores path and time and leaves any further fields |
| Directory.Insert | src/taxonomy.h:216 | `set::insert` keeps the records sorted and without repetition, adds exactly the new record, and changes nothing when it is already present |
| Directory.PrintList | src/directory.h:96-106 | the loop writes one phrase per record, in set order: the head, the path, the time |
| Directory.TimeIsEncodable | src/directory.h:64-66 | a printed time is a token the inline codec writes and reads back |
| Directory.RecordLineReadsBack | src/directory.h:96-106 | the line printed for one record decodes back to its phrase, `Found`, and the fields after the head parse back to the record |
| Files.HexDigit | src/file.h:69 | `hex` output digits are lower-case hexadecimal |
| Files.FromHex | src/file.h:100-112 | `fromhex` gives a value below 16 or nothing |
| Files.HexDigitValue | src/file.h:100-112 | `fromhex` reads every printed digit back as its value |
| Files.FromHexIgnoresCase | src/file.h:100-112 | the upper- and lower-case forms of a letter digit have the same value, 10 to 15 |
| Files.HexTextLayout | src/file.h:65-72 | `print` writes two digits per byte, byte `k` at offset `2 * (15 - k)`: the last byte first |
| Files.HexTextLength | src/file.h:65-72 | `print` writes exactly two characters per byte |
| Files.HexTextIsHex | src/file.h:65-72 | every character `print` writes is a lower-case hexadecimal digit |
| Files.ParseFrom | src/file.h:114-132 | `parse` from byte `k` on keeps a 16-byte buffer |
| Files.ParseOfPrint | src/file.h:65-132 | parsing the printed text of a digest restores all 16 bytes, whatever the buffer held |
| Files.ParseKeepsHigherBytes | src/file.h:114-132 | bytes at and above half the text's length are never written |
| Files.ParseOkIff | src/file.h:114-132 | `parse` answers true exactly when every character it consumes is hexadecimal and no odd character is left over |
| Files.OddShortTextFails | src/file.h:122-124 | a text of odd length shorter than 32 characters is always refused |
| Files.ParseIgnoresLeading | src/file.h:114-132 | `parse` stops after 16 bytes: characters before the last 32 are never looked at |
| Files.Signature.constructor | src/file.h:150 | a new signature holds a fresh 16-byte buffer with the given bytes |
| Files.Signature.Print | src/file.h:65-72 | the walk from the last byte down to the first writes the digest's hex text |
| Files.Signature.Parse | src/file.h:114-132 | the buffer and the answer are those of the parse function, from the old buffer |
| Files.Signature.Equal | src/file.h:134-140 | `==` is true exactly when all 16 bytes are equal |
| Files.Signature.Assign | src/file.h:142-148 | `=` copies all 16 bytes of the other signature |
| Files.BlockAt | src/file.h:171-173 | one `read` returns the next block of the image, or what is left of it |
| Files.Same | src/file.h:158-178 | `same` is true exactly when the two images are equal, compared in 4096-byte blocks after the lengths |
| Files.SharedPrefixSameSignature | src/file.h:74-82 | contents that agree on their first 4096 bytes get the same signature |
| KeyOrder.Least | src/taxonomy.h:343-344 | `begin()` of a set is its least element |
| KeyOrder.AscendingMembers | src/taxonomy.h:325-333 | iteration over a set of keys visits exactly its elements |
| KeyOrder.AscendingIsSorted | src/taxonomy.h:325-333 | iteration over a set of keys is strictly ascending |
| KeyOrder.First | src/taxonomy.h:343-344 | `begin()` on a non-empty set returns its least element |
| KeyOrder.Top | src/taxonomy.h:327 | the running maximum over a set is its largest element, or zero when empty |
| KeyOrder.TopGrows | src/taxonomy.h:327 | a key above all the others becomes the maximum |
| Allocator.ParsedInUse | src/taxonomy.h:322-335 | rebuilding from the map's keys (none of them zero) makes exactly the keys the numbers in use, with every free number below the largest |
| Allocator.Allocated | src/taxonomy.h:337-348 | `alloc` fails exactly when nothing is free and the largest number is `max_allocation` |
| Allocator.AllocTakesLeastUnused | src/taxonomy.h:337-348 | `alloc` hands out the least number not in use, adds exactly it to the numbers in use, and keeps every free number below the largest |
| Allocator.TrimKeepsInUse | src/taxonomy.h:365-369 | the trimming loop keeps the numbers in use and restores "free numbers lie below the largest" |
| Allocator.DeallocAsWrittenLosesLargest | src/taxonomy.h:360-364 | as written, freeing 3 with 1..5 in use also drops 5, and the next two allocations hand out 3 and then 5 again |
| Allocator.DeallocFrees | src/taxonomy.h:350-371 | `dealloc` succeeds exactly for 1 to the largest number, then removes exactly that number from those in use, and otherwise changes nothing |
| Allocator.DeallocUndoesAlloc | src/taxonomy.h:337-371 | freeing the number just allocated restores the numbers in use |
| Allocator.RunsFromCover | src/taxonomy.h:307-317 | the runs built from an ascending list cover exactly its elements |
| Allocator.RunsFromSeparated | src/taxonomy.h:307-317 | the runs are ascending and separated by at least one missing number |
| Allocator.RunsAreMaximal | src/taxonomy.h:299-320 | the runs of an ascending list are its maximal intervals |
| Allocator.ClosingFromRuns | src/taxonomy.h:307-318 | the loop's remaining output closes the open interval and writes each later run |
| Allocator.OpenedIsIntervals | src/taxonomy.h:299-320 | `print` writes the maximal intervals of the free set, then `[max_node+1 +INF]` |
| Allocator.PrintExample | src/taxonomy.h:299-335 | the keys {2,3,4,5,7,8,11} give the largest number 11 and the free set {1,6,9,10}, printed as `[1 1] [6 6] [9 10] [12 +INF]` |
| Allocator.NodeNumberAllocator.constructor | src/taxonomy.h:292-297 | a new allocator has no free numbers |
| Allocator.NodeNumberAllocator.Parse | src/taxonomy.h:322-335 | `parse` sets the largest number to the largest key and adds every non-key below it to the free set |
| Allocator.NodeNumberAllocator.Alloc | src/taxonomy.h:337-348 | the fields and the answer are those of `Allocated` |
| Allocator.NodeNumberAllocator.Dealloc | src/taxonomy.h:350-371 | the fields and the answer are those of the corrected `dealloc` |
| Allocator.NodeNumberAllocator.Print | src/taxonomy.h:299-320 | the loop over the free set writes its maximal intervals, then the open top interval |
| Phrase.GetLine | src/phrase.h:21 | `getline` fails only at the end of the text; otherwise it returns the line without its newline, and sets eof when the text ends without one |
| Phrase.GetPhraseLine | src/phrase.h:17-43 | `NotFound` exactly at the end of input, `NullObject` exactly for an empty line, `Malformed` for a `.` line with no data line; lines consumed and `lineno` advance accordingly |
| Phrase.AllPrintableIsEvery | src/phrase.h:97-100 | a token is printable exactly when each of its bytes is |
| Phrase.PrintToken | src/phrase.h:97-106 | the scan writes `# tok` when every byte is safe, and `#len tok` otherwise |
| Phrase.BareExactlyWhenPrintable | src/phrase.h:90-106 | the bare form is chosen exactly when all bytes are safe, so the two forms never meet |
| Phrase.PrintRest | src/phrase.h:63-64 | the loop writes each further token after one space |
| Phrase.Print | src/phrase.h:59-67 | `print` writes nothing for an empty phrase, else the tokens one space apart, then ` comment` when there is one, then a newline |
| Phrase.UpToNul | src/phrase.h:154-155 | a raw field stored as a C string ends at its first NUL |
| Phrase.ScanStep | src/phrase.h:130-168 | a turn that goes on moves strictly forward within the line and leaves the state well formed, so the loop ends |
| Phrase.ScanStepGrows | src/phrase.h:130-168 | one control token only appends, at most one token; the flags once set stay set, and a token is only added with a control |
| Phrase.ScanFromGrows | src/phrase.h:130-169 | the `parse1` loop keeps the phrase's tokens in front and only extends the comment |
| Phrase.ScanLine | src/phrase.h:116-169 | the `parse1` loop computes the scan function over the line |
| Phrase.Parse1AsWritten | src/phrase.h:170-172 | as written, `Found` exactly when no error occurred and some `# word` field was read, and `NotFound` exactly on a line of white space |
| Phrase.ScanFromBlank | src/phrase.h:130-169 | a line of white space leaves the scan as it was; any other line makes the loop recognise a control token or fail |
| Phrase.Parse1 | src/phrase.h:116-172 | corrected `parse1`: `Found` exactly when the line is well formed and added a token, `NotFound` exactly on a line of white space, `NullObject` exactly on a well-formed line that added none; the tokens already in the phrase are kept in front |
| Phrase.Parse | src/phrase.h:79-86 | `phrase::parse` decodes a control line starting with `.` by `parse2` and appends its tokens and comment, and any other by `parse1`; it only appends, and `Found` means at least one token was appended |
| Phrase.ParseLine | src/phrase.h:79-86 | the imperative dispatch to `parse1` or `parse2` computes `Parse` |
| PhraseProofs.Parse1RoundTrip | src/phrase.h:59-172 | printing a phrase of non-empty tokens free of newline and NUL, with a `;` comment or none, and decoding the line gives the phrase back, `Found` |
| PhraseProofs.Parse1AsWrittenStatus | src/phrase.h:170-172 | as written, the printed line of such a phrase gives back the phrase, but `Found` only when some token was printed bare, else `NullObject` |
| PhraseProofs.Parse1AsWrittenLosesFound | src/phrase.h:170 | `#3 a b`, the print of the phrase ["a b"], decodes to `NullObject` as written and to `Found` corrected |
| PhraseRules.LineEnds | src/phrase.h:130 | one turn of the `parse1` loop, for every line and loop state: white space up to the end of the line: this turn ends the loop with nothing added |
| PhraseRules.HashWithoutWord | src/phrase.h:131-136 | one turn of the `parse1` loop, for every line and loop state: `#` with no word after it on the line: this turn ends the loop, `Malformed` |
| PhraseRules.HashWord | src/phrase.h:131-137 | one turn of the `parse1` loop, for every line and loop state: `#` followed by a word: this turn appends that word, up to the next white space, sets `data` (the one rule that does), and the loop goes on after the word |
| PhraseRules.CountUnreadable | src/phrase.h:138-146 | one turn of the `parse1` loop, for every line and loop state: `#N` whose `N` does not read as a number: this turn ends the loop, `Malformed` |
| PhraseRules.CountZero | src/phrase.h:138-147 | one turn of the `parse1` loop, for every line and loop state: `#0`: this turn adds nothing, and the loop goes on right after it |
| PhraseRules.CountWithoutSpace | src/phrase.h:147-153 | one turn of the `parse1` loop, for every line and loop state: `#N` with `N` > 0 not followed by a space: this turn ends the loop, `Malformed` |
| PhraseRules.CountedField | src/phrase.h:147-156 | one turn of the `parse1` loop, for every line and loop state: `#N ` with `N` > 0: this turn appends the next `N` characters, or as many as the line has left, cut at the first NUL, and the loop goes on after them |
| PhraseRules.CommentField | src/phrase.h:158-164 | one turn of the `parse1` loop, for every line and loop state: a field starting with `;`: this turn adds it and the rest of the line to the comment and ends the loop |
| PhraseRules.UnknownField | src/phrase.h:165-167 | one turn of the `parse1` loop, for every line and loop state: a field starting with any other character: this turn ends the loop, `Malformed` |
| PhraseProofs.ReadPrintedLine | src/phrase.h:17-43 | `getphraseline` on a printed phrase returns its line, `Found`, and moves past its newline |
| ColumnCodec.GetCh | src/phrase.h:237-246 | `get_ch` does nothing once the control channel has ended, else reads its next column or ends it, and reports whether a column was read |
| ColumnCodec.GetChData | src/phrase.h:237-246 | while data is left `get_ch` reads the next data character alongside the column; past the data's end it gives a space under a `.` and EOF otherwise |
| ColumnCodec.Collapse | src/phrase.h:248-252 | `collapse_spaces` stops on the first non-space column, or at the end of the control |
| ColumnCodec.Gather | src/phrase.h:254-261 | `gather_token` stops on the first non-dot column, keeps both lines, and reports whether the control line went on |
| ColumnCodec.GatherAppends | src/phrase.h:254-261 | `gather_token` keeps the token it is given in front and appends at least one character |
| ColumnCodec.Loop | src/phrase.h:203-220 | the token loop only appends tokens, and a `break` leaves the control channel ended |
| ColumnCodec.Trailing | src/phrase.h:221-230 | the corrected trailing check accepts only spaces followed by a `;` comment, which is returned |
| ColumnCodec.Decode | src/phrase.h:191-233 | `parse2` returns `Found`, `NotFound` or `Malformed` |
| ColumnCodec.CollapseSpaces | src/phrase.h:248-252 | the loop computes `Collapse` |
| ColumnCodec.GatherToken | src/phrase.h:254-261 | the loop computes `Gather` |
| ColumnCodec.TokenLoop | src/phrase.h:203-220 | the loop computes `Loop` |
| ColumnCodec.TrailingCheck | src/phrase.h:221-230 | the loop computes the corrected trailing check |
| ColumnCodec.Parse2Method | src/phrase.h:191-233 | the imperative `parse2` computes the corrected decoder |
| ColumnRules.GetChInitial | src/phrase.h:237-246 | the first `get_ch` reads column 0 of both lines |
| ColumnRules.GetChRead | src/phrase.h:237-246 | after column `j - 1`, `get_ch` reads column `j` of both lines, or meets the control line's end and takes the first data character past it |
| ColumnRules.CollapseRead | src/phrase.h:248-252 | `collapse_spaces` after a space column stops on the next column that is not a space, or fails at the control line's end |
| ColumnRules.GatherRead | src/phrase.h:254-261 | `gather_token` after a dot column appends exactly the data under the whole run of dots, spaces past the data's end, and stops on the column after the run, failing when the run ends the line |
| ColumnRules.LoopRead | src/phrase.h:203-220 | on a control line of dots and spaces the token loop pushes, in order, one token per run of dots holding the data under it, and sets `found_tok` exactly when the line ends inside a run; any other column makes it fail |
| ColumnRules.TrailingAccepts | src/phrase.h:221-230 | the corrected trailing check accepts every run of spaces followed by a `;` comment, and returns that comment |
| ColumnRules.DecodeMeaning | src/phrase.h:191-233 | for every pair of lines: a control line not starting with `. ` gives nothing, `Malformed`; a column other than `.` and space gives `Malformed`; otherwise the tokens are the data under the runs of dots, the status is `Found` exactly when the control line ends in a dot and `NotFound` otherwise, and data past the control line must pass the trailing check, which gives the comment, else `Malformed` |
| ColumnProofs.RoundTrip | src/phrase.h:175-233 | a control line of dot runs over a data line of the same non-empty tokens, one space apart, with a `;` comment or none, decodes to exactly those tokens and that comment, `Found` |
| ColumnProofs.TrailingCharacterLost | src/phrase.h:221-222 | as written `. .` over `. aX;c` decodes to ["a"] with comment `;c`, `Found`, losing `X`; the corrected check reports `Malformed` |
| Taxonomy.PrintNodeSet | src/taxonomy.h:71-104 | `node_set::print` writes the node phrase, one `source` line per record in order, then each other phrase followed by an empty line |
| Taxonomy.NodeFields | src/taxonomy.h:155-174 | the node number, time and signature fields read exactly when each parses, and then the node set holds the values they name; the sources and other phrases stay as they were |
| Taxonomy.Head | src/taxonomy.h:143-174 | a first line that is not a phrase passes its status on and changes nothing; `NotFound` exactly at the end of input; sources and other phrases are untouched |
| Taxonomy.HeadStatus | src/taxonomy.h:143-174 | a first line that is a phrase is `Found` exactly when it is a node phrase of four tokens whose number, time and signature parse, and the set then holds those values, else `Malformed` |
| Taxonomy.Body | src/taxonomy.h:179-229 | the body always returns `Found`, with the stream at or after the rewind point, and keeps the node number, time and signature |
| Taxonomy.Turn | src/taxonomy.h:180-228 | each turn returns `Found` in the end, with the stream at or after the rewind point, and keeps the node number, time and signature |
| Taxonomy.ReadNodeSet | src/taxonomy.h:125-230 | `node_set::parse` makes progress unless at the end, and returns `NotFound` exactly at the end of input |
| Taxonomy.NodeSetStatus | src/taxonomy.h:143-229 | a node set is `Found` exactly when its first line is a node phrase, and then holds that phrase's number, time and signature; `Malformed` exactly when its first line is malformed, or is a phrase but not a node phrase |
| Taxonomy.ParseNodeSet | src/taxonomy.h:125-230 | the imperative parse with its rewind point computes `ReadNodeSet` |
| Taxonomy.MapFrom | src/taxonomy.h:271-283 | the `nodes_map::parse` loop returns `Found`, `Malformed` or `MaxErrors` |
| Taxonomy.MapTurn | src/taxonomy.h:271-281 | each turn returns `Found`, `Malformed` or `MaxErrors` in the end |
| Taxonomy.MapFromStep | src/taxonomy.h:273-280 | one turn inserts a found set unless its number is taken, passes a skipped failure, and counts any other, stopping at the tenth |
| Taxonomy.NodesMap.constructor | src/taxonomy.h:248 | a new map is empty |
| Taxonomy.NodesMap.Parse | src/taxonomy.h:265-284 | the loop fills the map and returns the status of the corrected parse |
| Taxonomy.NodesMap.ParseOne | src/taxonomy.h:272-280 | one loop body reads a node set and files it, keeping the loop's outcome and a count below ten |
| Taxonomy.NodesMap.Print | src/taxonomy.h:251-258 | `print` writes the node sets in ascending node order, each followed by an empty line |
| TaxonomyProofs.BodyKeeps | src/taxonomy.h:179-229 | the body keeps the node fields, keeps the records sorted and every record already read, and keeps earlier other phrases in front |
| TaxonomyProofs.ReadSourcesSorted | src/taxonomy.h:212-216 | the records of a parsed node set are sorted and unique, as in the `std::set` |
| TaxonomyProofs.MapFromKeeps | src/taxonomy.h:273-274 | map `insert` does not overwrite: every entry present stays, unchanged |
| TaxonomyProofs.MapFromIndexed | src/taxonomy.h:273-274 | every node set is filed under its own node number, with sorted records |
| TaxonomyProofs.ParseMapIndexed | src/taxonomy.h:265-284 | a taxonomy parsed into an empty map is indexed by node number |
| TaxonomyProofs.MapFromAsWrittenCountsNothing | src/taxonomy.h:275 | as written, the `&&` test skips every failed node set, so the misparse count never grows: a loop started at zero ends `Found` |
| TaxonomyProofs.ParseMapAsWrittenAlwaysFound | src/taxonomy.h:275-283 | as written, `nodes_map::parse` returns `Found` on every input |
| TaxonomyProofs.MisparseCountedOnlyWhenCorrected | src/taxonomy.h:275-283 | a file holding only `.` is `Malformed` with the corrected test and `Found` as written |
| TaxonomyRoundTrip.NodeSetRoundTrip | src/taxonomy.h:71-230 | a printed node set with printable records and phrases parses back as itself, `Found`, at the end of the file |
| TaxonomyRoundTrip.MapRoundTrip | src/taxonomy.h:251-284 | a printed, indexed map of printable node sets parses back as the same map, `Found` |
| TaxonomyRoundTrip.PrintOfParse | src/taxonomy.h:251-284 | a taxonomy that `print` wrote comes out of `parse` and `print` unchanged |
| InsertEngine.FoundIn | src/insert.cc:108-131 | the answer of `find` is one of the keys searched |
| InsertEngine.FoundInIsLeastMatch | src/insert.cc:108-131 | `find` returns the lowest-numbered node whose signature and stored content match, and nothing exactly when none does; an unopenable store file is no match |
| InsertEngine.Find | src/insert.cc:108-131 | the loop over the map in key order computes `FoundIn` |
| InsertEngine.WrittenAsWritten | src/file.h:48-50 | `open_write` without truncation leaves the copied bytes in front of any older tail |
| InsertEngine.Joined | src/insert.cc:164-165 | a match adds the record to the sorted sources and lowers the node's time to the older of the two |
| InsertEngine.Inserting | src/insert.cc:148-206 | an insert keeps the map indexed by node number |
| InsertEngine.InsertIfUnique | src/insert.cc:148-206 | the method's code, map, allocator, store and counter are those of the corrected insert |
| InsertEngine.InsertKeepsCoherent | src/insert.cc:173-183 | the map's keys and the allocator's numbers in use stay equal, whatever the outcome |
| InsertEngine.MatchJoinsNode | src/insert.cc:163-168 | on a match, `NotInserted`: that node gains the record and keeps the older time, and nothing else changes |
| InsertEngine.NewContentGetsNode | src/insert.cc:173-205 | new content: the counter goes up modulo 2^32, and the least unused number gets a node of this record alone; the store gets the bytes (`Inserted`), or on refusal the code is `StorageFailure` and the node still stays |
| InsertEngine.AllocationFailureTouchesNothing | src/insert.cc:176-179 | with the number range exhausted, only the counter changes, and the code is the allocation failure |
| InsertEngine.FailureCodeTellsMap | src/insert.cc:142-146 | with distinct codes, an allocation failure leaves the map as it was and a storage failure has grown it |
| InsertEngine.FailureCodeAmbiguousAsWritten | src/insert.cc:144-145 | as written, code 2 comes back both with the map unchanged and with a node added |
| InsertEngine.StaleTailSplitsDuplicatesAsWritten | src/insert.cc:186-202 | as written, a longer stale store file keeps its tail, and the same content inserted again gets a second node |
| InsertEngine.SameContentOneNode | src/insert.cc:134-138 | the same content reached by two paths is stored once, and that node lists both records |
| InsertEngine.SameSignatureOtherContentSeparate | src/insert.cc:111-120 | equal signatures over different contents keep separate nodes |
| InsertEngine.InsertKeepsRecords | src/insert.cc:163-183 | an insert loses no record, and a successful one records its file |
| InsertEngine.InsertAll | src/insert.cc:270-282 | the record loop keeps the map indexed |
| InsertEngine.InsertAllRecords | src/insert.cc:270-282 | the record loop keeps every record and the index coherent, and a completed loop records every file |
| InsertEngine.ArchInsertOutcomes | src/insert.cc:233-294 | a failed parse ends the run with `AI_ParseFail` before any insert; only a successful run writes the taxonomy, which then records every file and every earlier source |
| InsertEngine.InsertFiles | src/insert.cc:266-282 | the loop computes `InsertAll` on the map and the allocator in place |
| InsertEngine.ArchInsert | src/insert.cc:224-295 | the method's outcome is that of `arch_insert` |

## Left out

- Input and output are not modelled: files, descriptors, `open_read`, `copy`,
  `cerr`/`cout` logging, the `verbose` and `list_insert` messages, and the `main`
  functions. Streams are a text plus a position. The taxonomy file is an
  `Option<string>`, absent when it cannot be opened. Whether the taxonomy can be
  written back, and whether the store accepts a copy (`Candidate.storable`), are
  given as parameters.
- MD5 is a function parameter `md5` applied to the first 4096 bytes
  (`Files.Sign`); its internals are not modelled.
- The directory traversal `list_files` and the `std::regex` exclusion are not part
  of this model. The traversal's output is a given sequence of candidates. The
  source iterates a `std::set<file_record>`, ordered by time and then path
  (`src/insert.cc:265-282`); the model's lemmas hold for every order of the files, which
  includes that one.
- The snapshot rotation of taxonomy files is done outside `arch_insert` and is not
  part of this model.
- File records hold only the path and the time. `type` and `target` are neither
  printed nor parsed, and are left out.
- `lineno` and error messages are left out: the parsers' line numbers feed only the
  messages.
- Text.ParseNat, Text.ParseInt: `ss >>` overflow, and a `-` sign accepted for an
  unsigned `size_t` (where the library wraps around), are not modelled. Their
  ensures state only that a success needs a digit. Their behaviour is pinned down
  by the round-trip lemmas.
- Text.IntToString: states only that the text is non-empty. The round trip is
  stated by `Text.IntRoundTrip`.
- Directory.ParseFields: `file_record::parse` pops fields off the phrase in place.
  The model returns the rest of the phrase instead.
- Allocator.NodeNumberAllocator.Print: requires a non-empty free set. For an empty
  one the source writes an uninitialised `next_in_sequence`.
- Allocator.NodeNumberAllocator.Parse: requires that no key is zero. On a key 0 the
  source's inner loop counts through every `size_t` value. `arch_insert` on such a
  map is modelled as a run that does not finish (`InsertEngine.Run.Unfinished`).
- Allocator.ParsedInUse: requires, like `NodeNumberAllocator.Parse`, that no key is
  zero. Number 0 is never in use, and `parse` does not finish on such a key.
- `max_node` is left uninitialised by the allocator's implicit constructor. The
  model's constructor leaves `maxNode` unconstrained as well, until `Parse` sets it.
- `parse2`'s `ch_control`/`ch_data` are read before they are set. The model starts
  both at a non-EOF character.
- Taxonomy.Body, Taxonomy.Turn, Taxonomy.MapFrom, Taxonomy.MapTurn: their ensures
  give only the status and the position. What they read is stated by
  `TaxonomyProofs.BodyKeeps` and `TaxonomyProofs.MapFromKeeps`, and by the
  round-trip lemmas of `TaxonomyRoundTrip`.
- ColumnCodec.Decode: its own ensures give only the set of statuses. What it
  decodes, for every pair of lines, is stated by `ColumnRules.DecodeMeaning`.
- ColumnCodec.Gather, ColumnCodec.Collapse, ColumnCodec.Loop: their own ensures are
  structural. For every state `parse2` reaches, their outcome is stated by
  `ColumnRules.GatherRead`, `ColumnRules.CollapseRead` and `ColumnRules.LoopRead`.
- Phrase.ScanStep: its ensures state only that the loop moves forward. How one
  turn grows the state is stated by `Phrase.ScanStepGrows`. Each branch of the
  `parse1` loop is stated on the text of the line by the lemmas of `PhraseRules`.
- Phrase.ScanStep, PhraseRules.CountedField: for `#N` the source first allocates
  `new char[N+1]` (`src/phrase.h:148`). An `N` it cannot allocate ends the program
  with an uncaught `bad_alloc`, and `N` = SIZE_MAX wraps to a zero-length buffer that
  the read overruns. The model has no such limit: it takes `N` characters, or as many
  as are left on the line, and goes on.
- Phrase.IsPrintableAscii, Phrase.TokenText: a string is a sequence of `char`, and
  each char stands for one byte of the source's `std::string`. A char above 255 has
  no byte counterpart. The model treats it as unprintable, so a token holding one is
  printed in the `#N` form, with `N` counting chars.
- InsertEngine.Inserting, InsertEngine.InsertAll: their ensures state only that
  the index invariant is kept. Their outcomes are stated by the lemmas after them.
- `unique_count`'s 32-bit wrap-around is modelled. Numbers handed out by `alloc`
  stop at `max_allocation`. Node numbers read from the taxonomy are unbounded, with
  no 64-bit limit (see `Text.ParseNat`). `time_t` is an unbounded integer.
- InsertEngine.Inserting, InsertEngine.NewContentGetsNode: when the store refuses a
  copy, the model leaves the store unchanged. In the source `open_write` has already
  created the file under the new number (`src/file.h:49`, `src/insert.cc:188-200`), so
  an empty or partly written file stays there, the same kind of stale file as in the
  `src/file.h:48-50` finding.

## Findings

| source | as written | input that shows it | evidently intended | confidence | as-written member | corrected member |
|---|---|---|---|---|---|---|
| src/phrase.h:170 | `parse1` returns `Found` only when the `data` variable of the `# word` branch is non-empty | the phrase ["a b"] prints as `#3 a b`, which decodes to `NullObject` | `Found` whenever the line contributed a field | high, not executed | PhraseProofs.Parse1AsWrittenLosesFound | PhraseProofs.Parse1RoundTrip |
| src/phrase.h:221-222 | after the control line ends, `while ((ch_data = idata.get()) == ' ')` reads on without examining the character already in `ch_data` | `. .` over `. aX;c` decodes to ["a"] with comment `;c`, `Found`: `X` is lost | the data past the control line is spaces, then a `;` comment; anything else, trailing spaces with no comment included, is `Malformed` | high, not executed | ColumnProofs.TrailingCharacterLost | ColumnProofs.RoundTrip |
| src/taxonomy.h:275 | `stat.value && (mask)` is a logical and, true for every failed node set, so no misparse is ever counted | a file holding only `.` parses as `Found` with an empty map | `stat.value & (mask)`: only quiet statuses are skipped, and other failures count toward the limit of 10 | high, not executed | TaxonomyProofs.MisparseCountedOnlyWhenCorrected | Taxonomy.NodesMap.Parse |
| src/taxonomy.h:360-364 | `dealloc` lowers `max_node` also when freeing a number below it | with 1..5 in use, freeing 3 also drops 5, which the next allocations hand out a second time | only freeing the largest number lowers `max_node` | high, not executed | Allocator.DeallocAsWrittenLosesLargest | Allocator.DeallocFrees |
| src/insert.cc:144-145 | `Insert_NameAllocationFailure` and `Insert_StorageFailure` are both 2 | an exhausted allocator and a refused store copy both return 2; only the second has added a node | distinct codes, so the caller can tell whether the map changed | high, not executed | InsertEngine.FailureCodeAmbiguousAsWritten | InsertEngine.FailureCodeTellsMap |
| src/file.h:48-50 | `open_write` opens without `O_TRUNC`, so copying over a longer stale store file leaves its tail | store file 1 holds [0, 0], left by a run that ended before writing the taxonomy; [7] inserted as node 1 leaves [7, 0] there, so [7] from a second path gets node 2 | the store file holds exactly the copied content | medium, not executed | InsertEngine.StaleTailSplitsDuplicatesAsWritten | InsertEngine.SameContentOneNode |
