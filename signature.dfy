/** The content signature of `file.h`: a 16-byte digest, its hexadecimal text, the
    block-wise `same` comparison of two file images, and `sign` over the first block. */
module Files {
  import opened Text

  const DigestLength := 16
  /** `BLOCKSIZE`: the block size of `same`. */
  const BlockSize := 4096
  /** `SIGNATURE_CHARS`: how many leading bytes of a file the signature covers. */
  const SignatureChars := 4096

  /** The 16 bytes of a signature, `data[0]` first. */
  type Digest = d: seq<Byte> | |d| == DigestLength
    witness [0, 0, 0, 0, 0, 0, 0, 0, 0, 0, 0, 0, 0, 0, 0, 0]

  // ---------------------------------------------------------------------------
  // Hexadecimal text
  // ---------------------------------------------------------------------------

  /** The lower-case digit `hex` writes for a value below 16. */
  function HexDigit(v: int): (c: char)
    requires 0 <= v < 16
    ensures c in "0123456789abcdef"
  {
    "0123456789abcdef"[v]
  }

  /** One byte as `setw(2) << setfill('0') << hex` writes it. */
  function ByteHex(b: Byte): string {
    [HexDigit(b / 16), HexDigit(b % 16)]
  }

  /** The text `signature::print` writes: the bytes from the last down to the first. */
  function HexText(d: seq<Byte>): string
    decreases |d|
  {
    if d == [] then "" else HexText(d[1..]) + ByteHex(d[0])
  }

  /** `fromhex`: the value of a hexadecimal digit of either case, or nothing. */
  function FromHex(c: char): (r: Option<int>)
    ensures r.Some? ==> 0 <= r.value < 16
  {
    if '0' <= c <= '9' then Some(c as int - '0' as int)
    else if 'a' <= c <= 'f' then Some(c as int - 'a' as int + 10)
    else if 'A' <= c <= 'F' then Some(c as int - 'A' as int + 10)
    else None
  }

  /** What `signature::parse` leaves: its answer and the bytes, partly written when it
      stops early. */
  datatype ParseOutcome = ParseOutcome(ok: bool, data: seq<Byte>)

  /** `signature::parse` from byte `k` on: byte `k` is read from the two characters at
      `2k` and `2k + 1` positions from the end of the text, low digit first. */
  function ParseFrom(s: string, k: nat, d: seq<Byte>): (r: ParseOutcome)
    requires |d| == DigestLength && k <= DigestLength
    ensures |r.data| == DigestLength
    decreases DigestLength - k
  {
    if 2 * k >= |s| || k == DigestLength then ParseOutcome(true, d)
    else
      var lo := FromHex(s[|s| - 1 - 2 * k]);
      if lo.None? || 2 * k + 1 == |s| then ParseOutcome(false, d)
      else
        var hi := FromHex(s[|s| - 2 - 2 * k]);
        if hi.None? then ParseOutcome(false, d)
        else ParseFrom(s, k + 1, d[k := hi.value * 16 + lo.value])
  }

  function ParseDigest(s: string, d: seq<Byte>): (r: ParseOutcome)
    requires |d| == DigestLength
  {
    ParseFrom(s, 0, d)
  }

  // ---------------------------------------------------------------------------
  // The signature object
  // ---------------------------------------------------------------------------

  /** `signature`: a fixed buffer of 16 bytes that `parse` and `=` write in place. */
  class Signature {
    const data: array<Byte>

    predicate Valid()
      reads this
    {
      data.Length == DigestLength
    }

    constructor(init: Digest)
      ensures Valid() && data[..] == init && fresh(data)
    {
      data := new Byte[DigestLength](i requires 0 <= i < DigestLength => init[i]);
    }

    /** `print`: walks from the last byte down to the first. */
    method Print() returns (out: string)
      requires Valid()
      ensures out == HexText(data[..])
    {
      out := "";
      var k := DigestLength;
      while k > 0
        invariant 0 <= k <= DigestLength
        invariant out == HexText(data[k..])
      {
        k := k - 1;
        assert data[k..][1..] == data[k + 1..];
        out := out + ByteHex(data[k]);
      }
      assert data[0..] == data[..];
    }

    /** `parse`: reads the text from its end, two characters per byte, filling the bytes
        from the first up; it writes each byte as soon as it is read. */
    method Parse(s: string) returns (ok: bool)
      requires Valid()
      modifies data
      ensures ok == ParseDigest(s, old(data[..])).ok
      ensures data[..] == ParseDigest(s, old(data[..])).data
    {
      var r := |s|;
      var k := 0;
      while r > 0 && k != DigestLength
        invariant 0 <= k <= DigestLength && r == |s| - 2 * k >= 0
        invariant ParseFrom(s, k, data[..]) == ParseDigest(s, old(data[..]))
        decreases DigestLength - k
      {
        var lo := FromHex(s[r - 1]);
        if lo.None? {
          return false;
        }
        r := r - 1;
        if r == 0 {
          return false;
        }
        var hi := FromHex(s[r - 1]);
        if hi.None? {
          return false;
        }
        data[k] := hi.value * 16 + lo.value;
        r := r - 1;
        k := k + 1;
      }
      return true;
    }

    /** `==`: compares byte by byte and stops at the first difference. */
    method Equal(other: Signature) returns (same: bool)
      requires Valid() && other.Valid()
      ensures same <==> data[..] == other.data[..]
    {
      var k := 0;
      while k != DigestLength && data[k] == other.data[k]
        invariant 0 <= k <= DigestLength
        invariant data[..k] == other.data[..k]
      {
        k := k + 1;
      }
      same := k == DigestLength;
      if !same {
        assert data[..][k] != other.data[..][k];
      }
    }

    /** `=`: copies the 16 bytes of another signature. */
    method Assign(other: Signature)
      requires Valid() && other.Valid()
      modifies data
      ensures data[..] == old(other.data[..])
    {
      ghost var source := other.data[..];
      var k := 0;
      while k != DigestLength
        invariant 0 <= k <= DigestLength
        invariant data[..k] == source[..k] && other.data[k..] == source[k..]
      {
        data[k] := other.data[k];
        k := k + 1;
      }
    }
  }

  // ---------------------------------------------------------------------------
  // Properties of the text form
  // ---------------------------------------------------------------------------

  lemma HexDigitValue(v: int)
    requires 0 <= v < 16
    ensures FromHex(HexDigit(v)) == Some(v)
  {
  }

  /** `fromhex` gives the same value for the upper- and lower-case form of a letter. */
  lemma FromHexIgnoresCase(i: int)
    requires 0 <= i < 6
    ensures FromHex(('a' as int + i) as char) == FromHex(('A' as int + i) as char) == Some(10 + i)
  {
  }

  /** The printed text has two lower-case digits per byte, byte `k` at `2 * (|d| - 1 - k)`. */
  lemma {:induction false} HexTextLayout(d: seq<Byte>, k: nat)
    requires k < |d|
    ensures |HexText(d)| == 2 * |d|
    ensures HexText(d)[2 * (|d| - 1 - k)..2 * (|d| - k)] == ByteHex(d[k])
    decreases |d|
  {
    HexTextLength(d);
    var front := HexText(d[1..]);
    var a, b := 2 * (|d| - 1 - k), 2 * (|d| - k);
    assert HexText(d) == front + ByteHex(d[0]);
    if k > 0 {
      HexTextLayout(d[1..], k - 1);
      assert (front + ByteHex(d[0]))[a..b] == front[a..b];
    } else {
      assert (front + ByteHex(d[0]))[a..b] == ByteHex(d[0]);
    }
  }

  lemma {:induction false} HexTextLength(d: seq<Byte>)
    ensures |HexText(d)| == 2 * |d|
    decreases |d|
  {
    if d != [] {
      HexTextLength(d[1..]);
    }
  }

  /** Every character `print` writes is a lower-case hexadecimal digit. */
  lemma {:induction false} HexTextIsHex(d: seq<Byte>, i: nat)
    requires i < |HexText(d)|
    ensures HexText(d)[i] in "0123456789abcdef"
    decreases |d|
  {
    HexTextLength(d);
    HexTextLength(d[1..]);
    if i < 2 * (|d| - 1) {
      HexTextIsHex(d[1..], i);
    }
  }

  /** The two characters of a printed byte read back as its high and low digits. */
  lemma ByteHexReadsBack(b: Byte)
    ensures FromHex(ByteHex(b)[0]) == Some(b / 16) && FromHex(ByteHex(b)[1]) == Some(b % 16)
  {
    HexDigitValue(b / 16);
    HexDigitValue(b % 16);
  }

  lemma DivMod16(b: Byte)
    ensures b / 16 * 16 + b % 16 == b
  {
  }

  /** Parsing the printed text of a digest restores all its bytes, whatever the buffer
      held before. */
  lemma ParseOfPrint(d: Digest, before: Digest)
    ensures ParseDigest(HexText(d), before) == ParseOutcome(true, d)
  {
    PrintedDigits(d);
    ParseOfDigits(HexText(d), d, 0, before);
  }

  /** The digits of every byte in the printed text. */
  lemma PrintedDigits(d: Digest)
    ensures |HexText(d)| == 2 * DigestLength
    ensures forall j :: 0 <= j < DigestLength ==>
              FromHex(HexText(d)[2 * DigestLength - 1 - 2 * j]) == Some(d[j] % 16)
              && FromHex(HexText(d)[2 * DigestLength - 2 - 2 * j]) == Some(d[j] / 16)
  {
    HexTextLength(d);
    forall j | 0 <= j < DigestLength
      ensures FromHex(HexText(d)[2 * DigestLength - 1 - 2 * j]) == Some(d[j] % 16)
      ensures FromHex(HexText(d)[2 * DigestLength - 2 - 2 * j]) == Some(d[j] / 16)
    {
      PrintedByteChars(d, j);
      ByteHexReadsBack(d[j]);
    }
  }

  /** `parse` over a text whose characters are the digits of `d`, from byte `k` on. */
  lemma {:induction false} ParseOfDigits(s: string, d: Digest, k: nat, cur: Digest)
    requires |s| == 2 * DigestLength && k <= DigestLength && cur[..k] == d[..k]
    requires forall j :: k <= j < DigestLength ==>
               FromHex(s[2 * DigestLength - 1 - 2 * j]) == Some(d[j] % 16)
               && FromHex(s[2 * DigestLength - 2 - 2 * j]) == Some(d[j] / 16)
    ensures ParseFrom(s, k, cur) == ParseOutcome(true, d)
    decreases DigestLength - k
  {
    if k == DigestLength {
      assert cur == cur[..k];
      assert d == d[..k];
    } else {
      var b := d[k];
      var next := cur[k := b];
      assert next[..k + 1] == d[..k + 1];
      ParseOfDigits(s, d, k + 1, next);
      ParseStep(s, k, cur, b / 16, b % 16);
      DivMod16(b);
    }
  }

  /** Where the two characters of byte `k` lie in the printed text. */
  lemma PrintedByteChars(d: Digest, k: nat)
    requires k < DigestLength
    ensures |HexText(d)| == 2 * DigestLength
    ensures HexText(d)[2 * DigestLength - 2 - 2 * k] == ByteHex(d[k])[0]
    ensures HexText(d)[2 * DigestLength - 1 - 2 * k] == ByteHex(d[k])[1]
  {
    var s := HexText(d);
    HexTextLayout(d, k);
    assert s[2 * (|d| - 1 - k)..2 * (|d| - k)][0] == s[|s| - 2 - 2 * k];
    assert s[2 * (|d| - 1 - k)..2 * (|d| - k)][1] == s[|s| - 1 - 2 * k];
  }

  /** One turn of `parse` on two hexadecimal characters writes byte `k`. */
  lemma ParseStep(s: string, k: nat, d: seq<Byte>, hi: int, lo: int)
    requires |d| == DigestLength && k < DigestLength && 2 * k + 1 < |s|
    requires FromHex(s[|s| - 1 - 2 * k]) == Some(lo) && FromHex(s[|s| - 2 - 2 * k]) == Some(hi)
    ensures 0 <= hi * 16 + lo < 256
    ensures ParseFrom(s, k, d) == ParseFrom(s, k + 1, d[k := hi * 16 + lo])
  {
  }

  /** Bytes at and above half the text's length are never written. */
  lemma {:induction false} ParseKeepsHigherBytes(s: string, k: nat, d: seq<Byte>, j: nat)
    requires |d| == DigestLength && k <= DigestLength && |s| / 2 <= j < DigestLength
    ensures ParseFrom(s, k, d).data[j] == d[j]
    decreases DigestLength - k
  {
    if 2 * k < |s| && k < DigestLength {
      var lo := FromHex(s[|s| - 1 - 2 * k]);
      if lo.Some? && 2 * k + 1 != |s| {
        var hi := FromHex(s[|s| - 2 - 2 * k]);
        if hi.Some? {
          ParseKeepsHigherBytes(s, k + 1, d[k := hi.value * 16 + lo.value], j);
        }
      }
    }
  }

  /** Whether the characters `parse` consumes from byte `k` on are all hexadecimal and
      pair up. */
  predicate ConsumedOk(s: string, k: nat)
    requires k <= DigestLength
    decreases DigestLength - k
  {
    2 * k >= |s| || k == DigestLength
    || (2 * k + 1 < |s| && FromHex(s[|s| - 1 - 2 * k]).Some? && FromHex(s[|s| - 2 - 2 * k]).Some?
        && ConsumedOk(s, k + 1))
  }

  /** `parse` answers true exactly when the last `min(|s|, 32)` characters are hexadecimal
      and none is left over unpaired. */
  lemma {:induction false} ParseOkIff(s: string, k: nat, d: seq<Byte>)
    requires |d| == DigestLength && k <= DigestLength
    ensures ParseFrom(s, k, d).ok <==> ConsumedOk(s, k)
    decreases DigestLength - k
  {
    if 2 * k < |s| && k < DigestLength {
      var lo := FromHex(s[|s| - 1 - 2 * k]);
      if lo.Some? && 2 * k + 1 != |s| {
        var hi := FromHex(s[|s| - 2 - 2 * k]);
        if hi.Some? {
          ParseOkIff(s, k + 1, d[k := hi.value * 16 + lo.value]);
        }
      }
    }
  }

  /** A text of odd length shorter than 32 characters is always refused: its first
      character is left over. */
  lemma {:induction false} OddShortTextFails(s: string, k: nat)
    requires k <= DigestLength && |s| % 2 == 1 && |s| < 2 * DigestLength && 2 * k <= |s|
    ensures !ConsumedOk(s, k)
    decreases DigestLength - k
  {
    if 2 * k + 1 < |s| {
      OddShortTextFails(s, k + 1);
    }
  }

  /** `parse` stops after 16 bytes: characters before the last 32 are never looked at. */
  lemma {:induction false} ParseIgnoresLeading(pre: string, s: string, k: nat, d: seq<Byte>)
    requires |d| == DigestLength && k <= DigestLength && |s| == 2 * DigestLength
    ensures ParseFrom(pre + s, k, d) == ParseFrom(s, k, d)
    decreases DigestLength - k
  {
    if k < DigestLength {
      var t := pre + s;
      assert t[|t| - 1 - 2 * k] == s[|s| - 1 - 2 * k];
      assert t[|t| - 2 - 2 * k] == s[|s| - 2 - 2 * k];
      var lo := FromHex(s[|s| - 1 - 2 * k]);
      var hi := FromHex(s[|s| - 2 - 2 * k]);
      if lo.Some? && hi.Some? {
        ParseIgnoresLeading(pre, s, k + 1, d[k := hi.value * 16 + lo.value]);
      }
    }
  }

  // ---------------------------------------------------------------------------
  // `same` and `sign`
  // ---------------------------------------------------------------------------

  function Min(a: int, b: int): int {
    if a < b then a else b
  }

  /** What one `read` of a block returns from an image at offset `pos`. */
  function BlockAt(image: seq<Byte>, pos: nat): (b: seq<Byte>)
    requires pos <= |image|
    ensures |b| == Min(BlockSize, |image| - pos) && b == image[pos..pos + |b|]
  {
    image[pos..pos + Min(BlockSize, |image| - pos)]
  }

  /** `same`: the images must have the same length, then are read and compared one
      block at a time until a block differs or both are exhausted. */
  method Same(a: seq<Byte>, b: seq<Byte>) returns (r: bool)
    ensures r <==> a == b
  {
    if |a| != |b| {
      return false;
    }
    var pos := 0;
    var blockA := BlockAt(a, pos);
    var blockB := BlockAt(b, pos);
    while |blockA| != 0 && blockA == blockB
      invariant pos <= |a| && a[..pos] == b[..pos]
      invariant blockA == BlockAt(a, pos) && blockB == BlockAt(b, pos)
      decreases |a| - pos
    {
      assert a[..pos + |blockA|] == a[..pos] + blockA;
      assert b[..pos + |blockB|] == b[..pos] + blockB;
      pos := pos + |blockA|;
      blockA := BlockAt(a, pos);
      blockB := BlockAt(b, pos);
    }
    r := |blockA| == 0;
    if r {
      assert a == a[..pos] && b == b[..pos];
    } else {
      assert blockA != blockB;
      assert a[pos..pos + |blockA|] != b[pos..pos + |blockA|];
    }
  }

  /** `sign`: the digest of at most the first `SIGNATURE_CHARS` bytes of the content,
      under a given MD5 function. */
  function Sign(md5: seq<Byte> -> Digest, content: seq<Byte>): Digest {
    md5(content[..Min(SignatureChars, |content|)])
  }

  /** Contents that agree on their first block, and are both at least that long, get the
      same signature: the signature alone cannot tell them apart. */
  lemma SharedPrefixSameSignature(md5: seq<Byte> -> Digest, a: seq<Byte>, b: seq<Byte>)
    requires |a| >= SignatureChars && |b| >= SignatureChars
    requires a[..SignatureChars] == b[..SignatureChars]
    ensures Sign(md5, a) == Sign(md5, b)
  {
  }
}
