/** The bit-flag status every parser of the taxonomy returns (src/parse_status.h).
    A status is a single unsigned byte; the named flags are distinct bits. */
module ParseStatus {

  /** The value type of `ParseStatus`: one `uchar`. */
  datatype Status = Status(value: bv8)

  const UnInitialized: bv8 := 0x00
  const Found: bv8 := 0x01
  const NotFound: bv8 := 0x02
  const NoObject: bv8 := 0x04
  const NullObject: bv8 := 0x08
  const Malformed: bv8 := 0x10
  const MaxMisparseCount: bv8 := 0x20
  const MaxErrors: bv8 := 0x40

  /** The seven named flags, in declaration order. */
  const Flags: seq<bv8> := [Found, NotFound, NoObject, NullObject, Malformed, MaxMisparseCount, MaxErrors]

  /** A byte with exactly one bit set. */
  predicate SingleBit(b: bv8) {
    b != 0 && b & (b - 1) == 0
  }

  /** The default constructor. */
  function Default(): (s: Status)
    ensures s.value == UnInitialized && s.value == 0
    ensures forall i :: 0 <= i < |Flags| ==> s.value & Flags[i] == 0
  {
    Status(UnInitialized)
  }

  /** The constructor from a byte keeps the byte unchanged. */
  function FromByte(b: bv8): (s: Status)
    ensures s.value == b
    ensures Same(s, Status(b))
  {
    Status(b)
  }

  /** `operator ==`: compares `value` only. */
  predicate Same(a: Status, b: Status) {
    a.value == b.value
  }

  /** `operator !=`: compares `value` only. */
  predicate Differs(a: Status, b: Status) {
    a.value != b.value
  }

  /** Tests whether a flag bit is set, as `stat.value & flag` does in the callers. */
  predicate Has(s: Status, flags: bv8) {
    s.value & flags != 0
  }

  lemma FlagsAreDistinctSingleBits()
    ensures forall i :: 0 <= i < |Flags| ==> SingleBit(Flags[i])
    ensures forall i, j :: 0 <= i < j < |Flags| ==> Flags[i] & Flags[j] == 0 && Flags[i] != Flags[j]
    ensures forall i :: 0 <= i < |Flags| ==> Flags[i] != UnInitialized
  {
  }

  /** `==` and `!=` are exact complements and depend on `value` alone. */
  lemma EqualityIsOnValue(a: Status, b: Status)
    ensures Same(a, b) <==> !Differs(a, b)
    ensures Same(a, b) <==> a == b
  {
  }
}
