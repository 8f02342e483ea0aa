/** An alignment line (src/alignment.rs): the eleven mandatory fields, and
    the FLAG word with its bit predicates. */
module Alignments {
  import opened Bytes
  import opened Numbers

  /** The twelve FLAG bits, in the order of the predicates below. */
  function Mask(k: nat): bv16
    requires k < 12
  {
    match k
    case 0 => 0x1
    case 1 => 0x2
    case 2 => 0x4
    case 3 => 0x8
    case 4 => 0x10
    case 5 => 0x20
    case 6 => 0x40
    case 7 => 0x80
    case 8 => 0x100
    case 9 => 0x200
    case 10 => 0x400
    case 11 => 0x800
  }

  /** `Flag(u16)`: the bitwise FLAG of an alignment. */
  datatype Flag = Flag(bits: bv16) {
    predicate HasMultipleSegments() { bits & 0x1 > 0 }
    predicate EachSegAligned() { bits & 0x2 > 0 }
    predicate IsUnmapped() { bits & 0x4 > 0 }
    predicate NextIsUnmapped() { bits & 0x8 > 0 }
    predicate IsReverseComplement() { bits & 0x10 > 0 }
    predicate NextIsReverseComplement() { bits & 0x20 > 0 }
    predicate IsFirstSegment() { bits & 0x40 > 0 }
    predicate IsLastSegment() { bits & 0x80 > 0 }
    predicate IsSecondaryAlignment() { bits & 0x100 > 0 }
    predicate NotPassingFilters() { bits & 0x200 > 0 }
    predicate IsDuplicate() { bits & 0x400 > 0 }
    predicate IsSupplementaryAlignment() { bits & 0x800 > 0 }
    /** Neither secondary nor supplementary, read off one combined mask. */
    predicate IsPrimaryLine() { bits & 0x900 == 0 }

    /** The `k`-th of the twelve predicates. */
    predicate Holds(k: nat)
      requires k < 12
    {
      match k
      case 0 => HasMultipleSegments()
      case 1 => EachSegAligned()
      case 2 => IsUnmapped()
      case 3 => NextIsUnmapped()
      case 4 => IsReverseComplement()
      case 5 => NextIsReverseComplement()
      case 6 => IsFirstSegment()
      case 7 => IsLastSegment()
      case 8 => IsSecondaryAlignment()
      case 9 => NotPassingFilters()
      case 10 => IsDuplicate()
      case 11 => IsSupplementaryAlignment()
    }
  }

  /** The value of the twelve predicates, one boolean per bit. */
  datatype Properties = Properties(
    multipleSegments: bool, eachSegAligned: bool, unmapped: bool, nextUnmapped: bool,
    reverseComplement: bool, nextReverseComplement: bool, firstSegment: bool, lastSegment: bool,
    secondary: bool, notPassingFilters: bool, duplicate: bool, supplementary: bool)

  /** What the predicates say about a flag. */
  function Decode(f: Flag): Properties {
    Properties(f.HasMultipleSegments(), f.EachSegAligned(), f.IsUnmapped(), f.NextIsUnmapped(),
      f.IsReverseComplement(), f.NextIsReverseComplement(), f.IsFirstSegment(), f.IsLastSegment(),
      f.IsSecondaryAlignment(), f.NotPassingFilters(), f.IsDuplicate(), f.IsSupplementaryAlignment())
  }

  function Bit(b: bool, mask: bv16): bv16 {
    if b then mask else 0
  }

  /** The `k`-th predicate is the `k`-th mask bit. */
  lemma HoldsIsMask(f: Flag, k: nat)
    requires k < 12
    ensures f.Holds(k) <==> f.bits & Mask(k) > 0
  {
    if k < 6 {
      match k
      case 0 => case 1 => case 2 => case 3 => case 4 => case 5 =>
    } else {
      match k
      case 6 => case 7 => case 8 => case 9 => case 10 => case 11 =>
    }
  }

  /** Each mask is a single bit, and different predicates test different bits. */
  lemma MaskSingleBit(k: nat)
    requires k < 12
    ensures Mask(k) != 0 && Mask(k) & (Mask(k) - 1) == 0
    ensures Mask(k) & 0xFFF == Mask(k)
    ensures forall j :: 0 <= j < 12 && Mask(j) == Mask(k) ==> j == k
  {
    match k
    case 0 => case 1 => case 2 => case 3 => case 4 => case 5 =>
    case 6 => case 7 => case 8 => case 9 => case 10 => case 11 =>
  }

  /** Bits 0x1 to 0x20 of an encoded word. */
  function EncodeLow(ps: Properties): bv16 {
    Bit(ps.multipleSegments, 0x1) | Bit(ps.eachSegAligned, 0x2) | Bit(ps.unmapped, 0x4) | Bit(ps.nextUnmapped, 0x8)
    | Bit(ps.reverseComplement, 0x10) | Bit(ps.nextReverseComplement, 0x20)
  }

  /** Bits 0x40 to 0x800 of an encoded word. */
  function EncodeHigh(ps: Properties): bv16 {
    Bit(ps.firstSegment, 0x40) | Bit(ps.lastSegment, 0x80)
    | Bit(ps.secondary, 0x100) | Bit(ps.notPassingFilters, 0x200) | Bit(ps.duplicate, 0x400) | Bit(ps.supplementary, 0x800)
  }

  /** The flag word whose predicates are `ps` and whose bits above 0x800 are
      clear: the six low bits and the six high bits set as `ps` says. */
  function Encode(ps: Properties): bv16 {
    EncodeLow(ps) | EncodeHigh(ps)
  }

  lemma LowReadsBack(ps: Properties)
    ensures var w := EncodeLow(ps);
      && w & 0xFC0 == 0
      && (w & 0x1 > 0 <==> ps.multipleSegments) && (w & 0x2 > 0 <==> ps.eachSegAligned)
      && (w & 0x4 > 0 <==> ps.unmapped) && (w & 0x8 > 0 <==> ps.nextUnmapped)
      && (w & 0x10 > 0 <==> ps.reverseComplement) && (w & 0x20 > 0 <==> ps.nextReverseComplement)
  {
  }

  lemma HighReadsBack(ps: Properties)
    ensures var w := EncodeHigh(ps);
      && w & 0x3F == 0
      && (w & 0x40 > 0 <==> ps.firstSegment) && (w & 0x80 > 0 <==> ps.lastSegment)
      && (w & 0x100 > 0 <==> ps.secondary) && (w & 0x200 > 0 <==> ps.notPassingFilters)
      && (w & 0x400 > 0 <==> ps.duplicate) && (w & 0x800 > 0 <==> ps.supplementary)
  {
  }

  /** The twelve predicates are independent: any combination of them is the
      reading of exactly one flag whose high bits are clear. */
  lemma DecodeEncode(ps: Properties)
    ensures Decode(Flag(Encode(ps))) == ps
  {
    LowReadsBack(ps);
    HighReadsBack(ps);
  }

  lemma DecodeLow(f: Flag)
    ensures EncodeLow(Decode(f)) == f.bits & 0x3F
  {
  }

  lemma DecodeHigh(f: Flag)
    ensures EncodeHigh(Decode(f)) == f.bits & 0xFC0
  {
  }

  /** A flag is its predicates together with its four high bits. */
  lemma EncodeDecode(f: Flag)
    ensures Encode(Decode(f)) == f.bits & 0xFFF
  {
    DecodeLow(f);
    DecodeHigh(f);
    assert (f.bits & 0x3F) | (f.bits & 0xFC0) == f.bits & 0xFFF;
  }

  /** A line is primary exactly when it is neither secondary nor supplementary. */
  lemma PrimaryLine(f: Flag)
    ensures f.IsPrimaryLine() <==> !f.IsSecondaryAlignment() && !f.IsSupplementaryAlignment()
  {
  }

  /** Bits 0x1000 to 0x8000 change no predicate. */
  lemma HighBitsIgnored(f: Flag, high: bv16)
    requires high & 0xFFF == 0
    ensures Decode(Flag(f.bits | high)) == Decode(f)
    ensures Flag(f.bits | high).IsPrimaryLine() == f.IsPrimaryLine()
  {
  }

  /** Different predicates test disjoint bits. */
  lemma MaskDisjoint(k: nat, j: nat)
    requires k < 12 && j < 12 && j != k
    ensures Mask(k) & Mask(j) == 0
  {
    MaskSingleBit(k);
    MaskSingleBit(j);
    assert Mask(k) != Mask(j);
  }

  /** Setting the `k`-th mask bit leaves the `j`-th predicate as it was. */
  lemma OtherBitKept(f: Flag, k: nat, j: nat)
    requires k < 12 && j < 12 && j != k
    ensures Flag(f.bits | Mask(k)).Holds(j) == f.Holds(j)
  {
    HoldsIsMask(f, j);
    HoldsIsMask(Flag(f.bits | Mask(k)), j);
    MaskDisjoint(k, j);
  }

  /** Setting the `k`-th mask bit turns the `k`-th predicate on and leaves the
      other eleven as they were. */
  lemma SetOneBit(f: Flag, k: nat)
    requires k < 12
    ensures Flag(f.bits | Mask(k)).Holds(k)
    ensures forall j :: 0 <= j < 12 && j != k ==> Flag(f.bits | Mask(k)).Holds(j) == f.Holds(j)
  {
    HoldsIsMask(Flag(f.bits | Mask(k)), k);
    MaskSingleBit(k);
    forall j | 0 <= j < 12 && j != k ensures Flag(f.bits | Mask(k)).Holds(j) == f.Holds(j) {
      OtherBitKept(f, k, j);
    }
  }

  /** Flag 0: an unpaired, mapped, primary forward read. */
  lemma FlagZero()
    ensures Decode(Flag(0)) == Properties(false, false, false, false, false, false, false, false, false, false, false, false)
    ensures Flag(0).IsPrimaryLine()
  {
  }

  /** Flag 99 = 0x63: paired, properly aligned, mate reversed, first in pair. */
  lemma FlagNinetyNine()
    ensures Decode(Flag(99)) == Properties(true, true, false, false, false, true, true, false, false, false, false, false)
    ensures Flag(99).IsPrimaryLine()
  {
  }

  /** Flag 0x900 is both secondary and supplementary, and not primary. */
  lemma FlagSecondarySupplementary()
    ensures Flag(0x900).IsSecondaryAlignment() && Flag(0x900).IsSupplementaryAlignment()
    ensures !Flag(0x900).IsPrimaryLine()
  {
  }

  /** `Alignment`: the eleven mandatory fields of a line, text kept as the
      UTF-8 bytes it was read as. */
  datatype Alignment = Alignment(
    queryName: Bytes,        // QNAME
    flag: Flag,              // FLAG
    refSeqName: Bytes,       // RNAME
    pos: u32,                // POS
    mapQuality: u8,          // MAPQ
    cigar: Bytes,            // CIGAR
    rnext: Bytes,            // RNEXT
    pnext: u32,              // PNEXT
    templateLen: i32,        // TLEN
    sequence: Bytes,         // SEQ
    phredQuality: Bytes      // QUAL
  )
}
