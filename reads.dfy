/** The alignment record both BAM tools work on, and the collaborators the
    filter consults but whose code is not part of this model. */
module Reads {
  import Bits

  /** A tag value as pysam returns it: an integer, a string, or a float (kept
      as its literal text; floating point is not modelled). */
  datatype TagValue = IntV(i: int) | StrV(s: string) | FloatV(text: string)

  type Tag = (string, TagValue)

  /** One alignment record: name, flag word, reference id, 0-based start
      `pos`, 0-based end `aend`, mapping quality, bases (`read.seq`) and the tag list. */
  datatype Read = Read(
    qname: string,
    flag: nat,
    tid: int,
    pos: int,
    aend: int,
    mapq: int,
    bases: string,
    tags: seq<Tag>)

  // The flag bits pysam's properties read (SAM flag 0x1, 0x4, 0x8, 0x10, 0x100, 0x200).
  const PAIRED_BIT: nat := 0
  const UNMAPPED_BIT: nat := 2
  const MATE_UNMAPPED_BIT: nat := 3
  const REVERSE_BIT: nat := 4
  const SECONDARY_BIT: nat := 8
  const QCFAIL_BIT: nat := 9

  predicate IsPaired(r: Read) { Bits.TestBit(r.flag, PAIRED_BIT) }
  predicate IsUnmapped(r: Read) { Bits.TestBit(r.flag, UNMAPPED_BIT) }
  predicate MateIsUnmapped(r: Read) { Bits.TestBit(r.flag, MATE_UNMAPPED_BIT) }
  predicate IsReverse(r: Read) { Bits.TestBit(r.flag, REVERSE_BIT) }
  predicate IsSecondary(r: Read) { Bits.TestBit(r.flag, SECONDARY_BIT) }
  predicate IsQcFail(r: Read) { Bits.TestBit(r.flag, QCFAIL_BIT) }

  /** One difference between a read and the reference: operation, reference
      position and the bases involved. */
  datatype Variation = Variation(op: string, pos: int, bases: string)

  datatype CompareOp = Lt | Lte | Gt | Gte | Eq

  /** The collaborators the criteria call, as uninterpreted functions:
      - refName: `bam.getrname(tid)`;
      - calcMismatches: `read_calc_mismatches(read)` (from the NM tag);
      - calcMismatchesRef: `read_calc_mismatches_ref(fasta, read, chrom)`,
        the FASTA file identified by its name;
      - calcMismatchesGen: `read_calc_mismatches_gen(fasta, read, chrom)`;
      - calcVariations: `read_calc_variations(read)` (from the MD tag);
      - isValidVariation: `DBSNP(fname).is_valid_variation(chrom, op, pos, seq, verbose)`;
      - floatCompare: the outcome of a Python comparison of two numbers at
        least one of which is a float (floating point is not modelled). */
  datatype Env = Env(
    refName: int -> string,
    calcMismatches: Read -> int,
    calcMismatchesRef: (string, Read, string) -> int,
    calcMismatchesGen: (string, Read, string) -> seq<Variation>,
    calcVariations: Read -> seq<Variation>,
    isValidVariation: (string, string, Variation, bool) -> bool,
    floatCompare: (CompareOp, TagValue, TagValue) -> bool)
}
