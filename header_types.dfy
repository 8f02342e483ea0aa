/** The typed SAM header (src/header.rs): one optional `@HD` record, three maps
    of keyed records, and the comments in order. Text is kept as the UTF-8
    bytes it was validated as. */
module HeaderTypes {
  import opened Bytes
  import opened Errors
  import opened Numbers

  datatype Version = Version(major: usize, minor: usize)

  datatype SortOrder = Unknown | Unsorted | QueryName | Coordinate

  datatype AlignmentGrouping = None | Query | Reference

  /** The `#[default]` variants; an absent `SO`/`GO` tag is the outer `Option`, not these. */
  const DEFAULT_SORT_ORDER: SortOrder := Unknown
  const DEFAULT_GROUPING: AlignmentGrouping := AlignmentGrouping.None

  /** An `@HD` line. */
  datatype HeaderMeta = HeaderMeta(
    formatVersion: Version,                                // VN
    alignmentSortOrder: Option<SortOrder>,                 // SO
    alignmentGrouping: Option<AlignmentGrouping>,          // GO
    alignmentSubSorting: Option<Bytes>                     // SS
  )

  datatype Topology = Linear | Circular

  /** An `@SQ` line. */
  datatype ReferenceSeq = ReferenceSeq(
    name: Bytes,                                           // SN
    length: u64,                                           // LN
    alternateLocus: Option<Bytes>,                         // AH
    alternateNames: Option<seq<Bytes>>,                    // AN
    assemblyId: Option<Bytes>,                             // AS
    description: Option<Bytes>,                            // DS
    checksum: Option<Bytes>,                               // M5
    species: Option<Bytes>,                                // SP
    topology: Option<Topology>,                            // TP
    uri: Option<Bytes>                                     // UR
  )

  datatype Platform =
    | Capillary | Dnbseq | Element | Helicos | Illumina | Iontorent
    | LS454 | Ont | Pacbio | Singular | Solid | Ultima

  /** An `@RG` line. */
  datatype ReadGroup = ReadGroup(
    id: Bytes,                                             // ID
    barcode: Option<Bytes>,                                // BC
    center: Option<Bytes>,                                 // CN
    description: Option<Bytes>,                            // DS
    date: Option<Bytes>,                                   // DT
    flowOrder: Option<Bytes>,                              // FO
    keySequence: Option<Bytes>,                            // KS
    library: Option<Bytes>,                                // LB
    programs: Option<Bytes>,                               // PG
    insertSize: Option<u32>,                               // PI
    platform: Option<Platform>,                            // PL
    platformModel: Option<Bytes>,                          // PM
    platformUnit: Option<Bytes>,                           // PU
    sample: Option<Bytes>                                  // SM
  )

  /** A program id; two ids are equal exactly when their texts are. */
  datatype ProgramId = ProgramId(text: Bytes)

  /** A `@PG` line. `previous` is only a key: nothing checks that it names a program. */
  datatype Program = Program(
    id: ProgramId,                                         // ID
    name: Option<Bytes>,                                   // PN
    commandLine: Option<Bytes>,                            // CL
    previous: Option<ProgramId>,                           // PP
    description: Option<Bytes>,                            // DS
    version: Option<Bytes>                                 // VN
  )

  datatype Header = Header(
    meta: Option<HeaderMeta>,
    referenceSeqs: map<Bytes, ReferenceSeq>,
    readGroups: map<Bytes, ReadGroup>,
    programs: map<ProgramId, Program>,
    comments: seq<Bytes>
  )

  const EMPTY_HEADER: Header := Header(Option.None, map[], map[], map[], [])
}
