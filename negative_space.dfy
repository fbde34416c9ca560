/** The negative-space analyser of a memory dump: a single pass over the
    dump in 4096-byte blocks that records runs of all-zero blocks ("voids"),
    the first position of each known hollow pattern inside each block, and an
    entropy sample every 256th block, and then assesses the dump.

    The spec functions below describe the scan after its first `k` blocks;
    `AnalyzeMemoryDump` is the loop itself, proved to produce `ScanReport`. */
module NegativeSpaceAnalyzer {
  import opened Wrappers
  import opened Text
  import opened Simulacra

  newtype byte = b: int | 0 <= b < 256

  const BlockSize: nat := 4096

  /** An entropy sample is taken on every 256th block (every MiB). */
  const SampleStride: nat := 256

  /** The order every hidden-structure hit is reported with. */
  const HitOrder: nat := 3

  // ---------------------------------------------------------------------
  // The pattern table

  datatype PatternLabel = ZeroPage | Int3Sled | NopSled | MachOMagic

  /** The byte signature behind each label of the hollow-pattern table. */
  function Signature(pattern: PatternLabel): (sig: seq<byte>)
    ensures 0 < |sig| <= BlockSize
  {
    match pattern
    case ZeroPage => seq(4096, _ => 0)
    case Int3Sled => seq(64, _ => 0xCC)
    case NopSled => seq(64, _ => 0x90)
    case MachOMagic => [0xFE, 0xED, 0xFA, 0xCE]
  }

  /** The order in which the table is tried for every block. */
  const PatternOrder: seq<PatternLabel> := [ZeroPage, Int3Sled, NopSled, MachOMagic]

  // ---------------------------------------------------------------------
  // Report records

  /** A hidden-structure hit: a pattern found at an absolute offset. */
  datatype Hit = Hit(offset: nat, pattern: PatternLabel, order: nat)

  /** A void closed by a non-zero block ("evidence of erasure") or still open
      at the end of the dump ("terminal void"). */
  datatype VoidKind = Erasure | Terminal

  datatype NegativeSpace = NegativeSpace(kind: VoidKind, start: nat, end: nat, size: nat)

  datatype EntropyBand = Void | Structured | Complex | Maximum

  datatype EntropySample = EntropySample(offset: nat, entropy: real, band: EntropyBand)

  datatype Summary = Summary(totalBlocks: nat, voidBytes: nat, hiddenCount: nat, assessment: Level)

  datatype DumpReport = DumpReport(
    size: nat,
    negativeSpaces: seq<NegativeSpace>,
    entropyMap: seq<EntropySample>,
    hiddenStructures: seq<Hit>,
    summary: Summary)

  // ---------------------------------------------------------------------
  // Blocks

  function Min(a: nat, b: nat): nat {
    if a <= b then a else b
  }

  /** How many reads of up to 4096 bytes it takes to exhaust the dump. */
  function NumBlocks(data: seq<byte>): nat {
    (|data| + BlockSize - 1) / BlockSize
  }

  function BlockEnd(data: seq<byte>, k: nat): nat {
    Min((k + 1) * BlockSize, |data|)
  }

  /** The `k`-th block read: 4096 bytes, or fewer for the last one. */
  function Block(data: seq<byte>, k: nat): (b: seq<byte>)
    requires k < NumBlocks(data)
    ensures 0 < |b| <= BlockSize
  {
    data[k * BlockSize..BlockEnd(data, k)]
  }

  /** The source's test `block == b"\x00" * len(block)`. */
  predicate AllZero(b: seq<byte>) {
    forall i :: 0 <= i < |b| ==> b[i] == 0
  }

  // ---------------------------------------------------------------------
  // Entropy bands and the assessment

  /** The qualitative band of a block's Shannon entropy (bits per byte). */
  function ClassifyEntropy(entropy: real): (band: EntropyBand)
    ensures band == Void <==> entropy < 1.0
    ensures band == Structured <==> 1.0 <= entropy < 4.0
    ensures band == Complex <==> 4.0 <= entropy < 7.0
    ensures band == Maximum <==> 7.0 <= entropy
  {
    if entropy < 1.0 then Void
    else if entropy < 4.0 then Structured
    else if entropy < 7.0 then Complex
    else Maximum
  }

  /** The first-match-wins assessment of a dump from its void percentage and
      the number of hidden structures found in it. */
  function Assess(voidPercentage: real, hidden: nat): (level: Level)
    ensures level == Hyperreal <==> voidPercentage > 50.0 && hidden > 5
    ensures level == Simulation <==> !(voidPercentage > 50.0 && hidden > 5) && (voidPercentage > 20.0 || hidden > 2)
    ensures level == Representation <==> voidPercentage <= 20.0 && 0 < hidden <= 2
    ensures level == Real <==> voidPercentage <= 20.0 && hidden == 0
  {
    if voidPercentage > 50.0 && hidden > 5 then Hyperreal
    else if voidPercentage > 20.0 || hidden > 2 then Simulation
    else if hidden > 0 then Representation
    else Real
  }

  // ---------------------------------------------------------------------
  // The scan after its first k blocks

  /** The number of all-zero blocks immediately before block `k`: the
      scanner's `zero_runs` counter once `k` blocks have been read. */
  function ZeroRun(data: seq<byte>, k: nat): (run: nat)
    requires k <= NumBlocks(data)
    ensures run <= k
  {
    if k == 0 then 0
    else if AllZero(Block(data, k - 1)) then ZeroRun(data, k - 1) + 1
    else 0
  }

  /** The voids closed (by a non-zero block) among the first `k` blocks. */
  function VoidsBefore(data: seq<byte>, k: nat): seq<NegativeSpace>
    requires k <= NumBlocks(data)
  {
    if k == 0 then []
    else
      var run := ZeroRun(data, k - 1);
      VoidsBefore(data, k - 1)
      + if !AllZero(Block(data, k - 1)) && run > 0
        then [NegativeSpace(Erasure, (k - 1 - run) * BlockSize, (k - 1) * BlockSize, run * BlockSize)]
        else []
  }

  /** All voids of the dump: the closed ones, then the run still open at the
      end of the dump, if any. Its size counts whole blocks even when the
      last block is short. */
  function NegativeSpaces(data: seq<byte>): seq<NegativeSpace> {
    var n := NumBlocks(data);
    var run := ZeroRun(data, n);
    VoidsBefore(data, n)
    + if run > 0 then [NegativeSpace(Terminal, (n - run) * BlockSize, |data|, run * BlockSize)] else []
  }

  /** The hit of one pattern in a block that starts at `offset`: the first
      position of its signature inside the block, if it occurs there. */
  function HitFor(block: seq<byte>, offset: nat, pattern: PatternLabel): seq<Hit> {
    match Find(block, Signature(pattern))
    case Some(pos) => [Hit(offset + pos, pattern, HitOrder)]
    case None => []
  }

  /** The hits of the given patterns in one block, in table order. */
  function PatternHits(block: seq<byte>, offset: nat, labels: seq<PatternLabel>): seq<Hit> {
    if labels == [] then []
    else PatternHits(block, offset, labels[..|labels| - 1]) + HitFor(block, offset, labels[|labels| - 1])
  }

  /** The hidden structures found in the first `k` blocks. */
  function HitsBefore(data: seq<byte>, k: nat): seq<Hit>
    requires k <= NumBlocks(data)
  {
    if k == 0 then []
    else HitsBefore(data, k - 1) + PatternHits(Block(data, k - 1), (k - 1) * BlockSize, PatternOrder)
  }

  /** The entropy samples taken among the first `k` blocks; `entropyOf`
      stands for the Shannon entropy of a block. */
  function SamplesBefore(data: seq<byte>, entropyOf: seq<byte> -> real, k: nat): seq<EntropySample>
    requires k <= NumBlocks(data)
  {
    if k == 0 then []
    else
      var e := entropyOf(Block(data, k - 1));
      SamplesBefore(data, entropyOf, k - 1)
      + if k % SampleStride == 0 then [EntropySample((k - 1) * BlockSize, e, ClassifyEntropy(e))] else []
  }

  /** The total size of a list of voids. */
  function VoidBytes(spaces: seq<NegativeSpace>): nat {
    if spaces == [] then 0 else VoidBytes(spaces[..|spaces| - 1]) + spaces[|spaces| - 1].size
  }

  /** The report of a whole scan. The assessment is made while the summary
      is still being assembled, so it reads a void percentage of 0. */
  function ScanReport(data: seq<byte>, entropyOf: seq<byte> -> real): DumpReport {
    var n := NumBlocks(data);
    var spaces := NegativeSpaces(data);
    var hits := HitsBefore(data, n);
    DumpReport(|data|, spaces, SamplesBefore(data, entropyOf, n), hits,
               Summary(n, VoidBytes(spaces), |hits|, Assess(0.0, |hits|)))
  }

  // ---------------------------------------------------------------------
  // The scan loop

  /** Reads `k` blocks further on: the position after them, and whether more remain. */
  lemma BlockPositions(data: seq<byte>, k: nat)
    ensures k < NumBlocks(data) <==> k * BlockSize < |data|
    ensures k + 1 == NumBlocks(data) ==> BlockEnd(data, k) == |data|
    ensures k + 1 < NumBlocks(data) ==> BlockEnd(data, k) == (k + 1) * BlockSize
  {
  }

  /** Tries each pattern of `table`, in order, on one block that starts at
      `offset`; called with the whole pattern table. */
  method FindPatterns(block: seq<byte>, offset: nat, table: seq<PatternLabel>) returns (hits: seq<Hit>)
    ensures hits == PatternHits(block, offset, table)
  {
    hits := [];
    for j := 0 to |table|
      invariant hits == PatternHits(block, offset, table[..j])
    {
      var pattern := table[j];
      assert table[..j + 1][..j] == table[..j];
      var pos := Find(block, Signature(pattern));
      if pos.Some? {
        hits := hits + [Hit(offset + pos.value, pattern, HitOrder)];
      }
    }
    assert table[..|table|] == table;
  }

  /** The void bookkeeping for block `k`: a zero block extends the current
      run (remembering where it started), a non-zero block closes it into an
      "evidence of erasure" void that ends where the block starts. */
  method TrackZeroRun(ghost data: seq<byte>, ghost k: nat, block: seq<byte>, offset: nat,
                      zeroRuns: nat, zeroStart: nat, negativeSpaces: seq<NegativeSpace>)
    returns (zeroRuns': nat, zeroStart': nat, negativeSpaces': seq<NegativeSpace>)
    requires k < NumBlocks(data) && block == Block(data, k) && offset == k * BlockSize
    requires zeroRuns == ZeroRun(data, k) && negativeSpaces == VoidsBefore(data, k)
    requires zeroRuns > 0 ==> zeroStart == (k - zeroRuns) * BlockSize
    ensures zeroRuns' == ZeroRun(data, k + 1) && negativeSpaces' == VoidsBefore(data, k + 1)
    ensures zeroRuns' > 0 ==> zeroStart' == (k + 1 - zeroRuns') * BlockSize
  {
    zeroRuns', zeroStart', negativeSpaces' := zeroRuns, zeroStart, negativeSpaces;
    if AllZero(block) {
      zeroRuns' := zeroRuns' + 1;
      if zeroRuns' == 1 {
        zeroStart' := offset;
      }
    } else if zeroRuns' > 0 {
      negativeSpaces' := negativeSpaces' + [NegativeSpace(Erasure, zeroStart', offset, zeroRuns' * BlockSize)];
      zeroRuns' := 0;
    }
  }

  /** The entropy bookkeeping for block `k`: every 256th block read is
      sampled at the offset where it starts. */
  method SampleEntropy(ghost data: seq<byte>, entropyOf: seq<byte> -> real, ghost k: nat, block: seq<byte>,
                       offset: nat, totalBlocks: nat, entropyMap: seq<EntropySample>)
    returns (entropyMap': seq<EntropySample>)
    requires k < NumBlocks(data) && block == Block(data, k) && offset == k * BlockSize && totalBlocks == k + 1
    requires entropyMap == SamplesBefore(data, entropyOf, k)
    ensures entropyMap' == SamplesBefore(data, entropyOf, k + 1)
  {
    entropyMap' := entropyMap;
    if totalBlocks % SampleStride == 0 {
      var entropy := entropyOf(block);
      entropyMap' := entropyMap' + [EntropySample(offset, entropy, ClassifyEntropy(entropy))];
    }
  }

  /** The pattern bookkeeping for block `k`: its hits are appended to
      those of the blocks before it. */
  method RecordHits(ghost data: seq<byte>, ghost k: nat, block: seq<byte>, offset: nat,
                    hiddenStructures: seq<Hit>) returns (hiddenStructures': seq<Hit>)
    requires k < NumBlocks(data) && block == Block(data, k) && offset == k * BlockSize
    requires hiddenStructures == HitsBefore(data, k)
    ensures hiddenStructures' == HitsBefore(data, k + 1)
  {
    var found := FindPatterns(block, offset, PatternOrder);
    hiddenStructures' := hiddenStructures + found;
  }

  /** The scanner's variables once `k` blocks have been read. */
  ghost predicate ScannedUpTo(data: seq<byte>, entropyOf: seq<byte> -> real, k: nat, offset: nat,
                              zeroRuns: nat, zeroStart: nat, negativeSpaces: seq<NegativeSpace>,
                              entropyMap: seq<EntropySample>, hiddenStructures: seq<Hit>)
  {
    && k <= NumBlocks(data)
    && (k < NumBlocks(data) ==> offset == k * BlockSize)
    && (k == NumBlocks(data) ==> offset == |data|)
    && zeroRuns == ZeroRun(data, k)
    && (zeroRuns > 0 ==> zeroStart == (k - zeroRuns) * BlockSize)
    && negativeSpaces == VoidsBefore(data, k)
    && hiddenStructures == HitsBefore(data, k)
    && entropyMap == SamplesBefore(data, entropyOf, k)
  }

  /** One iteration of the read loop: reads the next block and does the
      void, pattern and entropy bookkeeping for it. */
  method ScanBlock(data: seq<byte>, entropyOf: seq<byte> -> real, offset: nat, totalBlocks: nat,
                   zeroRuns: nat, zeroStart: nat, negativeSpaces: seq<NegativeSpace>,
                   entropyMap: seq<EntropySample>, hiddenStructures: seq<Hit>)
    returns (offset': nat, totalBlocks': nat, zeroRuns': nat, zeroStart': nat,
             negativeSpaces': seq<NegativeSpace>, entropyMap': seq<EntropySample>, hiddenStructures': seq<Hit>)
    requires offset < |data|
    requires ScannedUpTo(data, entropyOf, totalBlocks, offset, zeroRuns, zeroStart,
                         negativeSpaces, entropyMap, hiddenStructures)
    ensures totalBlocks' == totalBlocks + 1 && offset < offset'
    ensures ScannedUpTo(data, entropyOf, totalBlocks', offset', zeroRuns', zeroStart',
                        negativeSpaces', entropyMap', hiddenStructures')
  {
    ghost var k := totalBlocks;
    var block := Block(data, totalBlocks);
    totalBlocks' := totalBlocks + 1;
    zeroRuns', zeroStart', negativeSpaces' := TrackZeroRun(data, k, block, offset, zeroRuns, zeroStart, negativeSpaces);
    hiddenStructures' := RecordHits(data, k, block, offset, hiddenStructures);
    entropyMap' := SampleEntropy(data, entropyOf, k, block, offset, totalBlocks', entropyMap);
    offset' := offset + |block|;
    ScannedNext(data, entropyOf, k, offset, offset', zeroRuns', zeroStart', negativeSpaces', entropyMap', hiddenStructures');
  }

  /** Once block `k` has been read at its offset and its bookkeeping done,
      the scanner's variables are those after `k + 1` blocks. */
  lemma ScannedNext(data: seq<byte>, entropyOf: seq<byte> -> real, k: nat, offset: nat, offset': nat,
                    zeroRuns': nat, zeroStart': nat, negativeSpaces': seq<NegativeSpace>,
                    entropyMap': seq<EntropySample>, hiddenStructures': seq<Hit>)
    requires k < NumBlocks(data) && offset == k * BlockSize && offset' == offset + |Block(data, k)|
    requires zeroRuns' == ZeroRun(data, k + 1) && negativeSpaces' == VoidsBefore(data, k + 1)
    requires zeroRuns' > 0 ==> zeroStart' == (k + 1 - zeroRuns') * BlockSize
    requires hiddenStructures' == HitsBefore(data, k + 1)
    requires entropyMap' == SamplesBefore(data, entropyOf, k + 1)
    ensures ScannedUpTo(data, entropyOf, k + 1, offset', zeroRuns', zeroStart',
                        negativeSpaces', entropyMap', hiddenStructures')
  {
    BlockPositions(data, k);
  }

  /** The read loop of the scan: reads the dump block by block until it is
      exhausted. */
  method ScanBlocks(data: seq<byte>, entropyOf: seq<byte> -> real)
    returns (offset: nat, totalBlocks: nat, zeroRuns: nat, zeroStart: nat,
             negativeSpaces: seq<NegativeSpace>, entropyMap: seq<EntropySample>, hiddenStructures: seq<Hit>)
    ensures totalBlocks == NumBlocks(data)
    ensures ScannedUpTo(data, entropyOf, totalBlocks, offset, zeroRuns, zeroStart,
                        negativeSpaces, entropyMap, hiddenStructures)
  {
    negativeSpaces, entropyMap, hiddenStructures := [], [], [];
    offset, totalBlocks, zeroRuns, zeroStart := 0, 0, 0, 0;
    while offset < |data|
      invariant ScannedUpTo(data, entropyOf, totalBlocks, offset, zeroRuns, zeroStart,
                            negativeSpaces, entropyMap, hiddenStructures)
      decreases |data| - offset
    {
      offset, totalBlocks, zeroRuns, zeroStart, negativeSpaces, entropyMap, hiddenStructures
        := ScanBlock(data, entropyOf, offset, totalBlocks, zeroRuns, zeroStart,
                     negativeSpaces, entropyMap, hiddenStructures);
    }
    BlockPositions(data, totalBlocks);
  }

  /** Scans a dump and summarises it, as `analyze_memory_dump` does: a run
      of zero blocks still open at the end becomes a terminal void, and the
      assessment reads a void percentage of 0. */
  method AnalyzeMemoryDump(data: seq<byte>, entropyOf: seq<byte> -> real) returns (report: DumpReport)
    ensures report == ScanReport(data, entropyOf)
  {
    var offset, totalBlocks, zeroRuns, zeroStart, negativeSpaces, entropyMap, hiddenStructures
      := ScanBlocks(data, entropyOf);
    if zeroRuns > 0 {
      negativeSpaces := negativeSpaces + [NegativeSpace(Terminal, zeroStart, offset, zeroRuns * BlockSize)];
    }
    assert negativeSpaces == NegativeSpaces(data);
    report := DumpReport(|data|, negativeSpaces, entropyMap, hiddenStructures,
                         Summary(totalBlocks, VoidBytes(negativeSpaces), |hiddenStructures|,
                                 Assess(0.0, |hiddenStructures|)));
  }
}
