/** What the negative-space scan promises about its report: the voids are
    exactly the maximal runs of all-zero blocks, the hidden structures are
    exactly the first occurrences of each pattern inside each block, an
    entropy sample is taken every 256 blocks, and the assessment can never
    reach HYPERREAL. */
module NegativeSpaceProperties {
  import opened Wrappers
  import opened Text
  import opened Simulacra
  import opened NegativeSpaceAnalyzer

  // ---------------------------------------------------------------------
  // Voids

  /** The zero-run counter after `k` blocks counts exactly the all-zero
      blocks that immediately precede block `k`. */
  lemma {:induction false} ZeroRunSpec(data: seq<byte>, k: nat)
    requires k <= NumBlocks(data)
    ensures forall b :: k - ZeroRun(data, k) <= b < k ==> AllZero(Block(data, b))
    ensures ZeroRun(data, k) < k ==> !AllZero(Block(data, k - ZeroRun(data, k) - 1))
  {
    if k > 0 {
      ZeroRunSpec(data, k - 1);
    }
  }

  /** Blocks `i` up to (not including) `j` form a maximal run of all-zero blocks. */
  ghost predicate IsMaximalRun(data: seq<byte>, i: nat, j: nat)
    requires j <= NumBlocks(data)
  {
    && i < j
    && (forall b :: i <= b < j ==> AllZero(Block(data, b)))
    && (i == 0 || !AllZero(Block(data, i - 1)))
    && (j == NumBlocks(data) || !AllZero(Block(data, j)))
  }

  /** The record a run of blocks `i..j` should produce: an erasure void when
      a non-zero block closes it, a terminal void when the dump ends it. */
  function RunRecord(data: seq<byte>, i: nat, j: nat): NegativeSpace
    requires i < j <= NumBlocks(data)
  {
    if j < NumBlocks(data) then NegativeSpace(Erasure, i * BlockSize, j * BlockSize, (j - i) * BlockSize)
    else NegativeSpace(Terminal, i * BlockSize, |data|, (j - i) * BlockSize)
  }

  /** `r` is the record of some maximal run of all-zero blocks. */
  ghost predicate RecordsRun(data: seq<byte>, r: NegativeSpace) {
    exists i: nat, j: nat :: j <= NumBlocks(data) && IsMaximalRun(data, i, j) && r == RunRecord(data, i, j)
  }

  /** Every record is the record of a maximal run. */
  ghost predicate AllRecordRuns(data: seq<byte>, recs: seq<NegativeSpace>) {
    forall x :: 0 <= x < |recs| ==> RecordsRun(data, recs[x])
  }

  /** The records are in increasing order and do not touch. */
  predicate InOrder(recs: seq<NegativeSpace>) {
    forall x, y :: 0 <= x < y < |recs| ==> recs[x].end < recs[y].start
  }

  /** The closed voids after `k` blocks are erasure records in order, all
      ending at least a block before the current zero run starts. */
  predicate ClosedVoidsInOrder(data: seq<byte>, k: nat, recs: seq<NegativeSpace>)
    requires k <= NumBlocks(data)
  {
    && (forall x :: 0 <= x < |recs| ==> recs[x].kind == Erasure)
    && InOrder(recs)
    && (forall x :: 0 <= x < |recs| ==> recs[x].end + BlockSize <= (k - ZeroRun(data, k)) * BlockSize)
  }

  /** The zero run that block `k` or the end of the dump closes is maximal. */
  lemma ZeroRunIsMaximal(data: seq<byte>, k: nat)
    requires k <= NumBlocks(data) && ZeroRun(data, k) > 0
    requires k == NumBlocks(data) || !AllZero(Block(data, k))
    ensures IsMaximalRun(data, k - ZeroRun(data, k), k)
  {
    ZeroRunSpec(data, k);
  }

  /** A maximal run's record is recognised as one. */
  lemma ClosedRunIsRecorded(data: seq<byte>, i: nat, j: nat)
    requires j <= NumBlocks(data) && IsMaximalRun(data, i, j)
    ensures RecordsRun(data, RunRecord(data, i, j))
  {
  }

  /** The record a non-zero block `k - 1` closes, if any. */
  lemma ClosingRecord(data: seq<byte>, k: nat)
    requires 0 < k <= NumBlocks(data)
    ensures var run := ZeroRun(data, k - 1);
      VoidsBefore(data, k) == VoidsBefore(data, k - 1) +
        if !AllZero(Block(data, k - 1)) && run > 0 then [RunRecord(data, k - 1 - run, k - 1)] else []
  {
  }

  lemma AppendInOrder(recs: seq<NegativeSpace>, r: NegativeSpace)
    requires InOrder(recs)
    requires forall x :: 0 <= x < |recs| ==> recs[x].end < r.start
    ensures InOrder(recs + [r])
  {
    var all := recs + [r];
    forall x, y | 0 <= x < y < |all|
      ensures all[x].end < all[y].start
    {
      assert all[x] == recs[x];
      if y < |recs| {
        assert all[y] == recs[y];
      }
    }
  }

  lemma AppendRecordRun(data: seq<byte>, recs: seq<NegativeSpace>, r: NegativeSpace)
    ensures AllRecordRuns(data, recs) && RecordsRun(data, r) ==> AllRecordRuns(data, recs + [r])
  {
    if AllRecordRuns(data, recs) && RecordsRun(data, r) {
      var all := recs + [r];
      forall x | 0 <= x < |all|
        ensures RecordsRun(data, all[x])
      {
        if x < |recs| {
          assert all[x] == recs[x];
        }
      }
    }
  }

  lemma {:induction false} VoidsBeforeInOrder(data: seq<byte>, k: nat)
    requires k <= NumBlocks(data)
    ensures ClosedVoidsInOrder(data, k, VoidsBefore(data, k))
  {
    if k > 0 {
      VoidsBeforeInOrder(data, k - 1);
      ClosingRecord(data, k);
      var run := ZeroRun(data, k - 1);
      var prev, recs := VoidsBefore(data, k - 1), VoidsBefore(data, k);
      if !AllZero(Block(data, k - 1)) && run > 0 {
        var r := RunRecord(data, k - 1 - run, k - 1);
        AppendInOrder(prev, r);
        assert ZeroRun(data, k) == 0;
        forall x | 0 <= x < |recs|
          ensures recs[x].kind == Erasure && recs[x].end + BlockSize <= k * BlockSize
        {
          if x < |prev| {
            assert recs[x] == prev[x];
          }
        }
      } else {
        if AllZero(Block(data, k - 1)) {
          assert ZeroRun(data, k) == run + 1;
        } else {
          assert ZeroRun(data, k) == 0 && run == 0;
        }
        assert (k - 1 - run) * BlockSize <= (k - ZeroRun(data, k)) * BlockSize;
      }
    }
  }

  lemma {:induction false} VoidsBeforeAreRuns(data: seq<byte>, k: nat)
    requires k <= NumBlocks(data)
    ensures AllRecordRuns(data, VoidsBefore(data, k))
  {
    if k > 0 {
      var prev := VoidsBefore(data, k - 1);
      VoidsBeforeAreRuns(data, k - 1);
      ClosingRecord(data, k);
      var run := ZeroRun(data, k - 1);
      if !AllZero(Block(data, k - 1)) && run > 0 {
        var r := RunRecord(data, k - 1 - run, k - 1);
        ClosedRecordIsRun(data, k);
        AllRecordRunsExtend(data, prev, [r]);
      } else {
        AllRecordRunsExtend(data, prev, []);
      }
    }
  }

  /** The void a non-zero block closes records a maximal run. */
  lemma ClosedRecordIsRun(data: seq<byte>, k: nat)
    requires 0 < k <= NumBlocks(data) && !AllZero(Block(data, k - 1)) && ZeroRun(data, k - 1) > 0
    ensures RecordsRun(data, RunRecord(data, k - 1 - ZeroRun(data, k - 1), k - 1))
  {
    ZeroRunIsMaximal(data, k - 1);
    ClosedRunIsRecorded(data, k - 1 - ZeroRun(data, k - 1), k - 1);
  }

  /** Appending at most one record of a run keeps every record a run's. */
  lemma AllRecordRunsExtend(data: seq<byte>, prev: seq<NegativeSpace>, more: seq<NegativeSpace>)
    requires AllRecordRuns(data, prev)
    requires |more| <= 1 && (|more| == 1 ==> RecordsRun(data, more[0]))
    ensures AllRecordRuns(data, prev + more)
  {
    if |more| == 1 {
      AppendRecordRun(data, prev, more[0]);
      assert more == [more[0]];
    } else {
      assert prev + more == prev;
    }
  }

  /** Every reported void is the record of a maximal run of all-zero
      blocks, and the voids are reported in order without overlapping. */
  lemma NegativeSpacesAreMaximalRuns(data: seq<byte>)
    ensures AllRecordRuns(data, NegativeSpaces(data))
    ensures InOrder(NegativeSpaces(data))
  {
    var n := NumBlocks(data);
    VoidsBeforeAreRuns(data, n);
    VoidsBeforeInOrder(data, n);
    var run := ZeroRun(data, n);
    var prev := VoidsBefore(data, n);
    if run > 0 {
      var r := RunRecord(data, n - run, n);
      assert NegativeSpaces(data) == prev + [r];
      ZeroRunIsMaximal(data, n);
      ClosedRunIsRecorded(data, n - run, n);
      AppendRecordRun(data, prev, r);
      AppendInOrder(prev, r);
    } else {
      assert NegativeSpaces(data) == prev;
    }
  }

  /** On a run of all-zero blocks `i..j` not preceded by one, the counter
      after block `j - 1` is the run's length. */
  lemma {:induction false} ZeroRunOfRun(data: seq<byte>, i: nat, j: nat)
    requires i <= j <= NumBlocks(data)
    requires forall b :: i <= b < j ==> AllZero(Block(data, b))
    requires i == 0 || !AllZero(Block(data, i - 1))
    ensures ZeroRun(data, j) == j - i
  {
    if i < j {
      ZeroRunOfRun(data, i, j - 1);
    } else if i > 0 {
      assert ZeroRun(data, i) == 0;
    }
  }

  /** Closed voids are only ever appended. */
  lemma {:induction false} VoidsBeforeGrow(data: seq<byte>, k: nat, m: nat)
    requires k <= m <= NumBlocks(data)
    ensures VoidsBefore(data, k) <= VoidsBefore(data, m)
    decreases m
  {
    if k < m {
      VoidsBeforeGrow(data, k, m - 1);
    }
  }

  /** Every maximal run of all-zero blocks is reported: as an erasure void
      when a non-zero block closes it, as a terminal void when the dump
      ends it. */
  lemma MaximalRunsAreReported(data: seq<byte>, i: nat, j: nat)
    requires j <= NumBlocks(data) && IsMaximalRun(data, i, j)
    ensures RunRecord(data, i, j) in NegativeSpaces(data)
  {
    ZeroRunOfRun(data, i, j);
    CountedRunReported(data, i, j);
  }

  /** A zero run of blocks `i..j`, as the counter sees it when block `j`
      or the end of the dump closes it, is reported. */
  lemma CountedRunReported(data: seq<byte>, i: nat, j: nat)
    requires i < j <= NumBlocks(data) && ZeroRun(data, j) == j - i
    requires j == NumBlocks(data) || !AllZero(Block(data, j))
    ensures RunRecord(data, i, j) in NegativeSpaces(data)
  {
    if j < NumBlocks(data) {
      CountedRunClosed(data, i, j);
      ClosedVoidsLead(data);
      InPrefix(VoidsBefore(data, NumBlocks(data)), NegativeSpaces(data), RunRecord(data, i, j));
    } else {
      CountedRunTerminal(data, i);
    }
  }

  /** The zero run of blocks `i..j` that a non-zero block `j` closes is
      among the closed voids of the dump. */
  lemma CountedRunClosed(data: seq<byte>, i: nat, j: nat)
    requires i < j < NumBlocks(data) && ZeroRun(data, j) == j - i && !AllZero(Block(data, j))
    ensures RunRecord(data, i, j) in VoidsBefore(data, NumBlocks(data))
  {
    var x := |VoidsBefore(data, j)|;
    CountedRunClosedAt(data, i, j);
    StaysClosedAt(data, j + 1, x);
    assert VoidsBefore(data, NumBlocks(data))[x] == RunRecord(data, i, j);
  }

  /** That run is the next void recorded once block `j` has been read. */
  lemma CountedRunClosedAt(data: seq<byte>, i: nat, j: nat)
    requires i < j < NumBlocks(data) && ZeroRun(data, j) == j - i && !AllZero(Block(data, j))
    ensures |VoidsBefore(data, j)| < |VoidsBefore(data, j + 1)|
    ensures VoidsBefore(data, j + 1)[|VoidsBefore(data, j)|] == RunRecord(data, i, j)
  {
    ClosingRecord(data, j + 1);
  }

  /** A void closed among the first `k` blocks keeps its place. */
  lemma StaysClosedAt(data: seq<byte>, k: nat, x: nat)
    requires k <= NumBlocks(data) && x < |VoidsBefore(data, k)|
    ensures x < |VoidsBefore(data, NumBlocks(data))|
    ensures VoidsBefore(data, NumBlocks(data))[x] == VoidsBefore(data, k)[x]
  {
    VoidsBeforeGrow(data, k, NumBlocks(data));
  }

  /** A zero run of blocks `i..` still open at the end of the dump is its
      terminal void. */
  lemma CountedRunTerminal(data: seq<byte>, i: nat)
    requires i < NumBlocks(data) && ZeroRun(data, NumBlocks(data)) == NumBlocks(data) - i
    ensures RunRecord(data, i, NumBlocks(data)) in NegativeSpaces(data)
  {
    var n := NumBlocks(data);
    var r := RunRecord(data, i, n);
    InLonger([r], VoidsBefore(data, n), r);
  }

  /** The closed voids come first among all voids. */
  lemma ClosedVoidsLead(data: seq<byte>)
    ensures VoidsBefore(data, NumBlocks(data)) <= NegativeSpaces(data)
  {
  }

  /** Where a record lies: an erasure void lies strictly inside the dump and
      its size is its extent; a terminal void ends at the end of the dump and
      its size counts whole blocks, so it exceeds its extent exactly when
      the dump's length is not a multiple of 4096. */
  ghost predicate WellPlaced(data: seq<byte>, r: NegativeSpace) {
    && r.start < r.end
    && (r.kind == Erasure ==> r.end < |data| && r.end - r.start == r.size)
    && (r.kind == Terminal ==>
          && r.end == |data|
          && r.end - r.start <= r.size
          && (r.end - r.start == r.size <==> |data| % BlockSize == 0))
  }

  /** Only the last record can be terminal. */
  predicate TerminalOnlyLast(recs: seq<NegativeSpace>) {
    forall x :: 0 <= x < |recs| - 1 ==> recs[x].kind == Erasure
  }

  lemma RunRecordWellPlaced(data: seq<byte>, r: NegativeSpace)
    requires RecordsRun(data, r)
    ensures WellPlaced(data, r) && r.start < |data|
  {
    var i: nat, j: nat :| j <= NumBlocks(data) && IsMaximalRun(data, i, j) && r == RunRecord(data, i, j);
    BlockPositions(data, i);
    BlockPositions(data, j);
  }

  /** Every void is well placed, and only the last one can be terminal. */
  lemma VoidExtents(data: seq<byte>)
    ensures forall r :: r in NegativeSpaces(data) ==> WellPlaced(data, r)
    ensures TerminalOnlyLast(NegativeSpaces(data))
  {
    var recs := NegativeSpaces(data);
    NegativeSpacesAreMaximalRuns(data);
    forall x | 0 <= x < |recs|
      ensures WellPlaced(data, recs[x]) && recs[x].start < |data|
    {
      RunRecordWellPlaced(data, recs[x]);
    }
    forall x | 0 <= x < |recs| - 1
      ensures recs[x].kind == Erasure
    {
      assert recs[x].end < recs[|recs| - 1].start;
    }
  }

  /** The number of all-zero blocks among the first `k`. */
  function ZeroBlockCount(data: seq<byte>, k: nat): nat
    requires k <= NumBlocks(data)
  {
    if k == 0 then 0 else ZeroBlockCount(data, k - 1) + (if AllZero(Block(data, k - 1)) then 1 else 0)
  }

  lemma VoidBytesAppend(spaces: seq<NegativeSpace>, more: seq<NegativeSpace>)
    requires |more| <= 1
    ensures VoidBytes(spaces + more) == VoidBytes(spaces) + (if more == [] then 0 else more[0].size)
  {
    if more != [] {
      assert (spaces + more)[..|spaces + more| - 1] == spaces;
    } else {
      assert spaces + more == spaces;
    }
  }

  lemma {:induction false} VoidBytesBefore(data: seq<byte>, k: nat)
    requires k <= NumBlocks(data)
    ensures VoidBytes(VoidsBefore(data, k)) + ZeroRun(data, k) * BlockSize == ZeroBlockCount(data, k) * BlockSize
  {
    if k > 0 {
      VoidBytesBefore(data, k - 1);
      var run := ZeroRun(data, k - 1);
      VoidBytesAppend(VoidsBefore(data, k - 1),
        if !AllZero(Block(data, k - 1)) && run > 0
        then [NegativeSpace(Erasure, (k - 1 - run) * BlockSize, (k - 1) * BlockSize, run * BlockSize)]
        else []);
    }
  }

  /** Nothing is lost or counted twice: the summary's void bytes are 4096
      for every all-zero block of the dump. */
  lemma VoidBytesCountZeroBlocks(data: seq<byte>)
    ensures VoidBytes(NegativeSpaces(data)) == ZeroBlockCount(data, NumBlocks(data)) * BlockSize
  {
    var n := NumBlocks(data);
    var run := ZeroRun(data, n);
    VoidBytesBefore(data, n);
    VoidBytesAppend(VoidsBefore(data, n),
      if run > 0 then [NegativeSpace(Terminal, (n - run) * BlockSize, |data|, run * BlockSize)] else []);
  }

  // ---------------------------------------------------------------------
  // Hidden structures

  /** Each hit of a block is the first occurrence of its pattern's
      signature in the block, reported at the block's offset plus that
      position. */
  lemma {:induction false} PatternHitsSound(block: seq<byte>, offset: nat, labels: seq<PatternLabel>)
    ensures forall h :: h in PatternHits(block, offset, labels) ==>
      && h.pattern in labels && h.order == HitOrder && offset <= h.offset
      && Find(block, Signature(h.pattern)) == Some(h.offset - offset)
  {
    if labels != [] {
      var init := labels[..|labels| - 1];
      PatternHitsSound(block, offset, init);
      assert labels == init + [labels[|labels| - 1]];
    }
  }

  /** Every pattern that occurs in the block is hit. */
  lemma {:induction false} PatternHitsComplete(block: seq<byte>, offset: nat, labels: seq<PatternLabel>, p: PatternLabel)
    requires p in labels && Contains(block, Signature(p))
    ensures Hit(offset + Find(block, Signature(p)).value, p, HitOrder) in PatternHits(block, offset, labels)
  {
    var init, last := labels[..|labels| - 1], labels[|labels| - 1];
    var hit := Hit(offset + Find(block, Signature(p)).value, p, HitOrder);
    assert PatternHits(block, offset, labels) == PatternHits(block, offset, init) + HitFor(block, offset, last);
    if p != last {
      assert labels == init + [last];
      PatternHitsComplete(block, offset, init, p);
      assert hit in PatternHits(block, offset, init);
    } else {
      assert HitFor(block, offset, last) == [hit];
    }
  }

  /** No label appears twice. */
  predicate DistinctLabels(labels: seq<PatternLabel>) {
    forall x, y :: 0 <= x < y < |labels| ==> labels[x] != labels[y]
  }

  /** No pattern is hit twice. */
  predicate OneHitPerPattern(hits: seq<Hit>) {
    forall x, y :: 0 <= x < y < |hits| ==> hits[x].pattern != hits[y].pattern
  }

  /** With a table that names each pattern once, a block reports each
      pattern at most once. */
  lemma {:induction false} PatternHitsDistinct(block: seq<byte>, offset: nat, labels: seq<PatternLabel>)
    requires DistinctLabels(labels)
    ensures OneHitPerPattern(PatternHits(block, offset, labels))
  {
    if labels != [] {
      var init, last := labels[..|labels| - 1], labels[|labels| - 1];
      assert DistinctLabels(init);
      assert last !in init by {
        forall i | 0 <= i < |init|
          ensures init[i] != last
        {
          assert init[i] == labels[i];
        }
      }
      PatternHitsDistinct(block, offset, init);
      PatternHitsSound(block, offset, init);
      var prev, hits := PatternHits(block, offset, init), PatternHits(block, offset, labels);
      assert hits == prev + HitFor(block, offset, last);
      assert |HitFor(block, offset, last)| <= 1;
      forall x, y | 0 <= x < y < |hits|
        ensures hits[x].pattern != hits[y].pattern
      {
        assert x < |prev|;
        assert hits[x] == prev[x];
        if y < |prev| {
          assert hits[y] == prev[y];
        } else {
          assert hits[x].pattern in init;
          assert hits[y] == HitFor(block, offset, last)[y - |prev|];
          assert hits[y].pattern == last;
        }
      }
    }
  }

  /** Every pattern of the table is distinct and the table is complete. */
  lemma PatternOrderIsTable()
    ensures DistinctLabels(PatternOrder)
    ensures forall p: PatternLabel :: p in PatternOrder
  {
    forall p: PatternLabel
      ensures p in PatternOrder
    {
      match p
      case ZeroPage => assert PatternOrder[0] == p;
      case Int3Sled => assert PatternOrder[1] == p;
      case NopSled => assert PatternOrder[2] == p;
      case MachOMagic => assert PatternOrder[3] == p;
    }
  }

  /** Where a hit of `sig` at absolute position `q` in block `b` is sound:
      the signature starts at `q`, inside block `b`, and nowhere earlier in
      that block. */
  ghost predicate FirstInBlock(data: seq<byte>, b: nat, sig: seq<byte>, q: nat)
    requires b < NumBlocks(data)
  {
    var base := b * BlockSize;
    && base <= q
    && OccursAt(Block(data, b), sig, q - base)
    && (forall i :: 0 <= i < q - base ==> !OccursAt(Block(data, b), sig, i))
  }

  /** An occurrence inside a block is an occurrence in the dump that does
      not reach past the block's end. */
  lemma OccursInBlock(data: seq<byte>, b: nat, sig: seq<byte>, x: nat)
    requires b < NumBlocks(data) && OccursAt(Block(data, b), sig, x)
    ensures b * BlockSize + x + |sig| <= BlockEnd(data, b)
    ensures data[b * BlockSize + x..b * BlockSize + x + |sig|] == sig
  {
    var base := b * BlockSize;
    SliceOfSlice(data, base, BlockEnd(data, b), x, x + |sig|);
  }

  /** A slice of a slice is a slice of the whole. */
  lemma SliceOfSlice(s: seq<byte>, lo: nat, hi: nat, i: nat, j: nat)
    requires lo <= hi <= |s| && i <= j <= hi - lo
    ensures s[lo..hi][i..j] == s[lo + i..lo + j]
  {
    assert forall n :: 0 <= n < j - i ==> s[lo..hi][i..j][n] == s[lo + i + n];
  }

  /** The hits of block `b` are first occurrences inside that block. */
  lemma BlockHitsSound(data: seq<byte>, b: nat)
    requires b < NumBlocks(data)
    ensures forall h :: h in PatternHits(Block(data, b), b * BlockSize, PatternOrder) ==>
      && h.order == HitOrder
      && h.offset / BlockSize == b
      && FirstInBlock(data, b, Signature(h.pattern), h.offset)
  {
    var blk, off := Block(data, b), b * BlockSize;
    PatternHitsSound(blk, off, PatternOrder);
    forall h | h in PatternHits(blk, off, PatternOrder)
      ensures h.offset / BlockSize == b && FirstInBlock(data, b, Signature(h.pattern), h.offset)
    {
      FindSpec(blk, Signature(h.pattern));
      assert h.offset - off < BlockSize;
    }
  }

  lemma {:induction false} HitsSoundBefore(data: seq<byte>, k: nat)
    requires k <= NumBlocks(data)
    ensures forall h :: h in HitsBefore(data, k) ==>
      && h.order == HitOrder
      && h.offset / BlockSize < k
      && FirstInBlock(data, h.offset / BlockSize, Signature(h.pattern), h.offset)
  {
    if k > 0 {
      HitsSoundBefore(data, k - 1);
      BlockHitsSound(data, k - 1);
      var prev, latest := HitsBefore(data, k - 1), PatternHits(Block(data, k - 1), (k - 1) * BlockSize, PatternOrder);
      assert HitsBefore(data, k) == prev + latest;
      forall h | h in HitsBefore(data, k)
        ensures h.order == HitOrder && h.offset / BlockSize < k
        ensures FirstInBlock(data, h.offset / BlockSize, Signature(h.pattern), h.offset)
      {
        if h !in prev {
          assert h in latest;
        }
      }
    }
  }

  /** Every reported hidden structure is a first occurrence of its pattern's
      signature inside one block: it lies wholly in the dump and never
      straddles a block boundary. */
  lemma HitsSound(data: seq<byte>)
    ensures forall h :: h in HitsBefore(data, NumBlocks(data)) ==>
      var b, sig := h.offset / BlockSize, Signature(h.pattern);
      && h.order == HitOrder
      && b < NumBlocks(data)
      && FirstInBlock(data, b, sig, h.offset)
      && h.offset + |sig| <= BlockEnd(data, b)
      && data[h.offset..h.offset + |sig|] == sig
  {
    HitsSoundBefore(data, NumBlocks(data));
    forall h | h in HitsBefore(data, NumBlocks(data))
      ensures var b, sig := h.offset / BlockSize, Signature(h.pattern);
        h.offset + |sig| <= BlockEnd(data, b) && data[h.offset..h.offset + |sig|] == sig
    {
      HitInBlock(data, h.offset / BlockSize, Signature(h.pattern), h.offset);
    }
  }

  /** The first occurrence of a signature inside a block lies in the dump
      within that block. */
  lemma HitInBlock(data: seq<byte>, b: nat, sig: seq<byte>, q: nat)
    requires b < NumBlocks(data) && FirstInBlock(data, b, sig, q)
    ensures q + |sig| <= BlockEnd(data, b) && data[q..q + |sig|] == sig
  {
    OccursInBlock(data, b, sig, q - b * BlockSize);
  }

  lemma {:induction false} HitsGrow(data: seq<byte>, k: nat, m: nat)
    requires k <= m <= NumBlocks(data)
    ensures HitsBefore(data, k) <= HitsBefore(data, m)
    decreases m
  {
    if k < m {
      HitsGrow(data, k, m - 1);
    }
  }

  /** Every pattern that occurs in a block is reported, at its first
      position in that block. */
  lemma HitsComplete(data: seq<byte>, b: nat, p: PatternLabel)
    requires b < NumBlocks(data) && Contains(Block(data, b), Signature(p))
    ensures Hit(b * BlockSize + Find(Block(data, b), Signature(p)).value, p, HitOrder)
            in HitsBefore(data, NumBlocks(data))
  {
    PatternOrderIsTable();
    PatternHitsComplete(Block(data, b), b * BlockSize, PatternOrder, p);
    BlockHitsReported(data, b, Hit(b * BlockSize + Find(Block(data, b), Signature(p)).value, p, HitOrder));
  }

  /** A hit found in block `b` is among the hits of the whole dump. */
  lemma BlockHitsReported(data: seq<byte>, b: nat, hit: Hit)
    requires b < NumBlocks(data) && hit in PatternHits(Block(data, b), b * BlockSize, PatternOrder)
    ensures hit in HitsBefore(data, NumBlocks(data))
  {
    var found, earlier := PatternHits(Block(data, b), b * BlockSize, PatternOrder), HitsBefore(data, b);
    InLonger(found, earlier, hit);
    BlockHitsPrefix(data, b);
    InPrefix(earlier + found, HitsBefore(data, NumBlocks(data)), hit);
  }

  /** The hits up to and including block `b` lead the hits of the dump. */
  lemma BlockHitsPrefix(data: seq<byte>, b: nat)
    requires b < NumBlocks(data)
    ensures HitsBefore(data, b) + PatternHits(Block(data, b), b * BlockSize, PatternOrder)
              <= HitsBefore(data, NumBlocks(data))
  {
    HitsGrow(data, b + 1, NumBlocks(data));
  }

  /** What occurs in a list of hits occurs in it after more are added in front. */
  lemma InLonger<T>(found: seq<T>, earlier: seq<T>, hit: T)
    requires hit in found
    ensures hit in earlier + found
  {
    var i :| 0 <= i < |found| && found[i] == hit;
    assert (earlier + found)[|earlier| + i] == hit;
  }

  /** What occurs in a prefix occurs in the whole list. */
  lemma InPrefix<T>(prefix: seq<T>, all: seq<T>, hit: T)
    requires prefix <= all && hit in prefix
    ensures hit in all
  {
    var i :| 0 <= i < |prefix| && prefix[i] == hit;
    assert all[i] == hit;
  }

  /** A block is reported as a zero page exactly when it is a full block of
      4096 zero bytes. */
  lemma ZeroPageHitIffFullZeroBlock(data: seq<byte>, b: nat)
    requires b < NumBlocks(data)
    ensures Hit(b * BlockSize, ZeroPage, HitOrder) in HitsBefore(data, NumBlocks(data))
        <==> |Block(data, b)| == BlockSize && AllZero(Block(data, b))
  {
    var blk, sig := Block(data, b), Signature(ZeroPage);
    FindSpec(blk, sig);
    if |blk| == BlockSize && AllZero(blk) {
      assert blk == sig;
      assert OccursAt(blk, sig, 0);
      HitsComplete(data, b, ZeroPage);
    }
    if Hit(b * BlockSize, ZeroPage, HitOrder) in HitsBefore(data, NumBlocks(data)) {
      HitsSound(data);
      assert (b * BlockSize) / BlockSize == b;
      assert OccursAt(blk, sig, 0);
      assert blk == blk[0..|sig|];
    }
  }

  // ---------------------------------------------------------------------
  // Entropy samples

  /** The `j`-th entropy sample is taken on block `256(j+1) - 1`, at the
      offset where that block starts, and carries the band of its entropy. */
  lemma {:induction false} EntropySamplesEvery256(data: seq<byte>, entropyOf: seq<byte> -> real, k: nat)
    requires k <= NumBlocks(data)
    ensures var s := SamplesBefore(data, entropyOf, k);
      && |s| == k / SampleStride
      && forall j :: 0 <= j < |s| ==>
           && s[j].offset == ((j + 1) * SampleStride - 1) * BlockSize
           && s[j].entropy == entropyOf(Block(data, (j + 1) * SampleStride - 1))
           && s[j].band == ClassifyEntropy(s[j].entropy)
  {
    if k > 0 {
      EntropySamplesEvery256(data, entropyOf, k - 1);
      if k % SampleStride == 0 {
        assert k / SampleStride == (k - 1) / SampleStride + 1;
        assert k == ((k - 1) / SampleStride + 1) * SampleStride;
      } else {
        assert k / SampleStride == (k - 1) / SampleStride;
      }
    }
  }

  /** The bands in the order of the entropy they stand for. */
  function BandRank(band: EntropyBand): nat {
    match band
    case Void => 0
    case Structured => 1
    case Complex => 2
    case Maximum => 3
  }

  /** More entropy never gives a lower band. */
  lemma ClassifyEntropyMonotone(e1: real, e2: real)
    requires e1 <= e2
    ensures BandRank(ClassifyEntropy(e1)) <= BandRank(ClassifyEntropy(e2))
  {
  }

  // ---------------------------------------------------------------------
  // The assessment

  /** More voids or more hidden structures never give a lower assessment. */
  lemma AssessMonotone(v1: real, h1: nat, v2: real, h2: nat)
    requires v1 <= v2 && h1 <= h2
    ensures Assess(v1, h1).Order() <= Assess(v2, h2).Order()
  {
  }

  /** The scan's assessment depends on the hit count alone and is never
      HYPERREAL, whatever the dump. */
  lemma ScanNeverHyperreal(data: seq<byte>, entropyOf: seq<byte> -> real)
    ensures var report := ScanReport(data, entropyOf);
      && report.summary.assessment == Assess(0.0, report.summary.hiddenCount)
      && report.summary.assessment != Hyperreal
      && (report.summary.assessment == Simulation <==> report.summary.hiddenCount > 2)
  {
  }

  /** The void percentage the summary reports, before rounding. */
  function VoidPercentage(report: DumpReport): real {
    (report.summary.voidBytes as real) * 100.0 / (if report.size == 0 then 1 else report.size) as real
  }

  /** The assessment the summary evidently means to carry: the rule applied
      to the dump's own void percentage. */
  function IntendedAssessment(report: DumpReport): (level: Level)
    ensures level == Hyperreal <==> VoidPercentage(report) > 50.0 && report.summary.hiddenCount > 5
  {
    Assess(VoidPercentage(report), report.summary.hiddenCount)
  }

  /** The report with the corrected assessment: the same scan, judged on
      the dump's own void percentage. */
  function CorrectedReport(data: seq<byte>, entropyOf: seq<byte> -> real): (report: DumpReport)
    ensures var scanned := ScanReport(data, entropyOf);
      && report == scanned.(summary := report.summary)
      && report.summary == scanned.summary.(assessment := report.summary.assessment)
    ensures report.summary.assessment == Hyperreal <==>
              VoidPercentage(report) > 50.0 && report.summary.hiddenCount > 5
  {
    var scanned := ScanReport(data, entropyOf);
    scanned.(summary := scanned.summary.(assessment := IntendedAssessment(scanned)))
  }

  /** A dump of `m` zero pages. */
  function ZeroPages(m: nat): (data: seq<byte>)
    ensures NumBlocks(data) == m
  {
    seq(m * BlockSize, _ => 0)
  }

  /** Every block of a dump of zero pages is a full block of zeros. */
  lemma ZeroPagesBlock(m: nat, b: nat)
    requires b < m
    ensures |Block(ZeroPages(m), b)| == BlockSize && AllZero(Block(ZeroPages(m), b))
  {
  }

  /** A full block of zeros matches the zero-page signature at its start
      and none of the other signatures. */
  lemma ZeroPageHits(block: seq<byte>, offset: nat)
    requires |block| == BlockSize && AllZero(block)
    ensures PatternHits(block, offset, PatternOrder) == [Hit(offset, ZeroPage, HitOrder)]
  {
    var sig := Signature(ZeroPage);
    FindSpec(block, sig);
    assert block[0..|sig|] == sig;
    assert Find(block, sig) == Some(0);
    NotContainedWithoutFirst(block, Signature(Int3Sled));
    NotContainedWithoutFirst(block, Signature(NopSled));
    NotContainedWithoutFirst(block, Signature(MachOMagic));
    var one, two, three := [ZeroPage], [ZeroPage, Int3Sled], [ZeroPage, Int3Sled, NopSled];
    assert one[..0] == [] && two[..1] == one && three[..2] == two && PatternOrder[..3] == three;
    assert PatternHits(block, offset, one) == [Hit(offset, ZeroPage, HitOrder)];
    assert PatternHits(block, offset, two) == PatternHits(block, offset, one);
    assert PatternHits(block, offset, three) == PatternHits(block, offset, two);
  }

  lemma {:induction false} ZeroPagesRun(m: nat, k: nat)
    requires k <= m
    ensures ZeroRun(ZeroPages(m), k) == k
  {
    if k > 0 {
      ZeroPagesRun(m, k - 1);
      ZeroPagesBlock(m, k - 1);
    }
  }

  lemma {:induction false} ZeroPagesVoids(m: nat, k: nat)
    requires k <= m
    ensures VoidsBefore(ZeroPages(m), k) == []
  {
    if k > 0 {
      ZeroPagesVoids(m, k - 1);
      ZeroPagesBlock(m, k - 1);
    }
  }

  lemma {:induction false} ZeroPagesHitCount(m: nat, k: nat)
    requires k <= m
    ensures |HitsBefore(ZeroPages(m), k)| == k
  {
    if k > 0 {
      ZeroPagesHitCount(m, k - 1);
      var data := ZeroPages(m);
      var blk := Block(data, k - 1);
      ZeroPagesBlock(m, k - 1);
      ZeroPageHits(blk, (k - 1) * BlockSize);
      assert HitsBefore(data, k) == HitsBefore(data, k - 1) + PatternHits(blk, (k - 1) * BlockSize, PatternOrder);
    }
  }

  /** A quantity is 100 per cent of itself. */
  lemma WholeIsHundredPercent(x: real)
    requires x > 0.0
    ensures x * 100.0 / x == 100.0
  {
    assert x * 100.0 == 100.0 * x;
  }

  /** A dump made only of six or more zero pages is entirely void and holds
      a zero page in every block, so by the assessment rule it is HYPERREAL;
      the scan reports SIMULATION because its rule reads a void percentage
      of 0. */
  lemma ZeroDumpMisassessed(m: nat, entropyOf: seq<byte> -> real)
    requires m >= 6
    ensures var report := ScanReport(ZeroPages(m), entropyOf);
      && report.summary.voidBytes == report.size
      && report.summary.hiddenCount == m
      && report.summary.assessment == Simulation
      && IntendedAssessment(report) == Hyperreal
      && CorrectedReport(ZeroPages(m), entropyOf).summary.assessment == Hyperreal
  {
    var data := ZeroPages(m);
    ZeroPagesRun(m, m);
    ZeroPagesVoids(m, m);
    ZeroPagesHitCount(m, m);
    assert NegativeSpaces(data) == [NegativeSpace(Terminal, 0, m * BlockSize, m * BlockSize)];
    assert VoidBytes(NegativeSpaces(data)) == m * BlockSize by {
      VoidBytesAppend([], NegativeSpaces(data));
    }
    var report := ScanReport(data, entropyOf);
    var x := (m * BlockSize) as real;
    assert x > 0.0;
    assert VoidPercentage(report) == x * 100.0 / x;
    WholeIsHundredPercent(x);
  }

  /** A dump of two zero pages followed by a page that is not all zero
      yields one erasure void covering bytes 0..8192. */
  lemma TwoZeroPagesThenData(data: seq<byte>, entropyOf: seq<byte> -> real)
    requires |data| == 3 * BlockSize
    requires forall i :: 0 <= i < 2 * BlockSize ==> data[i] == 0
    requires !AllZero(data[2 * BlockSize..])
    ensures ScanReport(data, entropyOf).summary.totalBlocks == 3
    ensures NegativeSpaces(data) == [NegativeSpace(Erasure, 0, 2 * BlockSize, 2 * BlockSize)]
  {
    assert NumBlocks(data) == 3;
    assert AllZero(Block(data, 0));
    assert AllZero(Block(data, 1));
    assert Block(data, 2) == data[2 * BlockSize..];
    assert ZeroRun(data, 2) == 2;
    assert VoidsBefore(data, 1) == [];
    assert VoidsBefore(data, 2) == [];
    assert VoidsBefore(data, 3) == [NegativeSpace(Erasure, 0, 2 * BlockSize, 2 * BlockSize)];
    assert ZeroRun(data, 3) == 0;
  }
}
