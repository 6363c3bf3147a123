/**
 demultiplex_reads.py: the index (barcode) reads, the forward reads and the reverse reads are
 walked in lock-step; every tuple must pass the three-way header check, and a pair is kept
 exactly when the index read starts with the sample's barcode. Two counters are kept for
 the summary log.
 */
module Demultiplex {
  import opened Wrappers
  import opened Text
  import opened Fastq
  import opened Headers

  /** The outcome of `parse_paired_reads` drained by `main`: the pairs yielded, both counters and how it ended. */
  datatype DemuxRun = DemuxRun(pairs: seq<Pair>, inputCount: nat, sampleCount: nat, status: Status)

  /**
   The three-argument `check_seq_headers(header1, header2, headeri)`: the first header is
   compared field by field with each of the other two, over the common field count.
   */
  predicate CheckSeqHeaders(header1: string, header2: string, headeri: string) {
    FieldsAgree(Fields(header1), Fields(header2)) && FieldsAgree(Fields(header1), Fields(headeri))
  }

  /** The headers pass exactly when every shared field of the first agrees with the other two. */
  lemma CheckSeqHeadersMeaning(header1: string, header2: string, headeri: string)
    ensures CheckSeqHeaders(header1, header2, headeri) <==>
      && (forall i :: 0 <= i < |Fields(header1)| && i < |Fields(header2)| ==>
            FieldKey(Fields(header1)[i]) == FieldKey(Fields(header2)[i]))
      && (forall i :: 0 <= i < |Fields(header1)| && i < |Fields(headeri)| ==>
            FieldKey(Fields(header1)[i]) == FieldKey(Fields(headeri)[i]))
  {
    FieldsAgreeMeaning(Fields(header1), Fields(header2));
    FieldsAgreeMeaning(Fields(header1), Fields(headeri));
  }

  /**
   `bc_data[1][:len(index)] == index`: Python's slice clamps, so an index read shorter than the
   barcode yields a shorter string and is never accepted; the match is exact and case-sensitive.
   */
  function BarcodeMatches(indexSeq: string, barcode: string): (r: bool)
    ensures r <==> |barcode| <= |indexSeq| && indexSeq[..|barcode|] == barcode
  {
    Take(indexSeq, |barcode|) == barcode
  }

  /** A single differing base within the barcode's length rejects the read. */
  lemma OneMismatchRejects(indexSeq: string, barcode: string, i: nat)
    requires i < |barcode| && i < |indexSeq| && indexSeq[i] != barcode[i]
    ensures !BarcodeMatches(indexSeq, barcode)
  {
    if |barcode| <= |indexSeq| {
      assert indexSeq[..|barcode|][i] == indexSeq[i];
    }
  }

  /** How many tuples `izip(index, read1, read2)` can draw. */
  function Reached(ix: Parsed, r1: Parsed, r2: Parsed): (n: nat)
    ensures n <= |ix.records| && n <= |r1.records| && n <= |r2.records|
    ensures n == |ix.records| || n == |r1.records| || n == |r2.records|
  {
    var m := if |r1.records| <= |r2.records| then |r1.records| else |r2.records|;
    if |ix.records| <= m then |ix.records| else m
  }

  /** The header check of tuple `k`, with the index header first as the call at line 157 passes it. */
  predicate InSync(ix: Parsed, r1: Parsed, r2: Parsed, k: nat)
    requires k < Reached(ix, r1, r2)
  {
    CheckSeqHeaders(ix.records[k].id, r1.records[k].id, r2.records[k].id)
  }

  /** The first tuple at or after `k` whose headers disagree, or `Reached` if there is none. */
  function FirstMismatch(ix: Parsed, r1: Parsed, r2: Parsed, k: nat): (m: nat)
    requires k <= Reached(ix, r1, r2)
    ensures k <= m <= Reached(ix, r1, r2)
    ensures forall j :: k <= j < m ==> InSync(ix, r1, r2, j)
    ensures m < Reached(ix, r1, r2) ==> !InSync(ix, r1, r2, m)
    decreases Reached(ix, r1, r2) - k
  {
    if k == Reached(ix, r1, r2) || !InSync(ix, r1, r2, k) then k
    else FirstMismatch(ix, r1, r2, k + 1)
  }

  /** Barcode verdicts of the first `k` index reads. */
  function Verdicts(ix: Parsed, barcode: string, k: nat): (v: seq<bool>)
    requires k <= |ix.records|
    ensures |v| == k && forall j :: 0 <= j < k ==> v[j] == BarcodeMatches(ix.records[j].sequence, barcode)
  {
    seq(k, j requires 0 <= j < k => BarcodeMatches(ix.records[j].sequence, barcode))
  }

  /** The pairs yielded from the first `k` tuples: those whose index read carries the barcode. */
  function Selected(ix: Parsed, r1: Parsed, r2: Parsed, barcode: string, k: nat): seq<Pair>
    requires k <= Reached(ix, r1, r2)
  {
    Chosen(Verdicts(ix, barcode, k), Zip(r1, r2))
  }

  /** How many tuples passed the header check: all that were counted, bar a failing last one. */
  function Passed(run: DemuxRun): nat
  {
    if run.status == HeaderMismatch && run.inputCount > 0 then run.inputCount - 1 else run.inputCount
  }

  /**
   `parse_paired_reads` drained to the end, as a specification. Counting stops at the shortest
   stream; the first tuple that fails the header check is counted and aborts the run with
   nothing from it on yielded; otherwise the run ends as `izip` does.
   */
  function Demultiplexed(ix: Parsed, r1: Parsed, r2: Parsed, barcode: string): (run: DemuxRun)
    ensures run.sampleCount == |run.pairs| <= Passed(run) <= run.inputCount <= Reached(ix, r1, r2)
    ensures forall j :: 0 <= j < Passed(run) ==> InSync(ix, r1, r2, j)
    ensures run.pairs == Selected(ix, r1, r2, barcode, Passed(run))
    ensures run.status == HeaderMismatch ==>
              run.inputCount == Passed(run) + 1 && Passed(run) < Reached(ix, r1, r2) && !InSync(ix, r1, r2, Passed(run))
    ensures run.status != HeaderMismatch ==>
              run.inputCount == Reached(ix, r1, r2) &&
              (run.status == Truncated <==> EndsTruncated([ix, r1, r2], run.inputCount)) &&
              run.status != MissingToken
  {
    var n := Reached(ix, r1, r2);
    var m := FirstMismatch(ix, r1, r2, 0);
    var ps := Selected(ix, r1, r2, barcode, m);
    var run :=
      if m < n then DemuxRun(ps, m + 1, |ps|, HeaderMismatch)
      else DemuxRun(ps, n, |ps|, if EndsTruncated([ix, r1, r2], n) then Truncated else Finished);
    assert Passed(run) == m;
    run
  }

  /**
   What the generator yields: the forward and reverse records of exactly those tuples that
   passed the header check and whose index read starts with the barcode.
   */
  lemma YieldedPairs(ix: Parsed, r1: Parsed, r2: Parsed, barcode: string)
    ensures var run := Demultiplexed(ix, r1, r2, barcode);
            && (forall j :: 0 <= j < Passed(run) && BarcodeMatches(ix.records[j].sequence, barcode) ==>
                  Pair(r1.records[j], r2.records[j]) in run.pairs)
            && (forall p :: p in run.pairs ==>
                  exists j :: 0 <= j < Passed(run) && BarcodeMatches(ix.records[j].sequence, barcode) &&
                              p == Pair(r1.records[j], r2.records[j]))
  {
    var run := Demultiplexed(ix, r1, r2, barcode);
    var v := Verdicts(ix, barcode, Passed(run));
    ChosenMembers(v, Zip(r1, r2));
  }

  /** A tuple that passes the header check moves the first mismatch past it. */
  lemma SyncStep(ix: Parsed, r1: Parsed, r2: Parsed, k: nat)
    requires k < Reached(ix, r1, r2) && FirstMismatch(ix, r1, r2, 0) >= k && InSync(ix, r1, r2, k)
    ensures FirstMismatch(ix, r1, r2, 0) >= k + 1
  {
  }

  /** One more checked tuple extends the yielded pairs by at most its own pair. */
  lemma SelectedStep(ix: Parsed, r1: Parsed, r2: Parsed, barcode: string, k: nat)
    requires k < Reached(ix, r1, r2)
    ensures Selected(ix, r1, r2, barcode, k + 1) ==
            Selected(ix, r1, r2, barcode, k) +
            (if BarcodeMatches(ix.records[k].sequence, barcode) then [Pair(r1.records[k], r2.records[k])] else [])
  {
    var b := BarcodeMatches(ix.records[k].sequence, barcode);
    assert Verdicts(ix, barcode, k + 1) == Verdicts(ix, barcode, k) + [b];
    ChosenSnoc(Verdicts(ix, barcode, k), b, Zip(r1, r2));
  }

  /** A run that stops at the first failed header check, tuple `k`. */
  lemma MismatchRun(ix: Parsed, r1: Parsed, r2: Parsed, barcode: string, k: nat)
    requires k < Reached(ix, r1, r2) && FirstMismatch(ix, r1, r2, 0) >= k && !InSync(ix, r1, r2, k)
    ensures Demultiplexed(ix, r1, r2, barcode) ==
            DemuxRun(Selected(ix, r1, r2, barcode, k), k + 1, |Selected(ix, r1, r2, barcode, k)|, HeaderMismatch)
  {
    assert FirstMismatch(ix, r1, r2, 0) == k;
  }

  /**
   A run in which every tuple passed the header check ends with the verdict of the first
   exhausted stream, asked in the order index, read 1, read 2.
   */
  lemma CompleteRun(ix: Parsed, r1: Parsed, r2: Parsed, barcode: string)
    requires FirstMismatch(ix, r1, r2, 0) >= Reached(ix, r1, r2)
    ensures var n := Reached(ix, r1, r2);
            var truncated := if n == |ix.records| then ix.truncated
                             else if n == |r1.records| then r1.truncated
                             else r2.truncated;
            Demultiplexed(ix, r1, r2, barcode) ==
            DemuxRun(Selected(ix, r1, r2, barcode, n), n, |Selected(ix, r1, r2, barcode, n)|,
                     if truncated then Truncated else Finished)
  {
    IzipEnd(ix, r1, r2, Reached(ix, r1, r2));
  }

  /** `izip(index, read1, read2)` asks the index stream first, then read 1, then read 2. */
  lemma IzipEnd(ix: Parsed, r1: Parsed, r2: Parsed, n: nat)
    requires n == Reached(ix, r1, r2)
    ensures EndsTruncated([ix, r1, r2], n) ==
            if n == |ix.records| then ix.truncated
            else if n == |r1.records| then r1.truncated
            else r2.truncated
  {
    var s := [ix, r1, r2];
    assert s[1..] == [r1, r2] && s[1..][1..] == [r2];
    if n != |ix.records| && n != |r1.records| {
      assert FirstExhausted(s[1..][1..], n) == 0;
      assert FirstExhausted(s[1..], n) == 1;
    } else if n != |ix.records| {
      assert FirstExhausted(s[1..], n) == 0;
    }
  }

  /** `format_log`: three lines joined by '\n'. */
  function FormatLog(inputSequenceCount: nat, sampleSeqCount: nat): (log: string)
    ensures SplitOn(log, '\n') == [
              "Demultiplexing results",
              "Total number of input sequences: " + Decimal(inputSequenceCount),
              "Number of seqs for sample: " + Decimal(sampleSeqCount)]
  {
    var lines := [
      "Demultiplexing results",
      "Total number of input sequences: " + Decimal(inputSequenceCount),
      "Number of seqs for sample: " + Decimal(sampleSeqCount)];
    NoNewlineInDecimal(inputSequenceCount);
    NoNewlineInDecimal(sampleSeqCount);
    SplitJoin(lines, '\n');
    JoinWith(lines, '\n')
  }

  lemma NoNewlineInDecimal(n: nat)
    ensures '\n' !in Decimal(n)
  {
    var d := Decimal(n);
    assert forall i :: 0 <= i < |d| ==> IsDigit(d[i]) && d[i] != '\n';
  }

  /** Both counts can be read back from the log text. */
  lemma LogHoldsCounts(inputSequenceCount: nat, sampleSeqCount: nat)
    ensures var lines := SplitOn(FormatLog(inputSequenceCount, sampleSeqCount), '\n');
            var p1, p2 := "Total number of input sequences: ", "Number of seqs for sample: ";
            |lines| == 3 && lines[0] == "Demultiplexing results" &&
            StartsWith(lines[1], p1) && DecimalValue(lines[1][|p1|..]) == inputSequenceCount &&
            StartsWith(lines[2], p2) && DecimalValue(lines[2][|p2|..]) == sampleSeqCount
  {
    var p1, p2 := "Total number of input sequences: ", "Number of seqs for sample: ";
    var d1, d2 := Decimal(inputSequenceCount), Decimal(sampleSeqCount);
    assert (p1 + d1)[|p1|..] == d1 && (p1 + d1)[..|p1|] == p1;
    assert (p2 + d2)[|p2|..] == d2 && (p2 + d2)[..|p2|] == p2;
    DecimalRoundTrip(inputSequenceCount);
    DecimalRoundTrip(sampleSeqCount);
  }

  /**
   The loop of `parse_paired_reads` over the three parsed streams: count every tuple drawn,
   stop at the first header mismatch, and keep the pairs whose index read carries the barcode.
   */
  method DemultiplexRecords(bc: Parsed, r1: Parsed, r2: Parsed, index: string) returns (run: DemuxRun)
    ensures run == Demultiplexed(bc, r1, r2, index)
  {
    var barcodeLength := |index|;
    var sampleSeqCount := 0;
    var inputSequenceCount := 0;
    var pairs: seq<Pair> := [];
    ghost var n := Reached(bc, r1, r2);
    while inputSequenceCount < |bc.records| && inputSequenceCount < |r1.records| && inputSequenceCount < |r2.records|
      invariant inputSequenceCount <= n
      invariant FirstMismatch(bc, r1, r2, 0) >= inputSequenceCount
      invariant pairs == Selected(bc, r1, r2, index, inputSequenceCount)
      invariant sampleSeqCount == |pairs|
      decreases n - inputSequenceCount
    {
      var k := inputSequenceCount;
      var bcData, read1Data, read2Data := bc.records[k], r1.records[k], r2.records[k];
      inputSequenceCount := inputSequenceCount + 1;
      if !CheckSeqHeaders(bcData.id, read1Data.id, read2Data.id) {
        // ParseError
        MismatchRun(bc, r1, r2, index, k);
        return DemuxRun(pairs, inputSequenceCount, sampleSeqCount, HeaderMismatch);
      }
      SyncStep(bc, r1, r2, k);
      SelectedStep(bc, r1, r2, index, k);
      var barcode := Take(bcData.sequence, barcodeLength);
      if barcode == index {
        pairs := pairs + [Pair(read1Data, read2Data)];
        sampleSeqCount := sampleSeqCount + 1;
      }
    }
    assert inputSequenceCount == n;
    CompleteRun(bc, r1, r2, index);
    // `izip` asks the index stream first, then read 1, then read 2; the IndexError of an
    // exhausted stream's parser propagates
    var truncated := if inputSequenceCount == |bc.records| then bc.truncated
                     else if inputSequenceCount == |r1.records| then r1.truncated
                     else r2.truncated;
    run := DemuxRun(pairs, inputSequenceCount, sampleSeqCount, if truncated then Truncated else Finished);
  }

  /**
   `parse_paired_reads(read1, read2, barcodes, index, log_f)`, with the three files given as
   their lines. The log text is produced only when the loop ends normally and a log file was
   passed.
   */
  method ParsePairedReads(read1Lines: seq<string>, read2Lines: seq<string>, barcodeLines: seq<string>,
                          index: string, logRequested: bool)
    returns (run: DemuxRun, log: Option<string>)
    ensures run == Demultiplexed(Parse(barcodeLines), Parse(read1Lines), Parse(read2Lines), index)
    ensures log == if logRequested && run.status == Finished
                   then Some(FormatLog(run.inputCount, run.sampleCount)) else None
  {
    var bc := ParseLines(barcodeLines);
    var r1 := ParseLines(read1Lines);
    var r2 := ParseLines(read2Lines);
    run := DemultiplexRecords(bc, r1, r2, index);
    log := if logRequested && run.status == Finished then Some(FormatLog(run.inputCount, run.sampleCount)) else None;
  }

  /**
   `main` with the barcode already looked up: the pairs are written to the two outputs as they
   are yielded, and the log receives the summary and the closing separator only if the run
   ended normally.
   */
  method DemultiplexMain(read1Lines: seq<string>, read2Lines: seq<string>, indexLines: seq<string>, barcode: string)
    returns (out1: string, out2: string, logText: string, status: Status)
    ensures var run := Demultiplexed(Parse(indexLines), Parse(read1Lines), Parse(read2Lines), barcode);
            && status == run.status
            && out1 == Serialize(Forwards(run.pairs))
            && out2 == Serialize(Reverses(run.pairs))
            && logText == if status == Finished then FormatLog(run.inputCount, run.sampleCount) + "\n---\n\n" else ""
  {
    var run, log := ParsePairedReads(read1Lines, read2Lines, indexLines, barcode, true);
    out1, out2 := WritePairs(run.pairs);
    status := run.status;
    logText := "";
    if log.Some? {
      logText := log.value + "\n---\n\n";
    }
  }
}
