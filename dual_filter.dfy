/**
 dual_fastq_filter.py: the forward and reverse read files are walked in lock-step; every pair
 must pass the two-way header check, and a pair is kept when the first token of the forward
 identifier is one of the listed read names.
 */
module DualFilter {
  import opened Wrappers
  import opened Text
  import opened Fastq
  import opened Headers

  /** The pairs yielded before the run ended, and how it ended. */
  datatype FilterRun = FilterRun(pairs: seq<Pair>, status: Status)

  /** The two-argument `check_seq_headers`: field keys agree over the common field count. */
  predicate CheckSeqHeaders(header1: string, header2: string) {
    FieldsAgree(Fields(header1), Fields(header2))
  }

  /** The headers pass exactly when every shared field has the same key. */
  lemma CheckSeqHeadersMeaning(header1: string, header2: string)
    ensures CheckSeqHeaders(header1, header2) <==>
            forall i :: 0 <= i < |Fields(header1)| && i < |Fields(header2)| ==>
              FieldKey(Fields(header1)[i]) == FieldKey(Fields(header2)[i])
  {
    FieldsAgreeMeaning(Fields(header1), Fields(header2));
  }

  /**
   `[l.split()[0].strip() for l in names]`: one identifier per line of the names file, in
   order; a blank line raises IndexError, here `None`.
   */
  function KeepIds(lines: seq<string>): (r: Option<seq<string>>)
    ensures r.None? <==> exists i :: 0 <= i < |lines| && FirstToken(lines[i]).None?
    ensures r.Some? ==> |r.value| == |lines| &&
                        forall i :: 0 <= i < |lines| ==> FirstToken(lines[i]) == Some(r.value[i])
    decreases |lines|
  {
    if |lines| == 0 then Some([])
    else
      match FirstToken(lines[0])
      case None => None
      case Some(t) =>
        TokenHasNoSpace(lines[0]);
        StripToken(t);
        match KeepIds(lines[1..])
        case None => None
        case Some(ts) => Some([Strip(t)] + ts)
  }

  /** How many tuples `izip(read1, read2)` can draw. */
  function Reached(r1: Parsed, r2: Parsed): (n: nat)
    ensures n <= |r1.records| && n <= |r2.records|
    ensures n == |r1.records| || n == |r2.records|
  {
    if |r1.records| <= |r2.records| then |r1.records| else |r2.records|
  }

  /** Tuple `k` lets the loop go on: its headers agree and the forward identifier has a token. */
  predicate Passes(r1: Parsed, r2: Parsed, k: nat)
    requires k < Reached(r1, r2)
  {
    CheckSeqHeaders(r1.records[k].id, r2.records[k].id) && FirstToken(r1.records[k].id).Some?
  }

  /** The first tuple at or after `k` that stops the loop, or `Reached` if there is none. */
  function FirstStop(r1: Parsed, r2: Parsed, k: nat): (m: nat)
    requires k <= Reached(r1, r2)
    ensures k <= m <= Reached(r1, r2)
    ensures forall j :: k <= j < m ==> Passes(r1, r2, j)
    ensures m < Reached(r1, r2) ==> !Passes(r1, r2, m)
    decreases Reached(r1, r2) - k
  {
    if k == Reached(r1, r2) || !Passes(r1, r2, k) then k
    else FirstStop(r1, r2, k + 1)
  }

  /** Whether the pair's forward identifier is wanted: `header1.split()[0] in seqs_to_keep`. */
  predicate Wanted(r: Record, keep: seq<string>) {
    FirstToken(r.id).Some? && FirstToken(r.id).value in keep
  }

  function Verdicts(r1: Parsed, keep: seq<string>, k: nat): (v: seq<bool>)
    requires k <= |r1.records|
    ensures |v| == k && forall j :: 0 <= j < k ==> v[j] == Wanted(r1.records[j], keep)
  {
    seq(k, j requires 0 <= j < k => Wanted(r1.records[j], keep))
  }

  /** The pairs yielded from the first `k` tuples. */
  function Selected(r1: Parsed, r2: Parsed, keep: seq<string>, k: nat): seq<Pair>
    requires k <= Reached(r1, r2)
  {
    Chosen(Verdicts(r1, keep, k), Zip(r1, r2))
  }

  /**
   `filter_paired_fastq` drained to the end, as a specification. The header check comes
   before the identifier lookup, so a mismatch wins over a missing token in the same tuple.
   */
  function FilterPaired(r1: Parsed, r2: Parsed, keep: seq<string>): FilterRun
  {
    var n := Reached(r1, r2);
    var m := FirstStop(r1, r2, 0);
    var ps := Selected(r1, r2, keep, m);
    if m < n then
      FilterRun(ps, if !CheckSeqHeaders(r1.records[m].id, r2.records[m].id) then HeaderMismatch else MissingToken)
    else
      FilterRun(ps, if EndsTruncated([r1, r2], n) then Truncated else Finished)
  }

  /**
   How a run ends: at the first tuple that fails, with a header mismatch if its headers
   disagree and with a missing token otherwise; if none fails, as the first exhausted stream
   ends. Every tuple before the stopping one passed both checks.
   */
  lemma FilterPairedOutcome(r1: Parsed, r2: Parsed, keep: seq<string>)
    ensures var run, m := FilterPaired(r1, r2, keep), FirstStop(r1, r2, 0);
            && (forall j :: 0 <= j < m ==> CheckSeqHeaders(r1.records[j].id, r2.records[j].id) &&
                                           FirstToken(r1.records[j].id).Some?)
            && (run.status == HeaderMismatch <==>
                  m < Reached(r1, r2) && !CheckSeqHeaders(r1.records[m].id, r2.records[m].id))
            && (run.status == MissingToken <==>
                  m < Reached(r1, r2) && CheckSeqHeaders(r1.records[m].id, r2.records[m].id) &&
                  FirstToken(r1.records[m].id).None?)
            && (run.status == Truncated <==> m == Reached(r1, r2) && EndsTruncated([r1, r2], m))
            && (run.status == Finished <==> m == Reached(r1, r2) && !EndsTruncated([r1, r2], m))
  {
    var m := FirstStop(r1, r2, 0);
    forall j | 0 <= j < m
      ensures CheckSeqHeaders(r1.records[j].id, r2.records[j].id) && FirstToken(r1.records[j].id).Some?
    {
      assert Passes(r1, r2, j);
    }
    if m < Reached(r1, r2) {
      assert !Passes(r1, r2, m);
    }
  }

  /**
   What the generator yields: the pairs of exactly those tuples before the stopping one whose
   forward identifier's first token is listed.
   */
  lemma KeptPairs(r1: Parsed, r2: Parsed, keep: seq<string>)
    ensures var run := FilterPaired(r1, r2, keep);
            var m := FirstStop(r1, r2, 0);
            && (forall j :: 0 <= j < m && Wanted(r1.records[j], keep) ==>
                  Pair(r1.records[j], r2.records[j]) in run.pairs)
            && (forall p :: p in run.pairs ==>
                  exists j :: 0 <= j < m && Wanted(r1.records[j], keep) && p == Pair(r1.records[j], r2.records[j]))
  {
    var m := FirstStop(r1, r2, 0);
    var v := Verdicts(r1, keep, m);
    assert FilterPaired(r1, r2, keep).pairs == Chosen(v, Zip(r1, r2));
    ChosenMembers(v, Zip(r1, r2));
  }

  /**
   Only the forward identifier is looked up: a reverse file whose headers pass the same checks
   stops the run at the same tuple, the same way, with as many pairs yielded.
   */
  lemma ReverseIdNotConsulted(r1: Parsed, r2: Parsed, r2': Parsed, keep: seq<string>)
    requires |r2.records| == |r2'.records| && r2.truncated == r2'.truncated
    requires forall j :: 0 <= j < |r2.records| && j < |r1.records| ==>
               CheckSeqHeaders(r1.records[j].id, r2.records[j].id) ==
               CheckSeqHeaders(r1.records[j].id, r2'.records[j].id)
    ensures FirstStop(r1, r2, 0) == FirstStop(r1, r2', 0)
    ensures FilterPaired(r1, r2, keep).status == FilterPaired(r1, r2', keep).status
    ensures |FilterPaired(r1, r2, keep).pairs| == |FilterPaired(r1, r2', keep).pairs|
    ensures Forwards(FilterPaired(r1, r2, keep).pairs) == Forwards(FilterPaired(r1, r2', keep).pairs)
  {
    SameStops(r1, r2, r2', 0);
    SameStatus(r1, r2, r2', keep);
    SameForwards(r1, r2, r2', keep);
  }

  lemma SameStatus(r1: Parsed, r2: Parsed, r2': Parsed, keep: seq<string>)
    requires |r2.records| == |r2'.records| && r2.truncated == r2'.truncated
    requires forall j :: 0 <= j < |r2.records| && j < |r1.records| ==>
               CheckSeqHeaders(r1.records[j].id, r2.records[j].id) ==
               CheckSeqHeaders(r1.records[j].id, r2'.records[j].id)
    requires FirstStop(r1, r2, 0) == FirstStop(r1, r2', 0)
    ensures FilterPaired(r1, r2, keep).status == FilterPaired(r1, r2', keep).status
  {
    var m := FirstStop(r1, r2, 0);
    if m < Reached(r1, r2) {
      assert CheckSeqHeaders(r1.records[m].id, r2.records[m].id) ==
             CheckSeqHeaders(r1.records[m].id, r2'.records[m].id);
    } else {
      var s, s' := [r1, r2], [r1, r2'];
      assert s[1..] == [r2] && s'[1..] == [r2'];
      assert FirstExhausted(s[1..], m) == FirstExhausted(s'[1..], m);
      assert FirstExhausted(s, m) == FirstExhausted(s', m);
      assert EndsTruncated(s, m) == EndsTruncated(s', m);
    }
  }

  lemma SameForwards(r1: Parsed, r2: Parsed, r2': Parsed, keep: seq<string>)
    requires |r2.records| == |r2'.records|
    requires FirstStop(r1, r2, 0) == FirstStop(r1, r2', 0)
    ensures |FilterPaired(r1, r2, keep).pairs| == |FilterPaired(r1, r2', keep).pairs|
    ensures Forwards(FilterPaired(r1, r2, keep).pairs) == Forwards(FilterPaired(r1, r2', keep).pairs)
  {
    var v := Verdicts(r1, keep, FirstStop(r1, r2, 0));
    var ps, ps' := FilterPaired(r1, r2, keep).pairs, FilterPaired(r1, r2', keep).pairs;
    assert ps == Chosen(v, Zip(r1, r2));
    assert ps' == Chosen(v, Zip(r1, r2'));
    ChosenAt(v, Zip(r1, r2));
    ChosenAt(v, Zip(r1, r2'));
    var js := Accepted(v);
    forall i | 0 <= i < |ps|
      ensures ps[i].fwd == ps'[i].fwd
    {
      assert ps[i] == Zip(r1, r2)[js[i]] && ps'[i] == Zip(r1, r2')[js[i]];
    }
  }

  lemma {:induction false} SameStops(r1: Parsed, r2: Parsed, r2': Parsed, k: nat)
    requires |r2.records| == |r2'.records|
    requires forall j :: 0 <= j < |r2.records| && j < |r1.records| ==>
               CheckSeqHeaders(r1.records[j].id, r2.records[j].id) ==
               CheckSeqHeaders(r1.records[j].id, r2'.records[j].id)
    requires k <= Reached(r1, r2)
    ensures Reached(r1, r2) == Reached(r1, r2')
    ensures FirstStop(r1, r2, k) == FirstStop(r1, r2', k)
    decreases Reached(r1, r2) - k
  {
    if k < Reached(r1, r2) && Passes(r1, r2, k) {
      SameStops(r1, r2, r2', k + 1);
    }
  }

  lemma SyncStep(r1: Parsed, r2: Parsed, k: nat)
    requires k < Reached(r1, r2) && FirstStop(r1, r2, 0) >= k && Passes(r1, r2, k)
    ensures FirstStop(r1, r2, 0) >= k + 1
  {
  }

  lemma SelectedStep(r1: Parsed, r2: Parsed, keep: seq<string>, k: nat)
    requires k < Reached(r1, r2) && FirstToken(r1.records[k].id).Some?
    ensures Selected(r1, r2, keep, k + 1) ==
            Selected(r1, r2, keep, k) +
            (if FirstToken(r1.records[k].id).value in keep then [Pair(r1.records[k], r2.records[k])] else [])
  {
    var b := Wanted(r1.records[k], keep);
    assert Verdicts(r1, keep, k + 1) == Verdicts(r1, keep, k) + [b];
    ChosenSnoc(Verdicts(r1, keep, k), b, Zip(r1, r2));
  }

  lemma MismatchRun(r1: Parsed, r2: Parsed, keep: seq<string>, k: nat)
    requires k < Reached(r1, r2) && FirstStop(r1, r2, 0) >= k
    requires !CheckSeqHeaders(r1.records[k].id, r2.records[k].id)
    ensures FilterPaired(r1, r2, keep) == FilterRun(Selected(r1, r2, keep, k), HeaderMismatch)
  {
    assert !Passes(r1, r2, k);
    assert FirstStop(r1, r2, 0) == k;
  }

  lemma UnnamedRun(r1: Parsed, r2: Parsed, keep: seq<string>, k: nat)
    requires k < Reached(r1, r2) && FirstStop(r1, r2, 0) >= k
    requires CheckSeqHeaders(r1.records[k].id, r2.records[k].id) && FirstToken(r1.records[k].id).None?
    ensures FilterPaired(r1, r2, keep) == FilterRun(Selected(r1, r2, keep, k), MissingToken)
  {
    assert !Passes(r1, r2, k);
    assert FirstStop(r1, r2, 0) == k;
  }

  lemma CompleteRun(r1: Parsed, r2: Parsed, keep: seq<string>)
    requires FirstStop(r1, r2, 0) >= Reached(r1, r2)
    ensures var n := Reached(r1, r2);
            var truncated := if n == |r1.records| then r1.truncated else r2.truncated;
            FilterPaired(r1, r2, keep) ==
            FilterRun(Selected(r1, r2, keep, n), if truncated then Truncated else Finished)
  {
    var n := Reached(r1, r2);
    var s := [r1, r2];
    assert s[1..] == [r2];
    if n != |r1.records| {
      assert FirstExhausted(s[1..], n) == 0;
    }
  }

  /** The loop of `filter_paired_fastq` over the two parsed streams. */
  method FilterPairedRecords(r1: Parsed, r2: Parsed, seqsToKeep: seq<string>) returns (run: FilterRun)
    ensures run == FilterPaired(r1, r2, seqsToKeep)
  {
    var pairs: seq<Pair> := [];
    var k := 0;
    ghost var n := Reached(r1, r2);
    while k < |r1.records| && k < |r2.records|
      invariant k <= n
      invariant FirstStop(r1, r2, 0) >= k
      invariant pairs == Selected(r1, r2, seqsToKeep, k)
      decreases n - k
    {
      var read1Data, read2Data := r1.records[k], r2.records[k];
      if !CheckSeqHeaders(read1Data.id, read2Data.id) {
        // ParseError
        MismatchRun(r1, r2, seqsToKeep, k);
        return FilterRun(pairs, HeaderMismatch);
      }
      var token := FirstToken(read1Data.id);
      if token.None? {
        // IndexError from `header1.split()[0]`
        UnnamedRun(r1, r2, seqsToKeep, k);
        return FilterRun(pairs, MissingToken);
      }
      SyncStep(r1, r2, k);
      SelectedStep(r1, r2, seqsToKeep, k);
      if token.value in seqsToKeep {
        pairs := pairs + [Pair(read1Data, read2Data)];
      }
      k := k + 1;
    }
    assert k == n;
    CompleteRun(r1, r2, seqsToKeep);
    // `izip` asks the forward stream first; the IndexError of an exhausted stream's parser propagates
    var truncated := if k == |r1.records| then r1.truncated else r2.truncated;
    run := FilterRun(pairs, if truncated then Truncated else Finished);
  }

  /** `filter_paired_fastq(read1, read2, seqs_to_keep)`, with the two files given as their lines. */
  method FilterPairedFastq(read1Lines: seq<string>, read2Lines: seq<string>, seqsToKeep: seq<string>)
    returns (run: FilterRun)
    ensures run == FilterPaired(Parse(read1Lines), Parse(read2Lines), seqsToKeep)
  {
    var r1 := ParseLines(read1Lines);
    var r2 := ParseLines(read2Lines);
    run := FilterPairedRecords(r1, r2, seqsToKeep);
  }

  /**
   `main`: the names file is read in full before any read file is touched, so a blank names
   line ends the run with both outputs empty; otherwise the yielded pairs are written.
   */
  method DualFilterMain(namesLines: seq<string>, read1Lines: seq<string>, read2Lines: seq<string>)
    returns (out1: string, out2: string, status: Status)
    ensures KeepIds(namesLines).None? ==> out1 == "" && out2 == "" && status == MissingToken
    ensures KeepIds(namesLines).Some? ==>
              var run := FilterPaired(Parse(read1Lines), Parse(read2Lines), KeepIds(namesLines).value);
              out1 == Serialize(Forwards(run.pairs)) && out2 == Serialize(Reverses(run.pairs)) &&
              status == run.status
  {
    var keepIds := KeepIds(namesLines);
    if keepIds.None? {
      return "", "", MissingToken;
    }
    var run := FilterPairedFastq(read1Lines, read2Lines, keepIds.value);
    out1, out2 := WritePairs(run.pairs);
    status := run.status;
  }
}
