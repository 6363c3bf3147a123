/**
 fastq_filter.py: one FASTQ file is filtered against a set of read names taken from a names
 file; a record is written, with its full header, when the first token of its identifier is
 one of the names.
 */
module SingleFilter {
  import opened Wrappers
  import opened Text
  import opened Fastq

  /** What a filtering run wrote, in order, and how it ended. */
  datatype FilterRun = FilterRun(written: seq<Record>, status: Status)

  /** `OUTFILE += '.gz'` when the requested name ends with `.fastq`. */
  function OutputName(name: string): (r: string)
    ensures EndsWith(name, ".fastq") ==> r == name + ".gz"
    ensures !EndsWith(name, ".fastq") ==> r == name
    ensures !EndsWith(r, ".fastq")
  {
    if EndsWith(name, ".fastq") then
      var r := name + ".gz";
      assert r[|r| - 6..] != ".fastq" by { assert r[|r| - 1] == 'z'; }
      r
    else name
  }

  /** Adjusting an output name twice is adjusting it once. */
  lemma OutputNameIdempotent(name: string)
    ensures OutputName(OutputName(name)) == OutputName(name)
  {
  }

  /** The input names `main` accepts: `.fastq`, or `.fastq.gz`. */
  predicate AcceptsInput(name: string) {
    EndsWith(name, ".fastq") || EndsWith(name, ".fastq.gz")
  }

  /** The comprehension's filter `not l.startswith('#') and l`. */
  predicate Considered(line: string) {
    !StartsWith(line, "#") && line != ""
  }

  /**
   `get_ids`: the first token of every line that is not a comment and not empty, as a set.
   A considered line with no token (all whitespace, such as a blank line, which file
   iteration hands over as "\n") raises IndexError, here `None`.
   */
  function GetIds(lines: seq<string>): (r: Option<set<string>>)
    ensures r.None? <==> exists i :: 0 <= i < |lines| && Considered(lines[i]) && FirstToken(lines[i]).None?
    ensures r.Some? ==> forall t :: t in r.value <==>
              exists i :: 0 <= i < |lines| && Considered(lines[i]) && FirstToken(lines[i]) == Some(t)
    decreases |lines|
  {
    if |lines| == 0 then Some({})
    else
      var rest := GetIds(lines[1..]);
      assert forall i :: 1 <= i < |lines| ==> lines[i] == lines[1..][i - 1];
      if !Considered(lines[0]) then rest
      else
        match FirstToken(lines[0])
        case None => None
        case Some(t) =>
          TokenHasNoSpace(lines[0]);
          StripToken(t);
          if rest.None? then None else Some({Strip(t)} + rest.value)
  }

  /** Every identifier `get_ids` returns is a token. */
  lemma GetIdsAreTokens(lines: seq<string>)
    requires GetIds(lines).Some?
    ensures forall t :: t in GetIds(lines).value ==> IsToken(t)
  {
    forall t | t in GetIds(lines).value
      ensures IsToken(t)
    {
      var i :| 0 <= i < |lines| && Considered(lines[i]) && FirstToken(lines[i]) == Some(t);
      TokenHasNoSpace(lines[i]);
    }
  }

  /** Comment lines contribute nothing and cannot fail. */
  lemma CommentLineIgnored(comment: string, lines: seq<string>)
    requires StartsWith(comment, "#")
    ensures GetIds([comment] + lines) == GetIds(lines)
  {
    assert ([comment] + lines)[1..] == lines;
  }

  /** A blank line in the names file is not skipped: the guard `and l` never sees an empty line. */
  lemma BlankNameLineRaises(lines: seq<string>)
    ensures GetIds(lines + ["\n"]) == None
  {
    var all := lines + ["\n"];
    assert all[|lines|] == "\n";
    assert "\n"[..1][0] == '\n';
    assert "\n"[1..] == [];
    assert Considered(all[|lines|]) && FirstToken(all[|lines|]).None?;
  }

  /**
   `{}.fromkeys([seq_id.split()[0] for seq_id in seqs_to_keep])`: the first token of every
   kept name, or `None` where a name has none.
   */
  function KeepLookup(ids: set<string>): (r: Option<set<string>>)
    ensures r.None? <==> exists id :: id in ids && FirstToken(id).None?
    ensures r.Some? ==> forall t :: t in r.value <==> exists id :: id in ids && FirstToken(id) == Some(t)
    ensures r.Some? ==> |r.value| <= |ids| && forall t :: t in r.value ==> IsToken(t)
  {
    if exists id :: id in ids && FirstToken(id).None? then None
    else
      var keys := set id | id in ids :: FirstToken(id).value;
      assert forall t :: t in keys ==> IsToken(t) by {
        forall t | t in keys ensures IsToken(t) {
          var id :| id in ids && FirstToken(id).value == t;
          TokenHasNoSpace(id);
        }
      }
      ImageNoLarger(ids, keys);
      Some(keys)
  }

  /** Every name of the lookup is the first token of some kept name, so there are no more of them. */
  lemma ImageNoLarger(ids: set<string>, keys: set<string>)
    requires forall id :: id in ids ==> FirstToken(id).Some?
    requires keys == set id | id in ids :: FirstToken(id).value
    ensures |keys| <= |ids|
    decreases |ids|
  {
    if ids != {} {
      var id :| id in ids;
      var rest := ids - {id};
      var restKeys := set x | x in rest :: FirstToken(x).value;
      ImageNoLarger(rest, restKeys);
      var bigger := restKeys + {FirstToken(id).value};
      assert keys <= bigger;
      SubsetNoLarger(keys, bigger);
    }
  }

  lemma SubsetNoLarger(a: set<string>, b: set<string>)
    requires a <= b
    ensures |a| <= |b|
  {
    assert b == a + (b - a);
  }

  /**
   In `main` the lookup is built from what `get_ids` returns: it holds exactly the names
   `get_ids` found, so the re-tokenising changes nothing.
   */
  lemma GetIdsLookup(lines: seq<string>)
    requires GetIds(lines).Some?
    ensures KeepLookup(GetIds(lines).value) == GetIds(lines)
  {
    GetIdsAreTokens(lines);
    LookupOfTokens(GetIds(lines).value);
  }

  /** On the tokens `get_ids` produces the lookup changes nothing. */
  lemma LookupOfTokens(ids: set<string>)
    requires forall t :: t in ids ==> IsToken(t)
    ensures KeepLookup(ids) == Some(ids)
  {
    forall t | t in ids
      ensures FirstToken(t) == Some(t)
    {
      TokenIsOwnToken(t);
    }
    var r := KeepLookup(ids);
    assert r.Some?;
    forall t | t in ids
      ensures t in r.value
    {
      assert FirstToken(t) == Some(t);
    }
    forall t | t in r.value
      ensures t in ids
    {
      var id :| id in ids && FirstToken(id) == Some(t);
      assert FirstToken(id) == Some(id);
    }
    assert r.value == ids;
  }

  /** The first record at or after `k` whose identifier has no token, or `|rs|`. */
  function FirstUnnamed(rs: seq<Record>, k: nat): (m: nat)
    requires k <= |rs|
    ensures k <= m <= |rs|
    ensures forall j :: k <= j < m ==> FirstToken(rs[j].id).Some?
    ensures m < |rs| ==> FirstToken(rs[m].id).None?
    decreases |rs| - k
  {
    if k == |rs| || FirstToken(rs[k].id).None? then k
    else FirstUnnamed(rs, k + 1)
  }

  /** `seq_id.split()[0] in seqs_to_keep_lookup`. */
  predicate Wanted(r: Record, lookup: set<string>) {
    FirstToken(r.id).Some? && FirstToken(r.id).value in lookup
  }

  function Verdicts(rs: seq<Record>, lookup: set<string>, k: nat): (v: seq<bool>)
    requires k <= |rs|
    ensures |v| == k && forall j :: 0 <= j < k ==> v[j] == Wanted(rs[j], lookup)
  {
    seq(k, j requires 0 <= j < k => Wanted(rs[j], lookup))
  }

  /**
   The loop of `filter_fastq` run to the end, as a specification: records are written in
   input order while their identifiers have tokens; an identifier without one raises, and
   otherwise the parser's own end decides. The written records are exactly the wanted ones
   among those read before the run ended.
   */
  function Filtered(p: Parsed, lookup: set<string>): (run: FilterRun)
    ensures var m := FirstUnnamed(p.records, 0);
            && run.written == Chosen(Verdicts(p.records, lookup, m), p.records)
            && (run.status == MissingToken <==> m < |p.records|)
            && (run.status == Truncated <==> m == |p.records| && p.truncated)
            && run.status != HeaderMismatch
    ensures var m := FirstUnnamed(p.records, 0);
            && (forall j :: 0 <= j < m && Wanted(p.records[j], lookup) ==> p.records[j] in run.written)
            && (forall r :: r in run.written ==> Wanted(r, lookup))
  {
    var m := FirstUnnamed(p.records, 0);
    var w := Chosen(Verdicts(p.records, lookup, m), p.records);
    ChosenMembers(Verdicts(p.records, lookup, m), p.records);
    if m < |p.records| then FilterRun(w, MissingToken)
    else FilterRun(w, if p.truncated then Truncated else Finished)
  }

  /**
   Filtering is idempotent: filtering a written output again with the same names writes it
   unchanged and ends normally, as long as the written records satisfy `CleanRecord`.
   */
  lemma FilterIdempotent(p: Parsed, lookup: set<string>)
    requires forall r :: r in Filtered(p, lookup).written ==> CleanRecord(r)
    ensures Filtered(Parsed(Filtered(p, lookup).written, false), lookup) ==
            FilterRun(Filtered(p, lookup).written, Finished)
    ensures Parse(Lines(Serialize(Filtered(p, lookup).written))) == Parsed(Filtered(p, lookup).written, false)
  {
    var w := Filtered(p, lookup).written;
    SerializeRoundTrip(w);
    AllWanted(w, lookup);
  }

  /** Records that are all wanted are all named and all written again. */
  lemma AllWanted(w: seq<Record>, lookup: set<string>)
    requires forall r :: r in w ==> Wanted(r, lookup)
    ensures Filtered(Parsed(w, false), lookup) == FilterRun(w, Finished)
  {
    forall j | 0 <= j < |w|
      ensures FirstToken(w[j].id).Some?
    {
      assert w[j] in w;
      assert Wanted(w[j], lookup);
    }
    ChosenAll(Verdicts(w, lookup, |w|), w);
  }

  lemma VerdictsSnoc(rs: seq<Record>, lookup: set<string>, k: nat)
    requires k < |rs|
    ensures Verdicts(rs, lookup, k + 1) == Verdicts(rs, lookup, k) + [Wanted(rs[k], lookup)]
  {
  }

  /** One more named record extends the written records by at most itself. */
  lemma WrittenStep(rs: seq<Record>, lookup: set<string>, k: nat)
    requires k < |rs| && FirstToken(rs[k].id).Some?
    ensures Chosen(Verdicts(rs, lookup, k + 1), rs) ==
            Chosen(Verdicts(rs, lookup, k), rs) + (if FirstToken(rs[k].id).value in lookup then [rs[k]] else [])
  {
    VerdictsSnoc(rs, lookup, k);
    ChosenSnoc(Verdicts(rs, lookup, k), Wanted(rs[k], lookup), rs);
  }

  /** Where the loop stops, at an unnamed record or at the end, it has written everything. */
  lemma WrittenAtStop(p: Parsed, lookup: set<string>, k: nat)
    requires k <= FirstUnnamed(p.records, 0)
    requires k == |p.records| || FirstToken(p.records[k].id).None?
    ensures FirstUnnamed(p.records, 0) == k
    ensures Filtered(p, lookup).written == Chosen(Verdicts(p.records, lookup, k), p.records)
  {
  }

  /** The writing loop of `filter_fastq` over the parsed records. */
  method FilterRecords(p: Parsed, lookup: set<string>) returns (out: string, status: Status)
    ensures out == Serialize(Filtered(p, lookup).written)
    ensures status == Filtered(p, lookup).status
  {
    out := "";
    ghost var written: seq<Record> := [];
    var k := 0;
    while k < |p.records|
      invariant k <= FirstUnnamed(p.records, 0)
      invariant written == Chosen(Verdicts(p.records, lookup, k), p.records)
      invariant out == Serialize(written)
    {
      var record := p.records[k];
      var token := FirstToken(record.id);
      if token.None? {
        // IndexError from `seq_id.split()[0]`
        WrittenAtStop(p, lookup, k);
        return out, MissingToken;
      }
      WrittenStep(p.records, lookup, k);
      if token.value in lookup {
        SerializeSnoc(written, record);
        written := written + [record];
        out := out + FormatRecord(record);
      }
      k := k + 1;
    }
    WrittenAtStop(p, lookup, k);
    status := if p.truncated then Truncated else Finished;
  }

  /**
   `filter_fastq(input, output, seqs_to_keep)`, with the input given as its lines and the
   output as the text written. The lookup is built after the output is opened, so a name
   without a token leaves the output empty.
   */
  method FilterFastq(inputLines: seq<string>, seqsToKeep: set<string>) returns (out: string, status: Status)
    ensures KeepLookup(seqsToKeep).None? ==> out == "" && status == MissingToken
    ensures KeepLookup(seqsToKeep).Some? ==>
              var run := Filtered(Parse(inputLines), KeepLookup(seqsToKeep).value);
              out == Serialize(run.written) && status == run.status
  {
    var lookup := KeepLookup(seqsToKeep);
    if lookup.None? {
      return "", MissingToken;
    }
    var p := ParseLines(inputLines);
    out, status := FilterRecords(p, lookup.value);
  }

  /**
   `main`: read the names, then filter if the input name is accepted. `None` means no output
   file was written.
   */
  method FilterMain(infile: string, outfile: string, namesLines: seq<string>, inputLines: seq<string>)
    returns (outName: string, out: Option<string>, status: Status)
    ensures outName == OutputName(outfile)
    ensures GetIds(namesLines).None? ==> out == None && status == MissingToken
    ensures GetIds(namesLines).Some? && !AcceptsInput(infile) ==> out == None && status == Finished
    ensures GetIds(namesLines).Some? && AcceptsInput(infile) ==>
              var run := Filtered(Parse(inputLines), GetIds(namesLines).value);
              out == Some(Serialize(run.written)) && status == run.status
  {
    outName := OutputName(outfile);
    var keepIds := GetIds(namesLines);
    if keepIds.None? {
      return outName, None, MissingToken;
    }
    if EndsWith(infile, ".fastq") || EndsWith(infile, ".fastq.gz") {
      GetIdsAreTokens(namesLines);
      LookupOfTokens(keepIds.value);
      var text;
      text, status := FilterFastq(inputLines, keepIds.value);
      out := Some(text);
    } else {
      out, status := None, Finished;
    }
  }
}
