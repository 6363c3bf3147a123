/**
 The four-line FASTQ record grouper shared by the three scripts (`fastqparser` in
 demultiplex_reads.py and dual_fastq_filter.py, `minimalfastqparser` in fastq_filter.py,
 three identical copies), the record text they write, and how `izip` ends over several
 parsed streams.
 */
module Fastq {
  import opened Text

  /** A record as the parsers yield it: header line without its first character, sequence, quality. */
  datatype Record = Record(id: string, sequence: string, qual: string)

  /**
   Everything a parser generator produces over one input: the records it yields, in order,
   and whether it then raises IndexError (`truncated`) instead of finishing normally.
   */
  datatype Parsed = Parsed(records: seq<Record>, truncated: bool)

  /** A forward record and the reverse record at the same stream position. */
  datatype Pair = Pair(fwd: Record, rev: Record)

  /**
   How a pass over the parsed streams ends: normally, with the ParseError raised on a header
   mismatch, with the IndexError a parser raises on a short final group, or with the
   IndexError of `split()[0]` on an identifier that is empty or all whitespace.
   */
  datatype Status = Finished | HeaderMismatch | Truncated | MissingToken

  /** `s[1:]`: everything after the first character, and "" for "". */
  function DropFirst(s: string): (r: string)
    ensures |s| > 0 ==> [s[0]] + r == s
    ensures |s| == 0 ==> r == []
  {
    if |s| == 0 then s else s[1..]
  }

  /** The record of one complete group: every line stripped, the header's first character dropped, the third line unread. */
  function GroupRecord(group: seq<string>): Record
    requires |group| == 4
  {
    Record(DropFirst(Strip(group[0])), Strip(group[1]), Strip(group[3]))
  }

  /** The records of consecutive complete groups, taken strictly by position. */
  function Groups(lines: seq<string>): (r: seq<Record>)
    requires |lines| % 4 == 0
    ensures 4 * |r| == |lines|
    decreases |lines|
  {
    if |lines| == 0 then [] else [GroupRecord(lines[..4])] + Groups(lines[4..])
  }

  /**
   The group still open when the input ends (one to four lines). It is dropped silently when
   its first line strips to "", it is a record when it is complete, and otherwise reading
   `record[1]` or `record[3]` raises IndexError.
   */
  function Trailing(tail: seq<string>): Parsed
    requires 1 <= |tail| <= 4
  {
    if Strip(tail[0]) == "" then Parsed([], false)
    else if |tail| == 4 then Parsed([GroupRecord(tail)], false)
    else Parsed([], true)
  }

  /** What `fastqparser` yields over the lines of a file: every group of four but the last, then the last as `Trailing` decides. */
  function Parse(lines: seq<string>): Parsed
    decreases |lines|
  {
    if |lines| == 0 then Parsed([], false)
    else if |lines| <= 4 then Trailing(lines)
    else
      var rest := Parse(lines[4..]);
      Parsed([GroupRecord(lines[..4])] + rest.records, rest.truncated)
  }

  /** Group `k` of a run of complete groups is lines 4k to 4k+3. */
  lemma {:induction false} GroupsAt(lines: seq<string>, k: nat)
    requires |lines| % 4 == 0 && 4 * k + 4 <= |lines|
    ensures Groups(lines)[k] == GroupRecord(lines[4 * k..4 * k + 4])
    decreases k
  {
    if k > 0 {
      GroupsAt(lines[4..], k - 1);
      assert lines[4..][4 * (k - 1)..4 * (k - 1) + 4] == lines[4 * k..4 * k + 4];
    }
  }

  /** One more complete group adds one record at the end. */
  lemma {:induction false} GroupsSnoc(front: seq<string>, group: seq<string>)
    requires |front| % 4 == 0 && |group| == 4
    ensures Groups(front + group) == Groups(front) + [GroupRecord(group)]
    decreases |front|
  {
    if |front| == 0 {
      assert front + group == group;
      assert group[..4] == group && group[4..] == [];
    } else {
      assert (front + group)[..4] == front[..4];
      assert (front + group)[4..] == front[4..] + group;
      GroupsSnoc(front[4..], group);
    }
  }

  /** Any input is complete groups followed by one open group, and that is how it parses. */
  lemma {:induction false} ParseSplit(front: seq<string>, tail: seq<string>)
    requires |front| % 4 == 0 && 1 <= |tail| <= 4
    ensures Parse(front + tail) == Parsed(Groups(front) + Trailing(tail).records, Trailing(tail).truncated)
    decreases |front|
  {
    if |front| == 0 {
      assert front + tail == tail;
    } else {
      var all := front + tail;
      assert all[..4] == front[..4];
      assert all[4..] == front[4..] + tail;
      ParseSplit(front[4..], tail);
    }
  }

  /**
   The parser never assembles a record from fewer than four lines: record `k` is exactly
   lines 4k..4k+3, stripped, whatever they hold.
   */
  lemma {:induction false} ParseRecordIsGroup(lines: seq<string>, k: nat)
    requires k < |Parse(lines).records|
    ensures 4 * k + 4 <= |lines|
    ensures Parse(lines).records[k] == GroupRecord(lines[4 * k..4 * k + 4])
    decreases |lines|
  {
    if |lines| <= 4 {
      assert lines[..4] == lines;
    } else if k > 0 {
      ParseRecordIsGroup(lines[4..], k - 1);
      assert lines[4..][4 * (k - 1)..4 * (k - 1) + 4] == lines[4 * k..4 * k + 4];
    }
  }

  /**
   Grouping is purely positional: every group followed by at least one more line is yielded,
   blank lines included, so a blank line in mid-stream shifts all later groups.
   */
  lemma {:induction false} ParseYieldsClosedGroups(lines: seq<string>, k: nat)
    requires 4 * k + 4 < |lines|
    ensures k < |Parse(lines).records|
    ensures Parse(lines).records[k] == GroupRecord(lines[4 * k..4 * k + 4])
    decreases k
  {
    if k > 0 {
      ParseYieldsClosedGroups(lines[4..], k - 1);
    }
    ParseRecordIsGroup(lines, k);
  }

  /**
   Exactly 4N lines whose last group has a non-blank header give exactly N records, record
   k built from lines 4k, 4k+1 and 4k+3, and no error.
   */
  lemma ParseExactGroups(lines: seq<string>)
    requires |lines| > 0 && |lines| % 4 == 0 && Strip(lines[|lines| - 4]) != ""
    ensures Parse(lines) == Parsed(Groups(lines), false)
    ensures 4 * |Parse(lines).records| == |lines|
    ensures forall k :: 0 <= k < |Parse(lines).records| ==>
              Parse(lines).records[k] == GroupRecord(lines[4 * k..4 * k + 4])
  {
    var front, tail := lines[..|lines| - 4], lines[|lines| - 4..];
    assert front + tail == lines;
    ParseSplit(front, tail);
    GroupsSnoc(front, tail);
    forall k | 0 <= k < |Parse(lines).records|
      ensures Parse(lines).records[k] == GroupRecord(lines[4 * k..4 * k + 4])
    {
      GroupsAt(lines, k);
    }
  }

  /**
   A final group whose first line strips to "" (one or more blank lines after the last
   record, say) produces no record and no error.
   */
  lemma TrailingBlankDropped(front: seq<string>, tail: seq<string>)
    requires |front| % 4 == 0 && 1 <= |tail| <= 4 && Strip(tail[0]) == ""
    ensures Parse(front + tail) == Parsed(Groups(front), false)
  {
    ParseSplit(front, tail);
  }

  /** In particular a blank line after a well-formed file changes nothing. */
  lemma TrailingBlankLine(lines: seq<string>, blank: string)
    requires |lines| % 4 == 0 && (|lines| == 0 || Strip(lines[|lines| - 4]) != "")
    requires Strip(blank) == ""
    ensures Parse(lines + [blank]) == Parse(lines)
  {
    TrailingBlankDropped(lines, [blank]);
    if |lines| > 0 {
      ParseExactGroups(lines);
    }
  }

  /**
   A final group of one to three lines whose first line is not blank makes the parser raise
   after the complete groups: no record is built from it.
   */
  lemma ShortTrailingGroupFails(front: seq<string>, tail: seq<string>)
    requires |front| % 4 == 0 && 1 <= |tail| < 4 && Strip(tail[0]) != ""
    ensures Parse(front + tail) == Parsed(Groups(front), true)
  {
    ParseSplit(front, tail);
  }

  /** Conversely, the parser raises only when the final group is short and its first line is not blank. */
  lemma TruncatedOnlyByShortGroup(front: seq<string>, tail: seq<string>)
    requires |front| % 4 == 0 && 1 <= |tail| <= 4
    requires Parse(front + tail).truncated
    ensures |tail| < 4 && Strip(tail[0]) != ""
  {
    ParseSplit(front, tail);
  }

  /** The loop's step at the fifth line of a group: the four stripped lines held become the next record. */
  lemma CloseGroup(lines: seq<string>, start: nat, record: seq<string>, records: seq<Record>)
    requires start % 4 == 0 && start + 4 <= |lines| && |record| == 4
    requires forall j :: 0 <= j < 4 ==> record[j] == Strip(lines[start + j])
    requires records == Groups(lines[..start])
    ensures records + [Record(DropFirst(record[0]), record[1], record[3])] == Groups(lines[..start + 4])
  {
    var group := lines[start..start + 4];
    assert group[0] == lines[start] && group[1] == lines[start + 1] && group[3] == lines[start + 3];
    GroupsSnoc(lines[..start], group);
    assert lines[..start] + group == lines[..start + 4];
  }

  /** After the last line, the open group's stripped lines decide the end exactly as `Trailing` does. */
  lemma FinishGroups(lines: seq<string>, start: nat, record: seq<string>, records: seq<Record>)
    requires start % 4 == 0 && 1 <= |record| <= 4 && start + |record| == |lines|
    requires forall j :: 0 <= j < |record| ==> record[j] == Strip(lines[start + j])
    requires records == Groups(lines[..start])
    ensures record[0] == "" ==> Parse(lines) == Parsed(records, false)
    ensures record[0] != "" && |record| == 4 ==>
              Parse(lines) == Parsed(records + [Record(DropFirst(record[0]), record[1], record[3])], false)
    ensures record[0] != "" && |record| < 4 ==> Parse(lines) == Parsed(records, true)
  {
    var tail := lines[start..];
    assert tail[0] == lines[start];
    if |record| == 4 {
      assert tail[1] == lines[start + 1] && tail[3] == lines[start + 3];
    }
    ParseSplit(lines[..start], tail);
    assert lines[..start] + tail == lines;
  }

  /** `fastqparser`: a line counter and a list of the current group's stripped lines, reset every four lines. */
  method ParseLines(lines: seq<string>) returns (p: Parsed)
    ensures p == Parse(lines)
  {
    var lineNum := -1;
    var record: seq<string> := [];
    var records: seq<Record> := [];
    ghost var start: nat := 0;
    for i := 0 to |lines|
      invariant i == 0 ==> lineNum == -1 && record == [] && records == []
      invariant i > 0 ==> 1 <= |record| <= 4 && lineNum == |record| - 1
      invariant start + |record| == i && start % 4 == 0
      invariant forall j :: 0 <= j < |record| ==> record[j] == Strip(lines[start + j])
      invariant records == Groups(lines[..start])
    {
      lineNum := lineNum + 1;
      if lineNum == 4 {
        CloseGroup(lines, start, record, records);
        records := records + [Record(DropFirst(record[0]), record[1], record[3])];
        lineNum := 0;
        record := [];
        start := start + 4;
      }
      record := record + [Strip(lines[i])];
    }
    if record != [] {
      FinishGroups(lines, start, record, records);
      if record[0] != "" {
        if |record| < 4 {
          // `record[1]` or `record[3]` does not exist: IndexError
          return Parsed(records, true);
        }
        records := records + [Record(DropFirst(record[0]), record[1], record[3])];
      }
    }
    p := Parsed(records, false);
  }

  /** `'@%s\n%s\n+\n%s\n' % (id, seq, qual)`: a record as the scripts write it. */
  function FormatRecord(r: Record): string
  {
    "@" + r.id + "\n" + r.sequence + "\n+\n" + r.qual + "\n"
  }

  /** The records written one after another. */
  function Serialize(rs: seq<Record>): string
    decreases |rs|
  {
    if |rs| == 0 then "" else FormatRecord(rs[0]) + Serialize(rs[1..])
  }

  /** A field that survives being written on a line and stripped again: no newline, no whitespace at either end. */
  predicate Clean(s: string) {
    '\n' !in s && (s == [] || (!IsSpace(s[0]) && !IsSpace(s[|s| - 1])))
  }

  /** An identifier is written after `'@'`, which shields its leading whitespace from the strip. */
  predicate CleanId(s: string) {
    '\n' !in s && (s == [] || !IsSpace(s[|s| - 1]))
  }

  predicate CleanRecord(r: Record) {
    CleanId(r.id) && Clean(r.sequence) && Clean(r.qual)
  }

  /** The four lines file iteration hands back for one written record. */
  function RecordLines(r: Record): seq<string>
  {
    ["@" + r.id + "\n", r.sequence + "\n", "+\n", r.qual + "\n"]
  }

  lemma RecordLinesRead(r: Record, rest: string)
    requires CleanRecord(r)
    ensures Lines(FormatRecord(r) + rest) == RecordLines(r) + Lines(rest)
  {
    var h := "@" + r.id;
    assert '\n' !in h by {
      forall i | 0 <= i < |h| ensures h[i] != '\n' { if i > 0 { assert h[i] == r.id[i - 1]; } }
    }
    var t1 := r.sequence + "\n+\n" + r.qual + "\n" + rest;
    assert FormatRecord(r) + rest == h + "\n" + t1;
    LinesCons(h, t1);
    BodyLines(r.sequence, r.qual, rest);
  }

  /** The three lines after a header: sequence, separator, quality. */
  lemma BodyLines(sq: string, q: string, rest: string)
    requires '\n' !in sq && '\n' !in q
    ensures Lines(sq + "\n+\n" + q + "\n" + rest) == [sq + "\n", "+\n", q + "\n"] + Lines(rest)
  {
    var t3 := q + "\n" + rest;
    var t2 := "+" + "\n" + t3;
    assert sq + "\n+\n" + q + "\n" + rest == sq + "\n" + t2;
    LinesCons(q, rest);
    LinesCons("+", t3);
    assert "+" + "\n" == "+\n";
    LinesCons(sq, t2);
  }

  lemma RecordLinesParse(r: Record)
    requires CleanRecord(r)
    ensures Strip(RecordLines(r)[0]) != ""
    ensures GroupRecord(RecordLines(r)) == r
  {
    var h := "@" + r.id;
    var g := RecordLines(r);
    assert g[0] == h + "\n" && g[1] == r.sequence + "\n" && g[3] == r.qual + "\n";
    StripNewline(h);
    StripNewline(r.sequence);
    StripNewline(r.qual);
    assert !IsSpace(h[|h| - 1]) by {
      if r.id != [] { assert h[|h| - 1] == r.id[|r.id| - 1]; }
    }
    StripTrimmed(h);
    StripTrimmed(r.sequence);
    StripTrimmed(r.qual);
    assert DropFirst(h) == r.id;
  }

  /**
   Writing records and reading the text back line by line returns the same records, with no
   error, provided no field holds a newline or ends with whitespace, and neither the sequence
   nor the quality starts with whitespace.
   */
  lemma {:induction false} SerializeRoundTrip(rs: seq<Record>)
    requires forall i :: 0 <= i < |rs| ==> CleanRecord(rs[i])
    ensures Parse(Lines(Serialize(rs))) == Parsed(rs, false)
    decreases |rs|
  {
    if |rs| > 0 {
      var r, rest := rs[0], Serialize(rs[1..]);
      RecordLinesRead(r, rest);
      RecordLinesParse(r);
      SerializeRoundTrip(rs[1..]);
      var all := RecordLines(r) + Lines(rest);
      if |rs| == 1 {
        assert Lines(rest) == [];
        assert all == RecordLines(r);
      } else {
        assert Lines(rest) != [];
        assert all[..4] == RecordLines(r);
        assert all[4..] == Lines(rest);
      }
      assert rs == [r] + rs[1..];
    }
  }

  lemma {:induction false} SerializeSnoc(rs: seq<Record>, r: Record)
    ensures Serialize(rs + [r]) == Serialize(rs) + FormatRecord(r)
    decreases |rs|
  {
    if |rs| == 0 {
      assert rs + [r] == [r];
    } else {
      assert (rs + [r])[1..] == rs[1..] + [r];
      SerializeSnoc(rs[1..], r);
    }
  }

  function Forwards(ps: seq<Pair>): (r: seq<Record>)
    ensures |r| == |ps| && forall i :: 0 <= i < |ps| ==> r[i] == ps[i].fwd
  {
    seq(|ps|, i requires 0 <= i < |ps| => ps[i].fwd)
  }

  function Reverses(ps: seq<Pair>): (r: seq<Record>)
    ensures |r| == |ps| && forall i :: 0 <= i < |ps| ==> r[i] == ps[i].rev
  {
    seq(|ps|, i requires 0 <= i < |ps| => ps[i].rev)
  }

  /**
   The writing loop of both paired scripts: every yielded pair appends its forward record to
   the first output and its reverse record to the second, in the order yielded.
   */
  method WritePairs(pairs: seq<Pair>) returns (out1: string, out2: string)
    ensures out1 == Serialize(Forwards(pairs))
    ensures out2 == Serialize(Reverses(pairs))
  {
    out1, out2 := "", "";
    for i := 0 to |pairs|
      invariant out1 == Serialize(Forwards(pairs[..i]))
      invariant out2 == Serialize(Reverses(pairs[..i]))
    {
      SerializeSnoc(Forwards(pairs[..i]), pairs[i].fwd);
      SerializeSnoc(Reverses(pairs[..i]), pairs[i].rev);
      assert Forwards(pairs[..i + 1]) == Forwards(pairs[..i]) + [pairs[i].fwd];
      assert Reverses(pairs[..i + 1]) == Reverses(pairs[..i]) + [pairs[i].rev];
      out1 := out1 + FormatRecord(pairs[i].fwd);
      out2 := out2 + FormatRecord(pairs[i].rev);
    }
    assert pairs[..|pairs|] == pairs;
  }

  /** Both output files of the paired scripts read back as the pairs' forward and reverse records. */
  lemma WrittenPairsReadBack(pairs: seq<Pair>)
    requires forall i :: 0 <= i < |pairs| ==> CleanRecord(pairs[i].fwd) && CleanRecord(pairs[i].rev)
    ensures Parse(Lines(Serialize(Forwards(pairs)))) == Parsed(Forwards(pairs), false)
    ensures Parse(Lines(Serialize(Reverses(pairs)))) == Parsed(Reverses(pairs), false)
  {
    SerializeRoundTrip(Forwards(pairs));
    SerializeRoundTrip(Reverses(pairs));
  }

  /**
   After `n` tuples `izip` asks the streams in order for one more record: the position of the
   first stream that has none, or `|streams|` if all have more.
   */
  function FirstExhausted(streams: seq<Parsed>, n: nat): (i: nat)
    ensures i <= |streams|
    ensures forall j :: 0 <= j < i ==> |streams[j].records| > n
    ensures i < |streams| ==> |streams[i].records| <= n
    decreases |streams|
  {
    if |streams| == 0 || |streams[0].records| <= n then 0
    else
      var i := FirstExhausted(streams[1..], n);
      assert forall j :: 1 <= j <= i ==> streams[j] == streams[1..][j - 1];
      i + 1
  }

  /**
   How `izip` ends after `n` tuples: the first exhausted stream either stops the loop or, if
   its parser raises, propagates the IndexError.
   */
  function EndsTruncated(streams: seq<Parsed>, n: nat): (t: bool)
    ensures t <==> exists i :: 0 <= i < |streams| && |streams[i].records| <= n && streams[i].truncated &&
                              forall j :: 0 <= j < i ==> |streams[j].records| > n
  {
    var i := FirstExhausted(streams, n);
    i < |streams| && streams[i].truncated
  }

  /** The positions whose verdict is true, in increasing order: what a filter keeps, and where from. */
  function Accepted(verdicts: seq<bool>): (js: seq<nat>)
    ensures |js| <= |verdicts|
    ensures forall a, b :: 0 <= a < b < |js| ==> js[a] < js[b]
    ensures forall j: nat :: j in js <==> j < |verdicts| && verdicts[j]
    decreases |verdicts|
  {
    if |verdicts| == 0 then []
    else
      var front := Accepted(verdicts[..|verdicts| - 1]);
      assert forall j :: 0 <= j < |verdicts| - 1 ==> verdicts[..|verdicts| - 1][j] == verdicts[j];
      assert forall a :: 0 <= a < |front| ==> front[a] in front && front[a] < |verdicts| - 1;
      front + (if verdicts[|verdicts| - 1] then [|verdicts| - 1] else [])
  }

  /** The items whose verdict is true, in their original order: `verdicts[j]` decides `items[j]`. */
  function Chosen<T>(verdicts: seq<bool>, items: seq<T>): (r: seq<T>)
    requires |verdicts| <= |items|
    ensures |r| <= |verdicts|
    decreases |verdicts|
  {
    if |verdicts| == 0 then []
    else
      var k := |verdicts| - 1;
      Chosen(verdicts[..k], items) + (if verdicts[k] then [items[k]] else [])
  }

  /** The chosen items are the items at the accepted positions, one for one and in order. */
  lemma {:induction false} ChosenAt<T>(verdicts: seq<bool>, items: seq<T>)
    requires |verdicts| <= |items|
    ensures var js := Accepted(verdicts);
            |Chosen(verdicts, items)| == |js| &&
            forall i :: 0 <= i < |js| ==> js[i] < |verdicts| && Chosen(verdicts, items)[i] == items[js[i]]
    decreases |verdicts|
  {
    if |verdicts| > 0 {
      var k := |verdicts| - 1;
      ChosenAt(verdicts[..k], items);
      var js0, c0 := Accepted(verdicts[..k]), Chosen(verdicts[..k], items);
      var js, c := Accepted(verdicts), Chosen(verdicts, items);
      assert js == js0 + (if verdicts[k] then [k] else []);
      assert c == c0 + (if verdicts[k] then [items[k]] else []);
      forall i | 0 <= i < |js|
        ensures js[i] < |verdicts| && c[i] == items[js[i]]
      {
        if i < |js0| {
          assert js0[i] in js0;
          assert js[i] == js0[i] && c[i] == c0[i];
        }
      }
    }
  }

  /** An item is chosen if and only if its verdict is true. */
  lemma ChosenMembers<T>(verdicts: seq<bool>, items: seq<T>)
    requires |verdicts| <= |items|
    ensures forall j :: 0 <= j < |verdicts| && verdicts[j] ==> items[j] in Chosen(verdicts, items)
    ensures forall x :: x in Chosen(verdicts, items) ==>
              exists j :: 0 <= j < |verdicts| && verdicts[j] && x == items[j]
  {
    ChosenAt(verdicts, items);
    var r, js := Chosen(verdicts, items), Accepted(verdicts);
    forall j | 0 <= j < |verdicts| && verdicts[j]
      ensures items[j] in r
    {
      var i :| 0 <= i < |js| && js[i] == j;
      assert r[i] == items[j];
    }
    forall x | x in r
      ensures exists j :: 0 <= j < |verdicts| && verdicts[j] && x == items[j]
    {
      var i :| 0 <= i < |r| && r[i] == x;
      assert js[i] in js;
    }
  }

  /** One more verdict appends at most its own item. */
  lemma ChosenSnoc<T>(verdicts: seq<bool>, b: bool, items: seq<T>)
    requires |verdicts| < |items|
    ensures Chosen(verdicts + [b], items) == Chosen(verdicts, items) + (if b then [items[|verdicts|]] else [])
  {
    assert (verdicts + [b])[..|verdicts|] == verdicts;
  }

  /** The tuples `izip` would draw from two streams, forward record first. */
  function Zip(fwd: Parsed, rev: Parsed): (ps: seq<Pair>)
    ensures |ps| <= |fwd.records| && |ps| <= |rev.records|
    ensures |ps| == |fwd.records| || |ps| == |rev.records|
    ensures forall i :: 0 <= i < |ps| ==> ps[i] == Pair(fwd.records[i], rev.records[i])
  {
    var n := if |fwd.records| <= |rev.records| then |fwd.records| else |rev.records|;
    seq(n, i requires 0 <= i < n => Pair(fwd.records[i], rev.records[i]))
  }

  /** With every verdict true, everything is chosen. */
  lemma {:induction false} ChosenAll<T>(verdicts: seq<bool>, items: seq<T>)
    requires |verdicts| == |items| && forall j :: 0 <= j < |verdicts| ==> verdicts[j]
    ensures Chosen(verdicts, items) == items
    decreases |verdicts|
  {
    if |verdicts| > 0 {
      var k := |verdicts| - 1;
      ChosenAll(verdicts[..k], items[..k]);
      ChosenPrefix(verdicts[..k], items);
      assert items[..k] + [items[k]] == items;
    }
  }

  /** Only the first `|verdicts|` items matter. */
  lemma {:induction false} ChosenPrefix<T>(verdicts: seq<bool>, items: seq<T>)
    requires |verdicts| <= |items|
    ensures Chosen(verdicts, items) == Chosen(verdicts, items[..|verdicts|])
    decreases |verdicts|
  {
    if |verdicts| > 0 {
      var k := |verdicts| - 1;
      ChosenPrefix(verdicts[..k], items);
      ChosenPrefix(verdicts[..k], items[..|verdicts|]);
      assert items[..|verdicts|][..k] == items[..k];
    }
  }
}
