# FASTQ record engine of the demultiplexing and read-filtering scripts

This project models, in Dafny, the record-processing core of three Python 2 scripts used on
Illumina FASTQ data:

- `demultiplex_reads.py` walks an index (barcode) read file, a forward read file and a reverse
  read file in lock-step. It compares the index read's header with each of the two read
  headers, field by field over the fields both have (the two read headers are never compared
  with each other), and keeps the forward/reverse pair when the index read starts with the sample's barcode. It
  writes both outputs and a summary log with two counts.
- `dual_fastq_filter.py` walks a forward and a reverse read file in lock-step with a two-way
  header check, and keeps the pairs whose forward identifier's first token is listed in a
  names file.
- `fastq_filter.py` filters one FASTQ file against the set of read names in a names file,
  after adjusting the output name (`.fastq` becomes `.fastq.gz`).

The model has these modules:

- `Wrappers`: `Option`.
- `Text`: the Python string operations the scripts use, on `string = seq<char>`:
  - `strip()`;
  - `split(c)`;
  - `split(' ')[0]`;
  - `split()[0]`, whose IndexError is `None`;
  - slicing with clamping;
  - iterating over the lines of a file, where each line keeps its `'\n'`;
  - `%d`.
- `Fastq`: the four-line record grouper shared by the three scripts:
  - as a specification, `Parse`;
  - as the loop, `ParseLines`;
  - the record text the scripts write and its round trip;
  - how `izip` ends over several parsed streams;
  - the generic "keep the items whose verdict is true" selection.
- `Headers`: the field comparison inside `check_seq_headers`.
- `Demultiplex`, `DualFilter` and `SingleFilter`: one module per script. Each has:
  - a specification function of the whole run;
  - the loop as a method proved equal to that function;
  - the script's `main` with files given as lines and outputs as the text written.

A parser's outcome is `Parsed(records, truncated)`. `truncated` means the generator raises
IndexError after yielding `records`, which happens for a short final group whose first line is
not blank. A run ends with a `Status`:

- `Finished`;
- `HeaderMismatch`, the `ParseError` of a failed header check;
- `Truncated`, the IndexError of a parser, propagated through `izip`;
- `MissingToken`, the IndexError of `split()[0]` on an identifier or name line with no token.

Where an exception ends a run, the outputs hold what was written before it.

The `and l` guard of `get_ids` in `fastq_filter.py` (line 26) looks meant to skip empty lines
of the names file, but file iteration never yields an empty line: a blank line is `"\n"`, so
`split()[0]` raises IndexError. The model follows the code; see
`SingleFilter.BlankNameLineRaises`.

## Model

| member | source | states |
|---|---|---|
| Text.StripShape | demultiplex_reads.py:117 | `line.strip()` is the slice of the line between a whitespace-only prefix and a whitespace-only suffix |
| Text.StripEnds | demultiplex_reads.py:117 | a stripped line neither starts nor ends with whitespace |
| Text.StripIdempotent | demultiplex_reads.py:117 | stripping twice is stripping once |
| Text.StripNewline | demultiplex_reads.py:111-117 | the `'\n'` that file iteration leaves on a line does not change its strip |
| Text.SplitOn | demultiplex_reads.py:95-97 | `split(':')` always returns at least one piece |
| Text.SplitOnPieces | demultiplex_reads.py:95-97 | the pieces of `split(':')` hold no `':'` and join back to the header |
| Text.SplitOnConcat | demultiplex_reads.py:95-97 | a separator splits the text before and after it independently |
| Text.SplitJoin | demultiplex_reads.py:129 | splitting a `'\n'.join` of newline-free lines gives the lines back |
| Text.FieldKeyShape | demultiplex_reads.py:99 | `e.split(' ')[0]` is the prefix of the field up to its first space, and contains no space |
| Text.WordShape | dual_fastq_filter.py:68 | the word taken is the longest whitespace-free prefix |
| Text.FirstTokenShape | dual_fastq_filter.py:68 | `split()[0]` fails exactly on an all-whitespace string; otherwise it is a non-empty, whitespace-free, maximal run right after the leading whitespace |
| Text.TokenIsOwnToken | fastq_filter.py:50 | a token's own first token is itself |
| Text.FirstTokenIdempotent | fastq_filter.py:50 | taking `split()[0]` of a first token changes nothing |
| Text.FirstTokenIgnoresDescription | dual_fastq_filter.py:68 | an identifier followed by whitespace and a description yields the identifier alone |
| Text.StripToken | dual_fastq_filter.py:87 | the `.strip()` applied after `split()[0]` never changes a token |
| Text.Take | demultiplex_reads.py:162 | `s[:n]` has length `min(n, len(s))` and is a prefix of `s` |
| Text.LinesCons | demultiplex_reads.py:111 | a newline-free line followed by `'\n'` is read back as one line that keeps its `'\n'` |
| Text.DecimalRoundTrip | demultiplex_reads.py:127-128 | the `%d` rendering of a count reads back as that count |
| Fastq.GroupsAt | demultiplex_reads.py:111-117 | record k of complete groups is built from lines 4k..4k+3 |
| Fastq.ParseSplit | demultiplex_reads.py:106-122 | any input parses as its complete groups followed by what the open final group gives |
| Fastq.ParseRecordIsGroup | demultiplex_reads.py:113-117 | every yielded record k comes from lines 4k..4k+3 (stripped, header's first character dropped, third line unread) |
| Fastq.ParseYieldsClosedGroups | demultiplex_reads.py:113-116 | every group followed by another line is yielded, whatever it holds; a mid-stream blank line shifts the grouping |
| Fastq.ParseExactGroups | demultiplex_reads.py:106-122 | 4N lines ending in a group with a non-blank header give exactly N records and no error |
| Fastq.TrailingBlankDropped | demultiplex_reads.py:118-120 | a final group whose first line strips to "" yields nothing and raises nothing |
| Fastq.TrailingBlankLine | demultiplex_reads.py:119 | a blank line after a well-formed file changes nothing |
| Fastq.ShortTrailingGroupFails | demultiplex_reads.py:120 | a final group of one to three lines with a non-blank first line raises IndexError after the complete groups |
| Fastq.TruncatedOnlyByShortGroup | demultiplex_reads.py:118-120 | the parser raises only for a short final group with a non-blank first line |
| Fastq.ParseLines | demultiplex_reads.py:106-122 | the counter-and-buffer loop of `fastqparser` yields exactly `Parse` of its lines |
| Fastq.SerializeRoundTrip | demultiplex_reads.py:215 | records written as `'@%s\n%s\n+\n%s\n'` parse back to the same records, with no error, when no field holds a newline or ends with whitespace and the sequence and quality do not start with whitespace (the `@` shields the identifier's leading whitespace) |
| Fastq.RecordLinesParse | demultiplex_reads.py:114 | the four lines of one written record group back into that record |
| Fastq.WritePairs | demultiplex_reads.py:214-216 | the writing loop puts every forward record in the first output and every reverse record in the second, in yield order |
| Fastq.WrittenPairsReadBack | dual_fastq_filter.py:103-105 | both paired outputs read back as the forward and reverse records of the yielded pairs |
| Fastq.FirstExhausted | demultiplex_reads.py:153 | after n tuples, the position of the first stream `izip` finds without an n-th record; every earlier stream has one |
| Fastq.EndsTruncated | demultiplex_reads.py:153 | after n tuples `izip` ends in an IndexError exactly when some stream has at most n records and a raising parser while every stream before it has more than n |
| Fastq.Accepted | dual_fastq_filter.py:68-69 | the kept positions are increasing and are exactly the positions whose verdict is true |
| Fastq.ChosenAt | dual_fastq_filter.py:68-69 | the kept items are the items at the accepted positions, one for one and in order |
| Fastq.ChosenMembers | dual_fastq_filter.py:68-69 | an item is kept if and only if its verdict is true |
| Fastq.ChosenAll | fastq_filter.py:52-54 | with every verdict true, everything is kept in order |
| Fastq.Zip | dual_fastq_filter.py:58 | `izip` of two streams pairs records position by position up to the shorter length |
| Headers.FieldsAgreeMeaning | demultiplex_reads.py:98-100 | the zip loop passes exactly when every pair of fields it forms has equal keys |
| Headers.ExtraFieldsIgnored | dual_fastq_filter.py:30-33 | a header agrees with any extension of itself by more `':'` fields, since `zip` stops at the shorter one |
| Headers.TextAfterSpaceIgnored | demultiplex_reads.py:99 | text after the first space of a field is never compared |
| Headers.FieldKeyBeforeSpace | demultiplex_reads.py:99 | the key of `key + " " + rest` is `key` |
| Demultiplex.CheckSeqHeadersMeaning | demultiplex_reads.py:93-104 | the three-way check passes exactly when the first header's field keys agree with both others over each common field count |
| Demultiplex.BarcodeMatches | demultiplex_reads.py:149-167 | the index read carries the barcode exactly when it is at least as long and starts with it |
| Demultiplex.OneMismatchRejects | demultiplex_reads.py:162-167 | a single differing base within the barcode rejects the read |
| Demultiplex.FirstMismatch | demultiplex_reads.py:157-158 | the first tuple whose headers disagree; all before it agree |
| Demultiplex.Demultiplexed | demultiplex_reads.py:152-170 | counts every drawn tuple, including a failing one; at most as many as the shortest stream. The sample count is the number of pairs yielded. On a mismatch the tuples before it all agree and the mismatched one yields nothing. Otherwise all tuples are drawn and the end is as `izip` decides |
| Demultiplex.YieldedPairs | demultiplex_reads.py:157-169 | a pair is yielded if and only if its tuple passed the header check and its index read carries the barcode |
| Demultiplex.MismatchRun | demultiplex_reads.py:155-158 | a run reaching a failing tuple k ends with HeaderMismatch, count k+1, and the pairs selected before k |
| Demultiplex.CompleteRun | demultiplex_reads.py:153 | a run without a mismatch ends as the first exhausted stream among index, read 1, read 2 decides |
| Demultiplex.IzipEnd | demultiplex_reads.py:153 | `izip` asks the index stream, then read 1, then read 2 |
| Demultiplex.FormatLog | demultiplex_reads.py:124-129 | the log splits into exactly its three lines, with both counts in decimal |
| Demultiplex.LogHoldsCounts | demultiplex_reads.py:126-128 | both counts can be read back from the log text |
| Demultiplex.DemultiplexRecords | demultiplex_reads.py:153-170 | the counting loop computes exactly `Demultiplexed` |
| Demultiplex.ParsePairedReads | demultiplex_reads.py:131-174 | parses the three files and runs the loop; the log text exists only when the run ends normally and a log is requested |
| Demultiplex.DemultiplexMain | demultiplex_reads.py:211-218 | the outputs hold the yielded forward and reverse records; the log holds the summary and separator only after a normal end, and is empty otherwise |
| DualFilter.CheckSeqHeadersMeaning | dual_fastq_filter.py:26-33 | the two-way check passes exactly when field keys agree over the common field count |
| DualFilter.KeepIds | dual_fastq_filter.py:87 | the names list fails exactly when a line has no token; otherwise it holds each line's first token, in order |
| DualFilter.FirstStop | dual_fastq_filter.py:58-68 | the first tuple that fails the header check or has no forward token; all before it pass both |
| DualFilter.FilterPairedOutcome | dual_fastq_filter.py:58-69 | the run ends with HeaderMismatch, MissingToken, Truncated or Finished exactly in the stated cases; a mismatch wins over a missing token in the same tuple |
| DualFilter.KeptPairs | dual_fastq_filter.py:68-69 | a pair is yielded if and only if it comes before the stopping tuple and its forward identifier's first token is listed |
| DualFilter.ReverseIdNotConsulted | dual_fastq_filter.py:68 | only the forward identifier is looked up: a reverse file with the same header verdicts gives the same stop, status, pair count and forward records |
| DualFilter.MismatchRun | dual_fastq_filter.py:59-60 | a run reaching a tuple with disagreeing headers ends with HeaderMismatch and the pairs yielded before it |
| DualFilter.UnnamedRun | dual_fastq_filter.py:68 | a run reaching a tuple whose forward identifier has no token ends with MissingToken |
| DualFilter.CompleteRun | dual_fastq_filter.py:58 | a run with no stopping tuple ends as the first exhausted stream, forward first, decides |
| DualFilter.FilterPairedRecords | dual_fastq_filter.py:58-69 | the generator loop computes exactly `FilterPaired` |
| DualFilter.FilterPairedFastq | dual_fastq_filter.py:55-69 | parsing both files and running the loop gives exactly `FilterPaired` of the parsed files |
| DualFilter.DualFilterMain | dual_fastq_filter.py:77-105 | a names file with a blank line leaves both outputs empty; otherwise the outputs hold the yielded forward and reverse records |
| SingleFilter.OutputName | fastq_filter.py:20-22 | a name ending in `.fastq` gets `.gz` appended, any other is kept; the result never ends in `.fastq` |
| SingleFilter.OutputNameIdempotent | fastq_filter.py:20-22 | adjusting the output name twice is adjusting it once |
| SingleFilter.GetIds | fastq_filter.py:25-26 | fails exactly when a non-comment line has no token; otherwise holds exactly the first tokens of the non-comment lines |
| SingleFilter.GetIdsAreTokens | fastq_filter.py:26 | every name `get_ids` returns is a token |
| SingleFilter.CommentLineIgnored | fastq_filter.py:26 | a line starting with `#` contributes nothing |
| SingleFilter.BlankNameLineRaises | fastq_filter.py:26 | a blank names line is not skipped and makes `get_ids` raise |
| SingleFilter.KeepLookup | fastq_filter.py:50 | the lookup fails exactly when a name has no token; otherwise every key is a token and there are no more keys than names |
| SingleFilter.GetIdsLookup | fastq_filter.py:50 | built from what `get_ids` returns, as `main` does, the lookup holds exactly the names `get_ids` found |
| SingleFilter.LookupOfTokens | fastq_filter.py:50 | on the tokens `get_ids` returns, the lookup is the set itself |
| SingleFilter.FirstUnnamed | fastq_filter.py:52-53 | the first record whose identifier has no token; all before it have one |
| SingleFilter.Filtered | fastq_filter.py:47-55 | a record read before the first unnamed record is written if its first token is in the lookup, and every written record's first token is in the lookup; MissingToken exactly when an unnamed record is read, otherwise the parser's end |
| SingleFilter.FilterIdempotent | fastq_filter.py:47-55 | filtering a written output again with the same names writes it unchanged and ends normally, and it reads back as the written records |
| SingleFilter.FilterRecords | fastq_filter.py:52-55 | the writing loop produces exactly the text of the records `Filtered` writes, and its status |
| SingleFilter.FilterFastq | fastq_filter.py:47-55 | the output is opened before the lookup is built, so a name without a token leaves it empty |
| SingleFilter.FilterMain | fastq_filter.py:58-66 | a failing `get_ids` writes nothing; an input name not ending in `.fastq` or `.fastq.gz` writes nothing; otherwise the filtered text is written |

## Left out

- Command-line parsing (argparse), opening and closing files, gzip compression and
  decompression, temporary names, `rename` and `create_dir`: files are given as their lines
  and outputs as the text written.
- fastq_filter.py opens a `.fastq.gz` input with `open(.., 'rU')` and so reads compressed bytes
  as text; the model treats the given lines as the file's text.
- Universal-newline translation (`'U'` mode): lines are split on `'\n'` only.
- The `Indices` lookup of demultiplex_reads.py (`Indices[opts.index_name]`, with its KeyError)
  and the mapping-file helpers around it are not part of this model. The barcode is a
  parameter of `Demultiplex.DemultiplexMain`.
- The `.gz` renaming of output names in dual_fastq_filter.py (lines 80-85) happens after
  the outputs are opened and has no effect on the files written, so it is not modelled.
- Generator laziness: each run is modelled as parsing the streams fully and then walking the
  records. Errors surface in the same order as the interleaved original. Reading a record
  pulls the streams in `izip` order; a parser's IndexError is raised only when its stream is
  asked for a record it does not have.
- The warnings printed to the console, and the partially written gzip files left open when an
  exception ends a run: the outputs are the text written before the exception.
- Demultiplex.DemultiplexMain: the log file is created before the run even when the run fails;
  the model gives its text, which is then empty.
- Integer widths: the counts are unbounded naturals, as Python integers are.
