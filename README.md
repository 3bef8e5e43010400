# Genomics file parsers, modelled in Dafny

This project models the parsing core of the `Genomics` Python package:

- the FASTA record (`FastaRecord`: header stripping, length, GC content) and the FASTA reader
  `Fasta.parse`;
- the FASTQ record (`FastqRecord`: Illumina read-name decomposition, `record()`) and the
  four-line-block reader `Fastq.parse`;
- the GTF entry (`Entry.__init__`: positional columns, `gene_id`, `transcript_id`, the ordered
  attribute dictionary) and the comment-skipping loop of `GTF.__iter__`;
- the k-mer helpers `kmerGen` and `findKmers`.

Each reader takes the file as a `seq<string>` of lines, each line with its `\n` as Python's file
iteration yields it. It returns a `Parsed<T>`: the records the generator yields, plus the
exception that ends it, if any (`Results.Error`: `IndexError`, `ValueError`,
`ZeroDivisionError`, `UnboundLocalError`). Each reader comes twice:

- a recursive specification function (`ParseLines`);
- an imperative method with the source's own loop variables, proved equal to it: `h` and `buf`
  in FASTA (`Fasta.ReadBody`), `ln` and `buf` in FASTQ (`Fastq.Parse`), where `buf` is the
  source's list `seq`, renamed because `seq` is a Dafny keyword. In GTF the line loop is
  `Gtf.Iterate`, and `x`, `y` and the dictionary are the loop of `Entry.__init__`, modelled by
  `Gtf.BuildAttributes`.

The properties are then proved about the specification functions.

Modules:

- `Results`: errors, `Option`, `Result` and the `Parsed` stream.
- `Strings`: Python's `rstrip`, `lstrip`, `strip`, `split`, `join`, `re.search` for a literal
  pattern, `int()`, and file-line splitting, on `seq<char>`.
- `Fasta`, `FastaFiles` (concrete files, including the repository's test fixture), `Fastq`, `Gtf`.
- `OrderedDict`: `collections.OrderedDict` as a sequence of pairs with overwrite-in-place
  assignment.
- `Kmer`.

The model follows the code as written, including:

- GTF attribute tokens are split on the single character `' '`, although the comment at
  `Classes/GTF.py:64-66` speaks of splitting on white space. A token with fewer than two parts
  re-assigns the previous `x, y` pair, or raises `UnboundLocalError` when there is none. It is not
  skipped.
- `parseHeader` accepts a read name with two or more space-separated components; extra ones are
  ignored.
- In `Fasta.parse` the record emitted at a `>` line carries that new line as its header
  (`Classes/Fasta.py:102`). Only the final record carries the pending `h`, so the first header is
  stored only when no later `>` line follows it.
- The transcript search pattern is the source's `"transcrip_id"`, which a key spelled
  `transcript_id` never contains. `transcript_id` is the whole first matching token with only its
  outer `"` characters stripped: ` transcrip_id "T1"` gives ` transcrip_id "T1`, key, leading space
  and opening quote included.
- A record with an empty sequence raises `ZeroDivisionError` at `gc/float(self.length)`, which
  ends the parse stream there.

## Model

| member | source | states |
|---|---|---|
| Fasta.GcContent | Classes/Fasta.py:36-40 | defined only for a non-empty sequence; lies in [0, 1]; times the length it is exactly the number of g/G/c/C characters (an exact ratio, not a float) |
| Fasta.GcCountOccurrences | Classes/Fasta.py:39 | the GC count is the number of occurrences of `g`, `G`, `c` and `C` in the sequence |
| Fasta.GcCountAppend | Classes/Fasta.py:39 | the GC count of a concatenation is the sum of the counts of the parts |
| Fasta.StripHeader | Classes/Fasta.py:25 | the stored header is no longer than the line, does not start with `>` and does not end with `\n` |
| Fasta.StripHeaderShape | Classes/Fasta.py:25 | the line is a run of `>`, then the stored header, then a run of `\n`: nothing else is removed |
| Fasta.NewRecord | Classes/Fasta.py:24-40 | fails exactly for an empty sequence, with ZeroDivisionError; otherwise header stripped, sequence kept, `length == len(sequence)`, `gc == GcContent(sequence)` |
| Fasta.Seek | Classes/Fasta.py:82-93 | the search for the first header stops at the first line that is empty after `[:-1]` or starts with `>`, passing over only skipped lines |
| Fasta.Body | Classes/Fasta.py:96-110 | no contract of its own: the specification of the `for` loop; properties in `Fasta.CommentsIgnored`, `Fasta.BodyCount`, `Fasta.LastRecord`, `Fasta.NextRecord` |
| Fasta.ParseLines | Classes/Fasta.py:73-110 | no contract of its own: the specification of `Fasta.parse`; properties in `Fasta.NoHeaderNoRecords`, `Fasta.RecordCount`, `FastaFiles.SingleLineRecords` |
| Fasta.FirstHeader | Classes/Fasta.py:82-93 | the `while` loop finds a header exactly when the search for the first header stops at a line starting with `>`, and then at that line |
| Fasta.ReadBody | Classes/Fasta.py:95-110 | the `for` loop with the pending header `h` and the buffer `buf` (the source's `seq`) yields exactly the specification `Body` |
| Fasta.Parse | Classes/Fasta.py:73-110 | the header search followed by the record loop yields exactly the records and the error of the specification `ParseLines` |
| Fasta.NoHeaderNoRecords | Classes/Fasta.py:82-93 | empty input, input with no `>` line, or an empty line before the first header gives zero records and no error |
| Fasta.CommentsIgnored | Classes/Fasta.py:98-99 | after the first header, dropping every `#` line changes no record and no error |
| Fasta.BodyCount | Classes/Fasta.py:97-110 | a body that ends without error yields one record per `>` line, plus the final one |
| Fasta.RecordCount | Classes/Fasta.py:95-110 | once a header is found, an error-free stream holds exactly as many records as there are `>` lines |
| Fasta.NoSkippedHeaders | Classes/Fasta.py:88-93 | the lines skipped while seeking the first header hold no `>` line |
| Fasta.LastRecord | Classes/Fasta.py:105-110 | with no `>` line left, the stream ends with one record: pending header `h`, sequence the in-order concatenation of the buffer and the non-comment lines, each without its last character |
| Fasta.NextRecord | Classes/Fasta.py:101-108 | at the next `>` line the record emitted carries that line as its header and the sequence gathered since the previous header; parsing resumes with `line[1:-1]` pending |
| FastaFiles.ShiftedAt | Classes/Fasta.py:101-110 | in a file of single-line records, record k carries sequence k but the header of record k + 1; the last one keeps its own |
| FastaFiles.SingleLineRecords | Classes/Fasta.py:95-110 | a file of plain single-line records parses, without error, into those shifted records, in file order |
| FastaFiles.OneLineRecord | Classes/Fasta.py:101-108 | a single sequence line followed by a header emits one record with that line, less its last character |
| FastaFiles.SimpleHeaderLine | Classes/Fasta.py:25 | `>name\n` is stored as `name`, and `line[1:-1]` leaves `name` pending |
| FastaFiles.FixtureRecords | tests/test_Fasta.py:42-64 | the five test sequences parse to five records, without error, with lengths 12, 14, 9, 11, 16 and GC ratios 10/12, 12/14, 3/9, 4/11, 9/16 |
| FastaFiles.GcFirst | tests/test_Fasta.py:51-64 | `GGGACAGGGGGC` has GC content 10/12 |
| Fastq.ParseHeader | Classes/Fastq.py:30-33 | a malformed read name fails with ValueError or IndexError only, never with a partial result |
| Fastq.HeaderErrors | Classes/Fastq.py:30-33 | IndexError exactly when component 0 has 7 fields but there is no component 1; ValueError exactly when component 0 does not have 7 `:` fields, or component 1 does not have 4, or its last field does not have 2 `+` parts |
| Fastq.ParseFormatHeader | Classes/Fastq.py:30-33 | every set of separator-free fields is read back exactly from the read name written from it, in the same order, whatever space-separated comment follows |
| Fastq.FormatParseHeader | Classes/Fastq.py:30-33 | a read name with exactly two components that parses is exactly the name written from its 12 fields |
| Fastq.NewRecord | Classes/Fastq.py:16-23 | succeeds exactly when the header parses and the sequence is non-empty; a header error comes first, then ZeroDivisionError; header stored verbatim (no `@` stripped), fields as parsed, length and GC as for FASTA |
| Fastq.Record | Classes/Fastq.py:40 | no contract of its own; its four lines are stated in `Fastq.RecordLines`, and the round trip with the parser in `Fastq.ParseWrite` |
| Fastq.Blocks | Classes/Fastq.py:86-92 | no contract of its own: one record per complete block of four stored lines; properties in `Fastq.BlocksCount`, `Fastq.BlocksAt`, `Fastq.BlocksFailure`, `Fastq.BlocksTail` |
| Fastq.ParseLines | Classes/Fastq.py:74-94 | no contract of its own: the specification of `Fastq.parse`; properties in `Fastq.RecordCount`, `Fastq.RecordAt`, `Fastq.FailureAt`, `Fastq.TailIgnored`, `Fastq.ParseWrite` |
| Fastq.Parse | Classes/Fastq.py:74-94 | the loop with the counter `ln` and the buffer `buf` (the source's `seq`) yields exactly the records and the error of the specification `ParseLines` |
| Fastq.RecordCount | Classes/Fastq.py:82-94 | a parse that ends without error yields exactly floor(N / 4) records for N lines |
| Fastq.RecordAt | Classes/Fastq.py:86-92 | record k is built from lines 4k, 4k + 1 and 4k + 3 (zero-based), each without trailing `\n`; line 4k + 2 is never read |
| Fastq.FailureAt | Classes/Fastq.py:86-92 | an exception ends the stream at the first block whose record cannot be built, with that record's error |
| Fastq.TailIgnored | Classes/Fastq.py:86-94 | lines after the last complete block of four change nothing |
| Fastq.RecordLines | Classes/Fastq.py:40 | the text `record()` writes splits into four lines: header, sequence, `+` and quality, each with its `\n` |
| Fastq.ParseWrite | Classes/Fastq.py:40 | parsing the text written by `record()` for any records built by `FastqRecord(...)` with newline-free parts yields the same records, without error |
| Gtf.TokenPair | Classes/GTF.py:67-72 | a token with fewer than two space-separated parts leaves the previous `x, y` in place |
| Gtf.AttributesFrom | Classes/GTF.py:62-73 | no contract of its own: the attribute loop from a given dictionary and `x, y`; properties in `Gtf.AttributesAssign`, `Gtf.BoundNeverFails`, `Gtf.StaleTokensIgnored` |
| Gtf.Attributes | Classes/GTF.py:62-73 | no contract of its own: the loop from an empty dictionary with `x, y` unbound; properties in `Gtf.AttributesFail`, `Gtf.AttributeOrder` |
| Gtf.BuildAttributes | Classes/GTF.py:62-73 | the loop with the carried `x, y` and the dictionary gives exactly `Attributes` |
| Gtf.AttributesAssign | Classes/GTF.py:62-73 | the loop assigns one pair per token, in order, into an ordered dictionary, or raises UnboundLocalError |
| Gtf.BoundNeverFails | Classes/GTF.py:67-73 | once `x, y` are bound the loop cannot fail |
| Gtf.AttributesFail | Classes/GTF.py:67-73 | the loop raises UnboundLocalError exactly when the first token has fewer than two parts |
| Gtf.StaleToken | Classes/GTF.py:71-73 | a token with fewer than two parts, read while the stored pair is still in the dictionary, re-inserts it and changes nothing |
| Gtf.StaleTokensIgnored | Classes/GTF.py:71-73 | once a pair is stored, every later token with fewer than two parts is a no-op |
| Gtf.AttributeOrder | Classes/GTF.py:62-73 | keys keep their order of first appearance, each holds the value of its last assignment, and no key appears twice |
| Gtf.GeneOnlyColumn | Classes/GTF.py:54-73 | a ninth column holding only `gene_id "X";` raises UnboundLocalError |
| Gtf.Matching | Classes/GTF.py:57 | every token kept contains the pattern `transcrip_id` |
| Gtf.MatchingComplete | Classes/GTF.py:57 | the other direction: every kept token is one of the tokens, and every token that contains the pattern is kept |
| Gtf.MatchingFirst | Classes/GTF.py:57 | the comprehension keeps file order: its element `[0]` is the first token that contains the pattern |
| Gtf.TranscriptId | Classes/GTF.py:56-59 | no contract of its own; properties in `Gtf.TranscriptFirst` and `Gtf.TranscriptFallback` |
| Gtf.TranscriptFirst | Classes/GTF.py:56-57 | when some remaining token contains `transcrip_id`, `transcript_id` is the first such token with its outer `"` stripped |
| Gtf.NewEntry | Classes/GTF.py:46-73 | `length == end - start` for every entry built |
| Gtf.MakeEntry | Classes/GTF.py:46-73 | `Entry.__init__` with its attribute loop gives exactly `NewEntry` |
| Gtf.EntryColumns | Classes/GTF.py:47-62 | contig, source, feature type, start, end and strand come from columns 0, 1, 2, 3, 4, 6; `gene_id` is part 1 of the first `;` token, quotes stripped; the transcript and attributes come from the remaining tokens |
| Gtf.ShortLine | Classes/GTF.py:47-54 | a line with fewer than nine tab fields yields no entry (IndexError, or ValueError from a bad start or end) |
| Gtf.UnusedColumns | Classes/GTF.py:47-52 | columns 5 and 7 are never read |
| Gtf.TranscriptFallback | Classes/GTF.py:56-59 | without a remaining token containing `transcrip_id`, `transcript_id == gene_id` |
| Gtf.TranscriptKeyMissed | Classes/GTF.py:57 | a real `transcript_id "T1"` token does not contain the source's pattern |
| Gtf.Stream | Classes/GTF.py:96-100 | no contract of its own: a `#` line yields nothing, an empty line raises IndexError, any other line yields `Entry(line.split("\t"))`; properties in `Gtf.StreamEntries`, `Gtf.OnlyComments` |
| Gtf.ParseLines | Classes/GTF.py:96-100 | no contract of its own: `Gtf.Stream` on the lines with `rstrip("\n")` applied |
| Gtf.Iterate | Classes/GTF.py:96-100 | the loop over the lines gives exactly the specification `ParseLines` |
| Gtf.StreamEntries | Classes/GTF.py:96-100 | an error-free stream had no empty line and yields exactly one entry per non-comment line, in file order |
| Gtf.OnlyComments | Classes/GTF.py:96-100 | a file of comment lines yields nothing and raises nothing |
| OrderedDict.Get | Classes/GTF.py:62 | a lookup misses exactly when the key is absent |
| OrderedDict.Insert | Classes/GTF.py:73 | no contract of its own: `d[k] = v`; properties in `OrderedDict.InsertKeys`, `OrderedDict.InsertGet`, `OrderedDict.InsertPresent`, `OrderedDict.InsertDistinct` |
| OrderedDict.InsertKeys | Classes/GTF.py:73 | assignment keeps a present key where it stands and appends a new key last |
| OrderedDict.InsertGet | Classes/GTF.py:73 | after `d[k] = v`, `k` maps to `v` and every other key keeps its value |
| OrderedDict.InsertPresent | Classes/GTF.py:73 | assigning a key the value it already has changes nothing |
| OrderedDict.InsertAllKeys | Classes/GTF.py:62-73 | after a run of assignments the keys are in order of first appearance |
| OrderedDict.InsertAllGet | Classes/GTF.py:62-73 | after a run of assignments the last value assigned to a key wins |
| OrderedDict.InsertAllDistinct | Classes/GTF.py:62-73 | no key is held twice |
| Strings.RStripShape | Classes/Fasta.py:25 | `rstrip(c)` removes exactly a trailing run of `c` |
| Strings.LStripShape | Classes/Fasta.py:25 | `lstrip(c)` removes exactly a leading run of `c` |
| Strings.JoinSplit | Classes/Fastq.py:30-33 | joining the pieces of a split restores the string |
| Strings.SplitJoin | Classes/Fastq.py:30-33 | splitting a join of separator-free pieces gives the pieces back |
| Strings.ContainsWitness | Classes/GTF.py:57 | a successful search points at a real occurrence of the pattern |
| Strings.ParseIntShowInt | Classes/GTF.py:50-51 | `int()` reads back every integer `str()` writes |
| Strings.ChompLine | Classes/Fastq.py:88-92 | `rstrip("\n")` removes exactly the line break of a line that has one |
| Strings.ConcatSplitLines | Classes/Fastq.py:86 | the lines of a text concatenate back to the text |
| Kmer.KmerGen | Classes/Kmer.py:9-18 | no contract of its own; properties in `Kmer.KmerCount`, `Kmer.KmerShape`, `Kmer.KmerComplete`, `Kmer.KmerOrder`, `Kmer.KmerDistinct` |
| Kmer.KmerCount | Classes/Kmer.py:15-18 | `kmerGen(n)` yields exactly 4^n strings |
| Kmer.KmerShape | Classes/Kmer.py:15-18 | every yielded string has length n and is over A, T, C, G |
| Kmer.KmerComplete | Classes/Kmer.py:15-18 | every string of length n over A, T, C, G is yielded |
| Kmer.KmerOrder | Classes/Kmer.py:15-17 | the strings come out strictly ascending in lexicographic order under A < T < C < G |
| Kmer.KmerDistinct | Classes/Kmer.py:15-18 | no string is yielded twice |
| Kmer.WindowsAre | Classes/Kmer.py:43-47 | the k-mer set is exactly the windows `seq[k:k+n]` for 0 <= k <= len(seq) - n; each has length n; there are at most len(seq) - n + 1 of them |
| Kmer.FindKmers | Classes/Kmer.py:34-47 | returns the sequence itself when `n > len(seq)`; otherwise the set of all its windows of length n |

## Left out

- File opening, gzip decompression and the dispatch on the type of the file designator are I/O,
  so every reader takes its lines as a given sequence. Their quirks are consequently not
  modelled: the two-character suffix test; no branch matching a text-mode gzip handle.
- A binary `gzip.GzipFile` handle given to `Fasta.parse` makes it yield nothing: `h[0]` is then an
  integer, never `">"`, so the loop at `Classes/Fasta.py:88-92` reads until a blank line or the end
  of input and then raises `StopIteration`. Given to
  `Fastq.parse`, it raises `TypeError` at `line.rstrip("\n")` on bytes (`Classes/Fastq.py:88`,
  `Classes/Fastq.py:92`). Neither behaviour is modelled, since the readers take text lines.
- `GTF.__iter__` is modelled by its text-mode branch for a path ending in `gz`
  (`Classes/GTF.py:95-100`). The branch for a `gzip.GzipFile` handle (`Classes/GTF.py:86-91`) reads
  binary lines, so `x.rstrip("\n")` there raises `TypeError` on bytes. The plain-path branch
  (`Classes/GTF.py:102-107`) raises `NameError` on `selffile_handle`. Neither behaviour is modelled.
- Python iterator plumbing (`__iter__`, `__next__`, `next`) is left out. End of input is an empty
  remainder of the stream, and `raise StopIteration` inside the generator (which Python 3.7+
  turns into `RuntimeError`) is modelled as a plain end with no records.
- Closing of files is resource handling, not logic.
- `randomKmer` depends on `random`. It also ignores `L` and always builds 50 characters.
- `Functions/Normalisation.py` is pandas and numpy vectorised numerics on floats; it is not part
  of this model.
- GC content is an exact `real` ratio, not a binary float. The fixture's GC values are compared
  exactly with the ratios, not to four places.
- `Strings.ParseInt` accepts an optional sign followed by ASCII digits. Python's `int()` also
  accepts surrounding whitespace, underscores and non-ASCII digits.
- Lines are split at `\n` only. Universal-newline translation of `\r\n` and `\r` is not modelled.
- `Kmer.KmerGen`, `Kmer.FindKmers`: `n` is a natural number. A negative `n` is not modelled:
  it makes `itertools.product` raise `ValueError`, and gives `findKmers` the slice
  `seq[k:len(seq)+k+n]` for each k < -n and the empty string for every later k.
- `Entry`, `FastaRecord` and `FastqRecord` are immutable datatypes. The source builds them by
  assigning fields in `__init__`, but nothing else updates them afterwards.
- `Gtf.NewEntry`: its own contract states only `length == end - start`. The column-by-column
  properties are proved in `Gtf.EntryColumns`, `Gtf.ShortLine`, `Gtf.UnusedColumns` and
  `Gtf.TranscriptFallback`.
