/** FASTA records and the FASTA parser of Classes/Fasta.py.

    The file is given as the sequence of lines that `readline()` and
    `readlines()` return, each still carrying its `\n` (the last one may
    lack it).  `ParseLines` is the parser as a recursive function; `Parse`
    is the same state machine as the source writes it, with the `h` and
    `seq` buffers, and is proved equal to it.
 */
module Fasta {
  import opened Results
  import opened Strings

  /** A character that `g.lower() in ('g', 'c')` accepts. */
  predicate IsGC(ch: char) {
    ch == 'g' || ch == 'G' || ch == 'c' || ch == 'C'
  }

  /** The number of characters of `s` that are G or C, in either case. */
  function GcCount(s: string): (n: nat)
    ensures n <= |s|
  {
    if |s| == 0 then 0 else (if IsGC(s[0]) then 1 else 0) + GcCount(s[1..])
  }

  /** The count is the number of occurrences of the four letters. */
  lemma {:induction false} GcCountOccurrences(s: string)
    ensures GcCount(s) == multiset(s)['g'] + multiset(s)['G'] + multiset(s)['c'] + multiset(s)['C']
  {
    if |s| > 0 {
      GcCountOccurrences(s[1..]);
      assert s == [s[0]] + s[1..];
      assert multiset(s) == multiset{s[0]} + multiset(s[1..]);
    }
  }

  lemma {:induction false} GcCountAppend(a: string, b: string)
    ensures GcCount(a + b) == GcCount(a) + GcCount(b)
  {
    if |a| > 0 {
      assert (a + b)[1..] == a[1..] + b;
      GcCountAppend(a[1..], b);
    } else {
      assert a + b == b;
    }
  }

  /** `gc/float(self.length)`: the GC fraction, defined only for a non-empty sequence. */
  function GcContent(s: string): (gc: real)
    requires |s| > 0
    ensures 0.0 <= gc <= 1.0
    ensures gc * (|s| as real) == GcCount(s) as real
  {
    GcCount(s) as real / |s| as real
  }

  /** `header.rstrip("\n").lstrip(">")`. */
  function StripHeader(line: string): (h: string)
    ensures |h| <= |line|
    ensures !StartsWith(h, '>')
    ensures |h| == 0 || h[|h| - 1] != '\n'
  {
    var t := RStrip(line, '\n');
    var h := LStrip(t, '>');
    LStripShape(t, '>');
    assert |h| > 0 ==> h[|h| - 1] == t[|t| - 1];
    h
  }

  /** The stored header is the line with only leading `>` and trailing `\n` characters removed. */
  lemma StripHeaderShape(line: string)
    ensures exists a: nat {:trigger Repeat('>', a)} ::
              a <= |line| - |StripHeader(line)| &&
              line == Repeat('>', a) + StripHeader(line) + Repeat('\n', |line| - |StripHeader(line)| - a)
  {
    var t := RStrip(line, '\n');
    var h := LStrip(t, '>');
    RStripShape(line, '\n');
    LStripShape(t, '>');
    assert line == Repeat('>', |t| - |h|) + h + Repeat('\n', |line| - |t|);
  }

  /** A FastaRecord as `FastaRecord.__init__` leaves it. */
  datatype FastaRecord = FastaRecord(header: string, sequence: string, length: nat, gc: real)

  /** `FastaRecord(header, sequence)`: raises ZeroDivisionError for an empty sequence. */
  function NewRecord(header: string, sequence: string): (r: Result<FastaRecord>)
    ensures r.Failure? <==> |sequence| == 0
    ensures r.Failure? ==> r.error == ZeroDivisionError
    ensures r.Success? ==> r.value.header == StripHeader(header) && r.value.sequence == sequence
    ensures r.Success? ==> r.value.length == |r.value.sequence| && r.value.gc == GcContent(r.value.sequence)
  {
    if |sequence| == 0 then Failure(ZeroDivisionError)
    else Success(FastaRecord(StripHeader(header), sequence, |sequence|, GcContent(sequence)))
  }

  /** A line the search for the first header reads past: `readline()[:-1]` is not empty and does not start with `>`. */
  predicate Skipped(line: string) {
    |line| >= 2 && line[0] != '>'
  }

  /** A line that ends the search with a header: `readline()[:-1]` is not empty and starts with `>`. */
  predicate OpensRecord(line: string) {
    |line| >= 2 && line[0] == '>'
  }

  /** Where the search for the first header, started at line `i`, stops: the first line that is not skipped,
      or the end of the input. */
  function Seek(lines: seq<string>, i: nat): (m: nat)
    requires i <= |lines|
    ensures i <= m <= |lines|
    ensures forall j | i <= j < m :: Skipped(lines[j])
    ensures m < |lines| ==> !Skipped(lines[m])
    decreases |lines| - i
  {
    if i < |lines| && Skipped(lines[i]) then Seek(lines, i + 1) else i
  }

  /** The `for` loop over the rest of the file, with `h` the pending header and `buf` the `seq` list. */
  function Body(h: string, buf: seq<string>, rest: seq<string>): Parsed<FastaRecord>
    decreases |rest|
  {
    if |rest| == 0 then Finish(NewRecord(h, Concat(buf)))
    else
      var line := rest[0];
      if StartsWith(line, '#') then Body(h, buf, rest[1..])
      else if StartsWith(line, '>') then
        match NewRecord(line, Concat(buf))
        case Failure(e) => Parsed([], Some(e))
        case Success(r) => Prepend(r, Body(DropFirst(DropLast(line)), [], rest[1..]))
      else Body(h, buf + [DropLast(line)], rest[1..])
  }

  /** Everything `Fasta.parse` yields for the given lines, and the exception that ends it, if any. */
  function ParseLines(lines: seq<string>): Parsed<FastaRecord>
  {
    var m := Seek(lines, 0);
    if m < |lines| && OpensRecord(lines[m]) then Body(DropFirst(DropLast(lines[m])), [], lines[m + 1..])
    else Parsed([], None)
  }

  /** One turn of the `for` loop. */
  lemma BodyStep(h: string, buf: seq<string>, rest: seq<string>)
    requires |rest| > 0
    ensures StartsWith(rest[0], '#') ==> Body(h, buf, rest) == Body(h, buf, rest[1..])
    ensures !StartsWith(rest[0], '#') && StartsWith(rest[0], '>') ==>
              Body(h, buf, rest) ==
              match NewRecord(rest[0], Concat(buf))
              case Failure(e) => Parsed([], Some(e))
              case Success(r) => Prepend(r, Body(DropFirst(DropLast(rest[0])), [], rest[1..]))
    ensures !StartsWith(rest[0], '#') && !StartsWith(rest[0], '>') ==>
              Body(h, buf, rest) == Body(h, buf + [DropLast(rest[0])], rest[1..])
  {
  }

  /** The `while` loop of `Fasta.parse` that reads past everything before the first header: finds the
      header line, or ends the stream at the end of input or at an empty line. */
  method FirstHeader(lines: seq<string>) returns (found: bool, i: nat)
    ensures found <==> Seek(lines, 0) < |lines| && OpensRecord(lines[Seek(lines, 0)])
    ensures found ==> i == Seek(lines, 0) < |lines|
  {
    i := 0;
    var h := if i < |lines| then DropLast(lines[i]) else [];
    if h == [] {
      return false, i;
    }
    while h[0] != '>'
      invariant i < |lines| && h == DropLast(lines[i]) && h != []
      invariant Seek(lines, 0) == Seek(lines, i)
      decreases |lines| - i
    {
      i := i + 1;
      h := if i < |lines| then DropLast(lines[i]) else [];
      if h == [] {
        return false, i;
      }
    }
    return true, i;
  }

  /** The `for` loop of `Fasta.parse` over the rest of the file, with the pending header `h` and the
      `seq` buffer, emitting a record at each `>` line and one at the end. */
  method ReadBody(h0: string, rest: seq<string>) returns (p: Parsed<FastaRecord>)
    ensures p == Body(h0, [], rest)
  {
    ghost var whole := Body(h0, [], rest);
    var h := h0;
    var buf: seq<string> := [];
    var out: seq<FastaRecord> := [];
    var j := 0;
    while j < |rest|
      invariant j <= |rest|
      invariant AppendTo(out, Body(h, buf, rest[j..])) == whole
      decreases |rest| - j
    {
      var line := rest[j];
      BodyStep(h, buf, rest[j..]);
      assert rest[j..][0] == line && rest[j..][1..] == rest[j + 1..];
      if StartsWith(line, '#') {
      } else if StartsWith(line, '>') {
        var r := NewRecord(line, Concat(buf));
        if r.Failure? {
          return Parsed(out, Some(r.error));
        }
        AppendToPrepend(out, r.value, Body(DropFirst(DropLast(line)), [], rest[j + 1..]));
        out := out + [r.value];
        h := DropFirst(DropLast(line));
        buf := [];
      } else {
        buf := buf + [DropLast(line)];
      }
      j := j + 1;
    }
    var r := NewRecord(h, Concat(buf));
    if r.Failure? {
      return Parsed(out, Some(r.error));
    }
    return Parsed(out + [r.value], None);
  }

  /** `Fasta.parse`: the search for the first header, then the record loop. */
  method Parse(lines: seq<string>) returns (p: Parsed<FastaRecord>)
    ensures p == ParseLines(lines)
  {
    var found, i := FirstHeader(lines);
    if !found {
      return Parsed([], None);
    }
    p := ReadBody(DropFirst(DropLast(lines[i])), lines[i + 1..]);
  }

  /** Zero records, and no error, when the input ends or an empty line comes before any header. */
  lemma NoHeaderNoRecords(lines: seq<string>, m: nat)
    requires m <= |lines|
    requires m == |lines| || |lines[m]| <= 1
    requires forall j | 0 <= j < m :: !OpensRecord(lines[j])
    ensures ParseLines(lines) == Parsed([], None)
  {
  }

  /** The lines of a record body that are not `#` comments. */
  function WithoutComments(rest: seq<string>): (r: seq<string>)
    ensures forall k | 0 <= k < |r| :: !StartsWith(r[k], '#')
  {
    if |rest| == 0 then []
    else if StartsWith(rest[0], '#') then WithoutComments(rest[1..])
    else [rest[0]] + WithoutComments(rest[1..])
  }

  /** Comment lines after the first header contribute nothing: dropping them changes no record and no error. */
  lemma {:induction false} CommentsIgnored(h: string, buf: seq<string>, rest: seq<string>)
    ensures Body(h, buf, rest) == Body(h, buf, WithoutComments(rest))
    decreases |rest|
  {
    if |rest| > 0 {
      var w := WithoutComments(rest);
      var line := rest[0];
      if StartsWith(line, '#') {
        CommentsIgnored(h, buf, rest[1..]);
      } else {
        assert w[0] == line && w[1..] == WithoutComments(rest[1..]);
        if StartsWith(line, '>') {
          CommentsIgnored(DropFirst(DropLast(line)), [], rest[1..]);
        } else {
          CommentsIgnored(h, buf + [DropLast(line)], rest[1..]);
        }
      }
    }
  }

  /** The number of lines that start with `>`. */
  function HeaderLines(lines: seq<string>): nat
  {
    if |lines| == 0 then 0 else (if StartsWith(lines[0], '>') then 1 else 0) + HeaderLines(lines[1..])
  }

  lemma {:induction false} HeaderLinesAppend(a: seq<string>, b: seq<string>)
    ensures HeaderLines(a + b) == HeaderLines(a) + HeaderLines(b)
  {
    if |a| > 0 {
      assert (a + b)[1..] == a[1..] + b;
      HeaderLinesAppend(a[1..], b);
    } else {
      assert a + b == b;
    }
  }

  /** Inside the body, a stream that ends without error holds one record per `>` line, plus the final one. */
  lemma {:induction false} BodyCount(h: string, buf: seq<string>, rest: seq<string>)
    requires Body(h, buf, rest).failure == None
    ensures |Body(h, buf, rest).records| == HeaderLines(rest) + 1
    decreases |rest|
  {
    if |rest| > 0 {
      var line := rest[0];
      if StartsWith(line, '#') {
        BodyCount(h, buf, rest[1..]);
      } else if StartsWith(line, '>') {
        BodyCount(DropFirst(DropLast(line)), [], rest[1..]);
      } else {
        BodyCount(h, buf + [DropLast(line)], rest[1..]);
      }
    }
  }

  /** Once a header is found, a stream that ends without error holds exactly as many records as
      the input has `>` lines. */
  lemma RecordCount(lines: seq<string>)
    requires Seek(lines, 0) < |lines| && OpensRecord(lines[Seek(lines, 0)])
    requires ParseLines(lines).failure == None
    ensures |ParseLines(lines).records| == HeaderLines(lines)
  {
    var m := Seek(lines, 0);
    var body := lines[m + 1..];
    assert ParseLines(lines) == Body(DropFirst(DropLast(lines[m])), [], body);
    BodyCount(DropFirst(DropLast(lines[m])), [], body);
    NoSkippedHeaders(lines[..m]);
    assert lines[m..][0] == lines[m] && lines[m..][1..] == body;
    assert HeaderLines(lines[m..]) == 1 + HeaderLines(body);
    assert lines[..m] + lines[m..] == lines;
    HeaderLinesAppend(lines[..m], lines[m..]);
  }

  lemma {:induction false} NoSkippedHeaders(lines: seq<string>)
    requires forall j | 0 <= j < |lines| :: Skipped(lines[j])
    ensures HeaderLines(lines) == 0
  {
    if |lines| > 0 {
      NoSkippedHeaders(lines[1..]);
    }
  }

  /** What a record body contributes to a record's sequence: its non-comment lines, each without its last character. */
  function SequenceLines(block: seq<string>): (r: seq<string>)
    ensures |r| <= |block|
  {
    if |block| == 0 then []
    else if StartsWith(block[0], '#') then SequenceLines(block[1..])
    else [DropLast(block[0])] + SequenceLines(block[1..])
  }

  /** With no `>` line left, the stream ends with one record: the pending header `h` and the buffered lines
      followed by the sequence lines of the rest. */
  lemma {:induction false} LastRecord(h: string, buf: seq<string>, rest: seq<string>)
    requires forall k | 0 <= k < |rest| :: !StartsWith(rest[k], '>')
    ensures Body(h, buf, rest) == Finish(NewRecord(h, Concat(buf + SequenceLines(rest))))
    decreases |rest|
  {
    if |rest| == 0 {
      assert buf + [] == buf;
    } else if StartsWith(rest[0], '#') {
      BodyStep(h, buf, rest);
      assert SequenceLines(rest) == SequenceLines(rest[1..]);
      LastRecord(h, buf, rest[1..]);
    } else {
      BodyStep(h, buf, rest);
      assert SequenceLines(rest) == [DropLast(rest[0])] + SequenceLines(rest[1..]);
      LastRecord(h, buf + [DropLast(rest[0])], rest[1..]);
      assert buf + [DropLast(rest[0])] + SequenceLines(rest[1..]) == buf + SequenceLines(rest);
    }
  }

  /** At the next `>` line the record emitted carries THAT line as its header, with the sequence
      gathered since the previous header; parsing then resumes with `line[1:-1]` pending. */
  lemma {:induction false} NextRecord(h: string, buf: seq<string>, block: seq<string>, hdr: string, more: seq<string>)
    requires forall k | 0 <= k < |block| :: !StartsWith(block[k], '>')
    requires StartsWith(hdr, '>')
    ensures Body(h, buf, block + [hdr] + more) ==
            match NewRecord(hdr, Concat(buf + SequenceLines(block)))
            case Failure(e) => Parsed([], Some(e))
            case Success(r) => Prepend(r, Body(DropFirst(DropLast(hdr)), [], more))
    decreases |block|
  {
    var rest := block + [hdr] + more;
    if |block| == 0 {
      assert rest[0] == hdr && rest[1..] == more;
      assert buf + [] == buf;
    } else {
      assert rest[0] == block[0] && rest[1..] == block[1..] + [hdr] + more;
      if StartsWith(block[0], '#') {
        NextRecord(h, buf, block[1..], hdr, more);
      } else {
        NextRecord(h, buf + [DropLast(block[0])], block[1..], hdr, more);
        assert buf + [DropLast(block[0])] + SequenceLines(block[1..]) == buf + SequenceLines(block);
      }
    }
  }
}

module FastaFiles {
  import opened Results
  import opened Strings
  import opened Fasta

  /** A header name that is stored exactly as written. */
  predicate PlainName(name: string) {
    |name| > 0 && name[0] != '>' && name[|name| - 1] != '\n'
  }

  /** A sequence line that is neither a comment nor a header. */
  predicate PlainSequence(s: string) {
    |s| > 0 && s[0] != '>' && s[0] != '#'
  }

  /** `>name` as a header line. */
  function HeaderLine(name: string): string
  {
    ['>'] + name + ['\n']
  }

  /** `s` as a sequence line. */
  function SequenceLine(s: string): string
  {
    s + ['\n']
  }

  /** A file of records with one sequence line each. */
  function Interleave(names: seq<string>, seqs: seq<string>): (lines: seq<string>)
    requires |names| == |seqs|
    ensures |lines| == 2 * |names|
  {
    if |names| == 0 then []
    else [HeaderLine(names[0]), SequenceLine(seqs[0])] + Interleave(names[1..], seqs[1..])
  }

  /** The records such a file yields: record `k` carries sequence `k` but header `k + 1`,
      and the last record carries the last header again. */
  function Shifted(names: seq<string>, seqs: seq<string>): (records: seq<FastaRecord>)
    requires |names| == |seqs| >= 1
    requires forall k | 0 <= k < |seqs| :: PlainSequence(seqs[k])
    ensures |records| == |names|
  {
    assert PlainSequence(seqs[0]);
    if |names| == 1 then [FastaRecord(names[0], seqs[0], |seqs[0]|, GcContent(seqs[0]))]
    else [FastaRecord(names[1], seqs[0], |seqs[0]|, GcContent(seqs[0]))] + Shifted(names[1..], seqs[1..])
  }

  /** The header shift, record by record. */
  lemma {:induction false} ShiftedAt(names: seq<string>, seqs: seq<string>, k: nat)
    requires |names| == |seqs| >= 1
    requires forall j | 0 <= j < |seqs| :: PlainSequence(seqs[j])
    requires k < |names|
    ensures Shifted(names, seqs)[k].header == names[if k + 1 < |names| then k + 1 else k]
    ensures Shifted(names, seqs)[k].sequence == seqs[k]
    ensures Shifted(names, seqs)[k].length == |seqs[k]|
    ensures Shifted(names, seqs)[k].gc == GcContent(seqs[k])
  {
    if |names| > 1 && k > 0 {
      ShiftedAt(names[1..], seqs[1..], k - 1);
    }
  }

  /** A file of plain single-line records parses, without error, into the shifted records. */
  lemma SingleLineRecords(names: seq<string>, seqs: seq<string>)
    requires |names| == |seqs| >= 1
    requires forall k | 0 <= k < |names| :: PlainName(names[k])
    requires forall k | 0 <= k < |seqs| :: PlainSequence(seqs[k])
    ensures ParseLines(Interleave(names, seqs)) == Parsed(Shifted(names, seqs), None)
  {
    var lines := Interleave(names, seqs);
    SimpleHeaderLine(names[0]);
    assert lines[0] == HeaderLine(names[0]);
    assert Seek(lines, 0) == 0;
    BodyOfSingleLineRecords(names, seqs);
  }

  lemma {:induction false} BodyOfSingleLineRecords(names: seq<string>, seqs: seq<string>)
    requires |names| == |seqs| >= 1
    requires forall k | 0 <= k < |names| :: PlainName(names[k])
    requires forall k | 0 <= k < |seqs| :: PlainSequence(seqs[k])
    ensures Body(names[0], [], Interleave(names, seqs)[1..]) == Parsed(Shifted(names, seqs), None)
  {
    var lines := Interleave(names, seqs);
    SimpleSequenceLine(seqs[0]);
    if |names| == 1 {
      assert lines[1..] == [SequenceLine(seqs[0])];
      LastRecord(names[0], [], lines[1..]);
      assert SequenceLines([SequenceLine(seqs[0])]) == [seqs[0]];
      assert [] + [seqs[0]] == [seqs[0]];
      assert Concat([seqs[0]]) == seqs[0];
    } else {
      var tail := Interleave(names[1..], seqs[1..]);
      assert tail[0] == HeaderLine(names[1]);
      assert lines[1..] == [SequenceLine(seqs[0]), HeaderLine(names[1])] + tail[1..];
      SimpleHeaderLine(names[1]);
      OneLineRecord(names[0], SequenceLine(seqs[0]), HeaderLine(names[1]), tail[1..]);
      BodyOfSingleLineRecords(names[1..], seqs[1..]);
    }
  }

  /** A record made of a single sequence line, ended by the next header `hdr`. */
  lemma OneLineRecord(h: string, line: string, hdr: string, more: seq<string>)
    requires |line| >= 2 && !StartsWith(line, '#') && !StartsWith(line, '>')
    requires StartsWith(hdr, '>')
    ensures Body(h, [], [line, hdr] + more) ==
            Prepend(NewRecord(hdr, DropLast(line)).value, Body(DropFirst(DropLast(hdr)), [], more))
  {
    NextRecord(h, [], [line], hdr, more);
    assert [line] + [hdr] + more == [line, hdr] + more;
    assert Concat([] + SequenceLines([line])) == DropLast(line);
  }

  /** `>name\n` is stored as `name`, and leaves `name` pending. */
  lemma SimpleHeaderLine(name: string)
    requires PlainName(name)
    ensures StripHeader(HeaderLine(name)) == name && StripHeader(name) == name
    ensures DropFirst(DropLast(HeaderLine(name))) == name
    ensures OpensRecord(HeaderLine(name)) && StartsWith(HeaderLine(name), '>')
  {
    var line := HeaderLine(name);
    assert line[..|line| - 1] == ['>'] + name;
    var t := ['>'] + name;
    assert t[|t| - 1] == name[|name| - 1];
    assert RStrip(line, '\n') == RStrip(t, '\n') == t;
    assert t[1..] == name;
    assert LStrip(t, '>') == LStrip(name, '>') == name;
    assert RStrip(name, '\n') == name;
  }

  lemma SimpleSequenceLine(s: string)
    requires PlainSequence(s)
    ensures DropLast(SequenceLine(s)) == s
    ensures |SequenceLine(s)| >= 2 && !StartsWith(SequenceLine(s), '#') && !StartsWith(SequenceLine(s), '>')
  {
    assert SequenceLine(s)[..|s|] == s;
  }

  /** The five sequences of the repository's FASTA tests, one record each, give lengths 12, 14, 9, 11, 16
      and the exact GC ratios 10/12, 12/14, 3/9, 4/11, 9/16. */
  lemma FixtureRecords(names: seq<string>, seqs: seq<string>)
    requires |names| == 5 && forall k | 0 <= k < 5 :: PlainName(names[k])
    requires seqs == ["GGGACAGGGGGC", "GGGACTGGGGGGGC", "ATGGCATAT", "ATGGCATATCA", "ATCGGAGGGATACGAG"]
    ensures var p := ParseLines(Interleave(names, seqs));
            && p.failure == None
            && |p.records| == 5
            && (forall k | 0 <= k < 5 :: p.records[k].sequence == seqs[k])
            && p.records[0].length == 12 && p.records[0].gc == 10.0 / 12.0
            && p.records[1].length == 14 && p.records[1].gc == 12.0 / 14.0
            && p.records[2].length == 9 && p.records[2].gc == 3.0 / 9.0
            && p.records[3].length == 11 && p.records[3].gc == 4.0 / 11.0
            && p.records[4].length == 16 && p.records[4].gc == 9.0 / 16.0
  {
    SingleLineRecords(names, seqs);
    forall k | 0 <= k < 5
      ensures Shifted(names, seqs)[k].sequence == seqs[k]
      ensures Shifted(names, seqs)[k].length == |seqs[k]|
      ensures Shifted(names, seqs)[k].gc == GcContent(seqs[k])
    {
      ShiftedAt(names, seqs, k);
    }
    GcFirst(seqs[0]);
    GcSecond(seqs[1]);
    GcThird(seqs[2]);
    GcFourth(seqs[3]);
    GcFifth(seqs[4]);
  }

  lemma GcFirst(s: string) requires s == "GGGACAGGGGGC" ensures GcContent(s) == 10.0 / 12.0
  {
    assert GcCount("GGGACA") == 4 && GcCount("GGGGGC") == 6;
    assert "GGGACA" + "GGGGGC" == s;
    GcCountAppend("GGGACA", "GGGGGC");
  }

  lemma GcSecond(s: string) requires s == "GGGACTGGGGGGGC" ensures GcContent(s) == 12.0 / 14.0
  {
    assert GcCount("GGGACTG") == 5 && GcCount("GGGGGGC") == 7;
    assert "GGGACTG" + "GGGGGGC" == s;
    GcCountAppend("GGGACTG", "GGGGGGC");
  }

  lemma GcThird(s: string) requires s == "ATGGCATAT" ensures GcContent(s) == 3.0 / 9.0
  {
    assert GcCount("ATGGCATAT") == 3;
  }

  lemma GcFourth(s: string) requires s == "ATGGCATATCA" ensures GcContent(s) == 4.0 / 11.0
  {
    assert GcCount("ATGGCATATCA") == 4;
  }

  lemma GcFifth(s: string) requires s == "ATCGGAGGGATACGAG" ensures GcContent(s) == 9.0 / 16.0
  {
    assert GcCount("ATCGGAGG") == 5 && GcCount("GATACGAG") == 4;
    assert "ATCGGAGG" + "GATACGAG" == s;
    GcCountAppend("ATCGGAGG", "GATACGAG");
  }
}
