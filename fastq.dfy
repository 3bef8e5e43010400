/** FASTQ records and the FASTQ parser of Classes/Fastq.py.

    A FASTQ record is a block of four lines: the header, the sequence, a `+`
    separator and the quality string.  The record keeps its header verbatim
    and also splits it into the twelve fields of an Illumina read name,
    `machine:run:flowcell:lane:tile:x:y pair:filtered:bits:index1+index2`.
 */
module Fastq {
  import opened Results
  import opened Strings
  import Fasta

  /** The fields `parseHeader` sets from an Illumina read name. */
  datatype IlluminaHeader = IlluminaHeader(
    machine: string, runid: string, flowcell: string, lane: string,
    tilenum: string, xcoord: string, ycoord: string,
    pair: string, filtered: string, bits: string,
    r1idx: string, r2idx: string)

  /** `parseHeader`: the header is split at single spaces; the first piece must have exactly seven
      `:`-separated fields, a second piece must exist and have exactly four, and the last of those
      must hold exactly one `+`.  Each check raises in the order the statements run. */
  function ParseHeader(header: string): (r: Result<IlluminaHeader>)
    ensures r.Failure? ==> r.error == ValueError || r.error == IndexError
  {
    var components := Split(header, ' ');
    var a := Split(components[0], ':');
    if |a| != 7 then Failure(ValueError)
    else if |components| < 2 then Failure(IndexError)
    else
      var b := Split(components[1], ':');
      if |b| != 4 then Failure(ValueError)
      else
        var indices := Split(b[3], '+');
        if |indices| != 2 then Failure(ValueError)
        else Success(IlluminaHeader(a[0], a[1], a[2], a[3], a[4], a[5], a[6],
                                    b[0], b[1], b[2], indices[0], indices[1]))
  }

  /** Which exception a malformed read name raises: `ValueError` when a piece has the wrong number of
      fields, and `IndexError` only when the first piece is well formed but there is no second one. */
  lemma HeaderErrors(header: string)
    ensures var components := Split(header, ' ');
            var r := ParseHeader(header);
            (r == Failure(IndexError) <==> |Split(components[0], ':')| == 7 && |components| < 2) &&
            (r == Failure(ValueError) <==>
               |Split(components[0], ':')| != 7 ||
               (|components| >= 2 &&
                (|Split(components[1], ':')| != 4 || |Split(Split(components[1], ':')[3], '+')| != 2)))
  {
  }

  /** The read name that carries exactly the given fields. */
  function FormatHeader(f: IlluminaHeader): string
  {
    Join([f.machine, f.runid, f.flowcell, f.lane, f.tilenum, f.xcoord, f.ycoord], ':')
    + [' '] +
    Join([f.pair, f.filtered, f.bits, f.r1idx + ['+'] + f.r2idx], ':')
  }

  /** A field that holds neither a space nor a colon. */
  predicate Plain(s: string) {
    ' ' !in s && ':' !in s
  }

  /** Fields that can be written into a read name and read back: no field holds a separator. */
  predicate Writable(f: IlluminaHeader) {
    Plain(f.machine) && Plain(f.runid) && Plain(f.flowcell) && Plain(f.lane) &&
    Plain(f.tilenum) && Plain(f.xcoord) && Plain(f.ycoord) &&
    Plain(f.pair) && Plain(f.filtered) && Plain(f.bits) &&
    Plain(f.r1idx) && Plain(f.r2idx) && '+' !in f.r1idx && '+' !in f.r2idx
  }

  /** Splitting a `c`-join of `c`-free pieces that are free of `d` too, at `d`, gives one piece. */
  lemma {:induction false} JoinFree(parts: seq<string>, c: char, d: char)
    requires c != d
    requires forall i | 0 <= i < |parts| :: d !in parts[i]
    ensures d !in Join(parts, c)
  {
    if |parts| > 1 {
      JoinFree(parts[1..], c, d);
    }
  }

  /** `parseHeader` reads back every writable set of fields, whatever further space-separated
      comment follows the read name. */
  lemma ParseFormatHeader(f: IlluminaHeader, comment: seq<string>)
    requires Writable(f)
    ensures ParseHeader(FormatHeader(f)) == Success(f)
    ensures ParseHeader(Join([FormatHeader(f)] + comment, ' ')) == Success(f)
  {
    var first := [f.machine, f.runid, f.flowcell, f.lane, f.tilenum, f.xcoord, f.ycoord];
    var idx := f.r1idx + ['+'] + f.r2idx;
    var second := [f.pair, f.filtered, f.bits, idx];
    assert Plain(idx);
    assert forall i | 0 <= i < |first| :: Plain(first[i]);
    assert forall i | 0 <= i < |second| :: Plain(second[i]);
    SplitJoin(first, ':');
    SplitJoin(second, ':');
    SplitPrefix(f.r1idx, f.r2idx, '+');
    SplitPrefix(f.r2idx, [], '+');
    JoinFree(first, ':', ' ');
    JoinFree(second, ':', ' ');
    var a := Join(first, ':');
    var b := Join(second, ':');
    SplitPrefix(a, b, ' ');
    SplitPrefix(b, [], ' ');
    assert FormatHeader(f) == a + [' '] + b;
    assert Split(FormatHeader(f), ' ') == [a, b];
    if |comment| == 0 {
      assert [FormatHeader(f)] + comment == [FormatHeader(f)];
    } else {
      var rest := Join(comment, ' ');
      var all := [FormatHeader(f)] + comment;
      assert all[0] == FormatHeader(f) && all[1..] == comment;
      var tail := b + [' '] + rest;
      var line := a + [' '] + tail;
      assert Join(all, ' ') == FormatHeader(f) + [' '] + rest;
      SpaceJoinAssoc(a, b, rest);
      SplitPrefix(a, tail, ' ');
      SplitPrefix(b, rest, ' ');
      assert Split(line, ' ') == [a] + ([b] + Split(rest, ' '));
    }
  }

  lemma SpaceJoinAssoc(a: string, b: string, rest: string)
    ensures (a + [' '] + b) + [' '] + rest == a + [' '] + (b + [' '] + rest)
  {
  }

  /** A read name that parses and has no comment is exactly the name written from its fields. */
  lemma FormatParseHeader(header: string)
    requires ParseHeader(header).Success?
    requires |Split(header, ' ')| == 2
    ensures FormatHeader(ParseHeader(header).value) == header
  {
    var components := Split(header, ' ');
    var a := Split(components[0], ':');
    var b := Split(components[1], ':');
    var indices := Split(b[3], '+');
    JoinSplit(header, ' ');
    JoinSplit(components[0], ':');
    JoinSplit(components[1], ':');
    JoinSplit(b[3], '+');
    assert Join(indices, '+') == indices[0] + ['+'] + indices[1];
    var f := ParseHeader(header).value;
    assert [f.machine, f.runid, f.flowcell, f.lane, f.tilenum, f.xcoord, f.ycoord] == a;
    assert [f.pair, f.filtered, f.bits, f.r1idx + ['+'] + f.r2idx] == b[3 := Join(indices, '+')];
    assert b[3 := Join(indices, '+')] == b;
    assert Join(components, ' ') == components[0] + [' '] + components[1];
  }

  /** A FastqRecord as `FastqRecord.__init__` leaves it; `fields` are the attributes `parseHeader` sets. */
  datatype FastqRecord = FastqRecord(header: string, fields: IlluminaHeader, sequence: string,
                                     length: nat, gc: real, qual: string)

  /** `FastqRecord(header, sequence, qual)`: the header is parsed first, so a malformed header raises
      before an empty sequence raises ZeroDivisionError. */
  function NewRecord(header: string, sequence: string, qual: string): (r: Result<FastqRecord>)
    ensures r.Success? <==> ParseHeader(header).Success? && |sequence| > 0
    ensures ParseHeader(header).Failure? ==> r == Failure(ParseHeader(header).error)
    ensures ParseHeader(header).Success? && |sequence| == 0 ==> r == Failure(ZeroDivisionError)
    ensures r.Success? ==> r.value.header == header && r.value.fields == ParseHeader(header).value
    ensures r.Success? ==> r.value.sequence == sequence && r.value.qual == qual
    ensures r.Success? ==> r.value.length == |sequence| && r.value.gc == Fasta.GcContent(sequence)
  {
    match ParseHeader(header)
    case Failure(e) => Failure(e)
    case Success(f) =>
      if |sequence| == 0 then Failure(ZeroDivisionError)
      else Success(FastqRecord(header, f, sequence, |sequence|, Fasta.GcContent(sequence), qual))
  }

  /** `FastqRecord.record()`: the four lines of the record. */
  function Record(r: FastqRecord): string
  {
    r.header + "\n" + r.sequence + "\n+\n" + r.qual + "\n"
  }

  /** The records built from stored lines: one per complete block of four, from the block's first,
      second and fourth lines; an incomplete last block yields nothing. */
  function Blocks(c: seq<string>): Parsed<FastqRecord>
  {
    if |c| < 4 then Parsed([], None)
    else
      match NewRecord(c[0], c[1], c[3])
      case Failure(e) => Parsed([], Some(e))
      case Success(r) => Prepend(r, Blocks(c[4..]))
  }

  /** Everything `Fastq.parse` yields for the given lines, and the exception that ends it, if any. */
  function ParseLines(lines: seq<string>): Parsed<FastqRecord>
  {
    Blocks(ChompAll(lines))
  }

  /** `Fastq.parse`, with its line counter `ln` and its `seq` buffer. */
  method Parse(lines: seq<string>) returns (p: Parsed<FastqRecord>)
    ensures p == ParseLines(lines)
  {
    ghost var c := ChompAll(lines);
    ghost var whole := Blocks(c);
    ghost var start := 0;
    ghost var blocks := 0;
    var ln := 1;
    var buf: seq<string> := [];
    var out: seq<FastqRecord> := [];
    var i := 0;
    while i < |lines|
      invariant 0 <= start <= i <= |lines| && ln == i + 1
      invariant start + |buf| == i && |buf| < 4 && start == 4 * blocks
      invariant buf == c[start..i]
      invariant AppendTo(out, Blocks(c[start..])) == whole
      decreases |lines| - i
    {
      var line := lines[i];
      Extend(c, start, i, buf);
      assert c[i] == Chomp(line);
      LineCounter(blocks, |buf|);
      if ln % 4 == 0 {
        buf := buf + [Chomp(line)];
        var r := NewRecord(buf[0], buf[1], buf[3]);
        BlockStep(c, start, buf);
        if r.Failure? {
          return Parsed(out, Some(r.error));
        }
        AppendToPrepend(out, r.value, Blocks(c[i + 1..]));
        out := out + [r.value];
        buf := [];
        start := i + 1;
        blocks := blocks + 1;
      } else {
        buf := buf + [Chomp(line)];
      }
      ln := ln + 1;
      i := i + 1;
    }
    assert |c[start..]| < 4;
    assert out + [] == out;
    return Parsed(out, None);
  }

  lemma Extend(c: seq<string>, start: nat, i: nat, buf: seq<string>)
    requires start <= i < |c| && buf == c[start..i]
    ensures c[start..i + 1] == buf + [c[i]]
  {
  }

  /** Line `ln = 4 * blocks + m + 1` is the last of its block exactly when `m == 3`. */
  lemma LineCounter(blocks: nat, m: nat)
    requires m < 4
    ensures (4 * blocks + m + 1) % 4 == 0 <==> m == 3
  {
  }

  /** The block of four stored lines `c[b..b + 4]`, held in `buf`, yields its record and then the rest. */
  lemma BlockStep(c: seq<string>, b: nat, buf: seq<string>)
    requires b + 4 <= |c| && buf == c[b..b + 4]
    ensures Blocks(c[b..]) ==
              match NewRecord(buf[0], buf[1], buf[3])
              case Failure(e) => Parsed([], Some(e))
              case Success(r) => Prepend(r, Blocks(c[b + 4..]))
  {
    assert c[b..][0] == buf[0] && c[b..][1] == buf[1] && c[b..][3] == buf[3];
    assert c[b..][4..] == c[b + 4..];
  }

  /** A stream of blocks that ends without error has one record per complete block. */
  lemma {:induction false} BlocksCount(c: seq<string>)
    requires Blocks(c).failure == None
    ensures |Blocks(c).records| == |c| / 4
    decreases |c|
  {
    if |c| >= 4 {
      BlocksCount(c[4..]);
    }
  }

  /** A parse that ends without error yields one record per complete block of four lines. */
  lemma RecordCount(lines: seq<string>)
    requires ParseLines(lines).failure == None
    ensures |ParseLines(lines).records| == |lines| / 4
  {
    BlocksCount(ChompAll(lines));
  }

  lemma {:induction false} BlocksAt(c: seq<string>, k: nat)
    requires k < |Blocks(c).records|
    ensures 4 * k + 3 < |c|
    ensures NewRecord(c[4 * k], c[4 * k + 1], c[4 * k + 3]) == Success(Blocks(c).records[k])
    decreases |c|
  {
    if k > 0 {
      var more := c[4..];
      BlocksAt(more, k - 1);
      assert more[4 * (k - 1)] == c[4 * k];
      assert more[4 * (k - 1) + 1] == c[4 * k + 1];
      assert more[4 * (k - 1) + 3] == c[4 * k + 3];
    }
  }

  /** Record `k` is built from lines `4k`, `4k + 1` and `4k + 3`; the separator line `4k + 2` is never read. */
  lemma RecordAt(lines: seq<string>, k: nat)
    requires k < |ParseLines(lines).records|
    ensures 4 * k + 3 < |lines|
    ensures NewRecord(Chomp(lines[4 * k]), Chomp(lines[4 * k + 1]), Chomp(lines[4 * k + 3]))
              == Success(ParseLines(lines).records[k])
  {
    BlocksAt(ChompAll(lines), k);
  }

  lemma {:induction false} BlocksFailure(c: seq<string>)
    requires Blocks(c).failure.Some?
    ensures var n := |Blocks(c).records|;
            4 * n + 3 < |c| &&
            NewRecord(c[4 * n], c[4 * n + 1], c[4 * n + 3]) == Failure(Blocks(c).failure.value)
    decreases |c|
  {
    var r := NewRecord(c[0], c[1], c[3]);
    if r.Success? {
      var more := c[4..];
      BlocksFailure(more);
      var n := |Blocks(more).records|;
      assert more[4 * n] == c[4 * (n + 1)];
      assert more[4 * n + 1] == c[4 * (n + 1) + 1];
      assert more[4 * n + 3] == c[4 * (n + 1) + 3];
    }
  }

  /** An exception ends the stream at the first block whose record cannot be built. */
  lemma FailureAt(lines: seq<string>)
    requires ParseLines(lines).failure.Some?
    ensures var n := |ParseLines(lines).records|;
            4 * n + 3 < |lines| &&
            NewRecord(Chomp(lines[4 * n]), Chomp(lines[4 * n + 1]), Chomp(lines[4 * n + 3]))
              == Failure(ParseLines(lines).failure.value)
  {
    BlocksFailure(ChompAll(lines));
  }

  lemma {:induction false} BlocksTail(c: seq<string>, tail: seq<string>)
    requires |c| % 4 == 0 && |tail| < 4
    ensures Blocks(c + tail) == Blocks(c)
    decreases |c|
  {
    if |c| == 0 {
      assert c + tail == tail;
    } else {
      var all := c + tail;
      assert all[0] == c[0] && all[1] == c[1] && all[3] == c[3];
      assert all[4..] == c[4..] + tail;
      BlocksTail(c[4..], tail);
    }
  }

  /** Lines after the last complete block of four are ignored. */
  lemma TailIgnored(lines: seq<string>, tail: seq<string>)
    requires |lines| % 4 == 0 && |tail| < 4
    ensures ParseLines(lines + tail) == ParseLines(lines)
  {
    assert ChompAll(lines + tail) == ChompAll(lines) + ChompAll(tail);
    BlocksTail(ChompAll(lines), ChompAll(tail));
  }

  /** The text of a sequence of records, as written one `record()` after another. */
  function Write(rs: seq<FastqRecord>): string
  {
    if |rs| == 0 then [] else Record(rs[0]) + Write(rs[1..])
  }

  /** A record that the parser can give back: it was built by `FastqRecord(...)` and none of its parts
      holds a line break. */
  predicate Readable(r: FastqRecord) {
    NewRecord(r.header, r.sequence, r.qual) == Success(r) &&
    '\n' !in r.header && '\n' !in r.sequence && '\n' !in r.qual
  }

  /** The lines of a written record are its header, sequence, separator and quality lines. */
  lemma RecordLines(r: FastqRecord, rest: string)
    requires '\n' !in r.header && '\n' !in r.sequence && '\n' !in r.qual
    ensures SplitLines(Record(r) + rest) ==
              [r.header + "\n", r.sequence + "\n", "+\n", r.qual + "\n"] + SplitLines(rest)
  {
    var nl := ['\n'];
    var t3 := r.qual + nl + rest;
    var t2 := ['+'] + nl + t3;
    var t1 := r.sequence + nl + t2;
    assert Record(r) + rest == r.header + nl + t1;
    SplitLinesCons(r.qual, rest);
    assert SplitLines(t3) == [r.qual + nl] + SplitLines(rest);
    SplitLinesCons(['+'], t3);
    assert SplitLines(t2) == [['+'] + nl] + SplitLines(t3);
    SplitLinesCons(r.sequence, t2);
    SplitLinesCons(r.header, t1);
    assert "\n" == nl && "+\n" == ['+'] + nl;
  }

  /** Writing records and parsing the text yields the same records, without error. */
  lemma {:induction false} ParseWrite(rs: seq<FastqRecord>)
    requires forall k | 0 <= k < |rs| :: Readable(rs[k])
    ensures ParseLines(SplitLines(Write(rs))) == Parsed(rs, None)
  {
    if |rs| > 0 {
      var r := rs[0];
      assert Readable(r);
      RecordLines(r, Write(rs[1..]));
      var lines := SplitLines(Write(rs));
      var c := ChompAll(lines);
      ChompLine(r.header);
      ChompLine(r.sequence);
      ChompLine(r.qual);
      assert c[0] == r.header && c[1] == r.sequence && c[3] == r.qual;
      assert c[4..] == ChompAll(lines[4..]);
      assert lines[4..] == SplitLines(Write(rs[1..]));
      ParseWrite(rs[1..]);
      assert [r] + rs[1..] == rs;
    }
  }
}
