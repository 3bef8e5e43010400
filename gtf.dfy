/** GTF entries and the GTF line iterator of Classes/GTF.py.

    A GTF line holds nine tab-separated columns.  `Entry.__init__` reads the
    positional columns, takes `gene_id` from the first `;`-separated token of
    column 9, looks for a transcript identifier among the other tokens, and
    stores every other token as a key/value pair in an ordered dictionary.
 */
module Gtf {
  import opened Results
  import opened Strings
  import opened OrderedDict

  /** An `Entry` as `Entry.__init__` leaves it. */
  datatype Entry = Entry(
    contig: string, source: string, featureType: string,
    start: int, end: int, strand: string,
    geneId: string, transcriptId: string, length: int,
    attributes: seq<(string, string)>)

  /** The pattern `Entry.__init__` searches the attribute tokens for, spelled as the source spells it. */
  const TranscriptPattern: string := "transcrip_id"

  /** The pair `x, y` after reading token `q`: its two parts, or parts 1 and 2 of a longer split;
      a token with fewer than two parts leaves `last`, the pair from before, in place. */
  function TokenPair(q: string, last: Option<(string, string)>): (p: Option<(string, string)>)
    ensures |Split(q, ' ') | < 2 ==> p == last
  {
    var parts := Split(q, ' ');
    if |parts| == 2 then Some((parts[0], parts[1]))
    else if |parts| > 2 then Some((parts[1], parts[2]))
    else last
  }

  /** The attribute loop, from the dictionary `d` and the pair `last` that `x, y` hold (`None` while
      they are unbound), over the remaining `tokens`. */
  function AttributesFrom(d: seq<(string, string)>, last: Option<(string, string)>, tokens: seq<string>)
    : Result<seq<(string, string)>>
    decreases |tokens|
  {
    if |tokens| == 0 then Success(d)
    else
      match TokenPair(tokens[0], last)
      case None => Failure(UnboundLocalError)
      case Some(p) => AttributesFrom(Insert(d, p.0, p.1), Some(p), tokens[1..])
  }

  /** The attribute dictionary built from the tokens that follow the `gene_id` token. */
  function Attributes(tokens: seq<string>): Result<seq<(string, string)>>
  {
    AttributesFrom([], None, tokens)
  }

  /** The attribute loop of `Entry.__init__`, with its loop-carried `x, y` and the dictionary. */
  method BuildAttributes(tokens: seq<string>) returns (r: Result<seq<(string, string)>>)
    ensures r == Attributes(tokens)
  {
    ghost var whole := Attributes(tokens);
    var d: seq<(string, string)> := [];
    var bound := false;
    var x: string, y: string := [], [];
    for i := 0 to |tokens|
      invariant AttributesFrom(d, if bound then Some((x, y)) else None, tokens[i..]) == whole
    {
      assert tokens[i..][0] == tokens[i] && tokens[i..][1..] == tokens[i + 1..];
      var parts := Split(tokens[i], ' ');
      if |parts| == 2 {
        x, y := parts[0], parts[1];
        bound := true;
      } else if |parts| > 2 {
        x, y := parts[1], parts[2];
        bound := true;
      }
      if !bound {
        return Failure(UnboundLocalError);
      }
      d := Insert(d, x, y);
    }
    assert tokens[|tokens|..] == [];
    return Success(d);
  }

  /** The pairs the loop assigns, one per token, or `None` when a token comes before any pair. */
  function Assignments(last: Option<(string, string)>, tokens: seq<string>): Option<seq<(string, string)>>
    decreases |tokens|
  {
    if |tokens| == 0 then Some([])
    else
      match TokenPair(tokens[0], last)
      case None => None
      case Some(p) =>
        match Assignments(Some(p), tokens[1..])
        case None => None
        case Some(ps) => Some([p] + ps)
  }

  /** The loop performs the assignments one after another, or raises `UnboundLocalError`. */
  lemma {:induction false} AttributesAssign(d: seq<(string, string)>, last: Option<(string, string)>, tokens: seq<string>)
    ensures AttributesFrom(d, last, tokens) ==
              match Assignments(last, tokens)
              case None => Failure(UnboundLocalError)
              case Some(ps) => Success(InsertAll(d, ps))
    decreases |tokens|
  {
    if |tokens| > 0 {
      match TokenPair(tokens[0], last)
      case None =>
      case Some(p) =>
        AttributesAssign(Insert(d, p.0, p.1), Some(p), tokens[1..]);
        match Assignments(Some(p), tokens[1..])
        case None =>
        case Some(ps) =>
          assert ([p] + ps)[0] == p && ([p] + ps)[1..] == ps;
    }
  }

  /** Once `x, y` are bound they stay bound: the loop cannot fail after the first pair. */
  lemma {:induction false} BoundNeverFails(d: seq<(string, string)>, p: (string, string), tokens: seq<string>)
    ensures AttributesFrom(d, Some(p), tokens).Success?
    decreases |tokens|
  {
    if |tokens| > 0 {
      var q := TokenPair(tokens[0], Some(p));
      BoundNeverFails(Insert(d, q.value.0, q.value.1), q.value, tokens[1..]);
    }
  }

  /** The loop raises `UnboundLocalError` exactly when the first token has fewer than two parts. */
  lemma AttributesFail(tokens: seq<string>)
    ensures Attributes(tokens).Failure? <==> |tokens| > 0 && |Split(tokens[0], ' ')| < 2
    ensures Attributes(tokens).Failure? ==> Attributes(tokens).error == UnboundLocalError
  {
    if |tokens| > 0 && |Split(tokens[0], ' ')| >= 2 {
      var p := TokenPair(tokens[0], None);
      BoundNeverFails(Insert([], p.value.0, p.value.1), p.value, tokens[1..]);
    }
  }

  /** A token with fewer than two parts, read while `x, y` hold a pair already in the dictionary,
      re-inserts that pair and leaves the dictionary as it was. */
  lemma StaleToken(d: seq<(string, string)>, x: string, y: string, q: string, rest: seq<string>)
    requires |Split(q, ' ')| < 2
    requires Get(d, x) == Some(y)
    ensures AttributesFrom(d, Some((x, y)), [q] + rest) == AttributesFrom(d, Some((x, y)), rest)
  {
    InsertPresent(d, x, y);
    assert ([q] + rest)[0] == q && ([q] + rest)[1..] == rest;
  }

  /** The tokens with at least two space-separated parts, in order. */
  function WithPairs(tokens: seq<string>): (r: seq<string>)
    ensures forall i | 0 <= i < |r| :: |Split(r[i], ' ')| >= 2
    ensures |r| <= |tokens|
  {
    if |tokens| == 0 then []
    else if |Split(tokens[0], ' ')| >= 2 then [tokens[0]] + WithPairs(tokens[1..])
    else WithPairs(tokens[1..])
  }

  /** Once a pair has been stored, every later token with fewer than two parts is a no-op: the loop
      builds the same dictionary from the tokens that carry a pair. */
  lemma {:induction false} StaleTokensIgnored(d: seq<(string, string)>, p: (string, string), tokens: seq<string>)
    requires Get(d, p.0) == Some(p.1)
    ensures AttributesFrom(d, Some(p), tokens) == AttributesFrom(d, Some(p), WithPairs(tokens))
    decreases |tokens|
  {
    if |tokens| > 0 {
      var rest := tokens[1..];
      if |Split(tokens[0], ' ')| < 2 {
        StaleToken(d, p.0, p.1, tokens[0], rest);
        assert [tokens[0]] + rest == tokens;
        StaleTokensIgnored(d, p, rest);
      } else {
        var q := TokenPair(tokens[0], Some(p)).value;
        InsertGet(d, q.0, q.1, q.0);
        StaleTokensIgnored(Insert(d, q.0, q.1), q, rest);
        var w := WithPairs(tokens);
        assert w[0] == tokens[0] && w[1..] == WithPairs(rest);
      }
    }
  }

  /** The dictionary the loop builds: keys in order of first appearance, each holding the value of its
      last assignment, and no key twice. */
  lemma AttributeOrder(tokens: seq<string>, k: string)
    requires Attributes(tokens).Success?
    ensures Assignments(None, tokens).Some?
    ensures var ps := Assignments(None, tokens).value;
            var d := Attributes(tokens).value;
            Keys(d) == FirstAppearances([], Keys(ps)) &&
            Get(d, k) == LastValue(ps, k) &&
            Distinct(Keys(d))
  {
    AttributesAssign([], None, tokens);
    var ps := Assignments(None, tokens).value;
    InsertAllKeys([], ps);
    InsertAllGet([], ps, k);
    InsertAllDistinct([], ps);
  }

  /** A ninth column holding only the `gene_id` token and its `;`, as in `gene_id "X";`, leaves the
      empty token after the `;` as the first one the loop reads, and the entry fails. */
  lemma GeneOnlyColumn(f: seq<string>, a: string)
    requires |f| >= 9 && ParseInt(f[3]).Some? && ParseInt(f[4]).Some?
    requires ';' !in a && |Split(a, ' ')| >= 2
    requires f[8] == a + [';']
    ensures NewEntry(f) == Failure(UnboundLocalError)
  {
    SplitPrefix(a, [], ';');
    assert a + [';'] + [] == f[8];
    var tokens := Split(f[8], ';');
    assert tokens == [a, []];
    assert tokens[1..] == [[]];
    AttributesFail(tokens[1..]);
  }

  /** The tokens `re.search("transcrip_id", tx)` accepts, in order. */
  function Matching(tokens: seq<string>): (m: seq<string>)
    ensures forall i | 0 <= i < |m| :: Contains(m[i], TranscriptPattern)
    ensures |m| <= |tokens|
  {
    if |tokens| == 0 then []
    else if Contains(tokens[0], TranscriptPattern) then [tokens[0]] + Matching(tokens[1..])
    else Matching(tokens[1..])
  }

  /** The comprehension keeps exactly the tokens that hold the pattern: each kept token is one of
      `tokens`, and every token holding the pattern is kept. */
  lemma {:induction false} MatchingComplete(tokens: seq<string>)
    ensures forall i | 0 <= i < |Matching(tokens)| :: Matching(tokens)[i] in tokens
    ensures forall i | 0 <= i < |tokens| :: Contains(tokens[i], TranscriptPattern) ==> tokens[i] in Matching(tokens)
  {
    if |tokens| > 0 {
      var rest := tokens[1..];
      MatchingComplete(rest);
      assert forall i | 0 <= i < |rest| :: rest[i] == tokens[i + 1];
    }
  }

  /** The list comprehension keeps file order: its first element is the first token holding the pattern. */
  lemma {:induction false} MatchingFirst(tokens: seq<string>, j: nat)
    requires j < |tokens| && Contains(tokens[j], TranscriptPattern)
    requires forall i | 0 <= i < j :: !Contains(tokens[i], TranscriptPattern)
    ensures |Matching(tokens)| > 0 && Matching(tokens)[0] == tokens[j]
  {
    if j > 0 {
      var rest := tokens[1..];
      assert forall i | 0 <= i < j - 1 :: rest[i] == tokens[i + 1];
      MatchingFirst(rest, j - 1);
    }
  }

  /** The first matching token with its outer `"` characters stripped, or `gene_id` when the list is empty (the
      `IndexError` the `try` catches). */
  function TranscriptId(tokens: seq<string>, geneId: string): string
  {
    var m := Matching(tokens);
    if |m| == 0 then geneId else Strip(m[0], '"')
  }

  /** `Entry(entry)` on the tab-separated fields of a line.  Each column is read in the order of the
      statements, so a missing column raises `IndexError`, and a start or end that is not a numeral
      raises `ValueError`, at the first column it concerns. */
  function NewEntry(f: seq<string>): (r: Result<Entry>)
    ensures r.Success? ==> r.value.length == r.value.end - r.value.start
  {
    if |f| < 4 then Failure(IndexError)
    else if ParseInt(f[3]).None? then Failure(ValueError)
    else if |f| < 5 then Failure(IndexError)
    else if ParseInt(f[4]).None? then Failure(ValueError)
    else if |f| < 9 then Failure(IndexError)
    else
      var tokens := Split(f[8], ';');
      var first := Split(tokens[0], ' ');
      if |first| < 2 then Failure(IndexError)
      else
        var geneId := Strip(first[1], '"');
        var rest := tokens[1..];
        var start := ParseInt(f[3]).value;
        var end := ParseInt(f[4]).value;
        match Attributes(rest)
        case Failure(e) => Failure(e)
        case Success(d) =>
          Success(Entry(f[0], f[1], f[2], start, end, f[6], geneId, TranscriptId(rest, geneId), end - start, d))
  }

  /** `Entry.__init__`, with the attribute loop run as the source runs it. */
  method MakeEntry(f: seq<string>) returns (r: Result<Entry>)
    ensures r == NewEntry(f)
  {
    if |f| < 4 {
      return Failure(IndexError);
    }
    var start := ParseInt(f[3]);
    if start.None? {
      return Failure(ValueError);
    }
    if |f| < 5 {
      return Failure(IndexError);
    }
    var end := ParseInt(f[4]);
    if end.None? {
      return Failure(ValueError);
    }
    if |f| < 9 {
      return Failure(IndexError);
    }
    var tokens := Split(f[8], ';');
    var first := Split(tokens[0], ' ');
    if |first| < 2 {
      return Failure(IndexError);
    }
    var geneId := Strip(first[1], '"');
    var rest := tokens[1..];
    var transcriptId := TranscriptId(rest, geneId);
    var attributes := BuildAttributes(rest);
    if attributes.Failure? {
      return Failure(attributes.error);
    }
    return Success(Entry(f[0], f[1], f[2], start.value, end.value, f[6], geneId, transcriptId,
                         end.value - start.value, attributes.value));
  }

  /** The positional columns: contig, source, feature type, start, end and strand come from columns
      0, 1, 2, 3, 4 and 6, and `gene_id` and the attributes from column 8. */
  lemma EntryColumns(f: seq<string>)
    requires NewEntry(f).Success?
    ensures var e := NewEntry(f).value;
            var tokens := Split(f[8], ';');
            |f| >= 9 && |Split(tokens[0], ' ')| >= 2 &&
            e.contig == f[0] && e.source == f[1] && e.featureType == f[2] &&
            ParseInt(f[3]) == Some(e.start) && ParseInt(f[4]) == Some(e.end) && e.strand == f[6] &&
            e.geneId == Strip(Split(tokens[0], ' ')[1], '"') &&
            e.transcriptId == TranscriptId(tokens[1..], e.geneId) &&
            Attributes(tokens[1..]) == Success(e.attributes)
  {
  }

  /** A line with fewer than nine columns yields no entry. */
  lemma ShortLine(f: seq<string>)
    requires |f| < 9
    ensures NewEntry(f).Failure?
    ensures NewEntry(f).error == IndexError || NewEntry(f).error == ValueError
  {
  }

  /** Columns 5 and 7 are never read. */
  lemma UnusedColumns(f: seq<string>, score: string, frame: string)
    requires |f| >= 9
    ensures NewEntry(f[5 := score][7 := frame]) == NewEntry(f)
  {
    var g := f[5 := score][7 := frame];
    assert g[0] == f[0] && g[1] == f[1] && g[2] == f[2] && g[3] == f[3];
    assert g[4] == f[4] && g[6] == f[6] && g[8] == f[8];
  }

  /** Without a token holding the pattern, the transcript identifier is the gene identifier. */
  lemma TranscriptFallback(f: seq<string>)
    requires NewEntry(f).Success?
    requires forall i | 1 <= i < |Split(f[8], ';')| :: !Contains(Split(f[8], ';')[i], TranscriptPattern)
    ensures NewEntry(f).value.transcriptId == NewEntry(f).value.geneId
  {
    var tokens := Split(f[8], ';');
    var rest := tokens[1..];
    assert forall i | 0 <= i < |rest| :: rest[i] == tokens[i + 1];
    NoMatching(rest);
  }

  /** With a token holding the pattern, the transcript identifier is the FIRST such token, its outer
      `"` stripped. */
  lemma TranscriptFirst(f: seq<string>, j: nat)
    requires NewEntry(f).Success?
    requires 1 <= j < |Split(f[8], ';')| && Contains(Split(f[8], ';')[j], TranscriptPattern)
    requires forall i | 1 <= i < j :: !Contains(Split(f[8], ';')[i], TranscriptPattern)
    ensures NewEntry(f).value.transcriptId == Strip(Split(f[8], ';')[j], '"')
  {
    EntryColumns(f);
    var tokens := Split(f[8], ';');
    var rest := tokens[1..];
    assert forall i | 0 <= i < j - 1 :: rest[i] == tokens[i + 1];
    assert rest[j - 1] == tokens[j];
    MatchingFirst(rest, j - 1);
  }

  lemma {:induction false} NoMatching(tokens: seq<string>)
    requires forall i | 0 <= i < |tokens| :: !Contains(tokens[i], TranscriptPattern)
    ensures Matching(tokens) == []
  {
    if |tokens| > 0 {
      assert forall i | 0 <= i < |tokens[1..]| :: tokens[1..][i] == tokens[i + 1];
      NoMatching(tokens[1..]);
    }
  }

  /** The source's pattern is not found in a key spelled `transcript_id`: such a token never
      provides the transcript identifier. */
  lemma TranscriptKeyMissed(q: string)
    requires q == " transcript_id \"T1\""
    ensures !Contains(q, TranscriptPattern)
  {
    NoMatchAt(q, 0);
  }

  /** No occurrence of the pattern starts at or after `i`: each window either does not start with
      `t` or has `t`, not `_`, after `transcrip`. */
  lemma {:induction false} NoMatchAt(q: string, i: nat)
    requires q == " transcript_id \"T1\""
    requires i <= |q|
    ensures !Contains(q[i..], TranscriptPattern)
    decreases |q| - i
  {
    if i + |TranscriptPattern| <= |q| {
      assert q[i] != 't' || q[i + 9] != '_';
      assert q[i..][..|TranscriptPattern|] != TranscriptPattern by {
        assert q[i..][0] == q[i] && q[i..][9] == q[i + 9];
      }
      assert q[i..][1..] == q[i + 1..];
      NoMatchAt(q, i + 1);
    }
  }

  /** The records `GTF.__iter__` yields from the stored lines `c` (each already `rstrip("\n")`ed):
      `#` lines are skipped, an empty line raises `IndexError` at `line[0]`, and every other line
      yields one entry. */
  function Stream(c: seq<string>): Parsed<Entry>
    decreases |c|
  {
    if |c| == 0 then Parsed([], None)
    else if |c[0]| == 0 then Parsed([], Some(IndexError))
    else if c[0][0] == '#' then Stream(c[1..])
    else
      match NewEntry(Split(c[0], '\t'))
      case Failure(e) => Parsed([], Some(e))
      case Success(x) => Prepend(x, Stream(c[1..]))
  }

  /** Everything iterating over a GTF file yields, and the exception that ends it, if any. */
  function ParseLines(lines: seq<string>): Parsed<Entry>
  {
    Stream(ChompAll(lines))
  }

  /** One turn of the `for` loop over the stored lines. */
  lemma StreamStep(c: seq<string>, i: nat)
    requires i < |c|
    ensures |c[i]| > 0 && c[i][0] == '#' ==> Stream(c[i..]) == Stream(c[i + 1..])
    ensures |c[i]| > 0 && c[i][0] != '#' ==>
              Stream(c[i..]) ==
              match NewEntry(Split(c[i], '\t'))
              case Failure(e) => Parsed([], Some(e))
              case Success(x) => Prepend(x, Stream(c[i + 1..]))
    ensures |c[i]| == 0 ==> Stream(c[i..]) == Parsed([], Some(IndexError))
  {
    assert c[i..][0] == c[i] && c[i..][1..] == c[i + 1..];
  }

  /** `GTF.__iter__` over the lines of the file. */
  method Iterate(lines: seq<string>) returns (p: Parsed<Entry>)
    ensures p == ParseLines(lines)
  {
    ghost var c := ChompAll(lines);
    ghost var whole := Stream(c);
    var out: seq<Entry> := [];
    for i := 0 to |lines|
      invariant AppendTo(out, Stream(c[i..])) == whole
    {
      var line := Chomp(lines[i]);
      StreamStep(c, i);
      if |line| == 0 {
        return Parsed(out, Some(IndexError));
      }
      if line[0] != '#' {
        var entry := MakeEntry(Split(line, '\t'));
        if entry.Failure? {
          return Parsed(out, Some(entry.error));
        }
        AppendToPrepend(out, entry.value, Stream(c[i + 1..]));
        out := out + [entry.value];
      }
    }
    assert c[|lines|..] == [];
    assert out + [] == out;
    return Parsed(out, None);
  }

  /** The lines that are not comments. */
  function DataLines(c: seq<string>): (d: seq<string>)
    ensures |d| <= |c|
  {
    if |c| == 0 then []
    else if StartsWith(c[0], '#') then DataLines(c[1..])
    else [c[0]] + DataLines(c[1..])
  }

  /** A stream that ends without error had no empty line, and yields one entry per data line, in order,
      each the entry of that line's columns. */
  lemma {:induction false} StreamEntries(c: seq<string>)
    requires Stream(c).failure == None
    ensures forall k | 0 <= k < |c| :: |c[k]| > 0
    ensures |Stream(c).records| == |DataLines(c)|
    ensures forall k | 0 <= k < |DataLines(c)| :: NewEntry(Split(DataLines(c)[k], '\t')) == Success(Stream(c).records[k])
    decreases |c|
  {
    if |c| > 0 {
      var rest := c[1..];
      StreamHead(c);
      StreamEntries(rest);
      assert forall k | 1 <= k < |c| :: c[k] == rest[k - 1];
    }
  }

  /** The first line of a stream that ends without error: not empty, and either a comment that
      yields nothing or a data line whose entry comes first. */
  lemma StreamHead(c: seq<string>)
    requires |c| > 0 && Stream(c).failure == None
    ensures |c[0]| > 0 && Stream(c[1..]).failure == None
    ensures c[0][0] == '#' ==> Stream(c) == Stream(c[1..]) && DataLines(c) == DataLines(c[1..])
    ensures c[0][0] != '#' ==>
              NewEntry(Split(c[0], '\t')).Success? &&
              Stream(c) == Prepend(NewEntry(Split(c[0], '\t')).value, Stream(c[1..])) &&
              DataLines(c) == [c[0]] + DataLines(c[1..])
  {
  }

  /** A file of comment lines only yields nothing and raises nothing. */
  lemma {:induction false} OnlyComments(c: seq<string>)
    requires forall k | 0 <= k < |c| :: StartsWith(c[k], '#')
    ensures Stream(c) == Parsed([], None)
    decreases |c|
  {
    if |c| > 0 {
      OnlyComments(c[1..]);
    }
  }
}
