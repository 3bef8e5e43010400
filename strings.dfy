/** The Python string operations the parsers are built from, on `seq<char>`.

    Each function models one built-in as the core calls it: `str.rstrip`,
    `str.lstrip` and `str.strip` with a one-character argument, `str.split`
    with an explicit one-character separator, `''.join`, slicing `[:-1]` and
    `[1:]`, `re.search` with a pattern made of literal characters, the line
    splitting done by iterating over a text file, and `int()` on a decimal
    numeral.
 */
module Strings {
  import opened Results

  /** `n` copies of `c`. */
  function Repeat(c: char, n: nat): (s: string)
    ensures |s| == n
    ensures forall i | 0 <= i < n :: s[i] == c
  {
    seq(n, _ => c)
  }

  /** Python `s[:-1]`: everything but the last character; `""` stays `""`. */
  function DropLast(s: string): (r: string)
    ensures |s| > 0 ==> s == r + [s[|s| - 1]]
    ensures |s| == 0 ==> r == []
  {
    if |s| == 0 then s else s[..|s| - 1]
  }

  /** Python `s[1:]`: everything but the first character; `""` stays `""`. */
  function DropFirst(s: string): (r: string)
    ensures |s| > 0 ==> s == [s[0]] + r
    ensures |s| == 0 ==> r == []
  {
    if |s| == 0 then s else s[1..]
  }

  /** Python `s.startswith(c)` for a one-character prefix. */
  predicate StartsWith(s: string, c: char) {
    |s| > 0 && s[0] == c
  }

  lemma RepeatSnoc(c: char, n: nat)
    ensures Repeat(c, n) + [c] == Repeat(c, n + 1)
    ensures [c] + Repeat(c, n) == Repeat(c, n + 1)
  {
  }

  /** Python `s.rstrip(c)`: removes every trailing `c`. */
  function RStrip(s: string, c: char): (r: string)
    ensures |r| <= |s|
    ensures |r| == 0 || r[|r| - 1] != c
    decreases |s|
  {
    if |s| > 0 && s[|s| - 1] == c then RStrip(s[..|s| - 1], c) else s
  }

  /** What `rstrip` removes is a run of `c`. */
  lemma {:induction false} RStripShape(s: string, c: char)
    ensures s == RStrip(s, c) + Repeat(c, |s| - |RStrip(s, c)|)
    decreases |s|
  {
    if |s| > 0 && s[|s| - 1] == c {
      var r := RStrip(s[..|s| - 1], c);
      RStripShape(s[..|s| - 1], c);
      RepeatSnoc(c, |s| - 1 - |r|);
      assert s == s[..|s| - 1] + [c];
    }
  }

  /** `line.rstrip("\n")`. */
  function Chomp(line: string): string
  {
    RStrip(line, '\n')
  }

  /** The lines as the parser stores them, each without its trailing line breaks. */
  function ChompAll(lines: seq<string>): (c: seq<string>)
    ensures |c| == |lines|
    ensures forall i | 0 <= i < |lines| :: c[i] == Chomp(lines[i])
  {
    seq(|lines|, i requires 0 <= i < |lines| => Chomp(lines[i]))
  }

  /** `rstrip("\n")` removes exactly the line break of a line that has one. */
  lemma ChompLine(a: string)
    requires '\n' !in a
    ensures Chomp(a + ['\n']) == a
  {
    var s := a + ['\n'];
    assert s[..|s| - 1] == a;
    assert |a| > 0 ==> a[|a| - 1] in a;
    assert RStrip(a, '\n') == a;
  }

  /** Python `s.lstrip(c)`: removes every leading `c`. */
  function LStrip(s: string, c: char): (r: string)
    ensures |r| <= |s|
    ensures |r| == 0 || r[0] != c
    decreases |s|
  {
    if |s| > 0 && s[0] == c then LStrip(s[1..], c) else s
  }

  /** What `lstrip` removes is a run of `c`. */
  lemma {:induction false} LStripShape(s: string, c: char)
    ensures s == Repeat(c, |s| - |LStrip(s, c)|) + LStrip(s, c)
    decreases |s|
  {
    if |s| > 0 && s[0] == c {
      var r := LStrip(s[1..], c);
      LStripShape(s[1..], c);
      RepeatSnoc(c, |s| - 1 - |r|);
      assert s == [c] + s[1..];
    }
  }

  /** Python `s.strip(c)`: removes every leading and every trailing `c`. */
  function Strip(s: string, c: char): (r: string)
    ensures |r| <= |s|
    ensures |r| == 0 || (r[0] != c && r[|r| - 1] != c)
  {
    var t := RStrip(s, c);
    var r := LStrip(t, c);
    LStripShape(t, c);
    assert |r| > 0 ==> r[|r| - 1] == t[|t| - 1];
    r
  }

  /** Python `s.split(c)`: the pieces between occurrences of `c`, empty ones included. */
  function Split(s: string, c: char): (parts: seq<string>)
    ensures |parts| >= 1
    decreases |s|
  {
    if |s| == 0 then [[]]
    else
      var rest := Split(s[1..], c);
      if s[0] == c then [[]] + rest
      else [[s[0]] + rest[0]] + rest[1..]
  }

  /** Python `c.join(parts)`. */
  function Join(parts: seq<string>, c: char): string
  {
    if |parts| == 0 then []
    else if |parts| == 1 then parts[0]
    else parts[0] + [c] + Join(parts[1..], c)
  }

  /** Python `''.join(parts)`. */
  function Concat(parts: seq<string>): string
  {
    if |parts| == 0 then [] else parts[0] + Concat(parts[1..])
  }

  /** Joining the pieces of a split restores the string. */
  lemma {:induction false} JoinSplit(s: string, c: char)
    ensures Join(Split(s, c), c) == s
    decreases |s|
  {
    if |s| > 0 {
      var rest := Split(s[1..], c);
      JoinSplit(s[1..], c);
      if s[0] == c {
        assert Split(s, c)[1..] == rest;
      } else {
        var parts := Split(s, c);
        if |rest| > 1 {
          assert parts[1..] == rest[1..];
        }
      }
    }
  }

  /** A string with no `c` splits into itself, and `a + c + t` splits into `a` and the pieces of `t`. */
  lemma {:induction false} SplitPrefix(a: string, t: string, c: char)
    requires c !in a
    ensures Split(a, c) == [a]
    ensures Split(a + [c] + t, c) == [a] + Split(t, c)
    decreases |a|
  {
    if |a| > 0 {
      SplitPrefix(a[1..], t, c);
      assert (a + [c] + t)[1..] == a[1..] + [c] + t;
      assert [a[0]] + a[1..] == a;
    } else {
      assert a + [c] + t == [c] + t;
      assert ([c] + t)[1..] == t;
    }
  }

  /** Splitting a join of pieces free of `c` gives the pieces back. */
  lemma {:induction false} SplitJoin(parts: seq<string>, c: char)
    requires |parts| >= 1
    requires forall i | 0 <= i < |parts| :: c !in parts[i]
    ensures Split(Join(parts, c), c) == parts
  {
    if |parts| == 1 {
      SplitPrefix(parts[0], [], c);
    } else {
      SplitJoin(parts[1..], c);
      SplitPrefix(parts[0], Join(parts[1..], c), c);
      assert [parts[0]] + parts[1..] == parts;
    }
  }

  /** `re.search(p, s)` for a pattern `p` of literal characters: `p` occurs in `s`. */
  predicate Contains(s: string, p: string)
    decreases |s|
  {
    |p| <= |s| && (s[..|p|] == p || (|s| > 0 && Contains(s[1..], p)))
  }

  /** An occurrence at position `i` is found by the search. */
  lemma {:induction false} ContainsAt(s: string, p: string, i: nat)
    requires i + |p| <= |s| && s[i..i + |p|] == p
    ensures Contains(s, p)
    decreases i
  {
    if i > 0 {
      assert s[1..][i - 1..i - 1 + |p|] == s[i..i + |p|];
      ContainsAt(s[1..], p, i - 1);
    }
  }

  /** The search succeeds only at a real occurrence. */
  lemma {:induction false} ContainsWitness(s: string, p: string) returns (i: nat)
    requires Contains(s, p)
    ensures i + |p| <= |s| && s[i..i + |p|] == p
    decreases |s|
  {
    if s[..|p|] == p {
      i := 0;
    } else {
      var j := ContainsWitness(s[1..], p);
      assert s[1..][j..j + |p|] == s[j + 1..j + 1 + |p|];
      i := j + 1;
    }
  }

  /** The lines of a text, as iterating over a text file yields them: each keeps its `\n`,
      and a final line without `\n` is yielded as it is. */
  function SplitLines(s: string): (lines: seq<string>)
    ensures forall i | 0 <= i < |lines| :: |lines[i]| > 0
    decreases |s|
  {
    if |s| == 0 then []
    else
      var rest := SplitLines(s[1..]);
      if s[0] == '\n' || |rest| == 0 then [[s[0]]] + rest
      else [[s[0]] + rest[0]] + rest[1..]
  }

  /** The lines concatenate back to the text. */
  lemma {:induction false} ConcatSplitLines(s: string)
    ensures Concat(SplitLines(s)) == s
    decreases |s|
  {
    if |s| > 0 {
      var rest := SplitLines(s[1..]);
      ConcatSplitLines(s[1..]);
      if s[0] == '\n' || |rest| == 0 {
        assert SplitLines(s)[1..] == rest;
      } else {
        var lines := SplitLines(s);
        assert lines[1..] == rest[1..];
        assert Concat(rest) == rest[0] + Concat(rest[1..]);
      }
    }
  }

  /** A line `a` free of `\n`, then its `\n`, is yielded whole before the lines of what follows. */
  lemma {:induction false} SplitLinesCons(a: string, t: string)
    requires '\n' !in a
    ensures SplitLines(a + ['\n'] + t) == [a + ['\n']] + SplitLines(t)
    decreases |a|
  {
    if |a| > 0 {
      SplitLinesCons(a[1..], t);
      assert (a + ['\n'] + t)[1..] == a[1..] + ['\n'] + t;
      assert [a[0]] + (a[1..] + ['\n']) == a + ['\n'];
    } else {
      assert a + ['\n'] + t == ['\n'] + t;
      assert (['\n'] + t)[1..] == t;
    }
  }

  predicate IsDigit(ch: char) {
    '0' <= ch <= '9'
  }

  predicate AllDigits(s: string) {
    |s| > 0 && forall i | 0 <= i < |s| :: IsDigit(s[i])
  }

  function DigitValue(ch: char): nat
    requires IsDigit(ch)
  {
    ch as int - '0' as int
  }

  /** The value of a decimal numeral, most significant digit first. */
  function DigitsValue(s: string): nat
    requires forall i | 0 <= i < |s| :: IsDigit(s[i])
  {
    if |s| == 0 then 0
    else DigitsValue(s[..|s| - 1]) * 10 + DigitValue(s[|s| - 1])
  }

  /** Python `int(s)` on an optionally signed ASCII decimal numeral; anything else raises `ValueError`. */
  function ParseInt(s: string): Option<int>
  {
    if |s| > 0 && (s[0] == '-' || s[0] == '+') then
      if AllDigits(s[1..]) then
        var v: int := DigitsValue(s[1..]);
        Some(if s[0] == '-' then -v else v)
      else None
    else if AllDigits(s) then Some(DigitsValue(s))
    else None
  }

  /** The decimal numeral of `n`, as Python `str(n)` writes it. */
  function ShowNat(n: nat): (s: string)
    ensures AllDigits(s)
  {
    var d := ['0' + (n % 10) as char];
    if n < 10 then d else ShowNat(n / 10) + d
  }

  function ShowInt(i: int): string
  {
    if i < 0 then "-" + ShowNat(-i) else ShowNat(i)
  }

  lemma {:induction false} DigitsValueShowNat(n: nat)
    ensures DigitsValue(ShowNat(n)) == n
  {
    var s := ShowNat(n);
    if n >= 10 {
      DigitsValueShowNat(n / 10);
      assert s[..|s| - 1] == ShowNat(n / 10);
    }
  }

  /** `int()` reads back every integer that `str()` writes. */
  lemma ParseIntShowInt(i: int)
    ensures ParseInt(ShowInt(i)) == Some(i)
  {
    if i < 0 {
      DigitsValueShowNat(-i);
      assert ShowInt(i)[1..] == ShowNat(-i);
    } else {
      DigitsValueShowNat(i);
    }
  }
}
