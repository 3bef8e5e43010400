/** The k-mer helpers of Classes/Kmer.py: every k-mer over the nucleotide alphabet, in the order
    `itertools.product` yields them, and the set of k-mers that occur in a sequence. */
module Kmer {

  /** `alphabet = ['A', 'T', 'C', 'G']`, in this order. */
  const Alphabet: string := "ATCG"

  /** The position of a letter in the alphabet. */
  function Rank(c: char): nat
  {
    if c == 'A' then 0 else if c == 'T' then 1 else if c == 'C' then 2 else 3
  }

  lemma RankAlphabet(k: nat)
    requires k < |Alphabet|
    ensures Rank(Alphabet[k]) == k
  {
  }

  /** One of the four letters. */
  predicate IsBase(c: char) {
    c == 'A' || c == 'T' || c == 'C' || c == 'G'
  }

  predicate OverAlphabet(w: string) {
    forall i | 0 <= i < |w| :: IsBase(w[i])
  }

  function Pow4(n: nat): nat
  {
    if n == 0 then 1 else 4 * Pow4(n - 1)
  }

  /** `c` put in front of each of `ws`. */
  function Prefixed(c: char, ws: seq<string>): (r: seq<string>)
    ensures |r| == |ws|
    ensures forall i | 0 <= i < |ws| :: r[i] == [c] + ws[i]
  {
    seq(|ws|, i requires 0 <= i < |ws| => [c] + ws[i])
  }

  /** The letters from position `k` on, each put in front of every one of `ws`, letter by letter:
      the outer loop of `itertools.product`. */
  function ProductFrom(k: nat, ws: seq<string>): seq<string>
    requires k <= |Alphabet|
    decreases |Alphabet| - k
  {
    if k == |Alphabet| then [] else Prefixed(Alphabet[k], ws) + ProductFrom(k + 1, ws)
  }

  /** `kmerGen(n)`: `''.join(each)` for each tuple of `itertools.product(alphabet, repeat=n)`;
      the first letter varies slowest. */
  function KmerGen(n: nat): seq<string>
  {
    if n == 0 then [[]] else ProductFrom(0, KmerGen(n - 1))
  }

  lemma {:induction false} ProductFromCount(k: nat, ws: seq<string>)
    requires k <= |Alphabet|
    ensures |ProductFrom(k, ws)| == (|Alphabet| - k) * |ws|
    decreases |Alphabet| - k
  {
    if k < |Alphabet| {
      ProductFromCount(k + 1, ws);
      assert (|Alphabet| - k) * |ws| == |ws| + (|Alphabet| - (k + 1)) * |ws|;
    }
  }

  /** `kmerGen(n)` yields exactly 4^n strings. */
  lemma {:induction false} KmerCount(n: nat)
    ensures |KmerGen(n)| == Pow4(n)
  {
    if n > 0 {
      KmerCount(n - 1);
      ProductFromCount(0, KmerGen(n - 1));
    }
  }

  /** What the product from letter `k` holds: a letter at position `k` or later, followed by one of `ws`. */
  lemma {:induction false} ProductFromMember(k: nat, ws: seq<string>, i: nat)
    requires k <= |Alphabet| && i < |ProductFrom(k, ws)|
    ensures exists j, t | k <= j < |Alphabet| && 0 <= t < |ws| :: ProductFrom(k, ws)[i] == [Alphabet[j]] + ws[t]
    decreases |Alphabet| - k
  {
    var b := Prefixed(Alphabet[k], ws);
    if i < |b| {
      assert ProductFrom(k, ws)[i] == [Alphabet[k]] + ws[i];
    } else {
      assert ProductFrom(k, ws)[i] == ProductFrom(k + 1, ws)[i - |b|];
      ProductFromMember(k + 1, ws, i - |b|);
    }
  }

  lemma AlphabetBase(j: nat)
    requires j < |Alphabet|
    ensures IsBase(Alphabet[j])
  {
  }

  lemma RankBase(c: char)
    requires IsBase(c)
    ensures Rank(c) < |Alphabet| && Alphabet[Rank(c)] == c
  {
  }

  /** A letter in front of a word over the alphabet gives a word over the alphabet one longer. */
  lemma ConsOverAlphabet(c: char, w: string)
    requires IsBase(c) && OverAlphabet(w)
    ensures OverAlphabet([c] + w)
  {
    var v := [c] + w;
    forall m | 0 <= m < |v|
      ensures IsBase(v[m])
    {
      if m > 0 {
        assert v[m] == w[m - 1];
      }
    }
  }

  /** The product built from words of length `m` over the alphabet holds words of length `m + 1` over it. */
  lemma {:induction false} ProductFromShape(k: nat, ws: seq<string>, m: nat)
    requires k <= |Alphabet|
    requires forall t | 0 <= t < |ws| :: |ws[t]| == m && OverAlphabet(ws[t])
    ensures forall i | 0 <= i < |ProductFrom(k, ws)| :: |ProductFrom(k, ws)[i]| == m + 1 && OverAlphabet(ProductFrom(k, ws)[i])
    decreases |Alphabet| - k
  {
    if k < |Alphabet| {
      var a := Prefixed(Alphabet[k], ws);
      var b := ProductFrom(k + 1, ws);
      ProductFromShape(k + 1, ws, m);
      AlphabetBase(k);
      forall t | 0 <= t < |a|
        ensures |a[t]| == m + 1 && OverAlphabet(a[t])
      {
        ConsOverAlphabet(Alphabet[k], ws[t]);
      }
      assert ProductFrom(k, ws) == a + b;
    }
  }

  /** Every yielded string has length `n` and is made of the four letters. */
  lemma {:induction false} KmerShape(n: nat)
    ensures forall i | 0 <= i < |KmerGen(n)| :: |KmerGen(n)[i]| == n && OverAlphabet(KmerGen(n)[i])
  {
    if n > 0 {
      var ws := KmerGen(n - 1);
      KmerShape(n - 1);
      ProductFromShape(0, ws, n - 1);
      assert KmerGen(n) == ProductFrom(0, ws);
    }
  }

  lemma OverAlphabetTail(w: string)
    requires |w| > 0 && OverAlphabet(w)
    ensures OverAlphabet(w[1..])
  {
    assert forall m | 0 <= m < |w[1..]| :: w[1..][m] == w[m + 1];
  }

  /** A word over the alphabet whose tail is among `ws` is in the product built from `ws`. */
  lemma ConsInProduct(w: string, ws: seq<string>)
    requires |w| > 0 && IsBase(w[0]) && w[1..] in ws
    ensures w in ProductFrom(0, ws)
  {
    var t :| 0 <= t < |ws| && ws[t] == w[1..];
    RankBase(w[0]);
    ProductFromHas(0, Rank(w[0]), ws, t);
    assert [w[0]] + w[1..] == w;
  }

  /** Every string of length `n` over the four letters is yielded. */
  lemma {:induction false} KmerComplete(n: nat, w: string)
    requires |w| == n && OverAlphabet(w)
    ensures w in KmerGen(n)
  {
    if n > 0 {
      OverAlphabetTail(w);
      KmerComplete(n - 1, w[1..]);
      ConsInProduct(w, KmerGen(n - 1));
    }
  }

  lemma {:induction false} ProductFromHas(k: nat, j: nat, ws: seq<string>, t: nat)
    requires k <= j < |Alphabet| && t < |ws|
    ensures [Alphabet[j]] + ws[t] in ProductFrom(k, ws)
    decreases |Alphabet| - k
  {
    var b := Prefixed(Alphabet[k], ws);
    if j == k {
      assert ProductFrom(k, ws)[t] == b[t];
    } else {
      ProductFromHas(k + 1, j, ws, t);
      var i :| 0 <= i < |ProductFrom(k + 1, ws)| && ProductFrom(k + 1, ws)[i] == [Alphabet[j]] + ws[t];
      assert ProductFrom(k, ws)[|b| + i] == ProductFrom(k + 1, ws)[i];
    }
  }

  /** Lexicographic order of equal-length strings under the alphabet order A < T < C < G. */
  predicate Before(u: string, v: string)
    decreases |u|
  {
    |u| > 0 && |v| > 0 &&
    (Rank(u[0]) < Rank(v[0]) || (u[0] == v[0] && Before(u[1..], v[1..])))
  }

  /** Strictly increasing in that order. */
  predicate Ascending(s: seq<string>) {
    forall i, j | 0 <= i < j < |s| :: Before(s[i], s[j])
  }

  lemma {:induction false} BeforeIrreflexive(u: string)
    ensures !Before(u, u)
    decreases |u|
  {
    if |u| > 0 {
      BeforeIrreflexive(u[1..]);
    }
  }

  lemma PrefixedAscending(c: char, ws: seq<string>)
    requires Ascending(ws)
    ensures Ascending(Prefixed(c, ws))
  {
    var p := Prefixed(c, ws);
    forall i, j | 0 <= i < j < |p|
      ensures Before(p[i], p[j])
    {
      assert p[i][0] == c && p[i][1..] == ws[i];
      assert p[j][0] == c && p[j][1..] == ws[j];
    }
  }

  /** Each word of the product from letter `k` starts with letter `k` or a later one. */
  lemma {:induction false} ProductFromFirst(k: nat, ws: seq<string>, i: nat)
    requires k <= |Alphabet| && i < |ProductFrom(k, ws)|
    ensures |ProductFrom(k, ws)[i]| > 0 && Rank(ProductFrom(k, ws)[i][0]) >= k
  {
    ProductFromMember(k, ws, i);
    var j, t :| k <= j < |Alphabet| && 0 <= t < |ws| && ProductFrom(k, ws)[i] == [Alphabet[j]] + ws[t];
    RankAlphabet(j);
  }

  /** Two ascending runs, each word of the first before each of the second, make one ascending run. */
  lemma AscendingConcat(a: seq<string>, b: seq<string>)
    requires Ascending(a) && Ascending(b)
    requires forall i, j | 0 <= i < |a| && 0 <= j < |b| :: Before(a[i], b[j])
    ensures Ascending(a + b)
  {
    var s := a + b;
    forall i, j | 0 <= i < j < |s|
      ensures Before(s[i], s[j])
    {
      if j < |a| {
        assert s[i] == a[i] && s[j] == a[j];
      } else if i < |a| {
        assert s[i] == a[i] && s[j] == b[j - |a|];
      } else {
        assert s[i] == b[i - |a|] && s[j] == b[j - |a|];
      }
    }
  }

  lemma {:induction false} ProductFromAscending(k: nat, ws: seq<string>)
    requires k <= |Alphabet| && Ascending(ws)
    ensures Ascending(ProductFrom(k, ws))
    decreases |Alphabet| - k
  {
    if k < |Alphabet| {
      var a := Prefixed(Alphabet[k], ws);
      var b := ProductFrom(k + 1, ws);
      PrefixedAscending(Alphabet[k], ws);
      ProductFromAscending(k + 1, ws);
      forall i, j | 0 <= i < |a| && 0 <= j < |b|
        ensures Before(a[i], b[j])
      {
        ProductFromFirst(k + 1, ws, j);
        RankAlphabet(k);
        assert a[i][0] == Alphabet[k];
      }
      AscendingConcat(a, b);
      assert ProductFrom(k, ws) == a + b;
    }
  }

  /** `kmerGen(n)` comes out in product order: strictly ascending under A < T < C < G. */
  lemma {:induction false} KmerOrder(n: nat)
    ensures Ascending(KmerGen(n))
  {
    if n > 0 {
      var ws := KmerGen(n - 1);
      KmerOrder(n - 1);
      ProductFromAscending(0, ws);
      assert KmerGen(n) == ProductFrom(0, ws);
    }
  }

  /** No string is yielded twice. */
  lemma KmerDistinct(n: nat, i: nat, j: nat)
    requires i < j < |KmerGen(n)|
    ensures KmerGen(n)[i] != KmerGen(n)[j]
  {
    KmerOrder(n);
    BeforeIrreflexive(KmerGen(n)[i]);
  }

  /** What `findKmers` returns: the sequence itself, or a set of k-mers. */
  datatype Found = Whole(sequence: string) | Kmers(kmers: set<string>)

  /** `seq[k:k+n]`. */
  function Window(s: string, n: nat, k: nat): (w: string)
    requires k + n <= |s|
    ensures |w| == n
  {
    s[k..k + n]
  }

  /** The windows of length `n` that start before position `m`. */
  function WindowsBefore(s: string, n: nat, m: nat): (w: set<string>)
    requires n <= |s| && m <= |s| - n + 1
    ensures |w| <= m
  {
    if m == 0 then {} else WindowsBefore(s, n, m - 1) + {Window(s, n, m - 1)}
  }

  /** Every window of length `n` of `s`. */
  function Windows(s: string, n: nat): set<string>
    requires n <= |s|
  {
    WindowsBefore(s, n, |s| - n + 1)
  }

  lemma {:induction false} WindowsBeforeMember(s: string, n: nat, m: nat, x: string)
    requires n <= |s| && m <= |s| - n + 1
    ensures x in WindowsBefore(s, n, m) <==> exists k | 0 <= k < m :: Window(s, n, k) == x
  {
    if m > 0 {
      WindowsBeforeMember(s, n, m - 1, x);
    }
  }

  /** The k-mers are exactly the substrings of length `n`, and there are at most `|s| - n + 1` of them. */
  lemma WindowsAre(s: string, n: nat, x: string)
    requires n <= |s|
    ensures x in Windows(s, n) <==> exists k | 0 <= k <= |s| - n :: Window(s, n, k) == x
    ensures x in Windows(s, n) ==> |x| == n
    ensures |Windows(s, n)| <= |s| - n + 1
  {
    WindowsBeforeMember(s, n, |s| - n + 1, x);
  }

  /** `findKmers(seq, n)`. */
  method FindKmers(s: string, n: nat) returns (r: Found)
    ensures n > |s| ==> r == Whole(s)
    ensures n <= |s| ==> r == Kmers(Windows(s, n))
  {
    var kmers: set<string> := {};
    var L := |s|;
    if n > L {
      return Whole(s);
    }
    for k := 0 to (L - n) + 1
      invariant kmers == WindowsBefore(s, n, k)
    {
      var kmer := Window(s, n, k);
      kmers := kmers + {kmer};
    }
    return Kmers(kmers);
  }
}
