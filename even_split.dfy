/**
 * The chunking loop that index.mjs writes out three times (the phoneme
 * override, the naive pronunciation fallback and the parse-set builder):
 * cut a word into `n` pieces, each time taking `Math.ceil(remaining / piecesLeft)`
 * characters from the front.
 */
module EvenSplitting {
  import opened Strings

  /** The quotient rounded up, for a non-negative dividend and a positive divisor. */
  function CeilDiv(a: nat, b: nat): nat
    requires b > 0
  {
    (a + b - 1) / b
  }

  lemma {:induction false} MulAtLeast(x: nat, n: nat)
    requires x >= 1
    ensures x * n >= n
  {
    if x > 1 {
      MulAtLeast(x - 1, n);
      assert x * n == (x - 1) * n + n;
    }
  }

  /** Euclidean division is determined by any quotient-remainder decomposition. */
  lemma DivOf(a: int, n: int, k: int, m: int)
    requires n > 0 && 0 <= m < n && a == k * n + m
    ensures a / n == k
  {
    var d, r := a / n, a % n;
    assert a == d * n + r && 0 <= r < n;
    if d > k {
      MulAtLeast(d - k, n);
    } else if d < k {
      MulAtLeast(k - d, n);
    }
  }

  /** With `a == q*n + r`, the ceiling is `q` plus one when there is a remainder. */
  lemma CeilDivOf(q: nat, r: nat, n: nat)
    requires 0 <= r < n
    ensures CeilDiv(q * n + r, n) == if r > 0 then q + 1 else q
  {
    if r > 0 {
      assert q * n + r + n - 1 == (q + 1) * n + (r - 1);
      DivOf(q * n + r + n - 1, n, q + 1, r - 1);
    } else {
      DivOf(q * n + n - 1, n, q, n - 1);
    }
  }

  /** The ceiling never exceeds the dividend once the divisor is positive. */
  lemma CeilDivAtMost(a: nat, n: nat)
    requires n > 0
    ensures CeilDiv(a, n) <= a
  {
    var q, r := a / n, a % n;
    assert a == q * n + r;
    CeilDivOf(q, r, n);
    if q > 0 {
      MulAtLeast(n, q);
      assert n * q == q * n;
    }
  }

  /** The pieces the loop produces. */
  function EvenSplit(s: string, n: nat): seq<string>
    decreases n
  {
    if n == 0 then []
    else
      CeilDivAtMost(|s|, n);
      var size := CeilDiv(|s|, n);
      [s[..size]] + EvenSplit(s[size..], n - 1)
  }

  /** Exactly `n` pieces. */
  lemma {:induction false} EvenSplitCount(s: string, n: nat)
    ensures |EvenSplit(s, n)| == n
    decreases n
  {
    if n > 0 {
      CeilDivAtMost(|s|, n);
      EvenSplitCount(s[CeilDiv(|s|, n)..], n - 1);
    }
  }

  /** For at least one piece, the pieces concatenate back to the word. */
  lemma {:induction false} EvenSplitConcat(s: string, n: nat)
    requires n >= 1
    ensures Concat(EvenSplit(s, n)) == s
    decreases n
  {
    CeilDivAtMost(|s|, n);
    var size := CeilDiv(|s|, n);
    if n == 1 {
      assert size == |s|;
      assert s[..size] == s;
      assert EvenSplit(s, n) == [s] + EvenSplit(s[size..], 0);
    } else {
      EvenSplitConcat(s[size..], n - 1);
      assert s == s[..size] + s[size..];
    }
  }

  /** The pieces after the first are the split of what the first leaves. */
  lemma EvenSplitTail(s: string, n: nat, i: nat)
    requires 0 < i < n
    ensures CeilDiv(|s|, n) <= |s|
    ensures |EvenSplit(s, n)| == n
    ensures EvenSplit(s, n)[i] == EvenSplit(s[CeilDiv(|s|, n)..], n - 1)[i - 1]
  {
    CeilDivAtMost(|s|, n);
    EvenSplitCount(s, n);
  }

  /** The arithmetic of one step: the first piece's size and what it leaves. */
  lemma LengthsStep(len: nat, n: nat, q: nat, r: nat)
    requires n > 1 && r < n && len == q * n + r
    ensures CeilDiv(len, n) == (if r > 0 then q + 1 else q)
    ensures len - CeilDiv(len, n) == q * (n - 1) + (if r > 0 then r - 1 else 0)
  {
    CeilDivOf(q, r, n);
    assert q * n == q * (n - 1) + q;
  }

  /** With `|s| == q*n + r`, the first `r` pieces hold `q + 1` characters and the rest `q`. */
  lemma {:induction false} EvenSplitLengths(s: string, n: nat, q: nat, r: nat)
    requires n >= 1 && r < n && |s| == q * n + r
    ensures |EvenSplit(s, n)| == n
    ensures forall i :: 0 <= i < n ==> |EvenSplit(s, n)[i]| == if i < r then q + 1 else q
    decreases n
  {
    EvenSplitCount(s, n);
    CeilDivAtMost(|s|, n);
    var size := CeilDiv(|s|, n);
    assert |EvenSplit(s, n)[0]| == size;
    if n == 1 {
      assert size == |s| && q == |s| && r == 0;
    } else {
      LengthsStep(|s|, n, q, r);
      var rest := s[size..];
      EvenSplitLengths(rest, n - 1, q, if r > 0 then r - 1 else 0);
      forall i | 0 < i < n
        ensures |EvenSplit(s, n)[i]| == if i < r then q + 1 else q
      {
        EvenSplitTail(s, n, i);
      }
    }
  }

  /** Piece lengths never increase and differ by at most one. */
  lemma EvenSplitBalanced(s: string, n: nat)
    requires n >= 1
    ensures |EvenSplit(s, n)| == n
    ensures forall i, j :: 0 <= i < j < n ==>
      |EvenSplit(s, n)[j]| <= |EvenSplit(s, n)[i]| <= |EvenSplit(s, n)[j]| + 1
  {
    EvenSplitLengths(s, n, |s| / n, |s| % n);
  }

  /** A word shorter than the piece count leaves the trailing pieces empty. */
  lemma EvenSplitTrailingEmpty(s: string, n: nat)
    requires |s| < n
    ensures |EvenSplit(s, n)| == n
    ensures forall i :: 0 <= i < |s| ==> |EvenSplit(s, n)[i]| == 1
    ensures forall i :: |s| <= i < n ==> EvenSplit(s, n)[i] == ""
  {
    EvenSplitLengths(s, n, 0, |s|);
  }

  /**
   * Two even splits of one word with different piece counts never share a
   * `join("-")` key: the key of an `n`-way split is `n - 1` characters longer
   * than the word.
   */
  lemma EvenSplitKeyDetermines(s: string, n: nat, m: nat)
    requires n >= 1 && m >= 1
    requires JoinWith(EvenSplit(s, n), "-") == JoinWith(EvenSplit(s, m), "-")
    ensures n == m
  {
    EvenSplitCount(s, n);
    EvenSplitCount(s, m);
    EvenSplitConcat(s, n);
    EvenSplitConcat(s, m);
    JoinWithLength(EvenSplit(s, n), '-');
    JoinWithLength(EvenSplit(s, m), '-');
  }

  /** One turn of the loop: the piece cut at `cursor` and the split of what is left. */
  lemma SplitStep(word: string, cursor: nat, k: nat)
    requires cursor <= |word| && k >= 1
    ensures cursor + CeilDiv(|word| - cursor, k) <= |word|
    ensures var next := cursor + CeilDiv(|word| - cursor, k);
      EvenSplit(word[cursor..], k) == [word[cursor..next]] + EvenSplit(word[next..], k - 1)
  {
    var size := CeilDiv(|word| - cursor, k);
    CeilDivAtMost(|word| - cursor, k);
    assert word[cursor..][..size] == word[cursor..cursor + size];
    assert word[cursor..][size..] == word[cursor + size..];
  }

  /**
   * The cursor loop of index.mjs:396-401 (identically 259-267 and 358-364):
   * `n` iterations, each slicing `ceil(remaining / (n - i))` characters.
   */
  method SplitEvenly(word: string, n: nat) returns (chunks: seq<string>)
    ensures chunks == EvenSplit(word, n)
    ensures |chunks| == n
    ensures n >= 1 ==> Concat(chunks) == word
  {
    chunks := [];
    var cursor := 0;
    var i := 0;
    while i < n
      invariant 0 <= i <= n
      invariant 0 <= cursor <= |word|
      invariant chunks + EvenSplit(word[cursor..], n - i) == EvenSplit(word, n)
    {
      var remaining := |word| - cursor;
      var size := CeilDiv(remaining, n - i);
      SplitStep(word, cursor, n - i);
      var piece := word[cursor..cursor + size];
      assert chunks + EvenSplit(word[cursor..], n - i) == (chunks + [piece]) + EvenSplit(word[cursor + size..], n - i - 1);
      chunks := chunks + [piece];
      cursor := cursor + size;
      i := i + 1;
    }
    assert chunks + [] == chunks;
    EvenSplitCount(word, n);
    if n >= 1 {
      EvenSplitConcat(word, n);
    }
  }
}
