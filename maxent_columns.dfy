/** The columns one row of the Amari matrix A sets to 1: `inscol` of
    pyentropy/pyentropy/maxent.py inserts the row's symbols into every word
    over the remaining variables, and base2dec turns each word into a
    column index. */
module MaxEntColumns {
  import opened Combinatorics
  import opened Utils
  import opened MaxEntRows

  // ---------------------------------------------------------------------
  // inscol

  /** inscol on one row of the matrix: v inserted before index p; numpy's
      slicing clamps an index past the end to the row length. */
  function InsRow(r: seq<int>, v: int, p: nat): (s: seq<int>)
    ensures |s| == |r| + 1
    ensures var q := if p <= |r| then p else |r|; s[q] == v && s[..q] + s[q + 1..] == r
  {
    var q := if p <= |r| then p else |r|;
    assert (r[..q] + [v] + r[q..])[q + 1..] == r[q..];
    r[..q] + [v] + r[q..]
  }

  /** inscol(x, h, p): column h inserted before column p of every row. */
  function InsCol(x: Mat, h: seq<int>, p: nat): (y: Mat)
    requires x.Valid() && |h| == x.rows
    ensures y.Valid() && y.rows == x.rows && y.cols == x.cols + 1
    ensures var q := if p <= x.cols then p else x.cols;
            forall i :: 0 <= i < y.rows ==> y.cells[i][q] == h[i] && y.cells[i][..q] + y.cells[i][q + 1..] == x.cells[i]
  {
    Mat(x.rows, x.cols + 1, seq(x.rows, i requires 0 <= i < x.rows => InsRow(x.cells[i], h[i], p)))
  }

  lemma InsColRows(x: Mat, h: seq<int>, p: nat)
    requires x.Valid() && |h| == x.rows
    ensures forall i :: 0 <= i < x.rows ==> InsCol(x, h, p).cells[i] == InsRow(x.cells[i], h[i], p)
  {
  }

  /** The word after the first j passes of the `coli` loop of _recloop. */
  function Interleave(w: seq<int>, alpha: seq<int>, pos: seq<int>, j: nat): (s: seq<int>)
    requires j <= |alpha| && j <= |pos|
    requires forall i :: 0 <= i < |pos| ==> pos[i] >= 0
    ensures |s| == |w| + j
  {
    if j == 0 then w else InsRow(Interleave(w, alpha, pos, j - 1), alpha[j - 1], pos[j - 1])
  }

  /** One pass of the `coli` loop of _recloop: inserting column alpha[j]
      at pos[j] extends every interleaved word by one more symbol. */
  lemma InsColStep(temp: Mat, words: seq<seq<int>>, alpha: seq<int>, pos: seq<int>, j: nat)
    requires temp.Valid() && |words| == temp.rows
    requires j < |alpha| && j < |pos| && forall i :: 0 <= i < |pos| ==> pos[i] >= 0
    requires forall t :: 0 <= t < temp.rows ==> temp.cells[t] == Interleave(words[t], alpha, pos, j)
    ensures var next := InsCol(temp, seq(temp.rows, _ => alpha[j]), pos[j]);
            forall t :: 0 <= t < next.rows ==> next.cells[t] == Interleave(words[t], alpha, pos, j + 1)
  {
    var h := seq(temp.rows, _ => alpha[j]);
    InsColRows(temp, h, pos[j]);
  }

  /** The positions after the first, relative to the slot after it. */
  function Tail(pos: seq<int>): (t: seq<int>)
    requires |pos| >= 1
    ensures |t| == |pos| - 1
  {
    seq(|pos| - 1, i requires 0 <= i < |pos| - 1 => pos[i + 1] - pos[0] - 1)
  }

  /** Every position fits the word it is inserted into at its pass. */
  ghost predicate Fits(pos: seq<int>, len: int)
  {
    forall t :: 0 <= t < |pos| ==> 0 <= pos[t] <= len + t
  }

  /** The word w carries symbol alpha[t] at index pos[t] for every t. */
  ghost predicate Matches(w: seq<int>, alpha: seq<int>, pos: seq<int>)
  {
    |alpha| == |pos| && forall t :: 0 <= t < |pos| ==> 0 <= pos[t] < |w| && w[pos[t]] == alpha[t]
  }

  lemma TailSpaced(pos: seq<int>)
    requires |pos| >= 1 && Spaced(pos) && pos[0] >= 0
    ensures Spaced(Tail(pos))
    ensures forall t :: 0 <= t < |Tail(pos)| ==> Tail(pos)[t] >= 0 && Tail(pos)[t] == pos[t + 1] - pos[0] - 1
  {
    forall t | 0 <= t < |Tail(pos)| ensures Tail(pos)[t] >= 0 {
      assert pos[0] + (t + 1) <= pos[t + 1];
    }
    forall i, j | 0 <= i < j < |Tail(pos)| ensures Tail(pos)[i] + (j - i) <= Tail(pos)[j] {
      assert pos[i + 1] + (j - i) <= pos[j + 1];
    }
  }

  lemma SpacedLast(pos: seq<int>, t: int)
    requires Spaced(pos) && 0 <= t < |pos|
    ensures pos[t] + (|pos| - 1 - t) <= pos[|pos| - 1]
  {
    if t < |pos| - 1 {
      assert pos[t] + (|pos| - 1 - t) <= pos[|pos| - 1];
    }
  }

  lemma InsRowAppend(pre: seq<int>, s: seq<int>, v: int, p: nat)
    requires |pre| <= p
    ensures InsRow(pre + s, v, p) == pre + InsRow(s, v, p - |pre|)
  {
    var q := if p - |pre| <= |s| then p - |pre| else |s|;
    assert (pre + s)[..|pre| + q] == pre + s[..q];
    assert (pre + s)[|pre| + q..] == s[q..];
  }

  /** Inserting alpha[0] first and then the rest: the first symbol lands at
      pos[0] and the later insertions see only the suffix behind it. */
  lemma {:induction false} InterleaveHead(w: seq<int>, alpha: seq<int>, pos: seq<int>, j: nat)
    requires 1 <= j <= |alpha| == |pos| && Spaced(pos) && 0 <= pos[0] <= |w|
    requires forall t :: 0 <= t < |Tail(pos)| ==> Tail(pos)[t] >= 0
    ensures Interleave(w, alpha, pos, j)
            == w[..pos[0]] + [alpha[0]] + Interleave(w[pos[0]..], alpha[1..], Tail(pos), j - 1)
  {
    TailSpaced(pos);
    var p0 := pos[0];
    if j == 1 {
    } else {
      InterleaveHead(w, alpha, pos, j - 1);
      var pre := w[..p0] + [alpha[0]];
      var rest := Interleave(w[p0..], alpha[1..], Tail(pos), j - 2);
      assert pos[0] + (j - 1) <= pos[j - 1];
      InsRowAppend(pre, rest, alpha[j - 1], pos[j - 1]);
      assert alpha[1..][j - 2] == alpha[j - 1];
    }
  }

  lemma TailFits(pos: seq<int>, len: int)
    requires |pos| >= 1 && Spaced(pos) && Fits(pos, len)
    ensures Fits(Tail(pos), len - pos[0])
  {
    TailSpaced(pos);
  }

  /** A word that carries alpha[0] at pos[0] and the rest behind it. */
  lemma MatchesCons(pre: seq<int>, rest: seq<int>, alpha: seq<int>, pos: seq<int>)
    requires |alpha| == |pos| >= 1 && Spaced(pos) && pos[0] == |pre|
    requires forall t :: 0 <= t < |Tail(pos)| ==> Tail(pos)[t] == pos[t + 1] - pos[0] - 1
    requires Matches(rest, alpha[1..], Tail(pos))
    ensures Matches(pre + [alpha[0]] + rest, alpha, pos)
  {
    var wl := pre + [alpha[0]] + rest;
    forall t | 0 <= t < |pos| ensures 0 <= pos[t] < |wl| && wl[pos[t]] == alpha[t] {
      if t > 0 {
        assert rest[Tail(pos)[t - 1]] == alpha[1..][t - 1];
        assert wl[pos[t]] == rest[Tail(pos)[t - 1]];
      }
    }
  }

  /** After all passes the word carries every symbol at its position. */
  lemma {:induction false} InterleaveMatches(w: seq<int>, alpha: seq<int>, pos: seq<int>)
    requires |alpha| == |pos| && Spaced(pos) && Fits(pos, |w|)
    ensures Matches(Interleave(w, alpha, pos, |alpha|), alpha, pos)
    decreases |pos|
  {
    if |pos| > 0 {
      var p0 := pos[0];
      var pre, post, rest := w[..p0], w[p0..], alpha[1..];
      TailSpaced(pos);
      InterleaveHead(w, alpha, pos, |alpha|);
      TailFits(pos, |w|);
      InterleaveMatches(post, rest, Tail(pos));
      assert |rest| == |alpha| - 1 && |pre| == p0;
      MatchesCons(pre, Interleave(post, rest, Tail(pos), |alpha| - 1), alpha, pos);
    }
  }

  lemma InsRowDigits(r: seq<int>, v: int, p: nat, m: int)
    requires IsDigits(r, m) && 0 <= v < m
    ensures IsDigits(InsRow(r, v, p), m)
  {
    var q := if p <= |r| then p else |r|;
    var s := InsRow(r, v, p);
    forall i | 0 <= i < |s| ensures 0 <= s[i] < m {
      if i < q { assert s[i] == r[i]; } else if i > q { assert s[i] == r[i - 1]; }
    }
  }

  lemma {:induction false} InterleaveDigits(w: seq<int>, alpha: seq<int>, pos: seq<int>, j: nat, m: int)
    requires j <= |alpha| && j <= |pos| && (forall i :: 0 <= i < |pos| ==> pos[i] >= 0)
    requires IsDigits(w, m) && forall i :: 0 <= i < |alpha| ==> 0 <= alpha[i] < m
    ensures IsDigits(Interleave(w, alpha, pos, j), m)
  {
    if j > 0 {
      InterleaveDigits(w, alpha, pos, j - 1, m);
      InsRowDigits(Interleave(w, alpha, pos, j - 1), alpha[j - 1], pos[j - 1], m);
    }
  }

  // ---------------------------------------------------------------------
  // Removing the fixed positions again

  /** The word w without the indices in pos: the inverse of Interleave. */
  function Free(w: seq<int>, pos: seq<int>): (f: seq<int>)
    requires Spaced(pos) && forall t :: 0 <= t < |pos| ==> 0 <= pos[t] < |w|
    ensures |f| == |w| - |pos|
    decreases |pos|
  {
    if |pos| == 0 then w
    else
      TailSpaced(pos);
      w[..pos[0]] + Free(w[pos[0] + 1..], Tail(pos))
  }

  lemma {:induction false} FreeDigits(w: seq<int>, pos: seq<int>, m: int)
    requires Spaced(pos) && (forall t :: 0 <= t < |pos| ==> 0 <= pos[t] < |w|) && IsDigits(w, m)
    ensures IsDigits(Free(w, pos), m)
    decreases |pos|
  {
    if |pos| > 0 {
      TailSpaced(pos);
      FreeDigits(w[pos[0] + 1..], Tail(pos), m);
    }
  }

  lemma SliceAround(pre: seq<int>, v: int, post: seq<int>, w: seq<int>)
    requires w == pre + [v] + post
    ensures w[..|pre|] == pre && w[|pre|] == v && w[|pre| + 1..] == post
  {
  }

  lemma SplitAt(w: seq<int>, p: int)
    requires 0 <= p <= |w|
    ensures w[..p] + w[p..] == w
  {
  }

  lemma SliceAfter(pre: seq<int>, post: seq<int>, w: seq<int>)
    requires w == pre + post
    ensures w[..|pre|] == pre && w[|pre|..] == post
  {
  }

  lemma SplitAround(w: seq<int>, p: int)
    requires 0 <= p < |w|
    ensures w == w[..p] + [w[p]] + w[p + 1..]
  {
  }

  /** Removing what was inserted gives the word back. */
  lemma {:induction false} FreeOfInterleave(w: seq<int>, alpha: seq<int>, pos: seq<int>)
    requires |alpha| == |pos| && Spaced(pos) && Fits(pos, |w|)
    ensures Free(Interleave(w, alpha, pos, |alpha|), pos) == w
    decreases |pos|
  {
    if |pos| > 0 {
      var p0 := pos[0];
      TailSpaced(pos);
      InterleaveHead(w, alpha, pos, |alpha|);
      TailFits(pos, |w|);
      FreeOfInterleave(w[p0..], alpha[1..], Tail(pos));
      var wl := Interleave(w, alpha, pos, |alpha|);
      var rest := Interleave(w[p0..], alpha[1..], Tail(pos), |alpha| - 1);
      SliceAround(w[..p0], alpha[0], rest, wl);
      SplitAt(w, p0);
    }
  }

  /** The positions fit the interleaved word, and removing them undoes
      the interleaving. */
  lemma FreeOfInterleaveWord(w: seq<int>, alpha: seq<int>, pos: seq<int>)
    requires |alpha| == |pos| && Spaced(pos) && Fits(pos, |w|)
    ensures var wl := Interleave(w, alpha, pos, |alpha|);
            (forall t :: 0 <= t < |pos| ==> 0 <= pos[t] < |wl|) && Free(wl, pos) == w
  {
    InterleaveMatches(w, alpha, pos);
    FreeOfInterleave(w, alpha, pos);
  }

  lemma MatchesTail(w: seq<int>, alpha: seq<int>, pos: seq<int>)
    requires |pos| >= 1 && Spaced(pos) && Matches(w, alpha, pos)
    ensures Matches(w[pos[0] + 1..], alpha[1..], Tail(pos))
  {
    var p0 := pos[0];
    forall t | 0 <= t < |Tail(pos)|
      ensures 0 <= Tail(pos)[t] < |w[p0 + 1..]| && w[p0 + 1..][Tail(pos)[t]] == alpha[1..][t]
    {
      assert p0 + (t + 1) <= pos[t + 1];
    }
  }

  /** Inserting the symbols a word carries at pos into the word without
      them gives the word back. */
  lemma {:induction false} InterleaveOfFree(w: seq<int>, alpha: seq<int>, pos: seq<int>)
    requires Spaced(pos) && Matches(w, alpha, pos)
    ensures Interleave(Free(w, pos), alpha, pos, |alpha|) == w
    decreases |pos|
  {
    if |pos| > 0 {
      var p0 := pos[0];
      TailSpaced(pos);
      var pre, post := w[..p0], w[p0 + 1..];
      var f := Free(w, pos);
      var f' := Free(post, Tail(pos));
      SpacedLast(pos, 0);
      assert f == pre + f';
      SliceAfter(pre, f', f);
      InterleaveHead(f, alpha, pos, |alpha|);
      MatchesTail(w, alpha, pos);
      InterleaveOfFree(post, alpha[1..], Tail(pos));
      assert Interleave(f, alpha, pos, |alpha|) == pre + [alpha[0]] + post;
      SplitAround(w, p0);
    }
  }

  /** A row of full order n fixes every variable: its positions are 0 .. n-1. */
  lemma FullPositions(pos: seq<int>, n: nat)
    requires |pos| == n && Spaced(pos) && forall t :: 0 <= t < n ==> 0 <= pos[t] < n
    ensures forall t :: 0 <= t < n ==> pos[t] == t
  {
    forall t | 0 <= t < n ensures pos[t] == t {
      SpacedLast(pos, t);
      if t > 0 { assert pos[0] + t <= pos[t]; }
    }
  }

  /** Spaced positions inside [0, n) are at most n of them. */
  lemma OrderAtMostN(n: nat, m: nat, r: Row)
    requires ValidRow(n, m, |r.alpha|, r)
    ensures |r.alpha| <= n
  {
    if |r.pos| > 0 {
      SpacedLast(r.pos, 0);
    }
  }

  // ---------------------------------------------------------------------
  // The columns of one row

  /** The `cols` list _recloop computes for one row: for order n the single
      word alpha; otherwise alpha inserted at pos into each of the m^(n-o)
      words over the other variables, in increasing order of those words. */
  function RowColumns(n: nat, m: nat, r: Row): (cols: seq<int>)
    requires m >= 2 && |r.alpha| <= n && ValidRow(n, m, |r.alpha|, r)
    ensures |cols| == Pow(m, n - |r.alpha|)
  {
    var o := |r.alpha|;
    if o == n then [WordValue(r.alpha, m) - 1]
    else
      PowPositive(m, n - o);
      seq(Pow(m, n - o), t requires 0 <= t < Pow(m, n - o) => ColumnOf(m, r, Dec2BaseRow(t, m, n - o)))
  }

  /** The column of the word `free` over the other variables with alpha
      inserted at pos: base2dec(temp, m) - 1 for one row of temp. */
  function ColumnOf(m: nat, r: Row, free: seq<int>): int
    requires |r.alpha| == |r.pos| && forall i :: 0 <= i < |r.pos| ==> r.pos[i] >= 0
  {
    WordValue(Interleave(free, r.alpha, r.pos, |r.alpha|), m) - 1
  }

  lemma RowColumnsAt(n: nat, m: nat, r: Row, t: int)
    requires m >= 2 && |r.alpha| < n && ValidRow(n, m, |r.alpha|, r)
    requires 0 <= t < |RowColumns(n, m, r)|
    ensures RowColumns(n, m, r)[t] == ColumnOf(m, r, Dec2BaseRow(t, m, n - |r.alpha|))
  {
  }

  /** The words base2dec reads off the fully interleaved `temp`, less one,
      are the row's columns. */
  lemma InterleavedColumns(n: nat, m: nat, r: Row, frees: seq<seq<int>>, temp: Mat, words: seq<int>)
    requires m >= 2 && |r.alpha| < n && ValidRow(n, m, |r.alpha|, r)
    requires temp.Valid() && |frees| == temp.rows == Pow(m, n - |r.alpha|) && |words| == temp.rows
    requires forall t :: 0 <= t < |frees| ==> frees[t] == Dec2BaseRow(t, m, n - |r.alpha|)
    requires forall t :: 0 <= t < temp.rows ==> temp.cells[t] == Interleave(frees[t], r.alpha, r.pos, |r.alpha|)
    requires forall t :: 0 <= t < temp.rows ==> words[t] == WordValue(temp.cells[t], m)
    ensures Decrement(words) == RowColumns(n, m, r)
  {
    forall t | 0 <= t < |words| ensures Decrement(words)[t] == RowColumns(n, m, r)[t] {
      RowColumnsAt(n, m, r, t);
    }
  }

  /** `words - 1` elementwise: base2dec's words turned into column indices. */
  function Decrement(words: seq<int>): (c: seq<int>)
    ensures |c| == |words| && forall t :: 0 <= t < |words| ==> c[t] == words[t] - 1
  {
    seq(|words|, t requires 0 <= t < |words| => words[t] - 1)
  }

  /** The set of columns of A that row r sets to 1 (none for a row that
      _recloop cannot emit). */
  ghost function ColSet(n: nat, m: nat, r: Row): set<int>
  {
    if m >= 2 && |r.alpha| <= n && ValidRow(n, m, |r.alpha|, r) then set c | c in RowColumns(n, m, r) else {}
  }

  lemma RowFits(n: nat, m: nat, r: Row)
    requires ValidRow(n, m, |r.alpha|, r)
    ensures |r.alpha| <= n && Fits(r.pos, n - |r.alpha|)
  {
    OrderAtMostN(n, m, r);
    forall t | 0 <= t < |r.pos| ensures r.pos[t] <= n - |r.pos| + t {
      SpacedLast(r.pos, t);
    }
  }

  lemma {:induction false} ColumnOfWord(n: nat, m: nat, r: Row, w: seq<int>)
    requires m >= 2 && 1 <= |r.alpha| && ValidRow(n, m, |r.alpha|, r)
    requires |w| == n && IsDigits(w, m) && Matches(w, r.alpha, r.pos)
    ensures 0 <= WordValue(w, m) - 1 < Pow(m, n) - 1
    ensures Dec2BaseRow(WordValue(w, m), m, n) == w
  {
    WordValueRange(w, m);
    WordValuePositive(w, m, r.pos[0]);
    Base2DecRoundTrip(w, m);
  }

  /** The word f with alpha inserted at pos is a base-m word carrying alpha at pos. */
  lemma InterleavedWordMatches(f: seq<int>, alpha: seq<int>, pos: seq<int>, m: int) returns (w: seq<int>)
    requires |alpha| == |pos| && Spaced(pos) && Fits(pos, |f|)
    requires IsDigits(f, m) && forall i :: 0 <= i < |alpha| ==> 0 <= alpha[i] < m
    ensures w == Interleave(f, alpha, pos, |alpha|) && IsDigits(w, m) && Matches(w, alpha, pos)
  {
    w := Interleave(f, alpha, pos, |alpha|);
    InterleaveDigits(f, alpha, pos, |alpha|, m);
    InterleaveMatches(f, alpha, pos);
  }

  /** Each listed column is a word carrying alpha at pos. */
  lemma ListedColumnMatches(n: nat, m: nat, r: Row, t: int)
    requires m >= 2 && 1 <= |r.alpha| < n && ValidRow(n, m, |r.alpha|, r)
    requires 0 <= t < |RowColumns(n, m, r)|
    ensures var c := RowColumns(n, m, r)[t];
            0 <= c < Pow(m, n) - 1 && Matches(Dec2BaseRow(c + 1, m, n), r.alpha, r.pos)
  {
    var w := ListedWord(n, m, r, t);
    ColumnOfWordAt(n, m, r, w, RowColumns(n, m, r)[t]);
  }

  /** The word behind the t-th listed column. */
  lemma ListedWord(n: nat, m: nat, r: Row, t: int) returns (w: seq<int>)
    requires m >= 2 && 1 <= |r.alpha| < n && ValidRow(n, m, |r.alpha|, r)
    requires 0 <= t < |RowColumns(n, m, r)|
    ensures |w| == n && IsDigits(w, m) && Matches(w, r.alpha, r.pos)
    ensures RowColumns(n, m, r)[t] + 1 == WordValue(w, m)
  {
    var o := |r.alpha|;
    RowFits(n, m, r);
    var free := Dec2BaseRow(t, m, n - o);
    RowColumnsAt(n, m, r, t);
    w := InterleavedWordMatches(free, r.alpha, r.pos, m);
  }

  /** ColumnOfWord for the column c whose word is w. */
  lemma ColumnOfWordAt(n: nat, m: nat, r: Row, w: seq<int>, c: int)
    requires m >= 2 && 1 <= |r.alpha| && ValidRow(n, m, |r.alpha|, r)
    requires |w| == n && IsDigits(w, m) && Matches(w, r.alpha, r.pos) && c + 1 == WordValue(w, m)
    ensures 0 <= c < Pow(m, n) - 1 && Matches(Dec2BaseRow(c + 1, m, n), r.alpha, r.pos)
  {
    ColumnOfWord(n, m, r, w);
  }

  /** The free part of a word carrying alpha at pos is the word over the
      other variables whose column is that word. */
  lemma FreeWordColumn(n: nat, m: nat, r: Row, w: seq<int>) returns (t: int)
    requires m >= 2 && 1 <= |r.alpha| < n && ValidRow(n, m, |r.alpha|, r)
    requires |w| == n && IsDigits(w, m) && Matches(w, r.alpha, r.pos)
    ensures 0 <= t < Pow(m, n - |r.alpha|)
    ensures ColumnOf(m, r, Dec2BaseRow(t, m, n - |r.alpha|)) == WordValue(w, m) - 1
  {
    var free := Free(w, r.pos);
    FreeDigits(w, r.pos, m);
    t := WordValue(free, m);
    WordValueRange(free, m);
    Base2DecRoundTrip(free, m);
    InterleaveOfFree(w, r.alpha, r.pos);
  }

  /** Each word carrying alpha at pos is listed, at the index of its free part. */
  lemma MatchingColumnListed(n: nat, m: nat, r: Row, c: int)
    requires m >= 2 && 1 <= |r.alpha| < n && ValidRow(n, m, |r.alpha|, r)
    requires 0 <= c < Pow(m, n) - 1 && Matches(Dec2BaseRow(c + 1, m, n), r.alpha, r.pos)
    ensures c in RowColumns(n, m, r)
  {
    var w := Dec2BaseRow(c + 1, m, n);
    Dec2BaseRoundTrip(c + 1, m, n);
    var t := FreeWordColumn(n, m, r, w);
    ListedAt(n, m, r, t, c);
  }

  /** The column of the t-th free word is listed. */
  lemma ListedAt(n: nat, m: nat, r: Row, t: int, c: int)
    requires m >= 2 && 1 <= |r.alpha| < n && ValidRow(n, m, |r.alpha|, r)
    requires 0 <= t < Pow(m, n - |r.alpha|) && ColumnOf(m, r, Dec2BaseRow(t, m, n - |r.alpha|)) == c
    ensures c in RowColumns(n, m, r)
  {
    RowColumnsAt(n, m, r, t);
  }

  /** For full order the single listed column is the word alpha itself. */
  lemma FullOrderMembership(n: nat, m: nat, r: Row, c: int)
    requires m >= 2 && 1 <= |r.alpha| == n && ValidRow(n, m, |r.alpha|, r)
    ensures c in RowColumns(n, m, r)
            <==> 0 <= c < Pow(m, n) - 1 && Matches(Dec2BaseRow(c + 1, m, n), r.alpha, r.pos)
  {
    FullPositions(r.pos, n);
    var a := r.alpha;
    assert Matches(a, a, r.pos);
    ColumnOfWord(n, m, r, a);
    if 0 <= c < Pow(m, n) - 1 && Matches(Dec2BaseRow(c + 1, m, n), a, r.pos) {
      var w := Dec2BaseRow(c + 1, m, n);
      assert w == a;
      Dec2BaseRoundTrip(c + 1, m, n);
    }
  }

  /** Each member of the list is a word carrying alpha at pos. */
  lemma ListedMemberMatches(n: nat, m: nat, r: Row, c: int)
    requires m >= 2 && 1 <= |r.alpha| < n && ValidRow(n, m, |r.alpha|, r)
    requires c in RowColumns(n, m, r)
    ensures 0 <= c < Pow(m, n) - 1 && Matches(Dec2BaseRow(c + 1, m, n), r.alpha, r.pos)
  {
    var t :| 0 <= t < |RowColumns(n, m, r)| && RowColumns(n, m, r)[t] == c;
    ListedColumnMatches(n, m, r, t);
  }

  /** Column c of A (the word c + 1 over n variables) is set in row r
      exactly when its base-m digits carry alpha at pos. */
  lemma RowColumnsMembership(n: nat, m: nat, r: Row, c: int)
    requires m >= 2 && 1 <= |r.alpha| <= n && ValidRow(n, m, |r.alpha|, r)
    ensures c in RowColumns(n, m, r)
            <==> 0 <= c < Pow(m, n) - 1 && Matches(Dec2BaseRow(c + 1, m, n), r.alpha, r.pos)
  {
    if |r.alpha| == n {
      FullOrderMembership(n, m, r, c);
    } else {
      if c in RowColumns(n, m, r) {
        ListedMemberMatches(n, m, r, c);
      }
      if 0 <= c < Pow(m, n) - 1 && Matches(Dec2BaseRow(c + 1, m, n), r.alpha, r.pos) {
        MatchingColumnListed(n, m, r, c);
      }
    }
  }

  /** The interleaved word of the free word i gives i back once the
      fixed positions are removed. */
  lemma ColumnWord(n: nat, m: nat, r: Row, i: int) returns (w: seq<int>)
    requires m >= 2 && 1 <= |r.alpha| < n && ValidRow(n, m, |r.alpha|, r)
    requires 0 <= i < Pow(m, n - |r.alpha|)
    ensures w == Interleave(Dec2BaseRow(i, m, n - |r.alpha|), r.alpha, r.pos, |r.alpha|)
    ensures |w| == n && IsDigits(w, m) && forall t :: 0 <= t < |r.pos| ==> 0 <= r.pos[t] < |w|
    ensures WordValue(Free(w, r.pos), m) == i
  {
    var o := |r.alpha|;
    var f := Dec2BaseRow(i, m, n - o);
    Dec2BaseRoundTrip(i, m, n - o);
    RowFits(n, m, r);
    w := InterleavedWord(f, r.alpha, r.pos, m);
  }

  /** The word f with alpha inserted at pos: base-m digits again, and the
      word f is recovered by removing the positions. */
  lemma InterleavedWord(f: seq<int>, alpha: seq<int>, pos: seq<int>, m: int) returns (w: seq<int>)
    requires |alpha| == |pos| && Spaced(pos) && Fits(pos, |f|)
    requires IsDigits(f, m) && forall i :: 0 <= i < |alpha| ==> 0 <= alpha[i] < m
    ensures w == Interleave(f, alpha, pos, |alpha|) && IsDigits(w, m)
    ensures (forall t :: 0 <= t < |pos| ==> 0 <= pos[t] < |w|) && Free(w, pos) == f
  {
    w := Interleave(f, alpha, pos, |alpha|);
    InterleaveDigits(f, alpha, pos, |alpha|, m);
    FreeOfInterleaveWord(f, alpha, pos);
  }

  /** Different words over the free variables give different columns. */
  lemma ColumnOfInjective(n: nat, m: nat, r: Row, i: int, j: int)
    requires m >= 2 && 1 <= |r.alpha| < n && ValidRow(n, m, |r.alpha|, r)
    requires 0 <= i < Pow(m, n - |r.alpha|) && 0 <= j < Pow(m, n - |r.alpha|)
    requires ColumnOf(m, r, Dec2BaseRow(i, m, n - |r.alpha|)) == ColumnOf(m, r, Dec2BaseRow(j, m, n - |r.alpha|))
    ensures i == j
  {
    var w1 := ColumnWord(n, m, r, i);
    var w2 := ColumnWord(n, m, r, j);
    WordValueInjective(w1, w2, m);
  }

  /** No column is listed twice. */
  lemma RowColumnsDistinct(n: nat, m: nat, r: Row)
    requires m >= 2 && 1 <= |r.alpha| <= n && ValidRow(n, m, |r.alpha|, r)
    ensures forall i, j :: 0 <= i < j < |RowColumns(n, m, r)| ==> RowColumns(n, m, r)[i] != RowColumns(n, m, r)[j]
  {
    if |r.alpha| < n {
      var cols := RowColumns(n, m, r);
      forall i, j | 0 <= i < j < |cols| ensures cols[i] != cols[j] {
        RowColumnsAt(n, m, r, i);
        RowColumnsAt(n, m, r, j);
        if cols[i] == cols[j] {
          ColumnOfInjective(n, m, r, i, j);
        }
      }
    }
  }

  lemma {:induction false} DistinctCard(s: seq<int>)
    requires forall i, j :: 0 <= i < j < |s| ==> s[i] != s[j]
    ensures |set c | c in s| == |s|
  {
    if |s| > 0 {
      var p := s[..|s| - 1];
      DistinctCard(p);
      assert (set c | c in s) == (set c | c in p) + {s[|s| - 1]};
      assert s[|s| - 1] !in p;
    }
  }

  /** Row r of order o sets exactly m^(n-o) columns. */
  lemma ColSetSize(n: nat, m: nat, r: Row)
    requires m >= 2 && 1 <= |r.alpha| <= n && ValidRow(n, m, |r.alpha|, r)
    ensures |ColSet(n, m, r)| == Pow(m, n - |r.alpha|)
  {
    RowColumnsDistinct(n, m, r);
    DistinctCard(RowColumns(n, m, r));
  }
}
