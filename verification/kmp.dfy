/** The Knuth-Morris-Pratt search of CflatString.h: the byte automaton
    `cflat__dfa_new` builds and the two scans over it,
    `cflat_sv_find_index_sv` and `cflat_sv_find_last_index_sv`.

    Text and pattern are byte sequences.  The automaton is a sequence of
    `length + 1` rows of 256 cells; the state after reading a text is meant
    to be `Overlap`, the length of the longest prefix of the pattern that
    ends the text. */
module Kmp {
  import opened Words
  import opened Core

  /* ---------------------------------------------------------------------- */
  /*  Overlaps                                                               */
  /* ---------------------------------------------------------------------- */

  /** The first `k` bytes of `p` end `t`. */
  predicate IsBorder(p: seq<u8>, t: seq<u8>, k: nat) {
    k <= |p| && k <= |t| && p[..k] == t[|t| - k..]
  }

  /** The longest border of length at most `k`. */
  function Longest(p: seq<u8>, t: seq<u8>, k: nat): (r: nat)
    requires k <= |p| && k <= |t|
    ensures r <= k
    decreases k
  {
    if IsBorder(p, t, k) then k else Longest(p, t, k - 1)
  }

  lemma {:induction false} LongestBorder(p: seq<u8>, t: seq<u8>, k: nat)
    requires k <= |p| && k <= |t|
    ensures IsBorder(p, t, Longest(p, t, k))
    decreases k
  {
    if !IsBorder(p, t, k) {
      LongestBorder(p, t, k - 1);
    }
  }

  lemma {:induction false} LongestMax(p: seq<u8>, t: seq<u8>, k: nat, j: nat)
    requires k <= |p| && k <= |t| && j <= k && IsBorder(p, t, j)
    ensures j <= Longest(p, t, k)
    decreases k
  {
    if !IsBorder(p, t, k) {
      LongestMax(p, t, k - 1, j);
    }
  }

  /** The length of the longest prefix of `p` that ends `t`. */
  function Overlap(p: seq<u8>, t: seq<u8>): (r: nat)
    ensures r <= |p| && r <= |t|
  {
    Longest(p, t, if |p| < |t| then |p| else |t|)
  }

  /** The overlap is a border ... */
  lemma OverlapBorder(p: seq<u8>, t: seq<u8>)
    ensures IsBorder(p, t, Overlap(p, t))
  {
    LongestBorder(p, t, if |p| < |t| then |p| else |t|);
  }

  /** ... and no border is longer. */
  lemma OverlapMax(p: seq<u8>, t: seq<u8>, j: nat)
    requires IsBorder(p, t, j)
    ensures j <= Overlap(p, t)
  {
    LongestMax(p, t, if |p| < |t| then |p| else |t|, j);
  }

  /** The automaton's intended move: from state `s` on byte `c`. */
  function Delta(p: seq<u8>, s: nat, c: u8): (r: nat)
    requires s <= |p|
    ensures r <= s + 1 && r <= |p|
  {
    Overlap(p, p[..s] + [c])
  }

  /** Two texts with the same borders have the same overlap. */
  lemma SameBorders(p: seq<u8>, a: seq<u8>, b: seq<u8>)
    requires forall k: nat :: IsBorder(p, a, k) <==> IsBorder(p, b, k)
    ensures Overlap(p, a) == Overlap(p, b)
  {
    OverlapBorder(p, a);
    OverlapBorder(p, b);
    OverlapMax(p, a, Overlap(p, b));
    OverlapMax(p, b, Overlap(p, a));
  }

  /** A border of `t + [c]` is a border of `t` followed by `c`. */
  lemma BorderShift(p: seq<u8>, t: seq<u8>, c: u8, k: nat)
    requires k >= 1
    ensures IsBorder(p, t + [c], k) <==> k <= |p| && p[k - 1] == c && IsBorder(p, t, k - 1)
  {
    var a := t + [c];
    if k <= |p| && k <= |a| {
      assert p[..k] == p[..k - 1] + [p[k - 1]];
      assert a[|a| - k..] == t[|t| - (k - 1)..] + [c];
    }
  }

  /** Below a border `s` of `t`, the borders of `t` are those of `p[..s]`. */
  lemma BorderOfBorder(p: seq<u8>, t: seq<u8>, s: nat, j: nat)
    requires IsBorder(p, t, s) && j <= s
    ensures IsBorder(p, t, j) <==> IsBorder(p, p[..s], j)
  {
    var u := p[..s];
    assert t[|t| - j..] == t[|t| - s..][s - j..];
    assert u[|u| - j..] == p[..s][s - j..];
  }

  /** The borders of `t + [c]` are those of `p[..Overlap(p, t)] + [c]`. */
  lemma StepBorders(p: seq<u8>, t: seq<u8>, c: u8, k: nat)
    ensures IsBorder(p, t + [c], k) <==> IsBorder(p, p[..Overlap(p, t)] + [c], k)
  {
    var s := Overlap(p, t);
    if k >= 1 {
      BorderShift(p, t, c, k);
      BorderShift(p, p[..s], c, k);
      OverlapBorder(p, t);
      if k - 1 <= s {
        BorderOfBorder(p, t, s, k - 1);
      } else if IsBorder(p, t, k - 1) {
        OverlapMax(p, t, k - 1);
      }
    }
  }

  /** The step lemma: the overlap after one more byte is the automaton's
      move from the overlap before it. */
  lemma OverlapStep(p: seq<u8>, t: seq<u8>, c: u8)
    ensures Overlap(p, t + [c]) == Delta(p, Overlap(p, t), c)
  {
    var u := p[..Overlap(p, t)];
    forall k: nat ensures IsBorder(p, t + [c], k) <==> IsBorder(p, u + [c], k) {
      StepBorders(p, t, c, k);
    }
    SameBorders(p, t + [c], u + [c]);
  }

  /** The move that extends a match. */
  lemma DeltaAdvance(p: seq<u8>, q: nat)
    requires q < |p|
    ensures Delta(p, q, p[q]) == q + 1
  {
    assert p[..q + 1] == p[..q] + [p[q]];
    assert IsBorder(p, p[..q] + [p[q]], q + 1);
    OverlapMax(p, p[..q] + [p[q]], q + 1);
  }

  /** The first row: only `p[0]` leaves state 0. */
  lemma DeltaFromZero(p: seq<u8>, c: u8)
    requires |p| >= 1
    ensures Delta(p, 0, c) == if c == p[0] then 1 else 0
  {
    if c == p[0] {
      DeltaAdvance(p, 0);
    } else {
      OverlapBorder(p, p[..0] + [c]);
    }
  }

  /** Borders of `p[..q] + [c]` and `p[1..q] + [c]` agree when `c` does
      not extend the match. */
  lemma RestartBorders(p: seq<u8>, q: nat, c: u8, k: nat)
    requires 1 <= q <= |p| && !(q < |p| && c == p[q])
    ensures IsBorder(p, p[..q] + [c], k) <==> IsBorder(p, p[1..q] + [c], k)
  {
    var a := p[..q] + [c];
    var b := p[1..q] + [c];
    if k <= q {
      assert a[|a| - k..] == b[|b| - k..];
    } else if k == q + 1 && k <= |p| {
      assert p[..k][q] == p[q] && a[q] == c;
    }
  }

  /** Every move from state `q` other than the one extending the match is
      the move from the restart state, the overlap of `p[1..q]`. */
  lemma DeltaRestart(p: seq<u8>, q: nat, c: u8)
    requires 1 <= q <= |p| && !(q < |p| && c == p[q])
    ensures Delta(p, q, c) == Delta(p, Overlap(p, p[1..q]), c)
  {
    forall k: nat ensures IsBorder(p, p[..q] + [c], k) <==> IsBorder(p, p[1..q] + [c], k) {
      RestartBorders(p, q, c, k);
    }
    SameBorders(p, p[..q] + [c], p[1..q] + [c]);
    OverlapStep(p, p[1..q], c);
  }

  /** The overlap is the whole pattern exactly when the text ends with it. */
  lemma FullOverlap(p: seq<u8>, t: seq<u8>)
    ensures Overlap(p, t) == |p| <==> IsBorder(p, t, |p|)
  {
    OverlapBorder(p, t);
    if IsBorder(p, t, |p|) {
      OverlapMax(p, t, |p|);
    }
  }

  /* ---------------------------------------------------------------------- */
  /*  Occurrences                                                            */
  /* ---------------------------------------------------------------------- */

  /** `p` occurs in `text` at `i`. */
  predicate MatchAt(text: seq<u8>, p: seq<u8>, i: nat) {
    i + |p| <= |text| && text[i..i + |p|] == p
  }

  /** The first occurrence at or after `i`, or -1. */
  function FirstFrom(text: seq<u8>, p: seq<u8>, i: nat): (r: int)
    decreases |text| - i
  {
    if i + |p| > |text| then -1
    else if MatchAt(text, p, i) then i
    else FirstFrom(text, p, i + 1)
  }

  /** The first occurrence of `p` in `text`, or -1. */
  function First(text: seq<u8>, p: seq<u8>): int {
    FirstFrom(text, p, 0)
  }

  /** The last occurrence starting below `n`, or -1. */
  function LastBelow(text: seq<u8>, p: seq<u8>, n: nat): (r: int)
  {
    if n == 0 then -1
    else if MatchAt(text, p, n - 1) then n - 1
    else LastBelow(text, p, n - 1)
  }

  /** The last occurrence of `p` in `text`, or -1. */
  function Last(text: seq<u8>, p: seq<u8>): int {
    LastBelow(text, p, |text| + 1)
  }

  lemma {:induction false} FirstFromSpec(text: seq<u8>, p: seq<u8>, i: nat)
    ensures var r := FirstFrom(text, p, i);
            && (r == -1 <==> forall j: nat :: i <= j ==> !MatchAt(text, p, j))
            && (r != -1 ==> i <= r && MatchAt(text, p, r) && forall j: nat :: i <= j < r ==> !MatchAt(text, p, j))
    decreases |text| - i
  {
    if i + |p| <= |text| && !MatchAt(text, p, i) {
      FirstFromSpec(text, p, i + 1);
    }
  }

  lemma {:induction false} LastBelowSpec(text: seq<u8>, p: seq<u8>, n: nat)
    ensures var r := LastBelow(text, p, n);
            && (r == -1 <==> forall j: nat :: j < n ==> !MatchAt(text, p, j))
            && (r != -1 ==> 0 <= r < n && MatchAt(text, p, r) && forall j: nat :: r < j < n ==> !MatchAt(text, p, j))
  {
    if n > 0 && !MatchAt(text, p, n - 1) {
      LastBelowSpec(text, p, n - 1);
    }
  }

  /** The first occurrence is the one with none before it. */
  lemma FirstIs(text: seq<u8>, p: seq<u8>, r: int)
    requires r == -1 ==> forall j: nat :: !MatchAt(text, p, j)
    requires r != -1 ==> 0 <= r && MatchAt(text, p, r) && forall j: nat :: j < r ==> !MatchAt(text, p, j)
    ensures r == First(text, p)
  {
    FirstFromSpec(text, p, 0);
  }

  /** The last occurrence is the one with none after it. */
  lemma LastIs(text: seq<u8>, p: seq<u8>, r: int)
    requires r == -1 ==> forall j: nat :: !MatchAt(text, p, j)
    requires r != -1 ==> 0 <= r && MatchAt(text, p, r) && forall j: nat :: r < j ==> !MatchAt(text, p, j)
    ensures r == Last(text, p)
  {
    LastBelowSpec(text, p, |text| + 1);
  }

  /** An occurrence ending at `n` is the whole pattern ending `text[..n]`. */
  lemma MatchEnds(text: seq<u8>, p: seq<u8>, n: nat)
    requires |p| <= n <= |text|
    ensures MatchAt(text, p, n - |p|) <==> IsBorder(p, text[..n], |p|)
  {
    assert text[..n][n - |p|..] == text[n - |p|..n];
  }

  /* ---------------------------------------------------------------------- */
  /*  The automaton                                                          */
  /* ---------------------------------------------------------------------- */

  /** A row per state `0..m`, a cell per byte. */
  predicate Shaped(dfa: seq<seq<nat>>, m: nat) {
    |dfa| == m + 1 && forall q :: 0 <= q <= m ==> |dfa[q]| == 256
  }

  /** Every cell is at most `m`: every cell names a row. */
  predicate InRange(dfa: seq<seq<nat>>, m: nat)
    requires Shaped(dfa, m)
  {
    forall q, c :: 0 <= q <= m && 0 <= c < 256 ==> dfa[q][c] <= m
  }

  /** Every cell is the KMP move. */
  ghost predicate Correct(dfa: seq<seq<nat>>, p: seq<u8>) {
    Shaped(dfa, |p|) && forall q: nat, c: u8 :: q <= |p| ==> CellOk(dfa, p, q, c)
  }

  /** Cell `c` of row `q` is the KMP move. */
  ghost predicate CellOk(dfa: seq<seq<nat>>, p: seq<u8>, q: nat, c: u8)
    requires Shaped(dfa, |p|) && q <= |p|
  {
    dfa[q][c] == Delta(p, q, c)
  }

  /** The intended automaton: row `q`, cell `c` holds `Delta(p, q, c)`. */
  function Moves(p: seq<u8>): (t: seq<seq<nat>>)
    ensures Shaped(t, |p|)
  {
    seq(|p| + 1, q requires 0 <= q <= |p| => seq(256, c requires 0 <= c < 256 => Delta(p, q, c as u8)))
  }

  /** One cell of row `q`: a copy of the restart state's cell, except
      the match byte, which moves to `q + 1`. */
  lemma RowCell(p: seq<u8>, q: nat, x: nat, prev: seq<nat>, row: seq<nat>, c: nat)
    requires 1 <= q <= |p| && x < q && x == Overlap(p, p[1..q]) && c < 256
    requires prev == Moves(p)[x]
    requires row == if q < |p| then prev[p[q] := q + 1] else prev
    ensures row[c] == Moves(p)[q][c]
  {
    if q < |p| && c == p[q] as nat {
      DeltaAdvance(p, q);
    } else {
      DeltaRestart(p, q, c as u8);
    }
  }

  /** Row `q` is row `x` (the state after `p[1..q]`) with the match
      byte redirected to `q + 1`. */
  lemma AppendRow(p: seq<u8>, dfa: seq<seq<nat>>, x: nat, row: seq<nat>)
    requires 1 <= |dfa| <= |p| && x < |dfa| && x == Overlap(p, p[1..|dfa|])
    requires dfa == Moves(p)[..|dfa|]
    requires row == if |dfa| < |p| then dfa[x][p[|dfa|] := |dfa| + 1] else dfa[x]
    ensures dfa + [row] == Moves(p)[..|dfa| + 1]
  {
    var q := |dfa|;
    var prev := dfa[x];
    assert prev == Moves(p)[x];
    forall c | 0 <= c < 256 ensures row[c] == Moves(p)[q][c] {
      RowCell(p, q, x, prev, row, c);
    }
    assert row == Moves(p)[q];
  }

  /** State 0 moves to 1 on the first byte of the pattern and stays
      otherwise. */
  function FirstRow(p: seq<u8>): (row: seq<nat>)
    requires |p| >= 1
    ensures |row| == 256
  {
    seq(256, c requires 0 <= c < 256 => if c == p[0] then 1 else 0)
  }

  lemma FirstRowAgrees(p: seq<u8>)
    requires |p| >= 1
    ensures [FirstRow(p)] == Moves(p)[..1]
  {
    forall c | 0 <= c < 256 ensures FirstRow(p)[c] == Moves(p)[0][c] {
      DeltaFromZero(p, c as u8);
    }
    assert FirstRow(p) == Moves(p)[0];
  }

  /** Every cell of row `r` is at most `r + 1`, at most `m`, and fits a
      cell of width `cells`. */
  predicate Bounded(dfa: seq<seq<nat>>, m: nat, cells: nat) {
    forall r, c :: 0 <= r < |dfa| && 0 <= c < |dfa[r]| ==> dfa[r][c] <= r + 1 && dfa[r][c] <= m && dfa[r][c] < cells
  }

  lemma BoundedAppend(dfa: seq<seq<nat>>, row: seq<nat>, m: nat, cells: nat)
    requires Bounded(dfa, m, cells)
    requires forall c :: 0 <= c < |row| ==> row[c] <= |dfa| + 1 && row[c] <= m && row[c] < cells
    ensures Bounded(dfa + [row], m, cells)
  {
    forall r, c | 0 <= r < |dfa + [row]| && 0 <= c < |(dfa + [row])[r]|
      ensures (dfa + [row])[r][c] <= r + 1
    {
      if r < |dfa| {
        assert (dfa + [row])[r] == dfa[r];
      }
    }
  }

  /** The full table of moves is a correct automaton. */
  lemma MovesCorrect(p: seq<u8>)
    ensures Correct(Moves(p), p)
  {
  }

  /** The restart state follows the pattern's own bytes. */
  lemma StateAdvances(p: seq<u8>, q: nat)
    requires 1 <= q < |p|
    ensures Overlap(p, p[1..q + 1]) == Delta(p, Overlap(p, p[1..q]), p[q])
  {
    var t := p[1..q];
    assert t + [p[q]] == p[1..q + 1];
    OverlapAfter(p, t, p[q], p[1..q + 1]);
  }

  /** `OverlapStep` for a text given by its value. */
  lemma OverlapAfter(p: seq<u8>, t: seq<u8>, c: u8, u: seq<u8>)
    requires u == t + [c]
    ensures Overlap(p, u) == Delta(p, Overlap(p, t), c)
  {
    OverlapStep(p, t, c);
  }

  /** Every row has a cell per byte. */
  predicate Wide(dfa: seq<seq<nat>>) {
    forall r :: 0 <= r < |dfa| ==> |dfa[r]| == 256
  }

  /** The rounds of `cflat__dfa_new` from state `|dfa|` on: row `q` is a
      copy of row `x`, the restart state, with the match byte `p[q]`
      redirected to `q + 1`; then `x` follows `p[q]`.  Every cell is
      reduced modulo `cells`.  The last round's restart update reads
      `pattern[length]`, one past the pattern; its value is never used and
      the model leaves it out. */
  function Fill(p: seq<u8>, cells: nat, dfa: seq<seq<nat>>, x: nat): (r: seq<seq<nat>>)
    requires 1 <= |dfa| <= |p| + 1 && x < |dfa| && cells >= 2
    requires Wide(dfa) && Bounded(dfa, |p|, cells)
    ensures Shaped(r, |p|) && Bounded(r, |p|, cells)
    decreases |p| + 1 - |dfa|
  {
    if |dfa| == |p| + 1 then dfa
    else
      var q := |dfa|;
      var row := if q < |p| then dfa[x][p[q] := (q + 1) % cells] else dfa[x];
      BoundedAppend(dfa, row, |p|, cells);
      var next := dfa + [row];
      Fill(p, cells, next, if q < |p| then next[x][p[q]] else x)
  }

  /** `cflat__dfa_new`: state 0's row, then the remaining rounds. */
  function DfaNew(p: seq<u8>, cells: nat): (dfa: seq<seq<nat>>)
    requires |p| >= 1 && cells >= 2
    ensures Shaped(dfa, |p|) && InRange(dfa, |p|)
    ensures forall q, c :: 0 <= q <= |p| && 0 <= c < 256 ==> dfa[q][c] < cells
  {
    Fill(p, cells, [FirstRow(p)], 0)
  }

  /** The restart state after round `q` is the overlap of `p[1..q + 1]`. */
  lemma RestartAdvances(p: seq<u8>, dfa: seq<seq<nat>>, x: nat)
    requires 1 <= |dfa| < |p| && x < |dfa| && dfa == Moves(p)[..|dfa|]
    requires x == Overlap(p, p[1..|dfa|])
    ensures dfa[x][p[|dfa|]] == Overlap(p, p[1..|dfa| + 1])
  {
    var q := |dfa|;
    assert dfa[x] == Moves(p)[x];
    StateAdvances(p, q);
  }

  /** The row round `|dfa|` appends. */
  function RoundRow(p: seq<u8>, cells: nat, dfa: seq<seq<nat>>, x: nat): seq<nat>
    requires 1 <= |dfa| <= |p| && x < |dfa| && cells >= 2 && Wide(dfa)
  {
    var q := |dfa|;
    if q < |p| then dfa[x][p[q] := (q + 1) % cells] else dfa[x]
  }

  /** One round of `Fill`, unfolded. */
  lemma FillStep(p: seq<u8>, cells: nat, dfa: seq<seq<nat>>, x: nat)
    requires 1 <= |dfa| <= |p| && x < |dfa| && cells >= 2
    requires Wide(dfa) && Bounded(dfa, |p|, cells)
    ensures var grown := dfa + [RoundRow(p, cells, dfa, x)];
            var y := if |dfa| < |p| then grown[x][p[|dfa|]] else x;
            && y < |grown| && Wide(grown) && Bounded(grown, |p|, cells)
            && Fill(p, cells, dfa, x) == Fill(p, cells, grown, y)
  {
    BoundedAppend(dfa, RoundRow(p, cells, dfa, x), |p|, cells);
  }

  /** With wide cells the appended row is the next row of moves. */
  lemma RoundRowMoves(p: seq<u8>, cells: nat, dfa: seq<seq<nat>>, x: nat)
    requires 1 <= |dfa| <= |p| && x < |dfa| && |p| < cells && Wide(dfa)
    requires dfa == Moves(p)[..|dfa|] && x == Overlap(p, p[1..|dfa|])
    ensures dfa + [RoundRow(p, cells, dfa, x)] == Moves(p)[..|dfa| + 1]
  {
    RoundRowWide(p, cells, dfa, x);
    AppendRow(p, dfa, x, RoundRow(p, cells, dfa, x));
  }

  /** Below `cells` the reduction of `q + 1` does nothing. */
  lemma RoundRowWide(p: seq<u8>, cells: nat, dfa: seq<seq<nat>>, x: nat)
    requires 1 <= |dfa| <= |p| && x < |dfa| && |p| < cells && Wide(dfa)
    ensures RoundRow(p, cells, dfa, x) == if |dfa| < |p| then dfa[x][p[|dfa|] := |dfa| + 1] else dfa[x]
  {
    var q := |dfa|;
    if q < |p| {
      ModSmall(q + 1, cells);
    }
  }

  /** One round of `Fill` on the correct rows gives the next correct row
      and the next restart state. */
  lemma Round(p: seq<u8>, cells: nat, dfa: seq<seq<nat>>, x: nat) returns (grown: seq<seq<nat>>, y: nat)
    requires 1 <= |dfa| <= |p| && x < |dfa| && |p| < cells
    requires Wide(dfa) && Bounded(dfa, |p|, cells)
    requires dfa == Moves(p)[..|dfa|] && x == Overlap(p, p[1..|dfa|])
    ensures |grown| == |dfa| + 1 && y < |grown| && Wide(grown) && Bounded(grown, |p|, cells)
    ensures grown == Moves(p)[..|grown|]
    ensures |grown| <= |p| ==> y == Overlap(p, p[1..|grown|])
    ensures Fill(p, cells, dfa, x) == Fill(p, cells, grown, y)
  {
    FillStep(p, cells, dfa, x);
    RoundRowMoves(p, cells, dfa, x);
    grown := dfa + [RoundRow(p, cells, dfa, x)];
    y := if |dfa| < |p| then grown[x][p[|dfa|]] else x;
    if |dfa| < |p| {
      assert grown[x] == dfa[x];
      RestartAdvances(p, dfa, x);
    }
  }

  lemma {:induction false} FillCorrect(p: seq<u8>, cells: nat, dfa: seq<seq<nat>>, x: nat)
    requires 1 <= |dfa| <= |p| + 1 && x < |dfa| && 1 <= |p| < cells
    requires Wide(dfa) && Bounded(dfa, |p|, cells)
    requires dfa == Moves(p)[..|dfa|]
    requires |dfa| <= |p| ==> x == Overlap(p, p[1..|dfa|])
    ensures Fill(p, cells, dfa, x) == Moves(p)
    decreases |p| + 1 - |dfa|
  {
    if |dfa| == |p| + 1 {
      assert dfa == Moves(p);
    } else {
      var grown, y := Round(p, cells, dfa, x);
      FillCorrect(p, cells, grown, y);
    }
  }

  /** With cells wide enough for every state, the automaton
      `cflat__dfa_new` builds is the KMP automaton of the pattern. */
  lemma DfaNewCorrect(p: seq<u8>, cells: nat)
    requires |p| >= 1 && |p| < cells
    ensures Correct(DfaNew(p, cells), p)
  {
    FirstRowAgrees(p);
    FillCorrect(p, cells, [FirstRow(p)], 0);
    MovesCorrect(p);
  }

  /* ---------------------------------------------------------------------- */
  /*  The scans                                                              */
  /* ---------------------------------------------------------------------- */

  /** After a byte, the state of a correct automaton is the overlap of
      the text read so far; it reaches `|p|` exactly where an occurrence
      ends. */
  lemma ScanStep(text: seq<u8>, p: seq<u8>, dfa: seq<seq<nat>>, i: nat, state: nat)
    requires Correct(dfa, p) && |p| >= 1 && i < |text|
    requires state == Overlap(p, text[..i])
    ensures dfa[state][text[i]] == Overlap(p, text[..i + 1])
    ensures i + 1 >= |p| ==> (dfa[state][text[i]] == |p| <==> MatchAt(text, p, i + 1 - |p|))
    ensures i + 1 < |p| ==> dfa[state][text[i]] < |p|
  {
    assert CellOk(dfa, p, state, text[i]);
    OverlapStep(p, text[..i], text[i]);
    assert text[..i] + [text[i]] == text[..i + 1];
    if i + 1 >= |p| {
      MatchEnds(text, p, i + 1);
      FullOverlap(p, text[..i + 1]);
    }
  }

  /** No occurrence starts in `lo..` and ends by `n`. */
  predicate NoneIn(text: seq<u8>, p: seq<u8>, lo: nat, n: nat) {
    forall j: nat :: lo <= j && j + |p| <= n ==> !MatchAt(text, p, j)
  }

  /** One more byte read without an occurrence ending there. */
  lemma NoneExtends(text: seq<u8>, p: seq<u8>, lo: nat, n: nat)
    requires NoneIn(text, p, lo, n)
    requires n + 1 >= |p| + lo ==> !MatchAt(text, p, n + 1 - |p|)
    ensures NoneIn(text, p, lo, n + 1)
  {
  }

  /** Every cell is below `|p|`: the automaton never reports a match. */
  predicate NeverAccepts(dfa: seq<seq<nat>>, p: seq<u8>)
    requires Shaped(dfa, |p|)
  {
    forall q, c :: 0 <= q <= |p| && 0 <= c < 256 ==> dfa[q][c] < |p|
  }

  /** The loop shared by `cflat_sv_find_index_sv` and
      `cflat_sv_find_last_index_sv`, from byte `i` in `state` with the
      index found so far `found`.  Each time the state reaches `|p|` the
      index moves to the occurrence ending there; `leaves` says whether the
      loop is then left (the first-occurrence search) or goes on (the
      last-occurrence search). */
  function Scan(text: seq<u8>, p: seq<u8>, dfa: seq<seq<nat>>, i: nat, state: nat, found: int, leaves: bool): (r: int)
    requires Shaped(dfa, |p|) && InRange(dfa, |p|) && i <= |text| && state <= |p|
    ensures r == found || i + 1 <= r + |p| <= |text|
    decreases |text| - i
  {
    if i == |text| then found
    else
      var next := dfa[state][text[i]];
      if next == |p| && leaves then i + 1 - |p|
      else Scan(text, p, dfa, i + 1, next, if next == |p| then i + 1 - |p| else found, leaves)
  }

  /** No occurrence anywhere: both searches give -1. */
  lemma NoneAnywhere(text: seq<u8>, p: seq<u8>)
    requires NoneIn(text, p, 0, |text|)
    ensures First(text, p) == -1 && Last(text, p) == -1
  {
    FirstIs(text, p, -1);
    LastIs(text, p, -1);
  }

  /** The first occurrence ending at byte `i` with none ending earlier. */
  lemma FirstAt(text: seq<u8>, p: seq<u8>, i: nat)
    requires i + 1 >= |p| && NoneIn(text, p, 0, i) && MatchAt(text, p, i + 1 - |p|)
    ensures First(text, p) == i + 1 - |p|
  {
    FirstIs(text, p, i + 1 - |p|);
  }

  /** Leaving at the first hit finds the first occurrence. */
  lemma {:induction false} ScanFirstSpec(text: seq<u8>, p: seq<u8>, dfa: seq<seq<nat>>, i: nat, state: nat)
    requires Shaped(dfa, |p|) && InRange(dfa, |p|) && Correct(dfa, p) && |p| >= 1 && i <= |text|
    requires state == Overlap(p, text[..i]) && NoneIn(text, p, 0, i)
    ensures Scan(text, p, dfa, i, state, -1, true) == First(text, p)
    decreases |text| - i
  {
    if i == |text| {
      NoneAnywhere(text, p);
    } else {
      ScanStep(text, p, dfa, i, state);
      var next := dfa[state][text[i]];
      if next == |p| {
        FirstAt(text, p, i);
      } else {
        NoneExtends(text, p, 0, i);
        ScanFirstSpec(text, p, dfa, i + 1, next);
      }
    }
  }

  /** Going on after every hit finds the last occurrence. */
  lemma {:induction false} ScanLastSpec(text: seq<u8>, p: seq<u8>, dfa: seq<seq<nat>>, i: nat, state: nat, found: int)
    requires Shaped(dfa, |p|) && InRange(dfa, |p|) && Correct(dfa, p) && |p| >= 1 && i <= |text| && state == Overlap(p, text[..i])
    requires found == -1 ==> NoneIn(text, p, 0, i)
    requires found != -1 ==> 0 <= found && MatchAt(text, p, found) && NoneIn(text, p, found + 1, i)
    ensures Scan(text, p, dfa, i, state, found, false) == Last(text, p)
    decreases |text| - i
  {
    if i == |text| {
      LastIs(text, p, found);
    } else {
      ScanStep(text, p, dfa, i, state);
      var next := dfa[state][text[i]];
      if next == |p| {
        ScanLastSpec(text, p, dfa, i + 1, next, i + 1 - |p|);
      } else {
        NoneExtends(text, p, if found == -1 then 0 else found + 1, i);
        ScanLastSpec(text, p, dfa, i + 1, next, found);
      }
    }
  }

  /** An automaton that never accepts reports nothing. */
  lemma {:induction false} ScanNever(text: seq<u8>, p: seq<u8>, dfa: seq<seq<nat>>, i: nat, state: nat, leaves: bool)
    requires Shaped(dfa, |p|) && InRange(dfa, |p|) && NeverAccepts(dfa, p) && i <= |text| && state <= |p|
    ensures Scan(text, p, dfa, i, state, -1, leaves) == -1
    decreases |text| - i
  {
    if i < |text| {
      ScanNever(text, p, dfa, i + 1, dfa[state][text[i]], leaves);
    }
  }

  /* ---------------------------------------------------------------------- */
  /*  The searches                                                           */
  /* ---------------------------------------------------------------------- */

  /** The byte cells of the source's automaton. */
  const ByteCells: nat := 256

  /** `cflat_sv_find_index_sv` for a non-empty pattern: the automaton in
      byte cells, then the scan.  The library defines no `scope_exit`;
      `leaves` selects its reading: leaving the scan, as the name intends,
      or `continue` (the library's `cflat_defer_exit`), which only ends the
      current round of the inner loop. */
  function FindIndex(text: seq<u8>, p: seq<u8>, leaves: bool): (r: int)
    requires |p| >= 1
    ensures r == -1 || r + |p| <= |text|
  {
    Scan(text, p, DfaNew(p, ByteCells), 0, 0, -1, leaves)
  }

  /** `cflat_sv_find_last_index_sv` for a non-empty pattern. */
  function FindLastIndex(text: seq<u8>, p: seq<u8>): int
    requires |p| >= 1
  {
    Scan(text, p, DfaNew(p, ByteCells), 0, 0, -1, false)
  }

  /** A pattern longer than 255 bytes: every cell is a byte, below the
      accepting state, so nothing is ever found. */
  lemma LongNeverAccepts(p: seq<u8>, cells: nat)
    requires cells >= 2 && |p| >= cells
    ensures NeverAccepts(DfaNew(p, cells), p)
  {
  }

  /** The automaton of a correct width finds the first and the last
      occurrence. */
  lemma ScansCorrect(text: seq<u8>, p: seq<u8>, cells: nat)
    requires 1 <= |p| < cells
    ensures Scan(text, p, DfaNew(p, cells), 0, 0, -1, true) == First(text, p)
    ensures Scan(text, p, DfaNew(p, cells), 0, 0, -1, false) == Last(text, p)
  {
    var dfa := DfaNew(p, cells);
    DfaNewCorrect(p, cells);
    OverlapOfEmpty(p, text);
    ScanFirstSpec(text, p, dfa, 0, 0);
    ScanLastSpec(text, p, dfa, 0, 0, -1);
  }

  /** Nothing has been read: the overlap is 0. */
  lemma OverlapOfEmpty(p: seq<u8>, text: seq<u8>)
    ensures Overlap(p, text[..0]) == 0
  {
  }

  /** `cflat_sv_find_index_sv` returns the first occurrence when the scan
      is left at the first hit, the last one when the exit is a `continue`,
      and -1 for every pattern longer than 255 bytes. */
  lemma FindIndexSpec(text: seq<u8>, p: seq<u8>)
    requires |p| >= 1
    ensures |p| < ByteCells ==> FindIndex(text, p, true) == First(text, p)
    ensures |p| < ByteCells ==> FindIndex(text, p, false) == Last(text, p)
    ensures |p| >= ByteCells ==> FindIndex(text, p, true) == -1 && FindIndex(text, p, false) == -1
  {
    if |p| < ByteCells {
      ScansCorrect(text, p, ByteCells);
    } else {
      LongNeverAccepts(p, ByteCells);
      ScanNever(text, p, DfaNew(p, ByteCells), 0, 0, true);
      ScanNever(text, p, DfaNew(p, ByteCells), 0, 0, false);
    }
  }

  /** `cflat_sv_find_last_index_sv` returns the last occurrence, and -1
      for every pattern longer than 255 bytes. */
  lemma FindLastIndexSpec(text: seq<u8>, p: seq<u8>)
    requires |p| >= 1
    ensures |p| < ByteCells ==> FindLastIndex(text, p) == Last(text, p)
    ensures |p| >= ByteCells ==> FindLastIndex(text, p) == -1
  {
    FindIndexSpec(text, p);
  }

  /** The two readings of the exit differ: in "aa" the first "a" is at 0,
      the last at 1. */
  lemma ExitReadingsDiffer()
    ensures First([97, 97], [97]) == 0 && Last([97, 97], [97]) == 1
  {
    assert MatchAt([97, 97], [97], 0);
    assert MatchAt([97, 97], [97], 1);
    assert !MatchAt([97, 97], [97], 2);
    assert LastBelow([97, 97], [97], 3) == LastBelow([97, 97], [97], 2);
  }

  /** A pattern of 256 bytes or more occurs in itself, yet the search in
      byte cells does not find it. */
  lemma LongPatternMissed(p: seq<u8>)
    requires |p| >= ByteCells
    ensures First(p, p) == 0 && FindIndex(p, p, true) == -1
  {
    assert MatchAt(p, p, 0) by {
      assert p[0..|p|] == p;
    }
    FindIndexSpec(p, p);
  }

  /** The search with cells wide enough for every state, `|p| + 1`. */
  function FindIndexWide(text: seq<u8>, p: seq<u8>): int
    requires |p| >= 1
  {
    Scan(text, p, DfaNew(p, |p| + 1), 0, 0, -1, true)
  }

  /** With wide cells the search finds the first occurrence of every
      pattern. */
  lemma FindIndexWideSpec(text: seq<u8>, p: seq<u8>)
    requires |p| >= 1
    ensures FindIndexWide(text, p) == First(text, p)
  {
    ScansCorrect(text, p, |p| + 1);
  }

  /* ---------------------------------------------------------------------- */
  /*  The empty pattern                                                      */
  /* ---------------------------------------------------------------------- */

  /** The search for an empty pattern.  `cflat__dfa_new` builds one row and
      sets the cell of `pattern.data[0]`, the byte `beyond` just past the
      view, to 1; the accepting state is 0.  Reaching state 1 makes the
      next round read row 1, past the table (`Faults`). */
  function EmptyScan(text: seq<u8>, beyond: u8, i: nat, state: nat, found: int, leaves: bool): (r: Outcome<int>)
    requires i <= |text| && state <= 1
    decreases |text| - i
  {
    if i == |text| then Done(found)
    else if state == 1 then Faults
    else
      var next := if text[i] == beyond then 1 else 0;
      if next == 0 && leaves then Done(i + 1)
      else EmptyScan(text, beyond, i + 1, next, if next == 0 then i + 1 else found, leaves)
  }

  /** `cflat_sv_find_index_sv` with an empty pattern. */
  function FindIndexEmpty(text: seq<u8>, beyond: u8, leaves: bool): Outcome<int>
  {
    EmptyScan(text, beyond, 0, 0, -1, leaves)
  }

  /** The empty pattern occurs at 0 in every text, yet the search reports
      1 when the first byte is not the one past the pattern, -1 for an
      empty text, and reads past the table otherwise. */
  lemma FindIndexEmptySpec(text: seq<u8>, beyond: u8)
    ensures First(text, []) == 0
    ensures |text| == 0 ==> FindIndexEmpty(text, beyond, true) == Done(-1)
    ensures |text| >= 1 && text[0] != beyond ==> FindIndexEmpty(text, beyond, true) == Done(1)
    ensures |text| >= 2 && text[0] == beyond ==> FindIndexEmpty(text, beyond, true) == Faults
  {
    assert MatchAt(text, [], 0);
    if |text| >= 2 && text[0] == beyond {
      assert EmptyScan(text, beyond, 1, 1, -1, true) == Faults;
    }
  }
}
