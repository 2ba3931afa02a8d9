/** The column at which text that is already on the screen must have started, found by trying all of them. */
module StartColumn {
  import opened Basics
  import opened Wide
  import opened CookedLayout

  const MAX_COORD := 0x7FFF_FFFF

  // -- The order of the attempts ----------------------------------------------------------------------------

  /** Offsets 0, 1, -1, 2, -2, ... */
  function Offset(i: nat): int { if i % 2 == 1 then i / 2 + 1 else -(i / 2) }

  /** The attempt at which an offset comes up. */
  function Attempt(d: int): nat { if d > 0 then 2 * d - 1 else -2 * d }

  // -- The bit trick ----------------------------------------------------------------------------------------

  function Pow2(n: nat): (r: nat)
    ensures r >= 1
  {
    if n == 0 then 1 else 2 * Pow2(n - 1)
  }

  /** Words of n bits as numbers: exclusive or bit by bit, and the number a word stands for in two's complement. */
  function Xor(a: nat, b: nat, n: nat): nat {
    if n == 0 then 0 else (if a % 2 == b % 2 then 0 else 1) + 2 * Xor(a / 2, b / 2, n - 1)
  }

  function Wrapped(z: int, n: nat): nat { z % Pow2(n) }

  function Signed(w: nat, n: nat): int
    requires n > 0
  {
    if w < Pow2(n - 1) then w else w - Pow2(n)
  }

  /** The offset as it is computed: ((i >> 1) ^ ((i & 1) - 1)) + 1 on words of n bits. */
  function Trick(i: nat, n: nat): nat { Wrapped(Xor(i / 2, Wrapped(i % 2 - 1, n), n) + 1, n) }

  lemma {:induction false} XorZero(a: nat, n: nat)
    requires a < Pow2(n)
    ensures Xor(a, 0, n) == a
    decreases n
  {
    if n == 0 {
    } else {
      XorZero(a / 2, n - 1);
    }
  }

  lemma {:induction false} XorOnes(a: nat, n: nat)
    requires a < Pow2(n)
    ensures Xor(a, Pow2(n) - 1, n) == Pow2(n) - 1 - a
    decreases n
  {
    if n == 0 {
    } else {
      assert (Pow2(n) - 1) / 2 == Pow2(n - 1) - 1;
      XorOnes(a / 2, n - 1);
    }
  }

  lemma SmallIsItself(a: nat, m: nat)
    requires a < m
    ensures a % m == a
  {}

  lemma MinusOne(m: nat)
    requires m > 0
    ensures -1 % m == m - 1 && m % m == 0
  {
    SmallIsItself(m - 1, m);
    assert -1 == (-1) * m + (m - 1);
  }

  lemma OddTrick(k: nat, n: nat, m: nat)
    requires m == Pow2(n) && k + 1 < m
    ensures Trick(2 * k + 1, n) == k + 1
  {
    assert (2 * k + 1) / 2 == k && (2 * k + 1) % 2 - 1 == 0;
    SmallIsItself(0, m);
    XorZero(k, n);
    SmallIsItself(k + 1, m);
  }

  lemma EvenTrick(k: nat, n: nat, m: nat)
    requires m == Pow2(n) && k < m
    ensures Trick(2 * k, n) == if k == 0 then 0 else m - k
  {
    assert (2 * k) / 2 == k && (2 * k) % 2 - 1 == -1;
    MinusOne(m);
    XorOnes(k, n);
    if k > 0 { SmallIsItself(m - k, m); }
  }

  /** The bit trick computes the offset of every attempt, as long as the attempt is a coordinate. */
  lemma BitTrick(i: nat, n: nat)
    requires n >= 2 && i < Pow2(n - 1)
    ensures Signed(Trick(i, n), n) == Offset(i)
  {
    var m, k := Pow2(n), i / 2;
    assert m == 4 * Pow2(n - 2);
    if i % 2 == 1 {
      assert i == 2 * k + 1;
      OddTrick(k, n, m);
    } else {
      assert i == 2 * k;
      EvenTrick(k, n, m);
    }
  }

  /** Every column comes up exactly once among the attempts. */
  lemma ZigZagVisitsOnce(guess: nat, width: nat, column: nat)
    requires guess < width && column < width
    ensures Attempt(column - guess) <= 2 * width
    ensures forall i: nat :: guess + Offset(i) == column <==> i == Attempt(column - guess)
  {}

  // -- The search -------------------------------------------------------------------------------------------

  function Abs(x: int): nat { if x < 0 then -x else x }

  /** Where the text ends if it starts at the column. */
  function EndFrom(g: Glyphs, s: wstring, width: nat, column: nat): (r: At)
    requires column < width && Flows(s, width)
    ensures r.column < width
  {
    End(g, s, width, At(0, column, 0))
  }

  function Distance(g: Glyphs, s: wstring, width: nat, column: nat, x: nat): nat
    requires column < width && Flows(s, width)
  {
    Abs(EndFrom(g, s, width, column).column - x)
  }

  ghost function Distances(g: Glyphs, s: wstring, width: nat, x: nat): (ds: seq<nat>)
    requires Flows(s, width)
    ensures |ds| == width && forall c :: 0 <= c < width ==> ds[c] == Distance(g, s, width, c, x)
  {
    seq(width, c requires 0 <= c < width && Flows(s, width) => Distance(g, s, width, c, x))
  }

  /** The column is at least as good as c: nearer to the cursor at its end, or as near and tried no later. */
  ghost predicate AsGood(ds: seq<nat>, guess: nat, best: nat, c: nat)
    requires best < |ds| && c < |ds|
  {
    ds[best] < ds[c] || (ds[best] == ds[c] && Attempt(best - guess) <= Attempt(c - guess))
  }

  /** Of the columns that come up in the first n attempts, one of which is `best`, none is better. */
  ghost predicate BestOf(ds: seq<nat>, guess: nat, best: nat, n: nat) {
    && best < |ds| && Attempt(best - guess) < n
    && forall c: nat :: c < |ds| && Attempt(c - guess) < n ==> AsGood(ds, guess, best, c)
  }

  lemma OutsideChangesNothing(ds: seq<nat>, guess: nat, best: nat, n: nat)
    requires guess < |ds| && BestOf(ds, guess, best, n) && !(0 <= guess + Offset(n) < |ds|)
    ensures BestOf(ds, guess, best, n + 1)
  {
    forall c: nat | c < |ds| && Attempt(c - guess) < n + 1 ensures AsGood(ds, guess, best, c) {
      ZigZagVisitsOnce(guess, |ds|, c);
    }
  }

  lemma NextChangesBest(ds: seq<nat>, guess: nat, best: nat, n: nat, next: nat)
    requires guess < |ds| && BestOf(ds, guess, best, n) && next < |ds| && guess + Offset(n) == next
    ensures BestOf(ds, guess, if ds[next] < ds[best] then next else best, n + 1)
  {
    ZigZagVisitsOnce(guess, |ds|, next);
    var winner := if ds[next] < ds[best] then next else best;
    forall c: nat | c < |ds| && Attempt(c - guess) < n + 1 ensures AsGood(ds, guess, winner, c) {
      ZigZagVisitsOnce(guess, |ds|, c);
      assert c == next || AsGood(ds, guess, best, c);
    }
  }

  lemma FirstIsBest(ds: seq<nat>, guess: nat)
    requires guess < |ds|
    ensures BestOf(ds, guess, guess, 1)
  {
    forall c: nat | c < |ds| && Attempt(c - guess) < 1 ensures AsGood(ds, guess, guess, c) {}
  }

  /** The best start of all. */
  ghost predicate Best(ds: seq<nat>, guess: nat, best: nat) {
    best < |ds| && forall c: nat :: c < |ds| ==> AsGood(ds, guess, best, c)
  }

  lemma BestOfAll(ds: seq<nat>, guess: nat, best: nat, n: nat)
    requires guess < |ds| && BestOf(ds, guess, best, n) && (ds[best] == 0 || n == 2 * |ds| + 1)
    ensures Best(ds, guess, best)
  {
    forall c: nat | c < |ds| ensures AsGood(ds, guess, best, c) {
      ZigZagVisitsOnce(guess, |ds|, c);
      if Attempt(c - guess) < n {
        assert AsGood(ds, guess, best, c);
      }
    }
  }

  method EndOfText(g: Glyphs, s: wstring, width: nat, columnBegin: nat) returns (column: nat, newlineCount: nat)
    requires columnBegin < width && Flows(s, width)
    ensures EndFrom(g, s, width, columnBegin) == At(|s|, column, newlineCount)
  {
    var beg: nat := 0;
    column, newlineCount := columnBegin, 0;
    while beg < |s|
      invariant Ready(s, width, At(beg, column, newlineCount))
      invariant End(g, s, width, At(beg, column, newlineCount)) == EndFrom(g, s, width, columnBegin)
      decreases Work(s, At(beg, column, newlineCount))
    {
      RoundWorks(g, s, width, At(beg, column, newlineCount));
      beg, column, newlineCount := OneRound(g, s, width, beg, column, newlineCount);
    }
  }

  method OneRound(g: Glyphs, s: wstring, width: nat, beg0: nat, column0: nat, newlines0: nat)
    returns (beg: nat, column: nat, newlines: nat)
    requires Ready(s, width, At(beg0, column0, newlines0))
    ensures At(beg, column, newlines) == Round(g, s, width, At(beg0, column0, newlines0))
  {
    var line;
    line, beg, column := LayoutLine(g, [], s, beg0, column0, width);
    newlines := newlines0;
    if column >= width {
      column := 0;
      newlines := newlines + 1;
    }
  }

  method Measure(g: Glyphs, s: wstring, width: nat, x: nat, columnBegin: nat, ghost ds: seq<nat>)
    returns (distance: nat, newlines: nat)
    requires 0 < width < MAX_COORD && x < MAX_COORD && Flows(s, width) && ds == Distances(g, s, width, x)
             && columnBegin < width
    ensures distance == ds[columnBegin] && distance < MAX_COORD
            && newlines == EndFrom(g, s, width, columnBegin).newlines
  {
    var column;
    column, newlines := EndOfText(g, s, width, columnBegin);
    distance := Abs(column - x);
  }

  function Guess(s: wstring, width: nat, x: nat): (r: nat)
    requires width > 0
    ensures r < width
  {
    (x - |s| % width + width) % width
  }

  /** The start that brings the end of the text nearest to the cursor; of several the first to be tried. */
  method FindStartColumn(g: Glyphs, s: wstring, width: nat, x: nat) returns (best: nat, newlines: nat)
    requires 0 < width < MAX_COORD / 2 && x < MAX_COORD && Flows(s, width)
    ensures Best(Distances(g, s, width, x), Guess(s, width, x), best)
    ensures newlines == EndFrom(g, s, width, best).newlines
  {
    ghost var ds := Distances(g, s, width, x);
    var guess := Guess(s, width, x);
    FirstIsBest(ds, guess);
    var bestDistance := MAX_COORD;
    best, newlines := 0, 0;
    var i: nat := 0;
    while i <= 2 * width
      invariant best < width && i <= 2 * width + 1
      invariant if i == 0 then bestDistance == MAX_COORD else
                BestOf(ds, guess, best, i) && bestDistance == ds[best]
                  && newlines == EndFrom(g, s, width, best).newlines
    {
      var columnBegin := guess + Offset(i);
      if columnBegin < 0 || columnBegin >= width {
        OutsideChangesNothing(ds, guess, best, i);
      } else {
        if i > 0 { NextChangesBest(ds, guess, best, i, columnBegin); }
        var distance, newlineCount := Measure(g, s, width, x, columnBegin, ds);
        if distance < bestDistance {
          bestDistance, best, newlines := distance, columnBegin, newlineCount;
        }
        if distance == 0 {
          BestOfAll(ds, guess, best, i + 1);
          return;
        }
      }
      i := i + 1;
    }
    BestOfAll(ds, guess, best, i);
  }

  /** Where the text on the screen started: never above the viewport. */
  method FindOrigin(g: Glyphs, s: wstring, width: nat, height: nat, x: nat, y: nat)
    returns (originX: nat, originY: nat, pagerHeight: nat)
    requires 0 < width < MAX_COORD / 2 && 0 < height && x < MAX_COORD && Flows(s, width)
    ensures exists best: nat ::
              && Best(Distances(g, s, width, x), Guess(s, width, x), best)
              && (var lines := EndFrom(g, s, width, best).newlines;
                  && (if lines <= y then originX == best && originY + lines == y else originX == 0 && originY == 0)
                  && pagerHeight == Min(height, lines + 1))
  {
    var best, newlines := FindStartColumn(g, s, width, x);
    originX := best;
    originY := 0;
    if y - newlines < 0 {
      originX := 0;
    } else {
      originY := y - newlines;
    }
    pagerHeight := Min(height, newlines + 1);
  }
}
