/** The rewriting of line feeds for a terminal whose line feed keeps the column. */
module NewlineTranslation {
  import opened Wide

  const CR: wchar := 13
  const LF: wchar := 10

  predicate Breaks(c: wchar) { c == CR || c == LF }

  /** A line feed that starts a run of carriage returns and line feeds. */
  predicate NeedsCr(s: wstring, i: nat)
    requires i < |s|
  {
    s[i] == LF && (i == 0 || !Breaks(s[i - 1]))
  }

  /** Output that remembers which carriage returns were inserted. */
  datatype Mark = Inserted | Orig(c: wchar)

  function Here(s: wstring, i: nat): seq<Mark>
    requires i < |s|
  {
    if NeedsCr(s, i) then [Inserted, Orig(s[i])] else [Orig(s[i])]
  }

  /** The translation of the first n units. */
  function Marked(s: wstring, n: nat): seq<Mark>
    requires n <= |s|
  {
    if n == 0 then [] else Marked(s, n - 1) + Here(s, n - 1)
  }

  function Emit(m: Mark): wchar { if m.Inserted? then CR else m.c }

  function Flatten(ms: seq<Mark>): wstring {
    if ms == [] then [] else Flatten(ms[..|ms| - 1]) + [Emit(ms[|ms| - 1])]
  }

  /** The output with the inserted carriage returns deleted. */
  function Erase(ms: seq<Mark>): wstring {
    if ms == [] then [] else Erase(ms[..|ms| - 1]) + if ms[|ms| - 1].Inserted? then [] else [ms[|ms| - 1].c]
  }

  function Cr(b: bool): wstring { if b then [CR] else [] }

  /** The output for the first n units. */
  function Out(s: wstring, n: nat): wstring
    requires n <= |s|
  {
    if n == 0 then [] else Out(s, n - 1) + Cr(NeedsCr(s, n - 1)) + [s[n - 1]]
  }

  function Translate(s: wstring): wstring { Out(s, |s|) }

  lemma FlattenSnoc(ms: seq<Mark>, m: Mark)
    ensures Flatten(ms + [m]) == Flatten(ms) + [Emit(m)]
  {
    assert (ms + [m])[..|ms|] == ms;
  }

  lemma EraseSnoc(ms: seq<Mark>, m: Mark)
    ensures Erase(ms + [m]) == Erase(ms) + if m.Inserted? then [] else [m.c]
  {
    assert (ms + [m])[..|ms|] == ms;
  }

  /** What the last of the first n units adds to the output. */
  lemma FlattenLast(s: wstring, n: nat)
    requires 0 < n <= |s|
    ensures Flatten(Marked(s, n)) == Flatten(Marked(s, n - 1)) + Cr(NeedsCr(s, n - 1)) + [s[n - 1]]
  {
    var m, c := Marked(s, n - 1), s[n - 1];
    if NeedsCr(s, n - 1) {
      assert m + Here(s, n - 1) == m + [Inserted] + [Orig(c)];
      FlattenSnoc(m, Inserted);
      FlattenSnoc(m + [Inserted], Orig(c));
    } else {
      FlattenSnoc(m, Orig(c));
      assert Flatten(m) + [] == Flatten(m);
    }
  }

  /** The marked output is the output. */
  lemma {:induction false} FlattenIsOut(s: wstring, n: nat)
    requires n <= |s|
    ensures Flatten(Marked(s, n)) == Out(s, n)
  {
    if n == 0 {
    } else {
      calc {
        Flatten(Marked(s, n));
      == { FlattenLast(s, n); }
        Flatten(Marked(s, n - 1)) + Cr(NeedsCr(s, n - 1)) + [s[n - 1]];
      == { FlattenIsOut(s, n - 1); }
        Out(s, n - 1) + Cr(NeedsCr(s, n - 1)) + [s[n - 1]];
      ==
        Out(s, n);
      }
    }
  }

  lemma EraseLast(s: wstring, n: nat)
    requires 0 < n <= |s|
    ensures Erase(Marked(s, n)) == Erase(Marked(s, n - 1)) + [s[n - 1]]
  {
    var m, c := Marked(s, n - 1), s[n - 1];
    if NeedsCr(s, n - 1) {
      assert m + Here(s, n - 1) == m + [Inserted] + [Orig(c)];
      EraseSnoc(m, Inserted);
      EraseSnoc(m + [Inserted], Orig(c));
      assert Erase(m) + [] == Erase(m);
    } else {
      EraseSnoc(m, Orig(c));
    }
  }

  /** Deleting the inserted carriage returns gives the input back. */
  lemma {:induction false} EraseGivesInput(s: wstring, n: nat)
    requires n <= |s|
    ensures Erase(Marked(s, n)) == s[..n]
  {
    if n == 0 {
    } else {
      EraseGivesInput(s, n - 1);
      EraseNext(s, n, s[..n - 1]);
    }
  }

  lemma EraseNext(s: wstring, n: nat, before: wstring)
    requires 0 < n <= |s| && before == s[..n - 1] && Erase(Marked(s, n - 1)) == before
    ensures Erase(Marked(s, n)) == s[..n]
  {
    EraseLast(s, n);
    PrefixSnoc(s, n);
  }

  lemma PrefixSnoc(s: wstring, n: nat)
    requires 0 < n <= |s|
    ensures s[..n - 1] + [s[n - 1]] == s[..n]
  {}

  /** Between two inserted carriage returns lies a unit of the input that ends the run. */
  ghost predicate Separated(ms: seq<Mark>) {
    forall i, j :: 0 <= i < j < |ms| && ms[i].Inserted? && ms[j].Inserted? ==> Between(ms, i, j)
  }

  predicate Ends(m: Mark) { m.Orig? && !Breaks(m.c) }

  ghost predicate Between(ms: seq<Mark>, i: nat, j: nat)
    requires j <= |ms|
  {
    exists k :: i < k < j && Ends(ms[k])
  }

  /** Each run of carriage returns and line feeds gets at most one. */
  lemma {:induction false} OnePerRun(s: wstring, n: nat)
    requires n <= |s|
    ensures Separated(Marked(s, n))
    ensures if n == 0 then Marked(s, n) == []
            else Marked(s, n) != [] && Marked(s, n)[|Marked(s, n)| - 1] == Orig(s[n - 1])
  {
    if n == 0 {
    } else {
      OnePerRun(s, n - 1);
      SeparatedNext(Marked(s, n - 1), Here(s, n - 1));
    }
  }

  lemma SeparatedNext(m: seq<Mark>, h: seq<Mark>)
    requires Separated(m) && |h| > 0 && h[|h| - 1].Orig?
    requires |h| == 1 || (|h| == 2 && (m == [] || Ends(m[|m| - 1])))
    ensures Separated(m + h)
  {
    var ms := m + h;
    forall i, j | 0 <= i < j < |ms| && ms[i].Inserted? && ms[j].Inserted? ensures Between(ms, i, j) {
      if j < |m| {
        assert ms[i] == m[i] && ms[j] == m[j] && Between(m, i, j);
        var k :| i < k < j && Ends(m[k]);
        assert ms[k] == m[k];
      } else {
        assert Ends(ms[|m| - 1]);
      }
    }
  }

  /** The translation only inserts carriage returns, at most one into each run of breaks. */
  lemma TranslationOnlyInserts(s: wstring)
    ensures var ms := Marked(s, |s|); Flatten(ms) == Translate(s) && Erase(ms) == s && Separated(ms)
  {
    FlattenIsOut(s, |s|);
    EraseGivesInput(s, |s|);
    OnePerRun(s, |s|);
    assert s[..|s|] == s;
  }

  // -- Meaning ----------------------------------------------------------------------------------------------

  /** A terminal: what carriage return, line feed and any other unit do to its state. The line feed keeps the
      column. */
  datatype Terminal<!S> = Terminal(cr: S -> S, lf: S -> S, other: (wchar, S) -> S)

  /** Returning to the first column twice is doing it once, and it does not matter whether the cursor returns
      before or after it moves down. */
  ghost predicate Lawful<S(!new)>(t: Terminal<S>) {
    forall x :: LawfulAt(t, x)
  }

  ghost predicate LawfulAt<S>(t: Terminal<S>, x: S) {
    t.cr(t.cr(x)) == t.cr(x) && t.cr(t.lf(x)) == t.lf(t.cr(x))
  }

  /** With autoReturn the line feed also returns to the first column. */
  function Act<S>(t: Terminal<S>, autoReturn: bool, c: wchar, x: S): S {
    if c == CR then t.cr(x)
    else if c == LF then (if autoReturn then t.lf(t.cr(x)) else t.lf(x))
    else t.other(c, x)
  }

  function Play<S>(t: Terminal<S>, autoReturn: bool, s: wstring, n: nat, x: S): S
    requires n <= |s|
  {
    if n == 0 then x else Act(t, autoReturn, s[n - 1], Play(t, autoReturn, s, n - 1, x))
  }

  lemma {:induction false} PlayPrefix<S>(t: Terminal<S>, a: bool, s: wstring, s': wstring, n: nat, x: S)
    requires n <= |s| && n <= |s'| && s[..n] == s'[..n]
    ensures Play(t, a, s, n, x) == Play(t, a, s', n, x)
  {
    if n == 0 {
    } else {
      assert s[..n - 1] == s[..n][..n - 1] && s'[..n - 1] == s'[..n][..n - 1];
      assert s[n - 1] == s[..n][n - 1] && s'[n - 1] == s'[..n][n - 1];
      PlayPrefix(t, a, s, s', n - 1, x);
    }
  }

  lemma PlaySnoc<S>(t: Terminal<S>, a: bool, s: wstring, c: wchar, x: S)
    ensures Play(t, a, s + [c], |s| + 1, x) == Act(t, a, c, Play(t, a, s, |s|, x))
  {
    PlayPrefix(t, a, s + [c], s, |s|, x);
  }

  /** The last of the first n units takes both terminals from the same state to the same state. */
  lemma SameNext<S(!new)>(t: Terminal<S>, s: wstring, n: nat, y: S)
    requires Lawful(t) && 0 < n <= |s| && (n > 1 && Breaks(s[n - 2]) ==> t.cr(y) == y)
    ensures var c := s[n - 1]; var z := Act(t, true, c, y);
            Act(t, false, c, if NeedsCr(s, n - 1) then t.cr(y) else y) == z && (Breaks(c) ==> t.cr(z) == z)
  {
    assert LawfulAt(t, y) && LawfulAt(t, t.cr(y));
  }

  /** Up to unit n both terminals are in the same state, in the first column if the last unit was a break. */
  lemma {:induction false} SameState<S(!new)>(t: Terminal<S>, s: wstring, n: nat, x: S)
    requires Lawful(t) && n <= |s|
    ensures Play(t, false, Out(s, n), |Out(s, n)|, x) == Play(t, true, s, n, x)
    ensures n > 0 && Breaks(s[n - 1]) ==> t.cr(Play(t, true, s, n, x)) == Play(t, true, s, n, x)
  {
    if n == 0 {
    } else {
      SameState(t, s, n - 1, x);
      PlayOne(t, Out(s, n - 1), NeedsCr(s, n - 1), s[n - 1], x);
      SameNext(t, s, n, Play(t, true, s, n - 1, x));
    }
  }

  lemma PlayOne<S>(t: Terminal<S>, out: wstring, cr: bool, c: wchar, x: S)
    ensures var out', y := out + Cr(cr) + [c], Play(t, false, out, |out|, x);
            Play(t, false, out', |out'|, x) == Act(t, false, c, if cr then t.cr(y) else y)
  {
    if cr {
      PlaySnoc(t, false, out, CR, x);
      PlaySnoc(t, false, out + [CR], c, x);
    } else {
      assert out + [] == out;
      PlaySnoc(t, false, out, c, x);
    }
  }

  /** The translation on a terminal whose line feed keeps the column ends as the input does on one whose line feed
      returns, whatever other characters do. */
  lemma TranslationKeepsMeaning<S(!new)>(t: Terminal<S>, s: wstring, x: S)
    requires Lawful(t)
    ensures Play(t, false, Translate(s), |Translate(s)|, x) == Play(t, true, s, |s|, x)
  {
    SameState(t, s, |s|, x);
  }

  // -- The writer's loop ------------------------------------------------------------------------------------

  method FindLf(s: wstring, from: nat) returns (i: nat)
    requires from <= |s|
    ensures from <= i <= |s| && (forall k :: from <= k < i ==> s[k] != LF) && (i < |s| ==> s[i] == LF)
  {
    i := from;
    while i < |s| && s[i] != LF
      invariant from <= i <= |s| && forall k :: from <= k < i ==> s[k] != LF
    {
      i := i + 1;
    }
  }

  lemma {:induction false} CopyVerbatim(s: wstring, b: nat, e: nat)
    requires b < e <= |s| && forall k :: b < k < e ==> !NeedsCr(s, k)
    ensures Out(s, e) == Out(s, b) + Cr(NeedsCr(s, b)) + s[b..e]
    decreases e
  {
    if e - 1 > b {
      calc {
        Out(s, e);
      == { assert Out(s, e - 1) + [] == Out(s, e - 1); }
        Out(s, e - 1) + [s[e - 1]];
      == { CopyVerbatim(s, b, e - 1); }
        Out(s, b) + Cr(NeedsCr(s, b)) + s[b..e - 1] + [s[e - 1]];
      ==
        Out(s, b) + Cr(NeedsCr(s, b)) + s[b..e];
      }
    } else {
      assert s[b..e] == [s[b]];
    }
  }

  /** Emits the text up to each line feed that starts a run, a carriage return if it is not preceded by one, and
      goes on past the run. */
  method WriteTranslated(s: wstring) returns (out: wstring)
    ensures out == Translate(s)
  {
    out := [];
    var begCopy, endCopy := 0, 0;
    while true
      invariant begCopy <= endCopy <= |s|
      invariant begCopy == endCopy ==> begCopy == 0 && out == []
      invariant begCopy < endCopy ==>
                  out == Out(s, begCopy) + Cr(NeedsCr(s, begCopy))
      invariant forall k :: begCopy < k < endCopy ==> !NeedsCr(s, k)
      invariant begCopy < endCopy < |s| ==> !Breaks(s[endCopy])
      decreases |s| - begCopy, begCopy == endCopy
    {
      ghost var b := begCopy;
      ghost var mid := endCopy;
      endCopy := FindLf(s, endCopy);
      assert forall k :: mid <= k < endCopy ==> !NeedsCr(s, k);
      if b < endCopy { CopyVerbatim(s, b, endCopy); }
      out := out + s[begCopy..endCopy];
      begCopy := endCopy;
      assert out == Out(s, begCopy);
      if begCopy == |s| {
        break;
      }
      if begCopy == 0 || s[begCopy - 1] != CR {
        out := out + [CR];
      }
      endCopy := PastRun(s, endCopy);
    }
  }

  method PastRun(s: wstring, from: nat) returns (i: nat)
    requires from < |s| && Breaks(s[from])
    ensures from < i <= |s| && (forall k :: from <= k < i ==> Breaks(s[k])) && (i < |s| ==> !Breaks(s[i]))
  {
    i := from + 1;
    while i < |s| && Breaks(s[i])
      invariant from < i <= |s| && forall k :: from <= k < i ==> Breaks(s[k])
    {
      i := i + 1;
    }
  }
}
