/** Escaping of command line arguments, and the rules by which they are split again. */
module Arguments {
  import opened Wide

  const QUOTE: wchar := 34
  const BACKSLASH: wchar := 92
  const SPACE: wchar := 32
  const TAB: wchar := 9

  predicate IsBlank(c: wchar) { c == SPACE || c == TAB }

  function Slashes(n: nat): (r: wstring)
    ensures |r| == n
  {
    if n == 0 then [] else Slashes(n - 1) + [BACKSLASH]
  }

  // -- Splitting --------------------------------------------------------------------------------------------

  /** Between arguments, or in one: its characters so far, whether inside quotes, and how many backslashes are
      still to be interpreted. */
  datatype Mode = Between | In(arg: wstring, quoted: bool, slashes: nat)

  datatype Splitter = Splitter(done: seq<wstring>, mode: Mode)

  /** The documented rules for arguments after the program name: 2n backslashes before a quotation mark are n
      backslashes and the mark begins or ends a quoted part; 2n+1 are n backslashes and a literal mark; other
      backslashes are literal; blanks outside quotes separate arguments. */
  function FeedIn(done: seq<wstring>, arg: wstring, quoted: bool, slashes: nat, c: wchar): Splitter {
    if c == BACKSLASH then Splitter(done, In(arg, quoted, slashes + 1))
    else if c == QUOTE then
      if slashes % 2 == 0 then Splitter(done, In(arg + Slashes(slashes / 2), !quoted, 0))
      else Splitter(done, In(arg + Slashes(slashes / 2) + [QUOTE], quoted, 0))
    else if IsBlank(c) && !quoted then Splitter(done + [arg + Slashes(slashes)], Between)
    else Splitter(done, In(arg + Slashes(slashes) + [c], quoted, 0))
  }

  function Feed(p: Splitter, c: wchar): Splitter {
    match p.mode
    case Between => if IsBlank(c) then p else FeedIn(p.done, [], false, 0, c)
    case In(arg, quoted, slashes) => FeedIn(p.done, arg, quoted, slashes, c)
  }

  function FeedAll(p: Splitter, s: wstring): Splitter
    decreases |s|
  {
    if s == [] then p else Feed(FeedAll(p, s[..|s| - 1]), s[|s| - 1])
  }

  function Finish(p: Splitter): seq<wstring> {
    match p.mode
    case Between => p.done
    case In(arg, _, slashes) => p.done + [arg + Slashes(slashes)]
  }

  function Split(s: wstring): seq<wstring> { Finish(FeedAll(Splitter([], Between), s)) }

  lemma FeedSnoc(p: Splitter, s: wstring, c: wchar)
    ensures FeedAll(p, s + [c]) == Feed(FeedAll(p, s), c)
  {
    assert (s + [c])[..|s|] == s;
  }

  lemma {:induction false} FeedConcat(p: Splitter, s: wstring, t: wstring)
    ensures FeedAll(p, s + t) == FeedAll(FeedAll(p, s), t)
    decreases |t|
  {
    if t == [] {
      assert s + t == s;
    } else {
      var t', c := t[..|t| - 1], t[|t| - 1];
      calc {
        FeedAll(p, s + t);
      == { assert s + t == s + t' + [c]; }
        FeedAll(p, s + t' + [c]);
      == { FeedSnoc(p, s + t', c); }
        Feed(FeedAll(p, s + t'), c);
      == { FeedConcat(p, s, t'); }
        Feed(FeedAll(FeedAll(p, s), t'), c);
      == FeedAll(FeedAll(p, s), t);
      }
    }
  }

  // -- Escaping ---------------------------------------------------------------------------------------------

  /** The text built so far and the backslashes at its end that the input has there. */
  datatype Body = Body(buf: wstring, slashes: nat)

  function BodyNext(b: Body, c: wchar): Body {
    if c == BACKSLASH then Body(b.buf + [BACKSLASH], b.slashes + 1)
    else if c == QUOTE then Body(b.buf + Slashes(b.slashes) + [BACKSLASH, QUOTE], 0)
    else Body(b.buf + [c], 0)
  }

  function BodyOf(s: wstring, n: nat): Body
    requires n <= |s|
  {
    if n == 0 then Body([], 0) else BodyNext(BodyOf(s, n - 1), s[n - 1])
  }

  predicate HasBlank(s: wstring, n: nat)
    requires n <= |s|
  {
    n > 0 && (HasBlank(s, n - 1) || IsBlank(s[n - 1]))
  }

  function Escape(s: wstring): wstring {
    var b := BodyOf(s, |s|);
    if s == [] then [QUOTE, QUOTE]
    else if HasBlank(s, |s|) then [QUOTE] + b.buf + Slashes(b.slashes) + [QUOTE]
    else b.buf
  }

  // -- Escaping, then splitting -----------------------------------------------------------------------------

  lemma FeedBackslash(done: seq<wstring>, arg: wstring, quoted: bool, k: nat)
    ensures Feed(Splitter(done, In(arg, quoted, k)), BACKSLASH) == Splitter(done, In(arg, quoted, k + 1))
  {}

  /** The text leaves the splitter in the argument with k backslashes pending. */
  ghost predicate LeavesPending(p: Splitter, s: wstring, done: seq<wstring>, arg: wstring, quoted: bool, k: nat) {
    FeedAll(p, s) == Splitter(done, In(arg, quoted, k))
  }

  lemma FeedOneMore(p: Splitter, s: wstring, s': wstring, done: seq<wstring>, arg: wstring, quoted: bool, k: nat)
    requires LeavesPending(p, s, done, arg, quoted, k) && s' == s + [BACKSLASH]
    ensures LeavesPending(p, s', done, arg, quoted, k + 1)
  {
    FeedSnoc(p, s, BACKSLASH);
    FeedBackslash(done, arg, quoted, k);
  }

  lemma {:induction false} SlashesPend(p: Splitter, done: seq<wstring>, arg: wstring, quoted: bool, k: nat, n: nat)
    requires p == Splitter(done, In(arg, quoted, k))
    ensures LeavesPending(p, Slashes(n), done, arg, quoted, k + n)
    decreases n
  {
    if n == 0 {
    } else {
      SlashesPend(p, done, arg, quoted, k, n - 1);
      FeedOneMore(p, Slashes(n - 1), Slashes(n), done, arg, quoted, k + (n - 1));
    }
  }

  lemma FeedSlashes(done: seq<wstring>, arg: wstring, quoted: bool, k: nat, n: nat)
    ensures FeedAll(Splitter(done, In(arg, quoted, k)), Slashes(n)) == Splitter(done, In(arg, quoted, k + n))
  {
    SlashesPend(Splitter(done, In(arg, quoted, k)), done, arg, quoted, k, n);
  }

  /** The splitter has read s[..n]: its last backslashes are still to be interpreted. */
  ghost predicate HasRead(p: Splitter, done: seq<wstring>, quoted: bool, k: nat, s: wstring, n: nat)
    requires n <= |s|
  {
    p.done == done && p.mode.In? && p.mode.quoted == quoted && p.mode.slashes == k && p.mode.arg + Slashes(k) == s[..n]
  }

  lemma ReadNext(p: Splitter, done: seq<wstring>, quoted: bool, b: Body, s: wstring, n: nat)
    requires n < |s| && HasRead(p, done, quoted, b.slashes, s, n) && (IsBlank(s[n]) ==> quoted)
    ensures var b' := BodyNext(b, s[n]);
            exists t :: b'.buf == b.buf + t && HasRead(FeedAll(p, t), done, quoted, b'.slashes, s, n + 1)
  {
    var c, k := s[n], b.slashes;
    assert s[..n + 1] == s[..n] + [c];
    if c == BACKSLASH {
      ReadBackslash(p, done, quoted, k, s, n);
      assert BodyNext(b, c).buf == b.buf + [BACKSLASH];
    } else if c == QUOTE {
      ReadQuote(p, done, quoted, k, s, n);
      assert BodyNext(b, c).buf == b.buf + (Slashes(k) + [BACKSLASH, QUOTE]);
    } else {
      ReadOther(p, done, quoted, k, s, n);
      assert BodyNext(b, c).buf == b.buf + [c];
    }
  }

  lemma FeedOne(p: Splitter, c: wchar)
    ensures FeedAll(p, [c]) == Feed(p, c)
  {
    FeedSnoc(p, [], c);
    assert [] + [c] == [c];
  }

  lemma ReadBackslash(p: Splitter, done: seq<wstring>, quoted: bool, k: nat, s: wstring, n: nat)
    requires n < |s| && s[n] == BACKSLASH && HasRead(p, done, quoted, k, s, n)
    ensures HasRead(FeedAll(p, [BACKSLASH]), done, quoted, k + 1, s, n + 1)
  {
    FeedOne(p, BACKSLASH);
    assert p.mode.arg + Slashes(k + 1) == p.mode.arg + Slashes(k) + [BACKSLASH];
    assert s[..n + 1] == s[..n] + [BACKSLASH];
  }

  lemma Halves(k: nat)
    ensures (k + k) % 2 == 0 && (k + k) / 2 == k && (k + (k + 1)) % 2 == 1 && (k + (k + 1)) / 2 == k
  {}

  lemma FeedOddQuote(done: seq<wstring>, arg: wstring, quoted: bool, m: nat, k: nat)
    requires m % 2 == 1 && m / 2 == k
    ensures Feed(Splitter(done, In(arg, quoted, m)), QUOTE) == Splitter(done, In(arg + Slashes(k) + [QUOTE], quoted, 0))
  {}

  lemma FeedEvenQuote(done: seq<wstring>, arg: wstring, quoted: bool, m: nat, k: nat)
    requires m % 2 == 0 && m / 2 == k
    ensures Feed(Splitter(done, In(arg, quoted, m)), QUOTE) == Splitter(done, In(arg + Slashes(k), !quoted, 0))
  {}

  lemma FeedEscapedQuote(done: seq<wstring>, arg: wstring, quoted: bool, k: nat)
    ensures FeedAll(Splitter(done, In(arg, quoted, k)), Slashes(k) + [BACKSLASH, QUOTE])
         == Splitter(done, In(arg + Slashes(k) + [QUOTE], quoted, 0))
  {
    var p := Splitter(done, In(arg, quoted, k));
    calc {
      FeedAll(p, Slashes(k) + [BACKSLASH, QUOTE]);
    == { assert Slashes(k) + [BACKSLASH, QUOTE] == Slashes(k + 1) + [QUOTE]; }
      FeedAll(p, Slashes(k + 1) + [QUOTE]);
    == { FeedSnoc(p, Slashes(k + 1), QUOTE); }
      Feed(FeedAll(p, Slashes(k + 1)), QUOTE);
    == { FeedSlashes(done, arg, quoted, k, k + 1); }
      Feed(Splitter(done, In(arg, quoted, k + (k + 1))), QUOTE);
    == { Halves(k); FeedOddQuote(done, arg, quoted, k + (k + 1), k); }
      Splitter(done, In(arg + Slashes(k) + [QUOTE], quoted, 0));
    }
  }

  lemma ReadQuote(p: Splitter, done: seq<wstring>, quoted: bool, k: nat, s: wstring, n: nat)
    requires n < |s| && s[n] == QUOTE && HasRead(p, done, quoted, k, s, n)
    ensures HasRead(FeedAll(p, Slashes(k) + [BACKSLASH, QUOTE]), done, quoted, 0, s, n + 1)
  {
    FeedEscapedQuote(done, p.mode.arg, quoted, k);
    assert s[..n + 1] == s[..n] + [QUOTE] && s[..n + 1] + [] == s[..n + 1];
  }

  lemma ReadOther(p: Splitter, done: seq<wstring>, quoted: bool, k: nat, s: wstring, n: nat)
    requires n < |s| && s[n] != BACKSLASH && s[n] != QUOTE && (IsBlank(s[n]) ==> quoted)
    requires HasRead(p, done, quoted, k, s, n)
    ensures HasRead(FeedAll(p, [s[n]]), done, quoted, 0, s, n + 1)
  {
    FeedOne(p, s[n]);
    assert s[..n + 1] == s[..n] + [s[n]];
    assert s[..n + 1] + [] == s[..n + 1];
  }

  /** From a fresh argument, the splitter reads the body of the first n characters back as those characters. */
  lemma {:induction false} ReadBody(done: seq<wstring>, quoted: bool, s: wstring, n: nat)
    requires n <= |s| && (HasBlank(s, n) ==> quoted)
    ensures var b := BodyOf(s, n);
            HasRead(FeedAll(Splitter(done, In([], quoted, 0)), b.buf), done, quoted, b.slashes, s, n)
    decreases n
  {
    var p := Splitter(done, In([], quoted, 0));
    if n == 0 {
      assert [] + Slashes(0) == s[..0];
    } else {
      var b := BodyOf(s, n - 1);
      ReadBody(done, quoted, s, n - 1);
      ReadNext(FeedAll(p, b.buf), done, quoted, b, s, n - 1);
      var t :| BodyOf(s, n).buf == b.buf + t
        && HasRead(FeedAll(FeedAll(p, b.buf), t), done, quoted, BodyOf(s, n).slashes, s, n);
      FeedConcat(p, b.buf, t);
    }
  }

  /** The splitter has read one whole argument: a blank or the end completes it. */
  ghost predicate HasArgument(p: Splitter, done: seq<wstring>, a: wstring) {
    p.done == done && p.mode.In? && !p.mode.quoted && p.mode.arg + Slashes(p.mode.slashes) == a
  }

  lemma ReadEmpty(done: seq<wstring>)
    ensures HasArgument(FeedAll(Splitter(done, Between), [QUOTE, QUOTE]), done, [])
  {
    var p := Splitter(done, Between);
    assert [QUOTE] + [QUOTE] == [QUOTE, QUOTE];
    FeedOne(p, QUOTE);
    FeedSnoc(p, [QUOTE], QUOTE);
    assert [] + Slashes(0) == [];
  }

  /** Twice the pending backslashes and a mark: the backslashes are literal and the mark ends the quoted part. */
  lemma EndQuoted(p: Splitter, done: seq<wstring>, k: nat, a: wstring)
    requires HasRead(p, done, true, k, a, |a|)
    ensures HasArgument(FeedAll(p, Slashes(k) + [QUOTE]), done, a)
  {
    var arg := p.mode.arg;
    calc {
      FeedAll(p, Slashes(k) + [QUOTE]);
    == { FeedSnoc(p, Slashes(k), QUOTE); }
      Feed(FeedAll(p, Slashes(k)), QUOTE);
    == { FeedSlashes(done, arg, true, k, k); }
      Feed(Splitter(done, In(arg, true, k + k)), QUOTE);
    == { Halves(k); FeedEvenQuote(done, arg, true, k + k, k); }
      Splitter(done, In(arg + Slashes(k), false, 0));
    }
    assert a[..|a|] == a && a + [] == a;
  }

  lemma StartQuoted(done: seq<wstring>, t: wstring)
    ensures FeedAll(Splitter(done, Between), [QUOTE] + t) == FeedAll(Splitter(done, In([], true, 0)), t)
  {
    var p := Splitter(done, Between);
    FeedOne(p, QUOTE);
    FeedConcat(p, [QUOTE], t);
    assert [] + Slashes(0) == [];
  }

  lemma FeedQuoted(done: seq<wstring>, x: wstring, y: wstring)
    ensures FeedAll(Splitter(done, Between), [QUOTE] + x + y + [QUOTE])
         == FeedAll(FeedAll(Splitter(done, In([], true, 0)), x), y + [QUOTE])
  {
    var q := Splitter(done, In([], true, 0));
    assert [QUOTE] + x + y + [QUOTE] == [QUOTE] + (x + (y + [QUOTE]));
    StartQuoted(done, x + (y + [QUOTE]));
    FeedConcat(q, x, y + [QUOTE]);
  }

  lemma ReadQuoted(done: seq<wstring>, a: wstring, b: Body)
    requires b == BodyOf(a, |a|)
    ensures HasArgument(FeedAll(Splitter(done, Between), [QUOTE] + b.buf + Slashes(b.slashes) + [QUOTE]), done, a)
  {
    ReadBody(done, true, a, |a|);
    EndQuoted(FeedAll(Splitter(done, In([], true, 0)), b.buf), done, b.slashes, a);
    FeedQuoted(done, b.buf, Slashes(b.slashes));
  }

  lemma {:induction false} BodyStarts(s: wstring, n: nat)
    requires 0 < n <= |s|
    ensures var b := BodyOf(s, n).buf; b != [] && b[0] == if s[0] == QUOTE then BACKSLASH else s[0]
  {
    if n <= 1 {
    } else {
      BodyStarts(s, n - 1);
    }
  }

  lemma {:induction false} NoBlankAtStart(s: wstring, n: nat)
    requires 0 < n <= |s| && !HasBlank(s, n)
    ensures !IsBlank(s[0])
  {
    if n <= 1 {
    } else {
      NoBlankAtStart(s, n - 1);
    }
  }

  /** Starting with a character that is not blank is the same as being in an empty argument. */
  lemma {:induction false} FreshArgument(done: seq<wstring>, t: wstring)
    requires t != [] && !IsBlank(t[0])
    ensures FeedAll(Splitter(done, Between), t) == FeedAll(Splitter(done, In([], false, 0)), t)
    decreases |t|
  {
    if |t| <= 1 {
    } else {
      FreshArgument(done, t[..|t| - 1]);
    }
  }

  lemma ReadUnquoted(done: seq<wstring>, a: wstring)
    requires a != [] && !HasBlank(a, |a|)
    ensures HasArgument(FeedAll(Splitter(done, Between), BodyOf(a, |a|).buf), done, a)
  {
    BodyStarts(a, |a|);
    NoBlankAtStart(a, |a|);
    FreshArgument(done, BodyOf(a, |a|).buf);
    ReadBody(done, false, a, |a|);
    assert a[..|a|] == a;
  }

  /** An escaped argument is read back as that argument. */
  lemma ReadEscaped(done: seq<wstring>, a: wstring)
    ensures HasArgument(FeedAll(Splitter(done, Between), Escape(a)), done, a)
  {
    if a == [] {
      ReadEmpty(done);
    } else if HasBlank(a, |a|) {
      ReadQuoted(done, a, BodyOf(a, |a|));
    } else {
      ReadUnquoted(done, a);
    }
  }

  // -- Command lines ----------------------------------------------------------------------------------------

  /** The escaped arguments, separated by spaces. */
  function Join(args: seq<wstring>): wstring {
    if args == [] then []
    else if |args| == 1 then Escape(args[0])
    else Join(args[..|args| - 1]) + [SPACE] + Escape(args[|args| - 1])
  }

  lemma ReadSeparator(p: Splitter, done: seq<wstring>, a: wstring, s: wstring)
    requires HasArgument(FeedAll(p, s), done, a)
    ensures FeedAll(p, s + [SPACE]) == Splitter(done + [a], Between)
  {
    FeedSnoc(p, s, SPACE);
  }

  lemma ReadAnother(s: wstring, done: seq<wstring>, last: wstring, all: seq<wstring>, a: wstring)
    requires HasArgument(FeedAll(Splitter([], Between), s), done, last) && all == done + [last]
    ensures HasArgument(FeedAll(Splitter([], Between), s + [SPACE] + Escape(a)), all, a)
  {
    var p := Splitter([], Between);
    ReadSeparator(p, done, last, s);
    FeedConcat(p, s + [SPACE], Escape(a));
    ReadEscaped(all, a);
  }

  /** The splitter has read the whole line up to its last argument. */
  ghost predicate HasRest(line: wstring, args: seq<wstring>)
    requires args != []
  {
    HasArgument(FeedAll(Splitter([], Between), line), args[..|args| - 1], args[|args| - 1])
  }

  lemma ReadFurther(line: wstring, init: seq<wstring>, a: wstring, args: seq<wstring>)
    requires init != [] && HasRest(line, init) && args == init + [a]
    ensures HasRest(line + [SPACE] + Escape(a), args)
  {
    assert init[..|init| - 1] + [init[|init| - 1]] == init && args[..|args| - 1] == init;
    ReadAnother(line, init[..|init| - 1], init[|init| - 1], init, a);
  }

  lemma {:induction false} ReadJoined(args: seq<wstring>)
    requires args != []
    ensures HasRest(Join(args), args)
    decreases |args|
  {
    if |args| == 1 {
      ReadEscaped([], args[0]);
      assert args[..0] == [];
    } else {
      var init, a := args[..|args| - 1], args[|args| - 1];
      ReadJoined(init);
      ReadFurther(Join(init), init, a, args);
    }
  }

  lemma FinishLast(p: Splitter, args: seq<wstring>)
    requires args != [] && HasArgument(p, args[..|args| - 1], args[|args| - 1])
    ensures Finish(p) == args
  {
    assert args[..|args| - 1] + [args[|args| - 1]] == args;
  }

  /** Splitting the joined escaped arguments gives the arguments back: empty ones, blanks, trailing backslashes and
      backslashes before quotation marks included. */
  lemma RoundTrip(args: seq<wstring>)
    ensures Split(Join(args)) == args
  {
    if args != [] {
      ReadJoined(args);
      FinishLast(FeedAll(Splitter([], Between), Join(args)), args);
    }
  }

  // -- The program name -------------------------------------------------------------------------------------

  /** The first quotation mark, or the first blank, from i on, or the end. */
  function QuoteFrom(s: wstring, i: nat): (r: nat)
    requires i <= |s|
    ensures i <= r <= |s| && (r < |s| ==> s[r] == QUOTE)
    ensures forall k :: i <= k < r ==> s[k] != QUOTE
    decreases |s| - i
  {
    if i < |s| && s[i] != QUOTE then QuoteFrom(s, i + 1) else i
  }

  function BlankFrom(s: wstring, i: nat): (r: nat)
    requires i <= |s|
    ensures i <= r <= |s| && (r < |s| ==> IsBlank(s[r]))
    ensures forall k :: i <= k < r ==> !IsBlank(s[k])
    decreases |s| - i
  {
    if i < |s| && !IsBlank(s[i]) then BlankFrom(s, i + 1) else i
  }

  /** The documented rule for the program name: from a quotation mark at the start to the next one, or else to the
      first blank, without any escapes. */
  datatype Named = Named(name: wstring, rest: wstring)

  function NameOf(s: wstring): Named {
    if s != [] && s[0] == QUOTE then
      var q := QuoteFrom(s, 1);
      Named(s[1..q], if q < |s| then s[q + 1..] else [])
    else
      var b := BlankFrom(s, 0);
      Named(s[..b], s[b..])
  }

  /** A whole command line: the program name, and the arguments behind it. */
  function SplitLine(s: wstring): seq<wstring> { [NameOf(s).name] + Split(NameOf(s).rest) }

  /** A name without quotation marks that does not both need quotes and end in a backslash. */
  predicate NameSurvives(a: wstring) {
    QUOTE !in a && !(HasBlank(a, |a|) && a[|a| - 1] == BACKSLASH)
  }

  lemma QuoteIsAt(s: wstring, i: nat, q: nat)
    requires i <= q <= |s| && (q < |s| ==> s[q] == QUOTE) && forall k :: i <= k < q ==> s[k] != QUOTE
    ensures QuoteFrom(s, i) == q
  {}

  lemma BlankIsAt(s: wstring, i: nat, b: nat)
    requires i <= b <= |s| && (b < |s| ==> IsBlank(s[b])) && forall k :: i <= k < b ==> !IsBlank(s[k])
    ensures BlankFrom(s, i) == b
  {}

  /** Without quotation marks the body is the argument itself, and its pending backslashes end it. */
  lemma {:induction false} UnquotedBody(a: wstring, n: nat)
    requires n <= |a| && forall i :: 0 <= i < n ==> a[i] != QUOTE
    ensures BodyOf(a, n).buf == a[..n] && (BodyOf(a, n).slashes > 0 <==> n > 0 && a[n - 1] == BACKSLASH)
    decreases n
  {
    if n == 0 {
    } else {
      UnquotedBody(a, n - 1);
      assert a[..n] == a[..n - 1] + [a[n - 1]];
    }
  }

  lemma {:induction false} BlankIff(a: wstring, n: nat)
    requires n <= |a|
    ensures HasBlank(a, n) <==> exists i :: 0 <= i < n && IsBlank(a[i])
    decreases n
  {
    if n == 0 {
    } else {
      BlankIff(a, n - 1);
    }
  }

  /** The body has blanks only where the argument has, and is longer if that has quotation marks. */
  lemma {:induction false} BodyGrows(a: wstring, n: nat)
    requires n <= |a| && !HasBlank(a, n)
    ensures var b := BodyOf(a, n).buf;
            && (forall i :: 0 <= i < |b| ==> !IsBlank(b[i]))
            && |b| >= n && ((exists i :: 0 <= i < n && a[i] == QUOTE) ==> |b| > n)
    decreases n
  {
    if n == 0 {
    } else {
      BodyGrows(a, n - 1);
      SlashesAreSlashes(BodyOf(a, n - 1).slashes);
    }
  }

  lemma {:induction false} SlashesAreSlashes(n: nat)
    ensures forall i :: 0 <= i < n ==> Slashes(n)[i] == BACKSLASH
    decreases n
  {
    if n == 0 {
    } else {
      SlashesAreSlashes(n - 1);
    }
  }

  /** What follows the first argument on a joined line. */
  function TailOf(rest: seq<wstring>): wstring { if rest == [] then [] else [SPACE] + Join(rest) }

  lemma TailSnoc(init: seq<wstring>, z: wstring)
    ensures TailOf(init + [z]) == TailOf(init) + [SPACE] + Escape(z)
  {
    JoinSnoc(init, z);
    if init == [] {
      assert [] + [SPACE] + Escape(z) == [SPACE] + Escape(z);
    } else {
      Regroup([SPACE], Join(init), [SPACE], Escape(z));
    }
  }

  lemma Regroup(a: wstring, b: wstring, c: wstring, d: wstring)
    ensures (a + b) + c + d == a + (b + c + d)
  {}

  /** The line starts with the escaped argument, and the rest follows. */
  ghost predicate StartsLine(a: wstring, rest: seq<wstring>, whole: seq<wstring>) {
    Join(whole) == Escape(a) + TailOf(rest)
  }

  lemma StartsAlone(a: wstring)
    ensures StartsLine(a, [], [a])
  {
    assert Escape(a) + [] == Escape(a);
  }

  lemma StartsNext(a: wstring, init: seq<wstring>, z: wstring, first: seq<wstring>, rest: seq<wstring>,
                   whole: seq<wstring>)
    requires first != [] && StartsLine(a, init, first) && rest == init + [z] && whole == first + [z]
    ensures StartsLine(a, rest, whole)
  {
    JoinSnoc(first, z);
    TailSnoc(init, z);
    Regroup(Escape(a), TailOf(init), [SPACE], Escape(z));
  }

  lemma LastApart(a: wstring, rest: seq<wstring>, init: seq<wstring>, z: wstring)
    requires rest != [] && init == rest[..|rest| - 1] && z == rest[|rest| - 1]
    ensures rest == init + [z] && [a] + rest == ([a] + init) + [z]
  {}

  lemma {:induction false} FirstStartsLine(a: wstring, rest: seq<wstring>)
    ensures StartsLine(a, rest, [a] + rest)
    decreases |rest|
  {
    if rest == [] {
      assert [a] + rest == [a];
      StartsAlone(a);
    } else {
      var init, z := rest[..|rest| - 1], rest[|rest| - 1];
      FirstStartsLine(a, init);
      LastApart(a, rest, init, z);
      StartsNext(a, init, z, [a] + init, rest, [a] + rest);
    }
  }

  lemma JoinCons(a: wstring, rest: seq<wstring>)
    ensures Join([a] + rest) == Escape(a) + TailOf(rest)
  {
    FirstStartsLine(a, rest);
  }

  lemma TailSplits(rest: seq<wstring>)
    ensures Split(TailOf(rest)) == rest
  {
    RoundTrip(rest);
    if rest != [] {
      var p := Splitter([], Between);
      FeedConcat(p, [SPACE], Join(rest));
      FeedOne(p, SPACE);
    }
  }

  lemma JoinSnoc(args: seq<wstring>, a: wstring)
    ensures Join(args + [a]) == (if args == [] then Escape(a) else Join(args) + [SPACE] + Escape(a))
  {
    assert (args + [a])[..|args|] == args;
  }

  /** An argument in quotes: the name goes to the next mark. */
  lemma QuotedName(body: wstring, tail: wstring)
    requires forall i :: 0 <= i < |body| ==> body[i] != QUOTE
    ensures NameOf([QUOTE] + body + [QUOTE] + tail) == Named(body, tail)
  {
    var s := [QUOTE] + body + [QUOTE] + tail;
    assert forall k :: 1 <= k < |body| + 1 ==> s[k] == body[k - 1];
    QuoteIsAt(s, 1, |body| + 1);
    assert s[1..|body| + 1] == body && s[|body| + 2..] == tail;
  }

  lemma QuotedNameHasNoQuote(s: wstring)
    requires s != [] && s[0] == QUOTE
    ensures QUOTE !in NameOf(s).name
  {
    var q := QuoteFrom(s, 1);
    forall c | c in s[1..q] ensures c != QUOTE {
      var i :| 0 <= i < |s[1..q]| && s[1..q][i] == c;
      assert s[1 + i] == c;
    }
  }

  /** An argument without quotes: the name goes to the next blank. */
  lemma PlainName(body: wstring, tail: wstring)
    requires body != [] && body[0] != QUOTE && (forall i :: 0 <= i < |body| ==> !IsBlank(body[i]))
    requires tail == [] || IsBlank(tail[0])
    ensures NameOf(body + tail) == Named(body, tail)
  {
    var s := body + tail;
    assert forall k :: 0 <= k < |body| ==> s[k] == body[k];
    BlankIsAt(s, 0, |body|);
    assert s[..|body|] == body && s[|body|..] == tail;
  }

  lemma EmptyNameSurvives(tail: wstring)
    ensures NameOf(Escape([]) + tail) == Named([], tail)
  {
    QuotedName([], tail);
    assert [QUOTE] + [] + [QUOTE] + tail == [QUOTE, QUOTE] + tail;
  }

  lemma BlankEscape(a: wstring, k: nat)
    requires a != [] && HasBlank(a, |a|) && QUOTE !in a && k == BodyOf(a, |a|).slashes
    ensures Escape(a) == [QUOTE] + a + Slashes(k) + [QUOTE] && (k > 0 <==> a[|a| - 1] == BACKSLASH)
  {
    UnquotedBody(a, |a|);
    assert a[..|a|] == a;
  }

  lemma NoQuoteWithSlashes(a: wstring, k: nat)
    requires QUOTE !in a
    ensures forall i :: 0 <= i < |a + Slashes(k)| ==> (a + Slashes(k))[i] != QUOTE
  {
    SlashesAreSlashes(k);
  }

  lemma Ungroup(q: wstring, a: wstring, s: wstring, r: wstring, tail: wstring)
    ensures q + (a + s) + r + tail == (q + a + s + r) + tail
  {}

  /** In quotes, a name without quotation marks comes back with its last backslashes doubled. */
  lemma BlankName(a: wstring, tail: wstring, k: nat)
    requires a != [] && HasBlank(a, |a|) && QUOTE !in a && k == BodyOf(a, |a|).slashes
    ensures NameOf(Escape(a) + tail) == Named(a + Slashes(k), tail) && (k > 0 <==> a[|a| - 1] == BACKSLASH)
  {
    BlankEscape(a, k);
    NoQuoteWithSlashes(a, k);
    QuotedName(a + Slashes(k), tail);
    Ungroup([QUOTE], a, Slashes(k), [QUOTE], tail);
  }

  lemma UnblankName(a: wstring, tail: wstring)
    requires a != [] && !HasBlank(a, |a|) && (tail == [] || IsBlank(tail[0]))
    ensures NameOf(Escape(a) + tail) == Named(Escape(a), tail) && (QUOTE in a ==> |Escape(a)| > |a|)
    ensures QUOTE !in a ==> Escape(a) == a
  {
    BodyStarts(a, |a|);
    BodyGrows(a, |a|);
    PlainName(Escape(a), tail);
    if QUOTE !in a {
      UnquotedBody(a, |a|);
      assert a[..|a|] == a;
    }
  }

  /** The first argument of a joined line is read back as the program name exactly if it is such a name; what is
      read behind it is the rest, if it is. */
  lemma NameSurvivesIff(a: wstring, tail: wstring)
    requires tail == [] || IsBlank(tail[0])
    ensures NameOf(Escape(a) + tail).name == a <==> NameSurvives(a)
    ensures NameSurvives(a) ==> NameOf(Escape(a) + tail).rest == tail
  {
    if a == [] {
      EmptyNameSurvives(tail);
    } else if !HasBlank(a, |a|) {
      UnblankName(a, tail);
    } else if QUOTE !in a {
      var k := BodyOf(a, |a|).slashes;
      BlankName(a, tail, k);
      assert a + Slashes(0) == a;
    } else {
      QuotedNameHasNoQuote(Escape(a) + tail);
    }
  }

  /** A whole command line made of escaped arguments splits into them exactly if the first one can be a program
      name. */
  lemma LineRoundTripIff(args: seq<wstring>)
    requires args != []
    ensures SplitLine(Join(args)) == args <==> NameSurvives(args[0])
  {
    var a, rest := args[0], args[1..];
    assert args == [a] + rest;
    JoinCons(a, rest);
    NameSurvivesIff(a, TailOf(rest));
    TailSplits(rest);
    assert SplitLine(Join(args))[0] == NameOf(Escape(a) + TailOf(rest)).name;
  }

  lemma LineOfOne(a: wstring, n: Named)
    requires NameOf(Escape(a) + []) == n && n.rest == []
    ensures SplitLine(Join([a])) == [n.name]
  {
    assert Escape(a) + [] == Escape(a);
    assert Join([a]) == Escape(a);
    assert Split([]) == [] && [n.name] + [] == [n.name];
  }

  /** A name of a letter, a space and a backslash comes back with two backslashes. */
  lemma NameIsChanged()
    ensures SplitLine(Join([[97, SPACE, BACKSLASH]])) == [[97, SPACE, BACKSLASH, BACKSLASH]]
  {
    var a: wstring := [97, SPACE, BACKSLASH];
    assert BodyOf(a, 1) == Body([97], 0);
    assert BodyOf(a, 2).slashes == 0;
    assert BodyOf(a, 3).slashes == 1;
    assert HasBlank(a, 2);
    BlankName(a, [], 1);
    assert Slashes(1) == [BACKSLASH];
    LineOfOne(a, Named(a + Slashes(1), []));
    assert a + [BACKSLASH] == [97, SPACE, BACKSLASH, BACKSLASH];
  }

  // -- The code ---------------------------------------------------------------------------------------------

  lemma {:induction false} PlainBody(s: wstring, n: nat)
    requires n <= |s| && forall i :: 0 <= i < n ==> s[i] != QUOTE && s[i] != BACKSLASH
    ensures BodyOf(s, n).buf == s[..n]
  {
    if n == 0 {
    } else {
      PlainBody(s, n - 1);
      assert s[..n] == s[..n - 1] + [s[n - 1]];
    }
  }

  method PushSlashes(buf0: wstring, slashes: nat) returns (buf: wstring)
    ensures buf == buf0 + Slashes(slashes)
  {
    buf := buf0;
    var left := slashes;
    while left > 0
      invariant 0 <= left <= slashes && buf == buf0 + Slashes(slashes - left)
    {
      buf := buf + [BACKSLASH];
      left := left - 1;
    }
  }

  method CountSpecial(ac: wstring) returns (n: nat, hasSpace: bool)
    ensures hasSpace == HasBlank(ac, |ac|)
    ensures n >= |ac| && (n == |ac| <==> forall i :: 0 <= i < |ac| ==> ac[i] != QUOTE && ac[i] != BACKSLASH)
  {
    n, hasSpace := |ac|, false;
    for i := 0 to |ac|
      invariant hasSpace == HasBlank(ac, i)
      invariant n >= |ac| && (n == |ac| <==> forall k :: 0 <= k < i ==> ac[k] != QUOTE && ac[k] != BACKSLASH)
    {
      if ac[i] == QUOTE || ac[i] == BACKSLASH {
        n := n + 1;
      } else if ac[i] == SPACE || ac[i] == TAB {
        hasSpace := true;
      }
    }
  }

  method PushBody(head: wstring, ac: wstring) returns (buf: wstring, slashes: nat)
    ensures buf == head + BodyOf(ac, |ac|).buf && slashes == BodyOf(ac, |ac|).slashes
  {
    buf, slashes := head, 0;
    assert head + [] == head;
    for i := 0 to |ac|
      invariant buf == head + BodyOf(ac, i).buf && slashes == BodyOf(ac, i).slashes
    {
      buf, slashes := PushChar(head, BodyOf(ac, i), buf, slashes, ac[i]);
    }
  }

  method PushChar(ghost head: wstring, ghost b: Body, buf0: wstring, slashes0: nat, c: wchar)
    returns (buf: wstring, slashes: nat)
    requires buf0 == head + b.buf && slashes0 == b.slashes
    ensures buf == head + BodyNext(b, c).buf && slashes == BodyNext(b, c).slashes
  {
    if c == BACKSLASH {
      slashes := slashes0 + 1;
      buf := buf0 + [BACKSLASH];
    } else if c == QUOTE {
      buf := PushSlashes(buf0, slashes0);
      slashes := 0;
      buf := buf + [BACKSLASH, QUOTE];
      assert head + b.buf + Slashes(slashes0) + [BACKSLASH, QUOTE]
             == head + (b.buf + Slashes(slashes0) + [BACKSLASH, QUOTE]);
    } else {
      slashes := 0;
      buf := buf0 + [c];
    }
  }

  method EscapeArgument(ac: wstring) returns (buf: wstring)
    ensures buf == Escape(ac)
  {
    if ac == [] {
      return [QUOTE, QUOTE];
    }
    var n, hasSpace := CountSpecial(ac);
    if hasSpace {
      n := n + 2;
    }
    if n == |ac| {
      PlainBody(ac, |ac|);
      assert ac[..|ac|] == ac;
      return ac;
    }
    buf := if hasSpace then [QUOTE] else [];
    ghost var b := BodyOf(ac, |ac|);
    var slashes;
    buf, slashes := PushBody(buf, ac);
    if hasSpace {
      buf := PushSlashes(buf, slashes);
      buf := buf + [QUOTE];
    } else {
      assert [] + b.buf == b.buf;
    }
  }

  /** Takes the client's command line off the arguments; what it holds splits back into what was taken. */
  method GetClientCommandline(args: seq<wstring>, index: nat, skipFirst: bool)
    returns (rest: seq<wstring>, cmd: wstring)
    requires index <= |args| && (skipFirst ==> index < |args| && args[index] == [45, 45])
    ensures rest == args[..index]
    ensures Split(cmd) == args[if skipFirst then index + 1 else index..]
    ensures var taken := args[if skipFirst then index + 1 else index..];
            taken != [] ==> (SplitLine(cmd) == taken <==> NameSurvives(taken[0]))
  {
    rest := args;
    if skipFirst {
      rest := args[..index] + args[index + 1..];
    }
    ghost var taken := args[if skipFirst then index + 1 else index..];
    assert rest == args[..index] + taken;
    cmd := JoinFrom(rest, index, taken);
    RoundTrip(taken);
    if taken != [] { LineRoundTripIff(taken); }
    rest := rest[..index];
  }

  /** The arguments joined, and a space when more follow. */
  ghost function JoinedSoFar(args: seq<wstring>, index: nat, j: nat): wstring
    requires index <= j <= |args|
  {
    Join(args[index..j]) + if index < j < |args| then [SPACE] else []
  }

  lemma JoinedNext(args: seq<wstring>, index: nat, j: nat)
    requires index <= j < |args|
    ensures JoinedSoFar(args, index, j + 1)
         == JoinedSoFar(args, index, j) + Escape(args[j]) + if j + 1 < |args| then [SPACE] else []
  {
    var init := args[index..j];
    assert args[index..j + 1] == init + [args[j]];
    JoinSnoc(init, args[j]);
    if index == j {
      assert [] + [] + Escape(args[j]) == Escape(args[j]);
    }
  }

  lemma JoinedAll(args: seq<wstring>, index: nat)
    requires index <= |args|
    ensures JoinedSoFar(args, index, |args|) == Join(args[index..])
  {
    assert args[index..|args|] == args[index..];
    assert Join(args[index..]) + [] == Join(args[index..]);
  }

  lemma JoinedNone(args: seq<wstring>, index: nat)
    requires index <= |args|
    ensures JoinedSoFar(args, index, index) == []
  {}

  method JoinFrom(args: seq<wstring>, index: nat, ghost taken: seq<wstring>) returns (cmd: wstring)
    requires index <= |args| && args[index..] == taken
    ensures cmd == Join(taken)
  {
    cmd := [];
    var j := index;
    JoinedNone(args, index);
    while j < |args|
      invariant index <= j <= |args| && cmd == JoinedSoFar(args, index, j)
    {
      JoinedNext(args, index, j);
      var escaped := EscapeArgument(args[j]);
      cmd := cmd + escaped + if j + 1 < |args| then [SPACE] else [];
      j := j + 1;
    }
    JoinedAll(args, index);
  }
}
