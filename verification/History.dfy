/** The command history of one client: a bounded list, a floating index and a cyclic search. */
module History {
  import opened Basics
  import opened Wide

  /** `last` is the index last shown to the user, `reset` that no command was recalled since one was added. */
  datatype State = State(commands: seq<wstring>, max: nat, last: int, reset: bool)

  datatype Direction = Previous | Next

  datatype Op =
    | OpAdd(command: wstring, suppress: bool)
    | OpRetrieve(direction: Direction)
    | OpRetrieveNth(index: int)
    | OpFind(given: wstring, start: int, exact: bool, looking: bool)
    | OpRemove(index: int)
    | OpSwap(a: int, b: int)
    | OpRealloc(max: nat)
    | OpEmpty

  /** What every history keeps. The last clause is what lets Add drop the oldest command and step back. */
  predicate Inv(s: State) {
    && |s.commands| <= s.max
    && -1 <= s.last
    && (s.last < |s.commands| || s.last == 0)
    && (s.last == -1 && s.commands != [] ==> |s.commands| < s.max)
  }

  predicate InRange(s: State, i: int) { 0 <= i < |s.commands| }

  function Fresh(max: nat): State { State([], max, -1, false) }

  // -- Search -----------------------------------------------------------------------------------------------

  predicate IsPrefix(p: wstring, s: wstring) { |p| <= |s| && s[..|p|] == p }

  predicate Matches(stored: wstring, given: wstring, exact: bool) {
    ((!exact && |given| <= |stored|) || |given| == |stored|) && IsPrefix(given, stored)
  }

  lemma MatchesExactly(stored: wstring, given: wstring)
    ensures Matches(stored, given, true) <==> stored == given
  {
    assert stored[..|stored|] == stored;
  }

  /** The index k steps back from i, cyclically. */
  function Back(i: int, k: nat, n: nat): int { if k <= i then i - k else i - k + n }

  function Prev(i: int, n: nat): int { if i <= 0 then n - 1 else i - 1 }

  function Hit(cs: seq<wstring>, given: wstring, exact: bool, i: int): bool {
    0 <= i < |cs| && Matches(cs[i], given, exact)
  }

  /** The first hit among the n - k indices from i backwards, or where the search stopped. An index out of range
      ends it, as the exception does. */
  function Search(cs: seq<wstring>, given: wstring, exact: bool, i: int, k: nat): (r: (bool, int))
    requires k <= |cs|
    decreases |cs| - k
  {
    if k == |cs| || !(0 <= i < |cs|) then (false, i)
    else if Matches(cs[i], given, exact) then (true, i)
    else Search(cs, given, exact, Prev(i, |cs|), k + 1)
  }

  function StartIndex(s: State, start: int, looking: bool): int {
    if !looking && s.reset then start else Prev(start, |s.commands|)
  }

  function Find(s: State, given: wstring, start: int, exact: bool, looking: bool): (bool, int) {
    if s.commands == [] then (false, start)
    else if given == [] then (true, StartIndex(s, start, looking))
    else Search(s.commands, given, exact, StartIndex(s, start, looking), 0)
  }

  function AfterFind(s: State, looking: bool): State {
    if s.commands != [] && !looking then s.(reset := false) else s
  }

  /** No hit in the first k steps back from i. */
  ghost predicate NoneWithin(cs: seq<wstring>, given: wstring, exact: bool, i: int, k: nat) {
    forall j :: 0 <= j < k ==> !Hit(cs, given, exact, Back(i, j, |cs|))
  }

  /** The hit nearest going back from i: k steps away and none nearer. */
  ghost predicate Nearest(cs: seq<wstring>, given: wstring, exact: bool, i: int, k: nat, found: int) {
    && k < |cs|
    && found == Back(i, k, |cs|)
    && Hit(cs, given, exact, found)
    && NoneWithin(cs, given, exact, i, k)
  }

  lemma {:induction false} SearchFrom(cs: seq<wstring>, given: wstring, exact: bool, i: int, k: nat)
    requires 0 <= i < |cs| && k <= |cs| && NoneWithin(cs, given, exact, i, k)
    ensures var r := Search(cs, given, exact, Back(i, k, |cs|), k);
            if r.0 then exists m: nat :: Nearest(cs, given, exact, i, m, r.1)
            else NoneWithin(cs, given, exact, i, |cs|)
    decreases |cs| - k
  {
    var at := Back(i, k, |cs|);
    if k < |cs| {
      if Matches(cs[at], given, exact) {
        assert Nearest(cs, given, exact, i, k, at);
      } else {
        assert Prev(at, |cs|) == Back(i, k + 1, |cs|) || k + 1 == |cs|;
        SearchStep(cs, given, exact, i, k);
      }
    }
  }

  lemma {:induction false} SearchStep(cs: seq<wstring>, given: wstring, exact: bool, i: int, k: nat)
    requires 0 <= i < |cs| && k < |cs| && NoneWithin(cs, given, exact, i, k)
    requires !Hit(cs, given, exact, Back(i, k, |cs|))
    ensures var r := Search(cs, given, exact, Prev(Back(i, k, |cs|), |cs|), k + 1);
            if r.0 then exists m: nat :: Nearest(cs, given, exact, i, m, r.1)
            else NoneWithin(cs, given, exact, i, |cs|)
    decreases |cs| - k, 0
  {
    assert NoneWithin(cs, given, exact, i, k + 1);
    if k + 1 < |cs| {
      assert Prev(Back(i, k, |cs|), |cs|) == Back(i, k + 1, |cs|);
      SearchFrom(cs, given, exact, i, k + 1);
    }
  }

  lemma BackCovers(i: int, j: int, n: nat) returns (k: nat)
    requires 0 <= i < n && 0 <= j < n
    ensures k < n && Back(i, k, n) == j
  {
    k := if j <= i then i - j else i - j + n;
  }

  /** A search that starts at a real index succeeds exactly if some command matches, and then yields the match
      nearest going back; one that starts anywhere else always fails. */
  lemma SearchIsCompleteIff(cs: seq<wstring>, given: wstring, exact: bool, i: int)
    requires cs != []
    ensures var r := Search(cs, given, exact, i, 0);
            && (r.0 <==> 0 <= i < |cs| && exists j :: Hit(cs, given, exact, j))
            && (r.0 ==> exists k: nat :: Nearest(cs, given, exact, i, k, r.1))
  {
    if 0 <= i < |cs| {
      assert Back(i, 0, |cs|) == i;
      SearchFrom(cs, given, exact, i, 0);
      forall j | Hit(cs, given, exact, j) ensures !NoneWithin(cs, given, exact, i, |cs|) {
        var k := BackCovers(i, j, |cs|);
        assert Hit(cs, given, exact, Back(i, k, |cs|));
      }
    }
  }

  // -- Operations -------------------------------------------------------------------------------------------

  function AfterRetrieveNth(s: State, i: int): State {
    if s.commands == [] then s.(last := 0) else s.(last := Clamp(i, 0, |s.commands| - 1))
  }

  function RetrieveIndex(s: State, d: Direction): int {
    if d == Next then s.last + 1 else if s.reset then s.last else s.last - 1
  }

  function AfterRetrieve(s: State, d: Direction): State {
    AfterRetrieveNth(if d == Previous then s.(reset := false) else s, RetrieveIndex(s, d))
  }

  /** The command at the floating index, as GetLastCommand gives it. */
  function Shown(s: State): wstring {
    if InRange(s, s.last) then s.commands[s.last] else []
  }

  /** Nothing further back to show, or nothing further on. */
  predicate AtFirst(s: State) {
    !s.reset && (if s.last == 0 then |s.commands| - 1 else s.last - 1) == |s.commands| - 1
  }

  predicate AtLast(s: State) { s.last == |s.commands| - 1 }

  function AfterEmpty(s: State): State { s.(commands := [], last := -1, reset := true) }

  function AfterRealloc(s: State, max: nat): State {
    if s.max == max then s
    else
      var n := if |s.commands| <= max then |s.commands| else max;
      State(s.commands[..n], max, n - 1, true)
  }

  function Without(cs: seq<wstring>, i: nat): seq<wstring>
    requires i < |cs|
  {
    cs[..i] + cs[i + 1..]
  }

  function Dec(i: int, max: nat): int { if i <= 0 then max - 1 else i - 1 }

  function AfterRemove(s: State, i: int): State {
    if !InRange(s, i) then s
    else
      s.(commands := Without(s.commands, i),
         last := if s.last == i then -1 else if s.last > i then Dec(s.last, s.max) else s.last)
  }

  function AfterSwap(s: State, a: int, b: int): State {
    if a != b && InRange(s, a) && InRange(s, b)
    then s.(commands := s.commands[a := s.commands[b]][b := s.commands[a]])
    else s
  }

  /** The previous copy of a command that is about to be added is taken out. */
  function Suppressed(s: State, command: wstring): State {
    var r := Find(s, command, s.last, true, false);
    var s' := AfterFind(s, false);
    if r.0 then AfterRemove(s', r.1) else s'
  }

  function Evicted(s: State): State {
    if |s.commands| == s.max && s.commands != [] then s.(commands := s.commands[1..], last := s.last - 1) else s
  }

  /** The last step of Add: none if the index is out of range, where the original throws. */
  datatype Outcome = Done(state: State) | Thrown(state: State)

  function Appended(s: State, command: wstring): Outcome {
    var s' := s.(commands := s.commands + [command]);
    if s.last == -1 then Done(s'.(last := |s'.commands| - 1, reset := true))
    else if !InRange(s', s.last) then Thrown(s')
    else if s'.commands[s.last] != command then Done(s'.(last := |s'.commands| - 1, reset := true))
    else Done(s'.(reset := true))
  }

  predicate IsLast(s: State, command: wstring) { s.commands != [] && s.commands[|s.commands| - 1] == command }

  function AfterAdd(s: State, command: wstring, suppress: bool): Outcome {
    if s.max == 0 || command == [] then Done(s)
    else if IsLast(s, command) then Done(s.(reset := true))
    else Appended(Evicted(if suppress then Suppressed(s, command) else s), command)
  }

  // -- Every run keeps the invariant ------------------------------------------------------------------------

  lemma SuppressedKeeps(s: State, command: wstring)
    requires Inv(s)
    ensures Inv(Suppressed(s, command)) && Suppressed(s, command).max == s.max
  {}

  lemma AppendedKeeps(s: State, command: wstring)
    requires Inv(s) && s.max > 0
    ensures Appended(Evicted(s), command).Done? && Inv(Appended(Evicted(s), command).state)
  {}

  /** Add never indexes out of range. */
  lemma AddKeeps(s: State, command: wstring, suppress: bool)
    requires Inv(s)
    ensures AfterAdd(s, command, suppress).Done? && Inv(AfterAdd(s, command, suppress).state)
  {
    if s.max > 0 && command != [] && !IsLast(s, command) {
      var s1 := if suppress then Suppressed(s, command) else s;
      SuppressedKeeps(s, command);
      AppendedKeeps(s1, command);
    }
  }

  function After(s: State, op: Op): State {
    match op
    case OpAdd(command, suppress) => AfterAdd(s, command, suppress).state
    case OpRetrieve(d) => AfterRetrieve(s, d)
    case OpRetrieveNth(i) => AfterRetrieveNth(s, i)
    case OpFind(_, _, _, looking) => AfterFind(s, looking)
    case OpRemove(i) => AfterRemove(s, i)
    case OpSwap(a, b) => AfterSwap(s, a, b)
    case OpRealloc(max) => AfterRealloc(s, max)
    case OpEmpty => AfterEmpty(s)
  }

  function Run(s: State, ops: seq<Op>): State
    decreases |ops|
  {
    if ops == [] then s else After(Run(s, ops[..|ops| - 1]), ops[|ops| - 1])
  }

  lemma NextKeeps(s: State, op: Op)
    requires Inv(s)
    ensures Inv(After(s, op))
  {
    match op
    case OpAdd(command, suppress) => AddKeeps(s, command, suppress);
    case _ =>
  }

  lemma {:induction false} RunKeeps(max: nat, ops: seq<Op>)
    ensures Inv(Run(Fresh(max), ops))
    decreases |ops|
  {
    if ops == [] {
    } else {
      RunKeeps(max, ops[..|ops| - 1]);
      NextKeeps(Run(Fresh(max), ops[..|ops| - 1]), ops[|ops| - 1]);
    }
  }

  // -- Duplicates -------------------------------------------------------------------------------------------

  ghost predicate Distinct(cs: seq<wstring>) { forall i, j :: 0 <= i < j < |cs| ==> cs[i] != cs[j] }

  /** The state in which Add misses an older copy: the search would start at the missing index. */
  predicate Lost(s: State) { s.reset && s.last == -1 }

  ghost predicate Clean(s: State) { Inv(s) && Distinct(s.commands) && (s.last == -1 ==> s.commands == []) }

  lemma SuppressedRemoves(s: State, command: wstring)
    requires Inv(s) && Distinct(s.commands) && command != []
    ensures var cs := Suppressed(s, command).commands;
            Distinct(cs) && (command in cs <==> Lost(s) && command in s.commands)
  {
    if s.commands != [] {
      var i := StartIndex(s, s.last, false);
      SearchIsCompleteIff(s.commands, command, true, i);
      ExactHits(s.commands, command);
      var r := Search(s.commands, command, true, i, 0);
      if r.0 {
        assert s.commands[r.1] == command by { MatchesExactly(s.commands[r.1], command); }
        WithoutDistinct(s.commands, r.1);
      }
    }
  }

  lemma FoundIsEqual(s: State, command: wstring, start: int)
    requires command != []
    ensures var r := Find(s, command, start, true, false); r.0 ==> InRange(s, r.1) && s.commands[r.1] == command
  {
    if s.commands != [] {
      var i := StartIndex(s, start, false);
      SearchIsCompleteIff(s.commands, command, true, i);
      var r := Search(s.commands, command, true, i, 0);
      if r.0 {
        MatchesExactly(s.commands[r.1], command);
      }
    }
  }

  lemma ExactHits(cs: seq<wstring>, command: wstring)
    ensures (exists j :: Hit(cs, command, true, j)) <==> command in cs
  {
    forall j | 0 <= j < |cs| ensures Hit(cs, command, true, j) <==> cs[j] == command {
      MatchesExactly(cs[j], command);
    }
  }

  lemma WithoutDistinct(cs: seq<wstring>, i: nat)
    requires Distinct(cs) && i < |cs|
    ensures Distinct(Without(cs, i)) && cs[i] !in Without(cs, i)
  {
    var w := Without(cs, i);
    forall j | 0 <= j < |w| ensures w[j] == cs[if j < i then j else j + 1] {}
  }

  lemma AppendDistinct(cs: seq<wstring>, c: wstring)
    requires Distinct(cs)
    ensures Distinct(cs + [c]) <==> c !in cs
  {
    if c in cs {
      var i :| 0 <= i < |cs| && cs[i] == c;
      assert (cs + [c])[i] == (cs + [c])[|cs|];
    }
  }

  /** With suppression, distinct commands stay distinct exactly if Add is not lost: an index taken away by Remove
      while the reset flag is set, and an older copy that is not the newest command. */
  lemma AddKeepsDistinctIff(s: State, command: wstring)
    requires Inv(s) && Distinct(s.commands)
    ensures Distinct(AfterAdd(s, command, true).state.commands)
       <==> !(Lost(s) && command != [] && command in s.commands && !IsLast(s, command))
  {
    if s.max > 0 && command != [] && !IsLast(s, command) {
      SuppressedRemoves(s, command);
      SuppressedKeeps(s, command);
      var s1 := Suppressed(s, command);
      AppendDistinct(Evicted(s1).commands, command);
    }
  }

  predicate Suppressing(op: Op) { !op.OpRemove? && (op.OpAdd? ==> op.suppress) }

  lemma AppendedHasIndex(s: State, command: wstring)
    requires Appended(s, command).Done?
    ensures Appended(s, command).state.last >= 0
  {}

  lemma AddKeepsIndex(s: State, command: wstring, suppress: bool)
    requires Inv(s) && (s.last == -1 ==> s.commands == [])
    ensures var s' := AfterAdd(s, command, suppress).state; s'.last == -1 ==> s'.commands == []
  {
    AddKeeps(s, command, suppress);
    if s.max > 0 && command != [] && !IsLast(s, command) {
      AppendedHasIndex(Evicted(if suppress then Suppressed(s, command) else s), command);
    }
  }

  lemma AddKeepsClean(s: State, command: wstring)
    requires Clean(s)
    ensures Clean(AfterAdd(s, command, true).state)
  {
    AddKeeps(s, command, true);
    AddKeepsDistinctIff(s, command);
    AddKeepsIndex(s, command, true);
  }

  lemma SwapKeepsDistinct(s: State, a: int, b: int)
    requires Distinct(s.commands)
    ensures Distinct(AfterSwap(s, a, b).commands)
  {}

  lemma NextKeepsClean(s: State, op: Op)
    requires Clean(s) && Suppressing(op)
    ensures Clean(After(s, op))
  {
    NextKeeps(s, op);
    match op
    case OpAdd(command, _) => AddKeepsClean(s, command);
    case OpSwap(a, b) => SwapKeepsDistinct(s, a, b);
    case _ =>
  }

  /** In every run with suppression and without outside removals no two stored commands are equal. */
  lemma {:induction false} RunIsDistinct(max: nat, ops: seq<Op>)
    requires forall i :: 0 <= i < |ops| ==> Suppressing(ops[i])
    ensures Clean(Run(Fresh(max), ops))
    decreases |ops|
  {
    if ops == [] {
    } else {
      RunIsDistinct(max, ops[..|ops| - 1]);
      NextKeepsClean(Run(Fresh(max), ops[..|ops| - 1]), ops[|ops| - 1]);
    }
  }

  /** Adding a command that is not stored yet, with room for it and nothing recalled. */
  lemma AddNew(s: State, c: wstring)
    requires s.last == |s.commands| - 1 && |s.commands| < s.max && c != [] && c !in s.commands
    ensures AfterAdd(s, c, true) == Done(State(s.commands + [c], s.max, |s.commands|, true))
  {
    if s.commands != [] {
      SearchIsCompleteIff(s.commands, c, true, StartIndex(s, s.last, false));
      ExactHits(s.commands, c);
    }
  }

  lemma AddLost(s: State, c: wstring)
    requires Lost(s) && |s.commands| < s.max && c != [] && !IsLast(s, c)
    ensures After(s, OpAdd(c, true)).commands == s.commands + [c]
  {}

  lemma Three(a: wstring, b: wstring, c: wstring, s1: State, s2: State, s3: State)
    requires a != [] && b != [] && c != [] && a != b && b != c && c != a
    requires s1 == State([] + [a], 10, 0, true) && s2 == State(s1.commands + [b], 10, 1, true)
    requires s3 == State(s2.commands + [c], 10, 2, true)
    ensures After(Fresh(10), OpAdd(a, true)) == s1 && After(s1, OpAdd(b, true)) == s2 && After(s2, OpAdd(c, true)) == s3
  {
    AddNew(Fresh(10), a);
    AddNew(s1, b);
    AddNew(s2, c);
  }

  /** Removing the newest of three commands from outside and then adding the first again stores it twice. */
  lemma OutsideRemoveLosesSuppression(a: wstring, b: wstring, c: wstring)
    requires a != [] && b != [] && c != [] && a != b && b != c && c != a
    ensures var s3 := After(After(After(Fresh(10), OpAdd(a, true)), OpAdd(b, true)), OpAdd(c, true));
            After(After(s3, OpRemove(2)), OpAdd(a, true)).commands == [a, b, a]
  {
    var s1 := State([] + [a], 10, 0, true);
    var s2 := State(s1.commands + [b], 10, 1, true);
    var s3 := State(s2.commands + [c], 10, 2, true);
    var s4 := State([a, b], 10, -1, true);
    Three(a, b, c, s1, s2, s3);
    RemoveNewest([a, b], c, s3);
    AddLost(s4, a);
  }

  lemma RemoveNewest(cs: seq<wstring>, c: wstring, s: State)
    requires s == State(cs + [c], s.max, |cs|, s.reset)
    ensures After(s, OpRemove(|cs|)) == State(cs, s.max, -1, s.reset)
  {
    assert Without(cs + [c], |cs|) == cs;
  }

  // -- What is remembered -----------------------------------------------------------------------------------

  /** The n commands added last. */
  function Newest(cs: seq<wstring>, n: nat): seq<wstring> { cs[|cs| - Min(|cs|, n)..] }

  /** The commands other than c. */
  function Others(cs: seq<wstring>, c: wstring): seq<wstring> {
    if cs == [] then []
    else Others(cs[..|cs| - 1], c) + if cs[|cs| - 1] == c then [] else [cs[|cs| - 1]]
  }

  /** An unbounded list of commands takes note of one more: with suppression the list in order of last use, without
      it the list as entered, in which only a command entered again at once counts as one. */
  function Noted(cs: seq<wstring>, c: wstring, suppress: bool): seq<wstring> {
    if c == [] then cs
    else if suppress then Others(cs, c) + [c]
    else if cs != [] && cs[|cs| - 1] == c then cs
    else cs + [c]
  }

  function NotedAll(ops: seq<Op>): seq<wstring> {
    if ops == [] then []
    else
      var cs, op := NotedAll(ops[..|ops| - 1]), ops[|ops| - 1];
      if op.OpAdd? then Noted(cs, op.command, op.suppress) else cs
  }

  lemma {:induction false} OthersConcat(a: seq<wstring>, b: seq<wstring>, c: wstring)
    ensures Others(a + b, c) == Others(a, c) + Others(b, c)
    decreases |b|
  {
    if b == [] {
      assert a + b == a;
    } else {
      var init, x := b[..|b| - 1], b[|b| - 1];
      assert (a + b)[..|a + b| - 1] == a + init && (a + b)[|a + b| - 1] == x;
      OthersConcat(a, init, c);
      Associative(Others(a, c), Others(init, c), if x == c then [] else [x]);
    }
  }

  lemma {:induction false} OthersOfNone(cs: seq<wstring>, c: wstring)
    requires c !in cs
    ensures Others(cs, c) == cs
    decreases |cs|
  {
    if cs == [] {
    } else {
      OthersOfNone(cs[..|cs| - 1], c);
    }
  }

  lemma OthersSnoc(cs: seq<wstring>, c: wstring)
    ensures Others(cs + [c], c) == Others(cs, c)
  {
    assert (cs + [c])[..|cs|] == cs && Others(cs, c) + [] == Others(cs, c);
  }

  lemma OthersOfOne(cs: seq<wstring>, i: nat)
    requires i < |cs| && Distinct(cs)
    ensures Others(cs, cs[i]) == Without(cs, i)
  {
    var c, a, b := cs[i], cs[..i], cs[i + 1..];
    assert cs == a + [c] + b;
    calc {
      Others(a + [c] + b, c);
    == { OthersConcat(a + [c], b, c); }
      Others(a + [c], c) + Others(b, c);
    == { OthersSnoc(a, c); OthersOfNone(b, c); }
      Others(a, c) + b;
    == { OthersOfNone(a, c); }
      a + b;
    }
  }

  lemma OthersDistinct(cs: seq<wstring>, c: wstring)
    requires Distinct(cs)
    ensures Distinct(Others(cs, c) + [c])
  {
    if c in cs {
      var i :| 0 <= i < |cs| && cs[i] == c;
      OthersOfOne(cs, i);
      WithoutDistinct(cs, i);
      AppendDistinct(Without(cs, i), c);
    } else {
      OthersOfNone(cs, c);
      AppendDistinct(cs, c);
    }
  }

  lemma NewestOfMore(a: seq<wstring>, t: seq<wstring>, c: wstring, n: nat)
    requires n > 0 && n <= |t| + 1
    ensures Newest(a + t + [c], n) == Newest(t + [c], n)
  {
    assert a + t + [c] == a + (t + [c]);
  }

  /** Forgetting all but the newest before taking note makes no difference. */
  lemma ForgettingEarly(a: seq<wstring>, t: seq<wstring>, c: wstring, n: nat, suppress: bool)
    requires n > 0 && |t| == n && (suppress ==> Distinct(a + t))
    ensures Newest(Noted(a + t, c, suppress), n) == Newest(Noted(t, c, suppress), n)
  {
    if suppress && c != [] {
      OthersConcat(a, t, c);
      if c in t {
        var i :| 0 <= i < |t| && t[i] == c;
        assert forall k :: 0 <= k < |a| ==> (a + t)[k] == a[k] && (a + t)[|a| + i] == c;
        assert Distinct(t) by { assert forall k :: 0 <= k < |t| ==> (a + t)[|a| + k] == t[k]; }
        OthersOfOne(t, i);
      } else {
        OthersOfNone(t, c);
      }
      NewestOfMore(Others(a, c), Others(t, c), c, n);
    } else if c != [] {
      assert (a + t)[|a + t| - 1] == t[|t| - 1];
      NewestOfMore(a, t, c, n);
    }
  }

  lemma NewestIsEnough(cs: seq<wstring>, c: wstring, n: nat, suppress: bool)
    requires suppress ==> Distinct(cs)
    ensures Newest(Noted(cs, c, suppress), n) == Newest(Noted(Newest(cs, n), c, suppress), n)
  {
    if 0 < n < |cs| {
      var k := |cs| - n;
      assert cs == cs[..k] + cs[k..];
      ForgettingEarly(cs[..k], cs[k..], c, n, suppress);
    }
  }

  lemma SuppressedIsOthers(s: State, c: wstring)
    requires Clean(s) && c != []
    ensures Suppressed(s, c).commands == Others(s.commands, c)
  {
    SuppressedRemoves(s, c);
    FoundIsEqual(s, c, s.last);
    var r := Find(s, c, s.last, true, false);
    if r.0 {
      OthersOfOne(s.commands, r.1);
    } else {
      OthersOfNone(s.commands, c);
    }
  }

  lemma AppendsToNewest(s: State, c: wstring)
    requires |s.commands| <= s.max && s.max > 0
    ensures Appended(Evicted(s), c).state.commands == Newest(s.commands + [c], s.max)
  {}

  lemma NewestIsOther(cs: seq<wstring>, c: wstring)
    requires cs != [] && cs[|cs| - 1] == c && Distinct(cs)
    ensures Others(cs, c) + [c] == cs
  {
    OthersOfOne(cs, |cs| - 1);
  }

  /** What the history holds after Add: the newest commands of the list that takes note of the one added. The oldest
      command is the one that makes room. */
  lemma AddKeepsNewest(s: State, c: wstring, suppress: bool)
    requires Inv(s) && (suppress ==> Clean(s))
    ensures AfterAdd(s, c, suppress).state.commands == Newest(Noted(s.commands, c, suppress), s.max)
  {
    if s.max == 0 || c == [] {
    } else if IsLast(s, c) {
      if suppress { NewestIsOther(s.commands, c); }
    } else {
      if suppress { SuppressedIsOthers(s, c); }
      SuppressedKeeps(s, c);
      AppendsToNewest(if suppress then Suppressed(s, c) else s, c);
    }
  }

  /** Add turns s into s' so, unless a duplicate may be lost. */
  ghost predicate Remembers(s: State, c: wstring, suppress: bool, s': State) {
    (suppress ==> Clean(s)) ==> s'.commands == Newest(Noted(s.commands, c, suppress), s.max)
  }

  lemma AddRemembers(s: State, c: wstring, suppress: bool)
    requires Inv(s)
    ensures Remembers(s, c, suppress, AfterAdd(s, c, suppress).state)
  {
    if suppress ==> Clean(s) { AddKeepsNewest(s, c, suppress); }
  }

  lemma FullForgetsOldest(s: State, c: wstring)
    requires Inv(s) && |s.commands| == s.max > 0 && c != [] && !IsLast(s, c)
    ensures AfterAdd(s, c, false).state.commands == s.commands[1..] + [c]
  {
    AddKeepsNewest(s, c, false);
  }

  /** Commands are added, all with suppression or all without, and recalled and looked for. */
  ghost predicate Using(ops: seq<Op>, suppress: bool) {
    forall i :: 0 <= i < |ops| ==> UsingOp(ops[i], suppress)
  }

  predicate UsingOp(op: Op, suppress: bool) {
    (op.OpAdd? && op.suppress == suppress) || op.OpRetrieve? || op.OpRetrieveNth? || op.OpFind?
  }

  /** The history holds the newest of the commands noted so far. */
  ghost predicate UpToDate(s: State, suppress: bool, cs: seq<wstring>) {
    s.commands == Newest(cs, s.max) && (suppress ==> Distinct(cs))
  }

  lemma AddKeepsMax(s: State, c: wstring, suppress: bool)
    ensures AfterAdd(s, c, suppress).state.max == s.max
  {}

  lemma AddStaysUpToDate(s: State, c: wstring, suppress: bool, cs: seq<wstring>)
    requires Inv(s) && (suppress ==> Clean(s)) && UpToDate(s, suppress, cs)
    ensures UpToDate(AfterAdd(s, c, suppress).state, suppress, Noted(cs, c, suppress))
  {
    AddKeepsMax(s, c, suppress);
    AddKeepsNewest(s, c, suppress);
    NewestIsEnough(cs, c, s.max, suppress);
    if suppress { OthersDistinct(cs, c); }
  }

  lemma UsingStep(s: State, op: Op, suppress: bool, cs: seq<wstring>)
    requires Inv(s) && (suppress ==> Clean(s)) && UsingOp(op, suppress) && UpToDate(s, suppress, cs)
    ensures UpToDate(After(s, op), suppress, if op.OpAdd? then Noted(cs, op.command, suppress) else cs)
    ensures After(s, op).max == s.max
  {
    if op.OpAdd? {
      AddStaysUpToDate(s, op.command, suppress, cs);
      AddKeepsMax(s, op.command, suppress);
    }
  }

  /** Over every run of use the history holds the newest of all commands noted: with suppression those used last, each
      once and in that order, without it those entered last. */
  lemma {:induction false} RunKeepsNewest(max: nat, ops: seq<Op>, suppress: bool)
    requires Using(ops, suppress)
    ensures Run(Fresh(max), ops).commands == Newest(NotedAll(ops), max) && Run(Fresh(max), ops).max == max
    ensures suppress ==> Distinct(NotedAll(ops))
    decreases |ops|
  {
    if ops == [] {
    } else {
      var init := ops[..|ops| - 1];
      RunKeepsNewest(max, init, suppress);
      RunKeeps(max, init);
      if suppress { RunIsDistinct(max, init); }
      UsingStep(Run(Fresh(max), init), ops[|ops| - 1], suppress, NotedAll(init));
    }
  }

  function Adds(cs: seq<wstring>, suppress: bool): (ops: seq<Op>)
    ensures |ops| == |cs| && forall i :: 0 <= i < |cs| ==> ops[i] == OpAdd(cs[i], suppress)
  {
    seq(|cs|, i requires 0 <= i < |cs| => OpAdd(cs[i], suppress))
  }

  lemma AddsSnoc(cs: seq<wstring>, c: wstring, suppress: bool)
    ensures NotedAll(Adds(cs + [c], suppress)) == Noted(NotedAll(Adds(cs, suppress)), c, suppress)
  {
    assert Adds(cs + [c], suppress)[..|cs|] == Adds(cs, suppress);
  }

  lemma NotesNew(cs: seq<wstring>, c: wstring, suppress: bool)
    requires c != [] && c !in cs
    ensures Noted(cs, c, suppress) == cs + [c]
  {
    OthersOfNone(cs, c);
  }

  lemma {:induction false} DistinctAreNoted(cs: seq<wstring>, suppress: bool)
    requires Distinct(cs) && [] !in cs
    ensures NotedAll(Adds(cs, suppress)) == cs
    decreases |cs|
  {
    if cs == [] {
    } else {
      var init, c := cs[..|cs| - 1], cs[|cs| - 1];
      assert cs == init + [c];
      DistinctAreNoted(init, suppress);
      AddsSnoc(init, c, suppress);
      NotesNew(init, c, suppress);
    }
  }

  /** Of distinct commands added one after the other the last ones stay, as many as there is room for, in order. */
  lemma DistinctAddsKeepNewest(max: nat, cs: seq<wstring>, suppress: bool)
    requires Distinct(cs) && [] !in cs
    ensures Run(Fresh(max), Adds(cs, suppress)).commands == cs[|cs| - Min(|cs|, max)..]
  {
    RunKeepsNewest(max, Adds(cs, suppress), suppress);
    DistinctAreNoted(cs, suppress);
  }

  // -- Recalling --------------------------------------------------------------------------------------------

  /** Going back right after Add shows the added command, unless Add found it to be the newest one already while
      the user had walked to a different one. */
  lemma RecallIff(s: State, command: wstring, suppress: bool)
    requires Inv(s) && s.max > 0 && command != []
    ensures var s' := AfterAdd(s, command, suppress).state;
            && s'.commands != []
            && (Shown(AfterRetrieve(s', Previous)) == command
                <==> !IsLast(s, command) || s.commands[Clamp(s.last, 0, |s.commands| - 1)] == command)
  {
    AddKeeps(s, command, suppress);
    if !IsLast(s, command) {
      RecallAppended(Evicted(if suppress then Suppressed(s, command) else s), command);
    }
  }

  lemma RecallAppended(s: State, command: wstring)
    ensures var o := Appended(s, command);
            && o.state.commands != []
            && (o.Done? ==> o.state.reset && Shown(AfterRetrieve(o.state, Previous)) == command)
  {
    assert (s.commands + [command])[|s.commands|] == command;
  }

  /** Removing another command keeps the floating index on the same command. */
  lemma RemoveKeepsPlace(s: State, i: int)
    requires Inv(s) && InRange(s, s.last) && i != s.last
    ensures InRange(AfterRemove(s, i), AfterRemove(s, i).last) && Shown(AfterRemove(s, i)) == Shown(s)
  {}

  /** k steps back from a state without the reset flag. */
  function Walk(s: State, k: nat): State {
    if k == 0 then s else AfterRetrieve(Walk(s, k - 1), Previous)
  }

  /** Walking back shows the commands from the newest to the oldest and stays there. */
  lemma {:induction false} WalkBack(s: State, k: nat)
    requires InRange(s, s.last) && k > 0
    ensures var first := if s.reset then s.last else s.last - 1;
            Walk(s, k) == s.(reset := false, last := if k - 1 <= first then first - (k - 1) else 0)
  {
    if k <= 1 {
    } else {
      WalkBack(s, k - 1);
    }
  }

  /** k steps on, towards the newest. */
  function WalkOn(s: State, k: nat): State {
    if k == 0 then s else AfterRetrieve(WalkOn(s, k - 1), Next)
  }

  /** Walking on shows the commands up to the newest and stays there. */
  lemma {:induction false} WalkForward(s: State, k: nat)
    requires InRange(s, s.last)
    ensures WalkOn(s, k) == s.(last := Min(s.last + k, |s.commands| - 1))
  {
    if k == 0 {
    } else {
      WalkForward(s, k - 1);
    }
  }

  /** Going back and on again by as many steps shows what was shown, if there was that much to go back. */
  lemma BackAndOn(s: State, k: nat)
    requires InRange(s, s.last) && !s.reset && k <= s.last
    ensures WalkOn(Walk(s, k), k) == s
  {
    if k > 0 { WalkBack(s, k); }
    WalkForward(Walk(s, k), k);
  }

  /** A history cut to another size keeps its oldest commands, and going back shows them from the newest kept. */
  lemma ReallocThenBack(s: State, max: nat, k: nat)
    requires Inv(s) && max != s.max && 0 < k <= Min(|s.commands|, max)
    ensures AfterRealloc(s, max).commands == s.commands[..Min(|s.commands|, max)]
    ensures Shown(Walk(AfterRealloc(s, max), k)) == s.commands[Min(|s.commands|, max) - k]
  {
    WalkBack(AfterRealloc(s, max), k);
  }

  /** A swap exchanges two commands, leaves the others, and is undone by another. */
  lemma SwapExchanges(s: State, a: int, b: int)
    requires InRange(s, a) && InRange(s, b)
    ensures var cs := AfterSwap(s, a, b).commands;
            && |cs| == |s.commands| && cs[a] == s.commands[b] && cs[b] == s.commands[a]
            && (forall i :: 0 <= i < |cs| && i != a && i != b ==> cs[i] == s.commands[i])
    ensures AfterSwap(AfterSwap(s, a, b), a, b) == s
  {
    assert AfterSwap(AfterSwap(s, a, b), a, b).commands == s.commands;
  }

  // -- The code ---------------------------------------------------------------------------------------------

  class CommandHistory {
    var commands: seq<wstring>
    var maxCommands: nat
    var lastDisplayed: int
    var inUse: bool
    var reset: bool

    ghost function S(): State
      reads this
    {
      State(commands, maxCommands, lastDisplayed, reset)
    }

    ghost predicate Valid()
      reads this
    {
      inUse && Inv(S())
    }

    constructor (size: nat)
      ensures Valid() && S() == Fresh(size)
    {
      commands, maxCommands, lastDisplayed, inUse, reset := [], size, -1, true, false;
    }

    method GetNth(index: int) returns (r: wstring)
      ensures r == if 0 <= index < |commands| then commands[index] else []
    {
      if index >= 0 && index < |commands| {
        return commands[index];
      }
      return [];
    }

    method RetrieveNth(index: int) returns (r: wstring)
      requires Valid()
      modifies this
      ensures Valid() && S() == AfterRetrieveNth(old(S()), index) && r == Shown(S())
    {
      if commands == [] {
        lastDisplayed := 0;
        return [];
      }
      lastDisplayed := Clamp(index, 0, |commands| - 1);
      return commands[lastDisplayed];
    }

    method Retrieve(d: Direction) returns (r: wstring)
      requires Valid()
      modifies this
      ensures Valid() && S() == AfterRetrieve(old(S()), d) && r == Shown(S())
    {
      var index := lastDisplayed;
      if d == Previous {
        if reset {
          reset := false;
        } else {
          index := index - 1;
        }
      } else {
        index := index + 1;
      }
      r := RetrieveNth(index);
    }

    method Empty()
      requires Valid()
      modifies this
      ensures Valid() && S() == AfterEmpty(old(S()))
    {
      commands, lastDisplayed, reset := [], -1, true;
    }

    method Realloc(size: nat)
      requires Valid()
      modifies this
      ensures Valid() && S() == AfterRealloc(old(S()), size)
    {
      if maxCommands == size {
        return;
      }
      commands := commands[..if |commands| <= size then |commands| else size];
      reset := true;
      lastDisplayed := |commands| - 1;
      maxCommands := size;
    }

    method Remove(iDel: int) returns (str: wstring)
      requires Valid()
      modifies this
      ensures Valid() && S() == AfterRemove(old(S()), iDel)
      ensures str == if 0 <= iDel < |old(commands)| then old(commands)[iDel] else []
    {
      if iDel < 0 || iDel >= |commands| {
        return [];
      }
      str := commands[iDel];
      commands := commands[..iDel] + commands[iDel + 1..];
      if lastDisplayed == iDel {
        lastDisplayed := -1;
      } else if lastDisplayed > iDel {
        lastDisplayed := if lastDisplayed <= 0 then maxCommands - 1 else lastDisplayed - 1;
      }
    }

    method Swap(indexA: int, indexB: int)
      requires Valid()
      modifies this
      ensures Valid() && S() == AfterSwap(old(S()), indexA, indexB)
    {
      var num := |commands|;
      if indexA != indexB && indexA >= 0 && indexA < num && indexB >= 0 && indexB < num {
        commands := commands[indexA := commands[indexB]][indexB := commands[indexA]];
      }
    }

    /** The loop: an index out of range is the exception that ends it. */
    method SearchBack(given: wstring, start: int, exact: bool) returns (found: bool, index: int)
      ensures (found, index) == Search(commands, given, exact, start, 0)
    {
      index := start;
      var i := 0;
      while i < |commands|
        invariant 0 <= i <= |commands|
        invariant Search(commands, given, exact, start, 0) == Search(commands, given, exact, index, i)
      {
        if !(0 <= index < |commands|) {
          return false, index;
        }
        var stored := commands[index];
        if (!exact && |given| <= |stored|) || |given| == |stored| {
          if stored[..|given|] == given {
            return true, index;
          }
        }
        index := if index <= 0 then |commands| - 1 else index - 1;
        i := i + 1;
      }
      found := false;
    }

    method FindMatchingCommand(given: wstring, start: int, exact: bool, looking: bool) returns (found: bool, index: int)
      requires Valid()
      modifies this
      ensures Valid() && S() == AfterFind(old(S()), looking)
      ensures (found, index) == Find(old(S()), given, start, exact, looking)
    {
      index := start;
      if commands == [] {
        return false, index;
      }
      if !looking && reset {
        reset := false;
      } else {
        index := if index <= 0 then |commands| - 1 else index - 1;
      }
      if given == [] {
        return true, index;
      }
      found, index := SearchBack(given, index, exact);
    }

    method Suppress(command: wstring) returns (reuse: wstring)
      requires Valid() && command != []
      modifies this
      ensures (reuse == [] || reuse == command) && maxCommands == old(maxCommands)
      ensures Valid() && S() == Suppressed(old(S()), command)
    {
      FoundIsEqual(S(), command, lastDisplayed);
      reuse := [];
      var found, index := FindMatchingCommand(command, lastDisplayed, true, false);
      if found {
        reuse := Remove(index);
      }
    }

    /** The oldest command makes room; the index in use is in range. */
    method Append(newCommand: wstring, reuse: wstring)
      requires Valid() && maxCommands > 0 && (reuse == [] || reuse == newCommand)
      modifies this
      ensures Valid() && maxCommands == old(maxCommands) && reset
      ensures Appended(Evicted(old(S())), newCommand) == Done(S())
    {
      AppendedKeeps(S(), newCommand);
      if |commands| == maxCommands {
        commands := commands[1..];
        lastDisplayed := lastDisplayed - 1;
      }
      commands := commands + [if reuse != [] then reuse else newCommand];
      if lastDisplayed == -1 || commands[lastDisplayed] != newCommand {
        lastDisplayed := |commands| - 1;
      }
      reset := true;
    }

    /** Takes an older copy out, if asked to, and appends the command. */
    method Renew(newCommand: wstring, suppressDuplicates: bool)
      requires Valid() && maxCommands > 0 && newCommand != []
      modifies this
      ensures Valid() && maxCommands == old(maxCommands) && reset
      ensures var s := if suppressDuplicates then Suppressed(old(S()), newCommand) else old(S());
              Appended(Evicted(s), newCommand) == Done(S())
    {
      var reuse := [];
      if suppressDuplicates {
        reuse := Suppress(newCommand);
      }
      Append(newCommand, reuse);
    }

    /** Tells whether the command was accepted; only a history without room for any refuses. */
    method Store(newCommand: wstring, suppressDuplicates: bool) returns (ok: bool)
      requires Valid()
      modifies this
      ensures Valid() && ok == (maxCommands != 0)
      ensures AfterAdd(old(S()), newCommand, suppressDuplicates) == Done(S())
    {
      if maxCommands == 0 {
        return false;
      }
      ok := true;
      if newCommand == [] {
        return;
      }
      if commands == [] || commands[|commands| - 1] != newCommand {
        Renew(newCommand, suppressDuplicates);
      }
      reset := true;
    }

    /** The history then holds the newest of the commands noted, the one added among them. */
    method Add(newCommand: wstring, suppressDuplicates: bool) returns (ok: bool)
      requires Valid()
      modifies this
      ensures Valid() && ok == (maxCommands != 0)
      ensures AfterAdd(old(S()), newCommand, suppressDuplicates) == Done(S())
      ensures Remembers(old(S()), newCommand, suppressDuplicates, S())
    {
      AddRemembers(S(), newCommand, suppressDuplicates);
      ok := Store(newCommand, suppressDuplicates);
    }
  }
}
