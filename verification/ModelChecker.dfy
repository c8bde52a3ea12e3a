/** The depth-first model checker (pkg/modelchecker/model.go). */
module ModelChecker {
  import opened Bytes
  import opened Decimal

  datatype State = State(traceId: bytes, seqNo: uint64, hash: bytes)

  datatype Transition = Transition(from: State, to: State, event: bytes)

  /** A state as the search sees it: the hash is ignored. */
  datatype Key = Key(traceId: bytes, seqNo: uint64)

  const COLON: byte := 0x3a

  function KeyOf(s: State): Key {
    Key(s.traceId, s.seqNo)
  }

  /** stateKey. */
  function KeyText(k: Key): bytes {
    k.traceId + [COLON] + Digits(k.seqNo)
  }

  lemma NoColonInNumber(a: Key, k: nat)
    requires |a.traceId| < k < |KeyText(a)|
    ensures KeyText(a)[k] != COLON
  {
    var c := Digits(a.seqNo)[k - |a.traceId| - 1];
    assert c in Digits(a.seqNo) && KeyText(a)[k] == c;
  }

  /** Different keys never share a text, even when trace IDs contain colons: digits cannot. */
  lemma KeyTextInjective(a: Key, b: Key)
    requires KeyText(a) == KeyText(b)
    ensures a == b
  {
    var s, i, j := KeyText(a), |a.traceId|, |b.traceId|;
    assert KeyText(a)[i] == COLON && KeyText(b)[j] == COLON;
    if i < j { NoColonInNumber(a, j); }
    if j < i { NoColonInNumber(b, i); }
    assert a.traceId == s[..i] == b.traceId;
    assert Digits(a.seqNo) == s[i + 1..] == Digits(b.seqNo);
    DigitsInjective(a.seqNo, b.seqNo);
  }

  /** INV2 on one transition. */
  predicate Admissible(t: Transition) {
    t.to.seqNo == Succ(t.from.seqNo)
  }

  // ---------------------------------------------------------------- reachability

  /** `p` leads from `a` to `b` along the given transitions. */
  ghost predicate IsPath(ts: seq<Transition>, a: Key, p: seq<Transition>, b: Key) {
    if p == [] then a == b
    else p[|p| - 1] in ts && KeyOf(p[|p| - 1].to) == b && IsPath(ts, a, p[..|p| - 1], KeyOf(p[|p| - 1].from))
  }

  ghost predicate Reachable(ts: seq<Transition>, a: Key, b: Key) {
    exists p :: IsPath(ts, a, p, b)
  }

  lemma ReachableStep(ts: seq<Transition>, a: Key, t: Transition)
    requires t in ts && Reachable(ts, a, KeyOf(t.from))
    ensures Reachable(ts, a, KeyOf(t.to))
  {
    var p :| IsPath(ts, a, p, KeyOf(t.from));
    assert (p + [t])[..|p|] == p;
    assert IsPath(ts, a, p + [t], KeyOf(t.to));
  }

  /** A set that contains the start and is closed under the transitions contains every reachable key. */
  lemma {:induction false} ClosedContains(ts: seq<Transition>, a: Key, v: set<Key>, p: seq<Transition>, b: Key)
    requires a in v && IsPath(ts, a, p, b)
    requires forall t <- ts :: KeyOf(t.from) in v ==> KeyOf(t.to) in v
    ensures b in v
  {
    if p != [] {
      ClosedContains(ts, a, v, p[..|p| - 1], KeyOf(p[|p| - 1].from));
    }
  }

  /** What the checker is asked: every transition out of a reachable key raises the number by one. */
  ghost predicate AllReachableAdmissible(ts: seq<Transition>, a: Key) {
    forall t <- ts :: Reachable(ts, a, KeyOf(t.from)) ==> Admissible(t)
  }

  /** The same on states, as the source compares them: `p` leads from `a` to `b` when each of its transitions starts at
      the trace ID and number where the one before it ended. */
  ghost predicate IsRoute(ts: seq<Transition>, a: State, p: seq<Transition>, b: State) {
    if p == [] then a.traceId == b.traceId && a.seqNo == b.seqNo
    else
      var t := p[|p| - 1];
      t in ts && t.to.traceId == b.traceId && t.to.seqNo == b.seqNo && IsRoute(ts, a, p[..|p| - 1], t.from)
  }

  ghost predicate Reached(ts: seq<Transition>, a: State, b: State) {
    exists p :: IsRoute(ts, a, p, b)
  }

  /** Some transition out of a reached state does not raise the number by exactly one. */
  ghost predicate Violated(ts: seq<Transition>, a: State, t: Transition) {
    t in ts && Reached(ts, a, t.from) && t.to.seqNo != (t.from.seqNo + 1) % U64
  }

  /** Every transition out of a reached state raises the number by one. */
  ghost predicate Passes(ts: seq<Transition>, a: State) {
    forall t <- ts :: !Violated(ts, a, t)
  }

  /** `visited` holds "trace:number" of every reached state, and nothing else. */
  ghost predicate Recorded(ts: seq<Transition>, a: State, visited: set<bytes>) {
    && (forall s: State :: Reached(ts, a, s) ==> s.traceId + [0x3a] + Digits(s.seqNo) in visited)
    && (forall b <- visited :: exists s: State :: Reached(ts, a, s) && b == s.traceId + [0x3a] + Digits(s.seqNo))
  }

  lemma {:induction false} RouteIsPath(ts: seq<Transition>, a: State, p: seq<Transition>, b: State)
    ensures IsRoute(ts, a, p, b) <==> IsPath(ts, KeyOf(a), p, KeyOf(b))
  {
    if p != [] {
      RouteIsPath(ts, a, p[..|p| - 1], p[|p| - 1].from);
    }
  }

  /** Keys lose nothing the search needs. */
  lemma ReachedIsReachable(ts: seq<Transition>, a: State, b: State)
    ensures Reached(ts, a, b) <==> Reachable(ts, KeyOf(a), KeyOf(b))
  {
    hide IsRoute, IsPath;
    if Reached(ts, a, b) {
      var p :| IsRoute(ts, a, p, b);
      RouteIsPath(ts, a, p, b);
    }
    if Reachable(ts, KeyOf(a), KeyOf(b)) {
      var p :| IsPath(ts, KeyOf(a), p, KeyOf(b));
      RouteIsPath(ts, a, p, b);
    }
  }

  lemma AdmissibleIff(ts: seq<Transition>, a: State)
    ensures AllReachableAdmissible(ts, KeyOf(a)) <==> Passes(ts, a)
  {
    hide Reached, Reachable;
    forall t: Transition ensures Reached(ts, a, t.from) <==> Reachable(ts, KeyOf(a), KeyOf(t.from)) {
      ReachedIsReachable(ts, a, t.from);
    }
  }

  /** Every key the search can ever meet. */
  function Universe(ts: seq<Transition>, a: Key): set<Key> {
    {a} + set t <- ts :: KeyOf(t.to)
  }

  // ---------------------------------------------------------------- the search

  class Checker {
    var visited: set<bytes>
    var transitions: seq<Transition>

    constructor ()
      ensures visited == {} && transitions == []
    {
      visited, transitions := {}, [];
    }

    method SetTransitions(t: seq<Transition>)
      modifies this`transitions
      ensures transitions == t
    {
      transitions := t;
    }

    /** Check: terminates, and returns no error exactly when every transition out of a reached state raises the number
        by one; then `visited` holds exactly the texts "trace:number" of the reached states. An error names a bad
        one. */
    method Check(initial: State) returns (err: Option<Transition>)
      modifies this`visited
      ensures err.None? <==> Passes(transitions, initial)
      ensures err.Some? ==> Violated(transitions, initial, err.value)
      ensures err.None? ==> Recorded(transitions, initial, visited)
    {
      ghost var seen: set<Key> := {};
      visited := {};
      var stack := [initial];
      SearchStart(transitions, initial);
      hide Searching, Unseen, KeyText, TargetsOut, Expanded, Violated, Passes, Recorded;
      while |stack| > 0
        invariant Searching(transitions, initial, seen, visited, stack)
        decreases Unseen(transitions, initial, seen), |stack|
      {
        var current := stack[|stack| - 1];
        ghost var before := stack;
        stack := stack[..|stack| - 1];
        assert before == stack + [current];
        var key := KeyText(KeyOf(current));
        KeySeen(transitions, initial, seen, visited, stack, current);
        if key in visited {
          SearchSkip(transitions, initial, seen, visited, stack, current);
          continue;
        }
        ghost var rest, visited0 := stack, visited;
        visited := visited + {key};
        stack, err := Expand(current, stack);
        if err.Some? {
          SearchStop(transitions, initial, seen, visited0, rest, current, err.value);
          return;
        }
        SearchStep(transitions, initial, seen, visited0, rest, current, stack);
        seen := seen + {KeyOf(current)};
      }
      SearchDone(transitions, initial, seen, visited);
      err := None;
    }

    /** The inner loop of Check: push the target of every transition out of `current`, stop at a bad one. */
    method Expand(current: State, stack0: seq<State>) returns (stack: seq<State>, bad: Option<Transition>)
      ensures bad.Some? ==>
        && bad.value in transitions
        && Leaves(bad.value, current)
        && bad.value.to.seqNo != (bad.value.from.seqNo + 1) % U64
      ensures bad.None? ==> stack == stack0 + TargetsOut(transitions, current)
      ensures bad.None? ==> Expanded(transitions, current, stack0, stack)
    {
      stack := stack0;
      NothingExpanded(current, stack0);
      hide Expanded, TargetsOut;
      for i := 0 to |transitions|
        invariant stack == stack0 + TargetsOut(transitions[..i], current)
        invariant Expanded(transitions[..i], current, stack0, stack)
      {
        var t := transitions[i];
        assert transitions[..i + 1] == transitions[..i] + [t];
        TargetsSnoc(transitions[..i], t, current);
        ExpandedSnoc(transitions[..i], t, current, stack0, stack);
        if t.from.traceId == current.traceId && t.from.seqNo == current.seqNo {
          if t.to.seqNo != Succ(t.from.seqNo) {
            return stack, Some(t);
          }
          stack := stack + [t.to];
        }
      }
      assert transitions[..|transitions|] == transitions;
      bad := None;
    }
  }

  /** The targets of the transitions out of `u`, in list order. */
  function TargetsOut(ts: seq<Transition>, u: State): seq<State> {
    if ts == [] then []
    else
      var front, t := TargetsOut(ts[..|ts| - 1], u), ts[|ts| - 1];
      if Leaves(t, u) then front + [t.to] else front
  }

  lemma TargetsSnoc(ts: seq<Transition>, t: Transition, u: State)
    ensures TargetsOut(ts + [t], u) ==
            TargetsOut(ts, u) + if Leaves(t, u) then [t.to] else []
  {
    assert (ts + [t])[..|ts|] == ts;
  }

  lemma NothingExpanded(u: State, stack: seq<State>)
    ensures stack == stack + TargetsOut([], u) && Expanded([], u, stack, stack)
  {
  }

  lemma ExpandedSnoc(ts: seq<Transition>, t: Transition, u: State, stack: seq<State>, stack': seq<State>)
    requires Expanded(ts, u, stack, stack')
    ensures !Leaves(t, u) ==> Expanded(ts + [t], u, stack, stack')
    ensures Leaves(t, u) && t.to.seqNo == (t.from.seqNo + 1) % U64 ==> Expanded(ts + [t], u, stack, stack' + [t.to])
  {
    assert t in ts + [t];
    forall s | s in stack' && s !in stack
      ensures exists x <- ts + [t] :: Leaves(x, u) && s == x.to
    {
      var x :| x in ts && Leaves(x, u) && s == x.to;
      assert x in ts + [t];
    }
  }

  /** The texts of the keys seen, and of no other key. */
  ghost predicate Mirrors(visited: set<bytes>, seen: set<Key>) {
    visited == set k <- seen :: KeyText(k)
  }

  lemma MirrorsAdd(visited: set<bytes>, seen: set<Key>, key: Key)
    requires Mirrors(visited, seen)
    ensures KeyText(key) in visited <==> key in seen
    ensures Mirrors(visited + {KeyText(key)}, seen + {key})
  {
    hide KeyText;
    if KeyText(key) in visited {
      var k :| k in seen && KeyText(k) == KeyText(key);
      KeyTextInjective(k, key);
    }
  }

  /** The transition leaves from the trace ID and number of `u`. */
  predicate Leaves(t: Transition, u: State) {
    t.from.traceId == u.traceId && t.from.seqNo == u.seqNo
  }

  /** The targets of the transitions out of `current`, and nothing else, are pushed, and each raises the number by
      one. */
  ghost predicate Expanded(ts: seq<Transition>, current: State, stack: seq<State>, stack': seq<State>) {
    && stack <= stack'
    && (forall t <- ts :: Leaves(t, current) ==> t.to.seqNo == (t.from.seqNo + 1) % U64 && t.to in stack')
    && (forall s <- stack' :: s in stack || exists t <- ts :: Leaves(t, current) && s == t.to)
  }

  /** Already visited, or still on the stack. */
  ghost predicate Pending(k: Key, seen: set<Key>, stack: seq<State>) {
    k in seen || exists s <- stack :: KeyOf(s) == k
  }

  /** Only reachable keys are visited or on the stack. */
  ghost predicate Sound(ts: seq<Transition>, a: Key, seen: set<Key>, stack: seq<State>) {
    && (forall k <- seen :: k in Universe(ts, a) && Reachable(ts, a, k))
    && (forall s <- stack :: KeyOf(s) in Universe(ts, a) && Reachable(ts, a, KeyOf(s)))
  }

  /** Nothing is lost: the start and every target of a visited key are visited or on the stack. */
  ghost predicate Covered(ts: seq<Transition>, a: Key, seen: set<Key>, stack: seq<State>) {
    && Pending(a, seen, stack)
    && forall t <- ts :: KeyOf(t.from) in seen ==> Admissible(t) && Pending(KeyOf(t.to), seen, stack)
  }

  /** What holds between two turns of the search: visited texts mirror the seen keys, all of them and of the stack are
      reachable, and nothing they lead to is lost. */
  ghost predicate Searching(ts: seq<Transition>, a: State, seen: set<Key>, visited: set<bytes>, stack: seq<State>) {
    Mirrors(visited, seen) && Sound(ts, KeyOf(a), seen, stack) && Covered(ts, KeyOf(a), seen, stack)
  }

  ghost function Unseen(ts: seq<Transition>, a: State, seen: set<Key>): nat {
    |Universe(ts, KeyOf(a)) - seen|
  }

  lemma SearchStart(ts: seq<Transition>, initial: State)
    ensures Searching(ts, initial, {}, {}, [initial])
  {
    assert IsPath(ts, KeyOf(initial), [], KeyOf(initial)) && initial in [initial];
  }

  lemma KeySeen(ts: seq<Transition>, a: State, seen: set<Key>, visited: set<bytes>, stack: seq<State>,
                current: State)
    requires Searching(ts, a, seen, visited, stack + [current])
    ensures KeyText(KeyOf(current)) in visited <==> KeyOf(current) in seen
  {
    hide Sound, Covered, KeyText;
    MirrorsAdd(visited, seen, KeyOf(current));
  }

  lemma SearchSkip(ts: seq<Transition>, a: State, seen: set<Key>, visited: set<bytes>, stack: seq<State>,
                   current: State)
    requires Searching(ts, a, seen, visited, stack + [current]) && KeyOf(current) in seen
    ensures Searching(ts, a, seen, visited, stack)
  {
    hide Reachable, Mirrors;
    forall k | Pending(k, seen, stack + [current]) ensures Pending(k, seen, stack) { }
  }

  lemma SearchStop(ts: seq<Transition>, a: State, seen: set<Key>, visited: set<bytes>, stack: seq<State>,
                   current: State, bad: Transition)
    requires Searching(ts, a, seen, visited, stack + [current])
    requires bad in ts && Leaves(bad, current) && bad.to.seqNo != (bad.from.seqNo + 1) % U64
    ensures Violated(ts, a, bad) && !Passes(ts, a)
  {
    hide Reached, Reachable, Mirrors, Covered;
    assert current in stack + [current];
    ReachedIsReachable(ts, a, bad.from);
  }

  lemma StepSound(ts: seq<Transition>, a: Key, seen: set<Key>, stack: seq<State>, current: State, stack': seq<State>)
    requires Sound(ts, a, seen, stack + [current]) && Expanded(ts, current, stack, stack')
    ensures Sound(ts, a, seen + {KeyOf(current)}, stack') && KeyOf(current) in Universe(ts, a)
  {
    hide Reachable;
    assert current in stack + [current];
    forall s | s in stack' ensures KeyOf(s) in Universe(ts, a) && Reachable(ts, a, KeyOf(s)) {
      if s in stack {
        assert s in stack + [current];
      } else {
        var t :| t in ts && Leaves(t, current) && s == t.to;
        ReachableStep(ts, a, t);
      }
    }
  }

  lemma StepCovered(ts: seq<Transition>, a: Key, seen: set<Key>, stack: seq<State>, current: State, stack': seq<State>)
    requires Covered(ts, a, seen, stack + [current]) && Expanded(ts, current, stack, stack')
    ensures Covered(ts, a, seen + {KeyOf(current)}, stack')
  {
    forall k | Pending(k, seen, stack + [current]) ensures Pending(k, seen + {KeyOf(current)}, stack') { }
  }

  lemma SearchStep(ts: seq<Transition>, a: State, seen: set<Key>, visited: set<bytes>, stack: seq<State>,
                   current: State, stack': seq<State>)
    requires Searching(ts, a, seen, visited, stack + [current])
    requires KeyOf(current) !in seen && Expanded(ts, current, stack, stack')
    ensures var seen' := seen + {KeyOf(current)};
      && Searching(ts, a, seen', visited + {KeyText(KeyOf(current))}, stack')
      && Unseen(ts, a, seen') < Unseen(ts, a, seen)
  {
    hide Sound, Covered, Expanded, Mirrors, KeyText, Universe;
    var seen', u := seen + {KeyOf(current)}, Universe(ts, KeyOf(a));
    MirrorsAdd(visited, seen, KeyOf(current));
    StepSound(ts, KeyOf(a), seen, stack, current, stack');
    StepCovered(ts, KeyOf(a), seen, stack, current, stack');
    assert KeyOf(current) in u - seen && KeyOf(current) !in u - seen';
    SmallerSet(u - seen', u - seen);
  }

  lemma SearchClosed(ts: seq<Transition>, a: Key, seen: set<Key>)
    requires Sound(ts, a, seen, []) && Covered(ts, a, seen, [])
    ensures AllReachableAdmissible(ts, a)
    ensures forall k :: k in seen <==> Reachable(ts, a, k)
  {
    forall k | Reachable(ts, a, k) ensures k in seen {
      var p :| IsPath(ts, a, p, k);
      ClosedContains(ts, a, seen, p, k);
    }
  }

  lemma SearchDone(ts: seq<Transition>, a: State, seen: set<Key>, visited: set<bytes>)
    requires Searching(ts, a, seen, visited, [])
    ensures Passes(ts, a) && Recorded(ts, a, visited)
  {
    hide Digits, Reached, Reachable;
    SearchClosed(ts, KeyOf(a), seen);
    AdmissibleIff(ts, a);
    hide Sound, Covered, AllReachableAdmissible, Passes;
    forall s: State | Reached(ts, a, s) ensures s.traceId + [0x3a] + Digits(s.seqNo) in visited {
      ReachedIsReachable(ts, a, s);
      assert KeyOf(s) in seen && KeyText(KeyOf(s)) in visited;
    }
    forall b | b in visited
      ensures exists s: State :: Reached(ts, a, s) && b == s.traceId + [0x3a] + Digits(s.seqNo)
    {
      var k :| k in seen && b == KeyText(k);
      var s := State(k.traceId, k.seqNo, []);
      assert KeyOf(s) == k;
      ReachedIsReachable(ts, a, s);
    }
  }

  lemma SmallerSet<T>(a: set<T>, b: set<T>)
    requires a < b
    ensures |a| < |b|
  {
    var x :| x in b && x !in a;
    assert x in b - a && b == a + (b - a);
  }

  // ---------------------------------------------------------------- what a passing check implies

  /** Every route of length m from the start ends m numbers later. */
  lemma RouteCounts(ts: seq<Transition>, a: State, p: seq<Transition>, b: State)
    requires Passes(ts, a) && IsRoute(ts, a, p, b)
    ensures b.seqNo == (a.seqNo + |p|) % U64
  {
    hide IsRoute, IsPath, Violated, AllReachableAdmissible;
    AdmissibleIff(ts, a);
    RouteIsPath(ts, a, p, b);
    PathCounts(ts, KeyOf(a), p, KeyOf(b));
  }

  /** A reached state on a cycle needs at least 2^64 transitions: what a passing check has searched has no cycle. */
  lemma NoReachedCycle(ts: seq<Transition>, a: State, p: seq<Transition>, b: State, q: seq<Transition>)
    requires Passes(ts, a) && IsRoute(ts, a, p, b) && IsRoute(ts, b, q, b)
    requires |ts| < U64
    ensures q == []
  {
    hide IsRoute, IsPath, Violated, AllReachableAdmissible;
    AdmissibleIff(ts, a);
    RouteIsPath(ts, a, p, b);
    RouteIsPath(ts, b, q, b);
    NoReachableCycle(ts, KeyOf(a), p, KeyOf(b), q);
  }

  lemma {:induction false} PathCounts(ts: seq<Transition>, a: Key, p: seq<Transition>, b: Key)
    requires AllReachableAdmissible(ts, a) && IsPath(ts, a, p, b)
    ensures b.seqNo == (a.seqNo + |p|) % U64
  {
    if p != [] {
      var front, t := p[..|p| - 1], p[|p| - 1];
      PathCounts(ts, a, front, KeyOf(t.from));
      assert Reachable(ts, a, KeyOf(t.from));
      SuccOfMod(a.seqNo + |front|);
    }
  }

  lemma NoReachableCycle(ts: seq<Transition>, a: Key, p: seq<Transition>, b: Key, q: seq<Transition>)
    requires AllReachableAdmissible(ts, a) && IsPath(ts, a, p, b) && IsPath(ts, b, q, b)
    requires |ts| < U64
    ensures q == []
  {
    ReachableFrom(ts, a, p, b);
    if q != [] {
      PathCounts(ts, b, q, b);
      assert |q| % U64 == 0;
      assert |q| >= U64;
      forall n: nat | n < U64 ensures n in FromNumbers(ts) {
        var k := if n >= b.seqNo then n - b.seqNo else n + U64 - b.seqNo;
        PathEdge(ts, b, q, b, k);
        assert q[k].from.seqNo == (b.seqNo + k) % U64 == n;
      }
      AllBelow(U64, FromNumbers(ts));
      FromNumbersSize(ts);
      assert false;
    }
  }

  lemma ReachableFrom(ts: seq<Transition>, a: Key, p: seq<Transition>, b: Key)
    requires AllReachableAdmissible(ts, a) && IsPath(ts, a, p, b)
    ensures AllReachableAdmissible(ts, b)
  {
    forall t | t in ts && Reachable(ts, b, KeyOf(t.from)) ensures Admissible(t) {
      var r :| IsPath(ts, b, r, KeyOf(t.from));
      PathJoin(ts, a, p, b, r, KeyOf(t.from));
    }
  }

  lemma {:induction false} PathJoin(ts: seq<Transition>, a: Key, p: seq<Transition>, b: Key, q: seq<Transition>, c: Key)
    requires IsPath(ts, a, p, b) && IsPath(ts, b, q, c)
    ensures IsPath(ts, a, p + q, c)
  {
    if q == [] {
      assert p + q == p;
    } else {
      PathJoin(ts, a, p, b, q[..|q| - 1], KeyOf(q[|q| - 1].from));
      assert (p + q)[..|p + q| - 1] == p + q[..|q| - 1];
    }
  }

  /** Edge `k` of a path leaves from `k` numbers after its start. */
  lemma {:induction false} PathEdge(ts: seq<Transition>, a: Key, p: seq<Transition>, b: Key, k: nat)
    requires AllReachableAdmissible(ts, a) && IsPath(ts, a, p, b) && k < |p|
    ensures p[k] in ts && p[k].from.seqNo == (a.seqNo + k) % U64
  {
    var front, t := p[..|p| - 1], p[|p| - 1];
    if k < |front| {
      PathEdge(ts, a, front, KeyOf(t.from), k);
    } else {
      PathCounts(ts, a, front, KeyOf(t.from));
    }
  }

  function FromNumbers(ts: seq<Transition>): set<int> {
    set t <- ts :: t.from.seqNo
  }

  lemma {:induction false} FromNumbersSize(ts: seq<Transition>)
    ensures |FromNumbers(ts)| <= |ts|
  {
    if ts != [] {
      FromNumbersSize(ts[..|ts| - 1]);
      assert FromNumbers(ts) == FromNumbers(ts[..|ts| - 1]) + {ts[|ts| - 1].from.seqNo};
    }
  }

  lemma {:induction false} AllBelow(n: nat, s: set<int>)
    requires forall k: nat | k < n :: k in s
    ensures |s| >= n
    decreases n
  {
    if n > 0 {
      AllBelow(n - 1, s - {n - 1});
    }
  }

  // ---------------------------------------------------------------- splitting a key text

  function FirstIndex(s: bytes, d: byte): (i: nat)
    ensures i <= |s| && (forall k :: 0 <= k < i ==> s[k] != d) && (i < |s| ==> s[i] == d)
  {
    if s == [] || s[0] == d then 0 else 1 + FirstIndex(s[1..], d)
  }

  /** Cut at the first n - 1 delimiters; None where the source panics. */
  function Split(s: bytes, d: byte, n: nat): Option<seq<bytes>>
    decreases n
  {
    if n <= 1 then Some([s])
    else
      var i := FirstIndex(s, d);
      if i == |s| then None
      else
        match Split(s[i + 1..], d, n - 1)
        case None => None
        case Some(parts) => Some([s[..i]] + parts)
  }

  ghost function Prepend(parts: seq<bytes>, rest: Option<seq<bytes>>): Option<seq<bytes>> {
    if rest.None? then None else Some(parts + rest.value)
  }

  /** One turn of the loop: the next part ends at the first delimiter. */
  lemma SplitStep(s: bytes, d: byte, n: nat, start: nat, j: nat)
    requires n > 1 && start <= j <= |s| && (forall k :: start <= k < j ==> s[k] != d) && (j < |s| ==> s[j] == d)
    ensures Split(s[start..], d, n) ==
            if j == |s| then None else Prepend([s[start..j]], Split(s[j + 1..], d, n - 1))
  {
    var t := s[start..];
    assert FirstIndex(t, d) == j - start;
    if j < |s| {
      assert t[..j - start] == s[start..j] && t[j - start + 1..] == s[j + 1..];
    }
  }

  lemma PrependNothing(rest: Option<seq<bytes>>)
    ensures Prepend([], rest) == rest
  {
    if rest.Some? { assert [] + rest.value == rest.value; }
  }

  lemma PrependTwice(a: seq<bytes>, b: seq<bytes>, rest: Option<seq<bytes>>)
    ensures Prepend(a, Prepend(b, rest)) == Prepend(a + b, rest)
  {
    if rest.Some? { assert a + (b + rest.value) == a + b + rest.value; }
  }

  /** The scan for the next delimiter. */
  method IndexFrom(s: bytes, d: byte, start: nat) returns (j: nat)
    requires start <= |s|
    ensures start <= j <= |s| && (forall k :: start <= k < j ==> s[k] != d) && (j < |s| ==> s[j] == d)
  {
    j := start;
    while j < |s| && s[j] != d
      invariant start <= j <= |s| && forall k :: start <= k < j ==> s[k] != d
    {
      j := j + 1;
    }
  }

  /** splitExact. */
  method SplitExact(s: bytes, d: byte, n: nat) returns (r: Option<seq<bytes>>)
    ensures r == Split(s, d, n)
  {
    var parts: seq<bytes> := [];
    var start := 0;
    var i := 0;
    hide Split, Prepend, FirstIndex;
    assert s[start..] == s;
    PrependNothing(Split(s, d, n));
    while i < n - 1
      invariant start <= |s| && (n >= 1 ==> i <= n - 1) && (n == 0 ==> i == 0)
      invariant Split(s, d, n) == Prepend(parts, Split(s[start..], d, n - i))
      decreases n - i
    {
      var j := IndexFrom(s, d, start);
      SplitStep(s, d, n - i, start, j);
      if j == |s| {
        NothingFound(parts);
        return None;
      }
      PrependTwice(parts, [s[start..j]], Split(s[j + 1..], d, n - i - 1));
      parts := parts + [s[start..j]];
      start := j + 1;
      i := i + 1;
    }
    LastPart(parts, s[start..], d, n - i);
    r := Some(parts + [s[start..]]);
  }

  lemma NothingFound(parts: seq<bytes>)
    ensures Prepend(parts, None) == None
  {
  }

  lemma LastPart(parts: seq<bytes>, s: bytes, d: byte, n: nat)
    requires n <= 1
    ensures Prepend(parts, Split(s, d, n)) == Some(parts + [s])
  {
  }

  function Join(parts: seq<bytes>, d: byte): bytes {
    if parts == [] then [] else if |parts| == 1 then parts[0] else parts[0] + [d] + Join(parts[1..], d)
  }

  /** The cut loses nothing, gives exactly n parts, and only the last may still contain the delimiter. */
  lemma {:induction false} SplitExactMeaning(s: bytes, d: byte, n: nat)
    requires n >= 1 && Split(s, d, n).Some?
    ensures var parts := Split(s, d, n).value;
      |parts| == n && Join(parts, d) == s && forall k :: 0 <= k < n - 1 ==> d !in parts[k]
    decreases n
  {
    if n > 1 {
      var i := FirstIndex(s, d);
      SplitExactMeaning(s[i + 1..], d, n - 1);
      assert s == s[..i] + [d] + s[i + 1..];
    }
  }

  /** How many delimiters a text holds. */
  function Delimiters(s: bytes, d: byte): nat {
    if s == [] then 0 else (if s[0] == d then 1 else 0) + Delimiters(s[1..], d)
  }

  lemma {:induction false} DelimitersAfter(s: bytes, d: byte, i: nat)
    requires i <= |s| && forall k :: 0 <= k < i ==> s[k] != d
    ensures Delimiters(s, d) == Delimiters(s[i..], d)
  {
    if i > 0 {
      DelimitersAfter(s[1..], d, i - 1);
      assert s[1..][i - 1..] == s[i..];
    } else {
      assert s[0..] == s;
    }
  }

  /** The source panics exactly when there are too few delimiters. */
  lemma {:induction false} SplitExactPanicsIff(s: bytes, d: byte, n: nat)
    ensures Split(s, d, n).None? <==> n > 1 && Delimiters(s, d) < n - 1
    decreases n
  {
    if n > 1 {
      var i := FirstIndex(s, d);
      DelimitersAfter(s, d, i);
      if i < |s| {
        SplitExactPanicsIff(s[i + 1..], d, n - 1);
        assert s[i..][1..] == s[i + 1..];
      }
    }
  }

  /** Paths reads the trace ID back from a key text: right exactly when the ID contains no colon. */
  lemma PathsTraceIdIff(k: Key)
    ensures Split(KeyText(k), COLON, 2).Some?
    ensures Split(KeyText(k), COLON, 2).value[0] == k.traceId <==> COLON !in k.traceId
  {
    var s, i := KeyText(k), |k.traceId|;
    assert s[i] == COLON && s[..i] == k.traceId;
    assert forall j :: 0 <= j < i ==> s[j] == k.traceId[j];
    assert FirstIndex(s, COLON) <= i;
  }
}
