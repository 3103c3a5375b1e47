/**
 The ownership glob matcher.
 */
module PathGlob {
  /**
   Source: apps/control-plane/src/findings-lifecycle.ts:197-264. A linear-time automaton that
   replaced a backtracking regular expression.

   The reference is the language of a token list: a path lies in it when it splits into
   one piece per token, each piece allowed by its token.  AcceptsExactly states the whole in
   the text of the pattern.
   */
  import opened Texts

  const STAR: CodeUnit := 42
  const QUESTION: CodeUnit := 63

  datatype GlobToken = Literal(c: CodeUnit) | Segment | Any | Single
  {
    predicate Repeats() {
      Segment? || Any?
    }

    /** The code units this token can consume one of. */
    predicate Consumes(u: CodeUnit) {
      match this
      case Literal(c) => u == c
      case Single => u != SLASH
      case Segment => u != SLASH
      case Any => u != NEWLINE && u != CARRIAGE_RETURN && u != 0x2028 && u != 0x2029
    }

    /** The pieces of path this token stands for. */
    ghost predicate Allows(piece: Text) {
      match this
      case Literal(c) => piece == [c]
      case Single => |piece| == 1 && piece[0] != 47
      case Segment => 47 !in piece
      case Any => 10 !in piece && 13 !in piece && 0x2028 !in piece && 0x2029 !in piece
    }

    ghost predicate AllowsUnits(piece: Text) {
      && (Repeats() || |piece| == 1)
      && forall i :: 0 <= i < |piece| ==> Consumes(piece[i])
    }
  }

  lemma AllowsByUnits(t: GlobToken)
    ensures forall piece :: t.Allows(piece) <==> t.AllowsUnits(piece)
  {
  }

  function StripLeadingSlashes(s: Text): Text {
    if s != [] && s[0] == SLASH then StripLeadingSlashes(s[1..]) else s
  }

  function Tokens(pattern: Text): seq<GlobToken> {
    if pattern == [] then []
    else if pattern[0] == STAR then
      if |pattern| > 1 && pattern[1] == STAR then [Any] + Tokens(pattern[2..])
      else [Segment] + Tokens(pattern[1..])
    else if pattern[0] == QUESTION then [Single] + Tokens(pattern[1..])
    else [Literal(pattern[0])] + Tokens(pattern[1..])
  }

  // ----- the tokens in the text of the pattern

  function ElementText(t: GlobToken): Text {
    match t
    case Any => [42, 42]
    case Segment => [42]
    case Single => [63]
    case Literal(c) => [c]
  }

  ghost function PatternText(tokens: seq<GlobToken>): Text {
    if tokens == [] then [] else ElementText(tokens[0]) + PatternText(tokens[1..])
  }

  /** A reading of a pattern spells it, takes `*` and `?` for nothing but wildcards, and pairs stars from the
      left. */
  ghost predicate Reading(tokens: seq<GlobToken>, pattern: Text) {
    && PatternText(tokens) == pattern
    && (forall k :: 0 <= k < |tokens| && tokens[k].Literal? ==> tokens[k].c != 42 && tokens[k].c != 63)
    && forall k, j :: 0 <= k && j == k + 1 && j < |tokens| && tokens[k].Segment? ==> tokens[j].Literal? || tokens[j].Single?
  }

  /** The first token of a pattern stands for its first star pair or unit. */
  lemma FirstToken(pattern: Text) returns (t: GlobToken, rest: Text)
    requires pattern != []
    ensures pattern == ElementText(t) + rest && Tokens(pattern) == [t] + Tokens(rest)
    ensures t.Literal? ==> t.c != 42 && t.c != 63
    ensures t.Segment? && Tokens(rest) != [] ==> Tokens(rest)[0].Literal? || Tokens(rest)[0].Single?
  {
    var u, after := pattern[0], pattern[1..];
    assert pattern == [u] + after;
    if u == STAR && after != [] && after[0] == STAR {
      t, rest := Any, pattern[2..];
      assert pattern == [42, 42] + rest;
    } else {
      t, rest := if u == STAR then Segment else if u == QUESTION then Single else Literal(u), after;
    }
  }

  lemma ReadingCons(t: GlobToken, tokens: seq<GlobToken>, rest: Text)
    requires Reading(tokens, rest) && (t.Literal? ==> t.c != 42 && t.c != 63)
    requires t.Segment? && tokens != [] ==> tokens[0].Literal? || tokens[0].Single?
    ensures Reading([t] + tokens, ElementText(t) + rest)
  {
    assert ([t] + tokens)[1..] == tokens;
  }

  lemma {:induction false} TokensRead(pattern: Text)
    ensures Reading(Tokens(pattern), pattern)
    decreases |pattern|
  {
    if pattern != [] {
      var t, rest := FirstToken(pattern);
      TokensRead(rest);
      ReadingCons(t, Tokens(rest), rest);
    }
  }

  lemma FirstOfReading(tokens: seq<GlobToken>, pattern: Text)
    requires Reading(tokens, pattern) && pattern != []
    ensures tokens != [] && tokens[0] == Tokens(pattern)[0]
  {
    var rest := PatternText(tokens[1..]);
    assert pattern == ElementText(tokens[0]) + rest;
    if tokens[0].Segment? && |pattern| > 1 {
      assert pattern[1] == rest[0] && |tokens| > 1;
      assert tokens[1..][0] == tokens[1];
    }
  }

  lemma ReadingTail(tokens: seq<GlobToken>, pattern: Text, n: nat)
    requires tokens != [] && Reading(tokens, pattern) && n == if tokens[0].Any? then 2 else 1
    ensures n <= |pattern| && Reading(tokens[1..], pattern[n..])
  {
    var tail := tokens[1..];
    assert pattern == ElementText(tokens[0]) + PatternText(tail);
    forall k, j | 0 <= k && j == k + 1 && j < |tail| && tail[k].Segment? ensures tail[j].Literal? || tail[j].Single? {
      assert tokens[k + 1].Segment? && tokens[j + 1] == tail[j];
    }
  }

  /** Every pattern has exactly one reading. */
  lemma {:induction false} TokensExactly(tokens: seq<GlobToken>, pattern: Text)
    ensures tokens == Tokens(pattern) <==> Reading(tokens, pattern)
    decreases |tokens|
  {
    TokensRead(pattern);
    if Reading(tokens, pattern) && tokens != [] {
      assert pattern != [] by {
        assert |ElementText(tokens[0])| > 0;
      }
      FirstOfReading(tokens, pattern);
      var n := if tokens[0].Any? then 2 else 1;
      ReadingTail(tokens, pattern, n);
      TokensExactly(tokens[1..], pattern[n..]);
      assert tokens == [tokens[0]] + tokens[1..];
    }
  }

  /** A trailing slash matches everything below. */
  function PatternTokens(normalized: Text): seq<GlobToken> {
    Tokens(normalized) + (if normalized != [] && normalized[|normalized| - 1] == SLASH then [Any] else [])
  }

  // ----- the language

  ghost function Concat(pieces: seq<Text>): Text {
    if pieces == [] then [] else Concat(pieces[..|pieces| - 1]) + pieces[|pieces| - 1]
  }

  ghost predicate Spells(tokens: seq<GlobToken>, pieces: seq<Text>, s: Text) {
    && |pieces| == |tokens| && Concat(pieces) == s
    && forall i :: 0 <= i < |tokens| ==> tokens[i].Allows(pieces[i])
  }

  ghost predicate InLanguage(tokens: seq<GlobToken>, s: Text) {
    exists pieces :: Spells(tokens, pieces, s)
  }

  /** An unanchored pattern may start at the beginning or after any directory separator. */
  predicate IsStart(anchored: bool, path: Text, start: nat)
    requires start <= |path|
  {
    start == 0 || (!anchored && path[start - 1] == SLASH)
  }

  ghost predicate Accepts(pattern: Text, path: Text) {
    var normalized := StripLeadingSlashes(pattern);
    && normalized != []
    && exists start :: 0 <= start <= |path| && IsStart(SLASH in normalized, path, start)
                       && InLanguage(PatternTokens(normalized), path[start..])
  }

  // ----- consuming one more code unit

  lemma EmptyLanguage(s: Text)
    ensures InLanguage([], s) <==> s == []
  {
    if s == [] {
      assert Spells([], [], s);
    }
  }

  ghost predicate SplitsAt(tokens: seq<GlobToken>, t: GlobToken, s: Text, k: nat) {
    k <= |s| && InLanguage(tokens, s[..k]) && t.Allows(s[k..])
  }

  lemma LastPiece(tokens: seq<GlobToken>, t: GlobToken, s: Text)
    ensures InLanguage(tokens + [t], s) <==> exists k: nat :: SplitsAt(tokens, t, s, k)
  {
    if InLanguage(tokens + [t], s) {
      var pieces :| Spells(tokens + [t], pieces, s);
      var init, last := pieces[..|tokens|], pieces[|tokens|];
      var k := |s| - |last|;
      assert s[..k] == Concat(init) && s[k..] == last;
      assert (tokens + [t])[|tokens|].Allows(last);
      forall i | 0 <= i < |tokens| ensures tokens[i].Allows(init[i]) {
        assert (tokens + [t])[i].Allows(pieces[i]);
      }
      assert Spells(tokens, init, s[..k]);
      assert SplitsAt(tokens, t, s, k);
    }
    if exists k: nat :: SplitsAt(tokens, t, s, k) {
      var k: nat :| SplitsAt(tokens, t, s, k);
      var pieces :| Spells(tokens, pieces, s[..k]);
      var all := pieces + [s[k..]];
      assert all[..|all| - 1] == pieces && s[..k] + s[k..] == s;
      assert Spells(tokens + [t], all, s);
    }
  }

  lemma OneUnitToken(tokens: seq<GlobToken>, t: GlobToken, s: Text)
    requires !t.Repeats()
    ensures InLanguage(tokens + [t], s) <==>
            s != [] && t.Consumes(s[|s| - 1]) && InLanguage(tokens, s[..|s| - 1])
  {
    hide GlobToken.Allows;
    AllowsByUnits(t);
    LastPiece(tokens, t, s);
    if s != [] && t.Consumes(s[|s| - 1]) && InLanguage(tokens, s[..|s| - 1]) {
      assert SplitsAt(tokens, t, s, |s| - 1);
    }
  }

  lemma RepeatingToken(tokens: seq<GlobToken>, t: GlobToken, s: Text)
    requires t.Repeats()
    ensures InLanguage(tokens + [t], s) <==>
            || InLanguage(tokens, s)
            || (s != [] && t.Consumes(s[|s| - 1]) && InLanguage(tokens + [t], s[..|s| - 1]))
  {
    hide GlobToken.Allows;
    AllowsByUnits(t);
    LastPiece(tokens, t, s);
    assert s[..|s|] == s && s[|s|..] == [];
    if InLanguage(tokens, s) {
      assert SplitsAt(tokens, t, s, |s|);
    }
    if s != [] {
      var init := s[..|s| - 1];
      LastPiece(tokens, t, init);
      if InLanguage(tokens + [t], s) && !InLanguage(tokens, s) {
        var k: nat :| SplitsAt(tokens, t, s, k);
        assert k < |s|;
        assert s[k..][|s| - 1 - k] == s[|s| - 1];
        assert init[..k] == s[..k] && init[k..] == s[k..][..|s| - 1 - k];
        assert SplitsAt(tokens, t, init, k);
      }
      if t.Consumes(s[|s| - 1]) && InLanguage(tokens + [t], init) {
        var k: nat :| SplitsAt(tokens, t, init, k);
        assert s[..k] == init[..k] && s[k..] == init[k..] + [s[|s| - 1]];
        assert SplitsAt(tokens, t, s, k);
      }
    }
  }

  // ----- what an automaton state means

  ghost predicate ReachesFrom(tokens: seq<GlobToken>, anchored: bool, path: Text, p: nat, m: nat, start: nat) {
    && start <= p <= |path| && m <= |tokens|
    && IsStart(anchored, path, start) && InLanguage(tokens[..m], path[start..p])
  }

  /** Some admissible start makes the path up to p a word of the first m tokens. */
  ghost predicate Reaches(tokens: seq<GlobToken>, anchored: bool, path: Text, p: nat, m: nat) {
    exists start: nat :: ReachesFrom(tokens, anchored, path, p, m, start)
  }

  lemma ReachesNothing(tokens: seq<GlobToken>, anchored: bool, path: Text, p: nat)
    requires p <= |path|
    ensures Reaches(tokens, anchored, path, p, 0) <==> IsStart(anchored, path, p)
  {
    assert tokens[..0] == [];
    if Reaches(tokens, anchored, path, p, 0) {
      var start: nat :| ReachesFrom(tokens, anchored, path, p, 0, start);
      EmptyLanguage(path[start..p]);
    }
    if IsStart(anchored, path, p) {
      EmptyLanguage(path[p..p]);
      assert ReachesFrom(tokens, anchored, path, p, 0, p);
    }
  }

  lemma PastOneUnitFrom(tokens: seq<GlobToken>, anchored: bool, path: Text, p: nat, m: nat, start: nat)
    requires p <= |path| && m < |tokens| && !tokens[m].Repeats()
    ensures ReachesFrom(tokens, anchored, path, p, m + 1, start) <==>
            p > 0 && tokens[m].Consumes(path[p - 1]) && ReachesFrom(tokens, anchored, path, p - 1, m, start)
  {
    assert tokens[..m + 1] == tokens[..m] + [tokens[m]];
    if start <= p {
      OneUnitToken(tokens[..m], tokens[m], path[start..p]);
      if start < p {
        assert path[start..p][..p - start - 1] == path[start..p - 1];
      }
    }
  }

  lemma ReachesPastOneUnit(tokens: seq<GlobToken>, anchored: bool, path: Text, p: nat, m: nat)
    requires p <= |path| && m < |tokens| && !tokens[m].Repeats()
    ensures Reaches(tokens, anchored, path, p, m + 1) <==>
            p > 0 && tokens[m].Consumes(path[p - 1]) && Reaches(tokens, anchored, path, p - 1, m)
  {
    if Reaches(tokens, anchored, path, p, m + 1) {
      var start: nat :| ReachesFrom(tokens, anchored, path, p, m + 1, start);
      PastOneUnitFrom(tokens, anchored, path, p, m, start);
    }
    if p > 0 && tokens[m].Consumes(path[p - 1]) && Reaches(tokens, anchored, path, p - 1, m) {
      var start: nat :| ReachesFrom(tokens, anchored, path, p - 1, m, start);
      PastOneUnitFrom(tokens, anchored, path, p, m, start);
    }
  }

  lemma PastRepeatFrom(tokens: seq<GlobToken>, anchored: bool, path: Text, p: nat, m: nat, start: nat)
    requires p <= |path| && m < |tokens| && tokens[m].Repeats()
    ensures ReachesFrom(tokens, anchored, path, p, m + 1, start) <==>
            || ReachesFrom(tokens, anchored, path, p, m, start)
            || (p > 0 && tokens[m].Consumes(path[p - 1])
                && ReachesFrom(tokens, anchored, path, p - 1, m + 1, start))
  {
    assert tokens[..m + 1] == tokens[..m] + [tokens[m]];
    if start <= p {
      RepeatingToken(tokens[..m], tokens[m], path[start..p]);
      if start < p {
        assert path[start..p][..p - start - 1] == path[start..p - 1];
      }
    }
  }

  lemma ReachesPastRepeat(tokens: seq<GlobToken>, anchored: bool, path: Text, p: nat, m: nat)
    requires p <= |path| && m < |tokens| && tokens[m].Repeats()
    ensures Reaches(tokens, anchored, path, p, m + 1) <==>
            || Reaches(tokens, anchored, path, p, m)
            || (p > 0 && tokens[m].Consumes(path[p - 1]) && Reaches(tokens, anchored, path, p - 1, m + 1))
  {
    if Reaches(tokens, anchored, path, p, m + 1) {
      var start: nat :| ReachesFrom(tokens, anchored, path, p, m + 1, start);
      PastRepeatFrom(tokens, anchored, path, p, m, start);
    }
    if Reaches(tokens, anchored, path, p, m) {
      var start: nat :| ReachesFrom(tokens, anchored, path, p, m, start);
      PastRepeatFrom(tokens, anchored, path, p, m, start);
    }
    if p > 0 && tokens[m].Consumes(path[p - 1]) && Reaches(tokens, anchored, path, p - 1, m + 1) {
      var start: nat :| ReachesFrom(tokens, anchored, path, p - 1, m + 1, start);
      PastRepeatFrom(tokens, anchored, path, p, m, start);
    }
  }

  /** A state in front of a repeating token already stands for having passed it. */
  function Passed(tokens: seq<GlobToken>, k: nat): nat
    requires k <= |tokens|
  {
    if k < |tokens| && tokens[k].Repeats() then k + 1 else k
  }

  ghost predicate States(tokens: seq<GlobToken>, anchored: bool, path: Text, p: nat, states: seq<bool>) {
    && |states| == |tokens| + 1
    && forall k: nat :: k <= |tokens| ==> (states[k] <==> Reaches(tokens, anchored, path, p, Passed(tokens, k)))
  }

  /** What one consumed code unit puts into state k before the closure, from the states below `upTo`. */
  predicate Moved(tokens: seq<GlobToken>, current: seq<bool>, u: CodeUnit, k: nat, upTo: nat)
    requires |current| == |tokens| + 1 && k <= |tokens| && upTo <= |tokens|
  {
    || (0 < k <= upTo && current[k - 1] && !tokens[k - 1].Repeats() && tokens[k - 1].Consumes(u))
    || (k < upTo && current[k] && tokens[k].Repeats() && tokens[k].Consumes(u))
  }

  predicate ClosedAt(tokens: seq<GlobToken>, raw: seq<bool>, states: seq<bool>, k: nat)
    requires |raw| == |states| == |tokens| + 1 && k <= |tokens|
  {
    states[k] <==> raw[k] || (k > 0 && tokens[k - 1].Repeats() && states[k - 1])
  }

  predicate Closed(tokens: seq<GlobToken>, raw: seq<bool>, states: seq<bool>)
    requires |raw| == |states| == |tokens| + 1
  {
    forall k: nat :: k <= |tokens| ==> ClosedAt(tokens, raw, states, k)
  }

  /** One left-to-right closure pass is complete: the closed states are exactly the reachable ones. */
  lemma {:induction false} StepReachesState(tokens: seq<GlobToken>, anchored: bool, path: Text, p: nat,
                                            current: seq<bool>, raw: seq<bool>, next: seq<bool>, k: nat)
    requires p < |path| && k <= |tokens| && States(tokens, anchored, path, p, current)
    requires |raw| == |next| == |tokens| + 1 && Closed(tokens, raw, next)
    requires forall i: nat :: i <= |tokens| ==>
               (raw[i] <==> Moved(tokens, current, path[p], i, |tokens|) || (i == 0 && !anchored && path[p] == SLASH))
    ensures next[k] <==> Reaches(tokens, anchored, path, p + 1, Passed(tokens, k))
    decreases k
  {
    assert ClosedAt(tokens, raw, next, k);
    if k == 0 {
      ReachesNothing(tokens, anchored, path, p + 1);
    } else {
      StepReachesState(tokens, anchored, path, p, current, raw, next, k - 1);
      if !tokens[k - 1].Repeats() {
        ReachesPastOneUnit(tokens, anchored, path, p + 1, k - 1);
      }
    }
    if k < |tokens| && tokens[k].Repeats() {
      ReachesPastRepeat(tokens, anchored, path, p + 1, k);
    }
  }

  lemma {:induction false} StartReachesState(tokens: seq<GlobToken>, anchored: bool, path: Text,
                                             raw: seq<bool>, next: seq<bool>, k: nat)
    requires k <= |tokens| && |raw| == |next| == |tokens| + 1 && Closed(tokens, raw, next)
    requires forall i: nat :: i <= |tokens| ==> (raw[i] <==> i == 0)
    ensures next[k] <==> Reaches(tokens, anchored, path, 0, Passed(tokens, k))
    decreases k
  {
    assert ClosedAt(tokens, raw, next, k);
    if k == 0 {
      ReachesNothing(tokens, anchored, path, 0);
    } else {
      StartReachesState(tokens, anchored, path, raw, next, k - 1);
      if !tokens[k - 1].Repeats() {
        ReachesPastOneUnit(tokens, anchored, path, 0, k - 1);
      }
    }
    if k < |tokens| && tokens[k].Repeats() {
      ReachesPastRepeat(tokens, anchored, path, 0, k);
    }
  }

  // ----- the matcher

  lemma NextToken(s: Text, i: nat)
    requires i < |s|
    ensures var pair := s[i] == STAR && i + 1 < |s| && s[i + 1] == STAR;
            Tokens(s[i..]) ==
              if pair then [Any] + Tokens(s[i + 2..])
              else [if s[i] == STAR then Segment else if s[i] == QUESTION then Single else Literal(s[i])]
                   + Tokens(s[i + 1..])
  {
    assert s[i..][1..] == s[i + 1..];
    if |s[i..]| > 1 {
      assert s[i..][2..] == s[i + 2..];
    }
  }

  lemma Regroup(a: seq<GlobToken>, t: GlobToken, b: seq<GlobToken>)
    ensures a + ([t] + b) == (a + [t]) + b
  {
  }

  method Tokenize(normalized: Text) returns (tokens: seq<GlobToken>)
    ensures tokens == PatternTokens(normalized)
  {
    tokens := [];
    var index := 0;
    while index < |normalized|
      invariant 0 <= index <= |normalized|
      invariant Tokens(normalized) == tokens + Tokens(normalized[index..])
    {
      var c := normalized[index];
      ghost var before := tokens;
      NextToken(normalized, index);
      if c == STAR && index + 1 < |normalized| && normalized[index + 1] == STAR {
        tokens := tokens + [Any];
        index := index + 1;
      } else {
        tokens := tokens + [if c == STAR then Segment else if c == QUESTION then Single else Literal(c)];
      }
      index := index + 1;
      Regroup(before, tokens[|before|], Tokens(normalized[index..]));
    }
    if normalized != [] && normalized[|normalized| - 1] == SLASH {
      tokens := tokens + [Any];
    }
  }

  /** The closure holds up to a state, and the states after it are as they were. */
  predicate ClosedTo(tokens: seq<GlobToken>, raw: seq<bool>, states: seq<bool>, index: nat)
    requires |raw| == |states| == |tokens| + 1 && index <= |tokens|
  {
    && (forall k: nat :: k <= index ==> ClosedAt(tokens, raw, states, k))
    && forall k :: index < k <= |tokens| ==> states[k] == raw[k]
  }

  lemma ClosedNext(tokens: seq<GlobToken>, raw: seq<bool>, states: seq<bool>, next: seq<bool>, index: nat)
    requires |raw| == |states| == |next| == |tokens| + 1 && index < |tokens| && ClosedTo(tokens, raw, states, index)
    requires next == if states[index] && tokens[index].Repeats() then states[index + 1 := true] else states
    ensures ClosedTo(tokens, raw, next, index + 1)
  {
    forall k: nat | k <= index + 1 ensures ClosedAt(tokens, raw, next, k) {
      assert k <= index ==> ClosedAt(tokens, raw, states, k);
    }
  }

  method Closure(tokens: seq<GlobToken>, states: array<bool>)
    requires states.Length == |tokens| + 1
    modifies states
    ensures Closed(tokens, old(states[..]), states[..])
  {
    ghost var raw := states[..];
    var index := 0;
    while index < |tokens|
      invariant 0 <= index <= |tokens|
      invariant ClosedTo(tokens, raw, states[..], index)
    {
      hide ClosedTo;
      ghost var before := states[..];
      if states[index] && tokens[index].Repeats() {
        states[index + 1] := true;
      }
      ClosedNext(tokens, raw, before, states[..], index);
      index := index + 1;
    }
  }

  method Step(tokens: seq<GlobToken>, anchored: bool, path: Text, position: nat, current: array<bool>)
    returns (next: array<bool>)
    requires position < |path| && States(tokens, anchored, path, position, current[..])
    ensures fresh(next) && States(tokens, anchored, path, position + 1, next[..])
  {
    var end, u := |tokens|, path[position];
    next := new bool[end + 1](_ => false);
    var index := 0;
    while index < end
      invariant 0 <= index <= end
      invariant forall k: nat :: k <= end ==> (next[k] <==> Moved(tokens, current[..], u, k, index))
    {
      if current[index] && tokens[index].Consumes(u) {
        if tokens[index].Repeats() {
          next[index] := true;
        } else {
          next[index + 1] := true;
        }
      }
      index := index + 1;
    }
    if !anchored && u == SLASH {
      next[0] := true;
    }
    ghost var raw := next[..];
    Closure(tokens, next);
    forall k: nat | k <= end
      ensures next[k] <==> Reaches(tokens, anchored, path, position + 1, Passed(tokens, k))
    {
      StepReachesState(tokens, anchored, path, position, current[..], raw, next[..], k);
    }
  }

  /** True exactly when the path, or an admissible suffix of it, is a word of the pattern. */
  method PathMatchesPattern(pattern: Text, path: Text) returns (matches: bool)
    ensures matches <==> Accepts(pattern, path)
  {
    var normalized := StripLeadingSlashes(pattern);
    if normalized == [] {
      return false;
    }
    var tokens := Tokenize(normalized);
    var anchored := SLASH in normalized;
    var end := |tokens|;
    var current := new bool[end + 1](k => k == 0);
    ghost var raw := current[..];
    Closure(tokens, current);
    forall k: nat | k <= end
      ensures current[k] <==> Reaches(tokens, anchored, path, 0, Passed(tokens, k))
    {
      StartReachesState(tokens, anchored, path, raw, current[..], k);
    }
    var position := 0;
    while position < |path|
      invariant 0 <= position <= |path| && current.Length == end + 1
      invariant States(tokens, anchored, path, position, current[..])
    {
      current := Step(tokens, anchored, path, position, current);
      position := position + 1;
    }
    AcceptingState(tokens, anchored, path);
    return current[end];
  }

  lemma {:induction false} StripsSlashes(slashes: Text, body: Text)
    requires (forall i :: 0 <= i < |slashes| ==> slashes[i] == 47) && (body == [] || body[0] != 47)
    ensures StripLeadingSlashes(slashes + body) == body
    decreases |slashes|
  {
    if slashes == [] {
      assert slashes + body == body;
    } else {
      assert (slashes + body)[1..] == slashes[1..] + body;
      StripsSlashes(slashes[1..], body);
    }
  }

  /** A pattern less its leading slashes accepts a path when the path, or if it has no slash what follows any slash
      of the path, splits into pieces as its reading allows; after a final slash anything may follow. */
  lemma AcceptsExactly(slashes: Text, body: Text, tokens: seq<GlobToken>, path: Text)
    requires (forall i :: 0 <= i < |slashes| ==> slashes[i] == 47) && (body == [] || body[0] != 47)
    requires Reading(tokens, body)
    ensures body == [] ==> !Accepts(slashes + body, path)
    ensures body != [] ==>
              (Accepts(slashes + body, path) <==>
               exists start :: && 0 <= start <= |path| && (start == 0 || (47 !in body && path[start - 1] == 47))
                               && InLanguage(if body[|body| - 1] == 47 then tokens + [Any] else tokens, path[start..]))
  {
    StripsSlashes(slashes, body);
    TokensExactly(tokens, body);
    assert tokens + [] == tokens;
  }

  lemma AcceptingState(tokens: seq<GlobToken>, anchored: bool, path: Text)
    ensures Reaches(tokens, anchored, path, |path|, |tokens|) <==>
            exists start :: 0 <= start <= |path| && IsStart(anchored, path, start) && InLanguage(tokens, path[start..])
  {
    assert tokens[..|tokens|] == tokens;
    forall start: nat | start <= |path|
      ensures path[start..|path|] == path[start..]
    {
    }
    if exists start :: 0 <= start <= |path| && IsStart(anchored, path, start) && InLanguage(tokens, path[start..]) {
      var start: nat :| start <= |path| && IsStart(anchored, path, start) && InLanguage(tokens, path[start..]);
      assert ReachesFrom(tokens, anchored, path, |path|, |tokens|, start);
    }
  }
}
