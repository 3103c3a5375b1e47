/**
 The version order behind the downgrade signal.
 */
module VersionOrder {
  /**
   Source: packages/core/src/sbom-diff.ts:337-379.

   A version is read as a list of numeric and alphabetic tokens.  The order is stated on
   slots: position i of a token list is a word, the end of the list, or a number, and
   words sort before the end and the end before numbers.
   */
  import opened Wrappers
  import opened Texts

  datatype RawToken = Number(digits: Text) | Word(letters: Text)
  {
    predicate Valid() {
      match this
      case Number(d) => AllDigits(d) && |d| > 0
      case Word(w) => |w| > 0 && forall i :: 0 <= i < |w| ==> IsLetter(w[i])
    }
  }

  type Token = t: RawToken | t.Valid() witness Number([ZERO])

  // ----- tokens

  function DigitRun(s: Text): (n: nat)
    ensures n <= |s| && AllDigits(s[..n])
    ensures s != [] && IsDigit(s[0]) ==> n > 0
    ensures n < |s| ==> !IsDigit(s[n])
  {
    if s == [] || !IsDigit(s[0]) then 0
    else
      assert s[..DigitRun(s[1..]) + 1] == [s[0]] + s[1..][..DigitRun(s[1..])];
      DigitRun(s[1..]) + 1
  }

  function LetterRun(s: Text): (n: nat)
    ensures n <= |s| && forall i :: 0 <= i < n ==> IsLetter(s[i])
    ensures s != [] && IsLetter(s[0]) ==> n > 0
    ensures n < |s| ==> !IsLetter(s[n])
  {
    if s == [] || !IsLetter(s[0]) then 0 else LetterRun(s[1..]) + 1
  }

  /** All maximal runs of digits or of letters, in order. */
  function Runs(s: Text): seq<Token>
    decreases |s|
  {
    if s == [] then []
    else if IsDigit(s[0]) then [Number(s[..DigitRun(s)])] + Runs(s[DigitRun(s)..])
    else if IsLetter(s[0]) then [Word(s[..LetterRun(s)])] + Runs(s[LetterRun(s)..])
    else Runs(s[1..])
  }

  // ----- what the tokens of a text are

  predicate IsTokenUnit(c: CodeUnit) {
    IsDigit(c) || IsLetter(c)
  }

  /** Both stand in one token when adjacent. */
  predicate SameKind(c: CodeUnit, d: CodeUnit) {
    (IsDigit(c) && IsDigit(d)) || (IsLetter(c) && IsLetter(d))
  }

  lemma DigitRunMeans(s: Text)
    ensures forall i :: 0 <= i < DigitRun(s) ==> IsDigit(s[i])
  {
    forall i | 0 <= i < DigitRun(s) ensures IsDigit(s[i]) {
      assert s[..DigitRun(s)][i] == s[i];
    }
  }

  lemma DigitRunIs(s: Text, n: nat)
    requires n <= |s| && (forall i :: 0 <= i < n ==> IsDigit(s[i])) && (n < |s| ==> !IsDigit(s[n]))
    ensures DigitRun(s) == n
  {
    DigitRunMeans(s);
  }

  lemma LetterRunIs(s: Text, n: nat)
    requires n <= |s| && (forall i :: 0 <= i < n ==> IsLetter(s[i])) && (n < |s| ==> !IsLetter(s[n]))
    ensures LetterRun(s) == n
  {
  }

  /** A text of digits alone is one number. */
  lemma DigitsAreOneToken(d: Text)
    requires AllDigits(d) && d != []
    ensures Runs(d) == [Number(d)]
  {
    assert d[..|d|] == d;
    DigitRunIs(d, |d|);
    assert d[|d|..] == [];
  }

  /** A text of letters alone is one word. */
  lemma LettersAreOneToken(w: Text)
    requires w != [] && forall i :: 0 <= i < |w| ==> IsLetter(w[i])
    ensures Runs(w) == [Word(w)]
  {
    assert w[..|w|] == w;
    LetterRunIs(w, |w|);
    assert w[|w|..] == [];
  }

  lemma {:induction false} SeparatorsAreNoToken(s: Text)
    requires forall i :: 0 <= i < |s| ==> !IsTokenUnit(s[i])
    ensures Runs(s) == []
    decreases |s|
  {
    if s != [] {
      SeparatorsAreNoToken(s[1..]);
    }
  }

  /** How far the first token, or one separator, reaches. */
  function HeadLength(s: Text): (n: nat)
    requires s != []
    ensures 0 < n <= |s|
  {
    if IsDigit(s[0]) then DigitRun(s) else if IsLetter(s[0]) then LetterRun(s) else 1
  }

  function HeadTokens(s: Text): seq<Token>
    requires s != []
  {
    if IsDigit(s[0]) then [Number(s[..DigitRun(s)])]
    else if IsLetter(s[0]) then [Word(s[..LetterRun(s)])]
    else []
  }

  lemma RunsByHead(s: Text)
    requires s != []
    ensures Runs(s) == HeadTokens(s) + Runs(s[HeadLength(s)..])
  {
  }

  /** Where the kind of character changes, or at a separator, the tokens of the two parts stand side by side. */
  lemma {:induction false} TokensBreak(s: Text, i: nat)
    requires 0 < i < |s| && !SameKind(s[i - 1], s[i])
    ensures Runs(s) == Runs(s[..i]) + Runs(s[i..])
    decreases |s|
  {
    hide Runs, HeadTokens, HeadLength;
    BreakAfterHead(s, i);
    RunsByHead(s);
    RunsByHead(s[..i]);
    var n, t := HeadLength(s), HeadTokens(s);
    BreakPieces(s, n, i);
    if n < i {
      TokensBreak(s[n..], i - n);
      Regrouped(t, Runs(s[..i][n..]), Runs(s[i..]));
    } else {
      SeparatorsAreNoToken(s[..i][n..]);
      assert t + [] == t;
    }
  }

  lemma Regrouped(a: seq<Token>, b: seq<Token>, c: seq<Token>)
    ensures a + (b + c) == (a + b) + c
  {
  }

  lemma BreakPieces(s: Text, n: nat, i: nat)
    requires n <= i <= |s|
    ensures s[n..][..i - n] == s[..i][n..] && s[n..][i - n..] == s[i..]
  {
  }

  lemma BreakAfterHead(s: Text, i: nat)
    requires 0 < i < |s| && !SameKind(s[i - 1], s[i])
    ensures HeadLength(s) <= i && HeadLength(s[..i]) == HeadLength(s) && HeadTokens(s[..i]) == HeadTokens(s)
  {
    if IsDigit(s[0]) {
      var n := DigitRun(s);
      DigitRunMeans(s);
      DigitRunIs(s[..i], n);
      assert s[..i][..n] == s[..n];
    } else if IsLetter(s[0]) {
      var n := LetterRun(s);
      LetterRunIs(s[..i], n);
      assert s[..i][..n] == s[..n];
    }
  }

  function TextOf(t: Token): Text {
    match t
    case Number(d) => d
    case Word(w) => w
  }

  /** The texts of the tokens, one after the other. */
  function Spell(tokens: seq<Token>): Text {
    if tokens == [] then [] else TextOf(tokens[0]) + Spell(tokens[1..])
  }

  /** The digits and letters of a text, in order. */
  function TokenUnits(s: Text): Text {
    if s == [] then [] else (if IsTokenUnit(s[0]) then [s[0]] else []) + TokenUnits(s[1..])
  }

  lemma {:induction false} TokenUnitsKept(a: Text, b: Text)
    requires forall i :: 0 <= i < |a| ==> IsTokenUnit(a[i])
    ensures TokenUnits(a + b) == a + TokenUnits(b)
    decreases |a|
  {
    if a == [] {
      assert a + b == b;
    } else {
      assert (a + b)[1..] == a[1..] + b;
      TokenUnitsKept(a[1..], b);
      assert a == [a[0]] + a[1..];
    }
  }

  lemma SpellCons(t: Token, rest: seq<Token>)
    ensures Spell([t] + rest) == TextOf(t) + Spell(rest)
  {
    assert ([t] + rest)[1..] == rest;
  }

  /** No digit or letter is lost, invented or moved. */
  lemma {:induction false} TokensSpellText(s: Text)
    ensures Spell(Runs(s)) == TokenUnits(s)
    decreases |s|
  {
    if s != [] {
      if IsTokenUnit(s[0]) {
        var n := if IsDigit(s[0]) then DigitRun(s) else LetterRun(s);
        var head, rest := s[..n], s[n..];
        assert s == head + rest;
        assert forall i :: 0 <= i < n ==> head[i] == s[i] && IsTokenUnit(head[i]);
        TokenUnitsKept(head, rest);
        TokensSpellText(rest);
        SpellCons(if IsDigit(s[0]) then Number(head) else Word(head), Runs(rest));
      } else {
        TokensSpellText(s[1..]);
      }
    }
  }

  predicate IsV(c: CodeUnit) {
    c == 86 || c == 118
  }

  /** Nothing when the trimmed version, less one leading v, does not start with a digit. */
  function VersionTokens(version: Text): (tokens: Option<seq<Token>>)
    ensures tokens.Some? ==> |tokens.value| > 0 && tokens.value[0].Number?
  {
    var t := Trim(version);
    var trimmed := if |t| > 1 && IsV(t[0]) && IsDigit(t[1]) then t[1..] else t;
    if trimmed == [] || !IsDigit(trimmed[0]) then None else Some(Runs(trimmed))
  }

  /** Surrounding whitespace does not matter. */
  lemma TokensIgnoreWhitespace(before: Text, version: Text, after: Text)
    requires AllWhitespace(before) && AllWhitespace(after)
    ensures VersionTokens(before + version + after) == VersionTokens(version)
  {
    hide Runs, Trim;
    TrimIgnoresAround(before, version, after);
  }

  lemma TrimmedStart(s: Text) returns (core: Text, after: Text)
    requires s != [] && !IsWhitespace(s[0])
    ensures s == core + after && core != [] && core[0] == s[0] && Tight(core) && AllWhitespace(after)
  {
    after := TrimEndSplits(s);
    core := TrimEnd(s);
  }

  /** One leading v before a digit does not matter. */
  lemma TokensIgnoreV(v: CodeUnit, version: Text)
    requires (v == 86 || v == 118) && version != [] && IsDigit(version[0])
    ensures VersionTokens([v] + version) == VersionTokens(version)
  {
    hide Runs, Trim;
    var core, after := TrimmedStart(version);
    assert Tight([v] + core);
    assert [v] + version == [] + ([v] + core) + after;
    assert version == [] + core + after;
    TrimAround([], [v] + core, after);
    TrimAround([], core, after);
    assert ([v] + core)[1..] == core;
  }

  /** A text with no whitespace at its ends reads as a version exactly when it starts with a digit, or with a
      v and a digit, and then as the tokens from that digit on. */
  lemma TokensOfTight(version: Text)
    requires Tight(version)
    ensures version != [] && IsDigit(version[0]) ==> VersionTokens(version) == Some(Runs(version))
    ensures |version| > 1 && version[0] in {86, 118} && IsDigit(version[1]) ==>
              VersionTokens(version) == Some(Runs(version[1..]))
    ensures VersionTokens(version).Some? <==>
              || (version != [] && 48 <= version[0] <= 57)
              || (|version| > 1 && version[0] in {86, 118} && 48 <= version[1] <= 57)
  {
    hide Runs, Trim;
    TrimAround([], version, []);
    assert [] + version + [] == version;
  }

  // ----- the order on slots

  datatype Slot = Alphabetic(letters: Text) | End | Numeric(value: nat)

  function SlotOf(tokens: seq<Token>, i: nat): Slot {
    if i >= |tokens| then End
    else match tokens[i]
      case Number(d) => Numeric(ValueOf(d))
      case Word(w) => Alphabetic(w)
  }

  predicate SlotBefore(x: Slot, y: Slot) {
    match (x, y)
    case (Alphabetic(a), Alphabetic(b)) => Less(a, b)
    case (Alphabetic(_), _) => true
    case (End, Numeric(_)) => true
    case (Numeric(m), Numeric(n)) => m < n
    case _ => false
  }

  /** a sorts before b: they agree up to some slot, and a's slot there sorts before b's. */
  ghost predicate Before(a: seq<Token>, b: seq<Token>) {
    exists k: nat :: BeforeAt(a, b, k)
  }

  ghost predicate BeforeAt(a: seq<Token>, b: seq<Token>, k: nat) {
    SlotBefore(SlotOf(a, k), SlotOf(b, k)) && forall i: nat :: i < k ==> SlotOf(a, i) == SlotOf(b, i)
  }

  ghost predicate Level(a: seq<Token>, b: seq<Token>) {
    forall i: nat :: SlotOf(a, i) == SlotOf(b, i)
  }

  lemma SlotsTrichotomous(x: Slot, y: Slot)
    ensures x == y || SlotBefore(x, y) || SlotBefore(y, x)
    ensures !(SlotBefore(x, y) && SlotBefore(y, x)) && !SlotBefore(x, x)
  {
    if x.Alphabetic? && y.Alphabetic? {
      LessTotal(x.letters, y.letters);
      LessAsymmetric(x.letters, y.letters);
    }
    if x.Alphabetic? {
      LessIrreflexive(x.letters);
    }
  }

  lemma SlotBeforeTransitive(x: Slot, y: Slot, z: Slot)
    requires SlotBefore(x, y) && SlotBefore(y, z)
    ensures SlotBefore(x, z)
  {
    if x.Alphabetic? && y.Alphabetic? && z.Alphabetic? {
      LessTransitive(x.letters, y.letters, z.letters);
    }
  }

  lemma BeforeExcludes(a: seq<Token>, b: seq<Token>)
    requires Before(a, b)
    ensures !Before(b, a) && !Level(a, b)
  {
    var k: nat :| BeforeAt(a, b, k);
    SlotsTrichotomous(SlotOf(a, k), SlotOf(b, k));
    forall j: nat ensures !BeforeAt(b, a, j) {
      SlotsTrichotomous(SlotOf(a, j), SlotOf(b, j));
      if j < k {
        assert SlotOf(a, j) == SlotOf(b, j);
      }
    }
  }

  lemma {:induction false} FirstDifference(a: seq<Token>, b: seq<Token>, k: nat)
    requires SlotOf(a, k) != SlotOf(b, k)
    ensures Before(a, b) || Before(b, a)
    decreases k
  {
    if exists j: nat :: j < k && SlotOf(a, j) != SlotOf(b, j) {
      var j: nat :| j < k && SlotOf(a, j) != SlotOf(b, j);
      FirstDifference(a, b, j);
    } else {
      SlotsTrichotomous(SlotOf(a, k), SlotOf(b, k));
      assert BeforeAt(a, b, k) || BeforeAt(b, a, k);
    }
  }

  // ----- the order is a total preorder

  ghost predicate AtMostVersion(a: seq<Token>, b: seq<Token>) {
    Before(a, b) || Level(a, b)
  }

  lemma VersionsTotal(a: seq<Token>, b: seq<Token>)
    ensures AtMostVersion(a, b) || AtMostVersion(b, a)
    ensures AtMostVersion(a, b) && AtMostVersion(b, a) <==> Level(a, b)
  {
    if !Level(a, b) {
      var k: nat :| SlotOf(a, k) != SlotOf(b, k);
      FirstDifference(a, b, k);
    }
    if Before(a, b) {
      BeforeExcludes(a, b);
    }
    if Before(b, a) {
      BeforeExcludes(b, a);
    }
  }

  lemma VersionsTransitive(a: seq<Token>, b: seq<Token>, c: seq<Token>)
    requires AtMostVersion(a, b) && AtMostVersion(b, c)
    ensures AtMostVersion(a, c)
    ensures Before(a, b) || Before(b, c) ==> Before(a, c)
  {
    if Level(a, b) && Level(b, c) {
      if Before(a, b) {
        BeforeExcludes(a, b);
      } else if Before(b, c) {
        BeforeExcludes(b, c);
      }
    } else if Level(a, b) {
      var k: nat :| BeforeAt(b, c, k);
      assert BeforeAt(a, c, k);
    } else if Level(b, c) {
      var k: nat :| BeforeAt(a, b, k);
      assert BeforeAt(a, c, k);
    } else {
      var j: nat :| BeforeAt(a, b, j);
      var k: nat :| BeforeAt(b, c, k);
      if j == k {
        SlotBeforeTransitive(SlotOf(a, k), SlotOf(b, k), SlotOf(c, k));
      }
      assert BeforeAt(a, c, if j < k then j else k);
    }
  }

  // ----- level versions agree up to leading zeros

  function Plain(t: Token): Token {
    match t
    case Number(d) =>
      StripZerosKeepsValue(d);
      Number(StripZeros(d))
    case Word(w) => t
  }

  lemma LevelIffSameUpToLeadingZeros(a: seq<Token>, b: seq<Token>)
    ensures Level(a, b) <==>
            |a| == |b| && forall i :: 0 <= i < |a| ==> Plain(a[i]) == Plain(b[i])
  {
    if Level(a, b) {
      assert SlotOf(a, |b|) == SlotOf(b, |b|) == End;
      assert SlotOf(b, |a|) == SlotOf(a, |a|) == End;
    }
    if |a| == |b| {
      forall i | 0 <= i < |a|
        ensures SlotOf(a, i) == SlotOf(b, i) <==> Plain(a[i]) == Plain(b[i])
      {
        if a[i].Number? && b[i].Number? {
          SameValueIffSameDigits(a[i].digits, b[i].digits);
        }
      }
    }
  }

  // ----- the loop

  /** The comparison of two token lists, by the first position where they differ. */
  method CompareTokens(a: seq<Token>, b: seq<Token>) returns (sign: int)
    ensures sign == 0 <==> Level(a, b)
    ensures sign == -1 <==> Before(a, b)
    ensures sign == 1 <==> Before(b, a)
    ensures -1 <= sign <= 1
  {
    var length := Max(|a|, |b|);
    var index := 0;
    while index < length
      invariant 0 <= index <= length
      invariant forall i: nat :: i < index ==> SlotOf(a, i) == SlotOf(b, i)
    {
      if index >= |a| || index >= |b| {
        var extra, side := if index < |a| then a[index] else b[index], if index < |a| then 1 else -1;
        sign := if extra.Number? then side else -side;
        Decided(a, b, index, sign);
        return;
      }
      var x, y := a[index], b[index];
      if x.Number? && y.Number? {
        var difference := ValueOf(x.digits) - ValueOf(y.digits);
        if difference != 0 {
          sign := if difference > 0 then 1 else -1;
          Decided(a, b, index, sign);
          return;
        }
      } else if x.Number? != y.Number? {
        sign := if x.Number? then 1 else -1;
        Decided(a, b, index, sign);
        return;
      } else if x != y {
        sign := if Less(x.letters, y.letters) then -1 else 1;
        LessTotal(x.letters, y.letters);
        Decided(a, b, index, sign);
        return;
      }
      index := index + 1;
    }
    assert Level(a, b);
    VersionsTotal(a, b);
    if Before(a, b) {
      BeforeExcludes(a, b);
    }
    if Before(b, a) {
      BeforeExcludes(b, a);
    }
    return 0;
  }

  lemma Decided(a: seq<Token>, b: seq<Token>, k: nat, sign: int)
    requires forall i: nat :: i < k ==> SlotOf(a, i) == SlotOf(b, i)
    requires (sign == -1 && SlotBefore(SlotOf(a, k), SlotOf(b, k)))
          || (sign == 1 && SlotBefore(SlotOf(b, k), SlotOf(a, k)))
    ensures !Level(a, b)
    ensures sign == -1 <==> Before(a, b)
    ensures sign == 1 <==> Before(b, a)
  {
    if sign == -1 {
      assert BeforeAt(a, b, k);
      BeforeExcludes(a, b);
    } else {
      assert BeforeAt(b, a, k);
      BeforeExcludes(b, a);
    }
  }

  /** Nothing when either side does not read as a version. */
  method CompareComponentVersions(left: Text, right: Text) returns (sign: Option<int>)
    ensures sign.Some? <==> VersionTokens(left).Some? && VersionTokens(right).Some?
    ensures sign.Some? ==>
              var a, b := VersionTokens(left).value, VersionTokens(right).value;
              && -1 <= sign.value <= 1
              && (sign.value == 0 <==> Level(a, b))
              && (sign.value == -1 <==> Before(a, b))
              && (sign.value == 1 <==> Before(b, a))
  {
    var a, b := VersionTokens(left), VersionTokens(right);
    if a.None? || b.None? {
      return None;
    }
    var s := CompareTokens(a.value, b.value);
    return Some(s);
  }

  /** A component's version went down. */
  ghost predicate Downgraded(previous: Text, current: Text) {
    && VersionTokens(previous).Some? && VersionTokens(current).Some?
    && Before(VersionTokens(current).value, VersionTokens(previous).value)
  }

  // ----- a later part decides

  predicate AllLetters(s: Text) {
    forall i :: 0 <= i < |s| ==> IsLetter(s[i])
  }

  /** Digits alone or letters alone. */
  predicate IsPart(part: Text) {
    part != [] && (AllDigits(part) || AllLetters(part))
  }

  function TokenOf(part: Text): Token
    requires IsPart(part)
  {
    if IsDigit(part[0]) then Number(part) else Word(part)
  }

  /** The part does not go on in the text after it. */
  predicate Ends(part: Text, tail: Text) {
    part != [] && (tail == [] || !SameKind(part[|part| - 1], tail[0]))
  }

  lemma PartIsOneToken(part: Text)
    requires IsPart(part)
    ensures Runs(part) == [TokenOf(part)]
  {
    if AllDigits(part) {
      DigitsAreOneToken(part);
    } else {
      LettersAreOneToken(part);
    }
  }

  /** The tokens of a version with a part after a separator. */
  lemma TokensAround(head: Text, separator: CodeUnit, part: Text, tail: Text) returns (rest: seq<Token>)
    requires head != [] && IsDigit(head[0]) && !IsTokenUnit(separator)
    requires IsPart(part) && Ends(part, tail)
    ensures VersionTokens(head + [separator] + part + tail) == Some(Runs(head) + [TokenOf(part)] + rest)
  {
    hide Runs, Trim, TokenOf;
    var version := head + [separator] + part + tail;
    var before, after := TrimSplits(tail);
    var kept := before + Trim(tail);
    if Trim(tail) == [] {
      assert tail == before + after;
      kept := [];
      after := tail;
      assert AllWhitespace(tail);
    }
    var core := head + [separator] + part + kept;
    assert version == [] + core + after;
    assert Tight(core) by {
      assert core[0] == head[0];
      assert kept == [] ==> core[|core| - 1] == part[|part| - 1];
    }
    TokensIgnoreWhitespace([], core, after);
    TokensOfTight(core);
    assert kept != [] ==> tail[0] == kept[0];
    rest := TokensFrom(head, separator, part, kept);
  }

  lemma TokensFrom(head: Text, separator: CodeUnit, part: Text, tail: Text) returns (rest: seq<Token>)
    requires head != [] && !IsTokenUnit(separator) && IsPart(part) && Ends(part, tail)
    ensures Runs(head + [separator] + part + tail) == Runs(head) + [TokenOf(part)] + rest
  {
    hide Runs, TokenOf;
    var after := part + tail;
    var s := head + [separator] + after;
    assert head + [separator] + part + tail == s;
    TokensBreak(s, |head|);
    assert s[..|head|] == head && s[|head|..] == [separator] + after;
    TokensBreak([separator] + after, 1);
    assert ([separator] + after)[..1] == [separator] && ([separator] + after)[1..] == after;
    SeparatorsAreNoToken([separator]);
    PartIsOneToken(part);
    if tail == [] {
      assert after == part;
      rest := [];
    } else {
      TokensBreak(after, |part|);
      assert after[..|part|] == part && after[|part|..] == tail;
      rest := Runs(tail);
    }
  }

  /** A version that ends in its head: only whitespace may follow the last token. */
  lemma TokensOfHead(head: Text)
    requires head != [] && IsDigit(head[0])
    ensures VersionTokens(head) == Some(Runs(head))
  {
    hide Runs, Trim;
    var core, after := TrimmedStart(head);
    assert head == [] + core + after;
    TokensIgnoreWhitespace([], core, after);
    TokensOfTight(core);
    SeparatorsAreNoToken(after);
    if after == [] {
      assert core == head;
    } else {
      TokensBreak(head, |core|);
      assert head[..|core|] == core && head[|core|..] == after;
      assert Runs(core) + [] == Runs(core);
    }
  }

  /** The head alone, or with a part and more after a separator. */
  function With(head: Text, separator: CodeUnit, part: Text, tail: Text): Text {
    if part == [] then head else head + [separator] + part + tail
  }

  function PartSlot(part: Text): Slot
    requires part == [] || IsPart(part)
  {
    if part == [] then End else if IsDigit(part[0]) then Numeric(ValueOf(part)) else Alphabetic(part)
  }

  lemma TokensWith(head: Text, separator: CodeUnit, part: Text, tail: Text) returns (rest: seq<Token>)
    requires head != [] && IsDigit(head[0]) && !IsTokenUnit(separator)
    requires part == [] || (IsPart(part) && Ends(part, tail))
    ensures VersionTokens(With(head, separator, part, tail)) == Some(Runs(head) + rest)
    ensures SlotOf(Runs(head) + rest, |Runs(head)|) == PartSlot(part)
  {
    hide Runs, VersionTokens, ValueOf;
    if part == [] {
      TokensOfHead(head);
      rest := [];
      assert Runs(head) + [] == Runs(head);
    } else {
      var more := TokensAround(head, separator, part, tail);
      rest := [TokenOf(part)] + more;
      assert Runs(head) + [TokenOf(part)] + more == Runs(head) + rest;
      assert (Runs(head) + rest)[|Runs(head)|] == TokenOf(part);
    }
  }

  /** Words are lower than no part and no part is lower than a number; words go by their first difference and
      numbers by value. */
  ghost predicate LowerPart(low: Text, high: Text)
    requires (low == [] || IsPart(low)) && (high == [] || IsPart(high))
  {
    if low == [] then high != [] && AllDigits(high)
    else if AllLetters(low) then high == [] || AllDigits(high) || Precedes(low, high)
    else high != [] && AllDigits(high) && ValueOf(low) < ValueOf(high)
  }

  lemma LowerSlot(low: Text, high: Text)
    requires (low == [] || IsPart(low)) && (high == [] || IsPart(high)) && LowerPart(low, high)
    ensures SlotBefore(PartSlot(low), PartSlot(high))
  {
    hide ValueOf;
    LessMeans(low, high);
    assert AllLetters(low) && low != [] ==> !IsDigit(low[0]);
    assert high != [] && IsDigit(high[0]) ==> AllDigits(high);
  }

  /** Versions that agree up to a part after a separator go by that part, whatever follows, and the one with the
      lower part is a downgrade: a release candidate of its release, a release of its first patch, and a smaller
      number of a greater one. */
  lemma LaterPartDecides(head: Text, separator: CodeUnit, high: Text, tail: Text, low: Text, other: Text)
    requires head != [] && IsDigit(head[0]) && !IsTokenUnit(separator)
    requires high == [] || (IsPart(high) && Ends(high, tail))
    requires low == [] || (IsPart(low) && Ends(low, other))
    requires LowerPart(low, high)
    ensures Downgraded(With(head, separator, high, tail), With(head, separator, low, other))
    ensures !Downgraded(With(head, separator, low, other), With(head, separator, high, tail))
  {
    hide Runs, ValueOf, VersionTokens, LowerPart, IsPart, PartSlot, With;
    var p := TokensWith(head, separator, high, tail);
    var q := TokensWith(head, separator, low, other);
    LowerSlot(low, high);
    var a, b, k := Runs(head) + q, Runs(head) + p, |Runs(head)|;
    forall i: nat | i < k ensures SlotOf(a, i) == SlotOf(b, i) {
      assert a[i] == Runs(head)[i] && b[i] == Runs(head)[i];
    }
    assert BeforeAt(a, b, k);
    BeforeExcludes(a, b);
  }

  /** No pair of versions is a downgrade in both directions, and a chain of downgrades is one. */
  lemma DowngradesAreOneWay(v: Text, w: Text, x: Text)
    requires Downgraded(v, w)
    ensures !Downgraded(w, v)
    ensures Downgraded(w, x) ==> Downgraded(v, x)
  {
    var a, b := VersionTokens(v).value, VersionTokens(w).value;
    BeforeExcludes(b, a);
    if Downgraded(w, x) {
      VersionsTransitive(VersionTokens(x).value, b, a);
    }
  }
}
