/**
 Strings as sequences of UTF-16 code units, as JavaScript sees them.

 The order is that of the `<` operator on strings, which the default array sort uses as
 well.  It is total, so a sort by it is determined by the strings alone.

 Decimal numerals are read and written; two numerals have one value exactly when they
 agree up to leading zeros.

 A text is joined from lines and split into lines at a separator.  Splitting undoes
 joining for lines without the separator, and joining always undoes splitting.
 */
module Texts {
  type CodeUnit = c: int | 0 <= c < 0x1_0000
  type Text = seq<CodeUnit>

  const NEWLINE: CodeUnit := 10
  const CARRIAGE_RETURN: CodeUnit := 13
  const QUOTE: CodeUnit := 34
  const MINUS: CodeUnit := 45
  const PLUS: CodeUnit := 43
  const COMMA: CodeUnit := 44
  const SLASH: CodeUnit := 47
  const ZERO: CodeUnit := 48
  const COLON: CodeUnit := 58
  const BACKSLASH: CodeUnit := 92

  predicate IsDigit(c: CodeUnit) {
    48 <= c <= 57
  }

  /** A lower-case hexadecimal digit. */
  predicate IsHexDigit(c: CodeUnit) {
    IsDigit(c) || 97 <= c <= 102
  }

  predicate IsLetter(c: CodeUnit) {
    65 <= c <= 90 || 97 <= c <= 122
  }

  /** The characters String.prototype.trim removes. */
  predicate IsWhitespace(c: CodeUnit) {
    || 9 <= c <= 13 || c == 32 || c == 0xA0 || c == 0x1680 || 0x2000 <= c <= 0x200A
    || c == 0x2028 || c == 0x2029 || c == 0x202F || c == 0x205F || c == 0x3000 || c == 0xFEFF
  }

  function TrimStart(s: Text): Text {
    if s != [] && IsWhitespace(s[0]) then TrimStart(s[1..]) else s
  }

  function TrimEnd(s: Text): Text {
    if s != [] && IsWhitespace(s[|s| - 1]) then TrimEnd(s[..|s| - 1]) else s
  }

  function Trim(s: Text): Text {
    TrimEnd(TrimStart(s))
  }

  predicate AllWhitespace(s: Text) {
    forall i :: 0 <= i < |s| ==> IsWhitespace(s[i])
  }

  /** Neither end is whitespace. */
  predicate Tight(s: Text) {
    s == [] || (!IsWhitespace(s[0]) && !IsWhitespace(s[|s| - 1]))
  }

  lemma {:induction false} TrimStartSplits(s: Text) returns (before: Text)
    ensures AllWhitespace(before) && s == before + TrimStart(s)
    ensures TrimStart(s) != [] ==> !IsWhitespace(TrimStart(s)[0])
    decreases |s|
  {
    if s != [] && IsWhitespace(s[0]) {
      var rest := TrimStartSplits(s[1..]);
      before := [s[0]] + rest;
      assert s == [s[0]] + s[1..];
    } else {
      before := [];
    }
  }

  lemma {:induction false} TrimEndSplits(s: Text) returns (after: Text)
    ensures AllWhitespace(after) && s == TrimEnd(s) + after
    ensures TrimEnd(s) != [] ==> !IsWhitespace(TrimEnd(s)[|TrimEnd(s)| - 1])
    decreases |s|
  {
    if s != [] && IsWhitespace(s[|s| - 1]) {
      var n := |s| - 1;
      var rest := TrimEndSplits(s[..n]);
      after := rest + [s[n]];
      assert s == s[..n] + [s[n]];
    } else {
      after := [];
    }
  }

  /** Trimming takes whitespace off both ends and leaves none there. */
  lemma TrimSplits(s: Text) returns (before: Text, after: Text)
    ensures AllWhitespace(before) && AllWhitespace(after)
    ensures s == before + Trim(s) + after && Tight(Trim(s))
  {
    before := TrimStartSplits(s);
    after := TrimEndSplits(TrimStart(s));
    if Trim(s) != [] {
      assert TrimStart(s)[0] == Trim(s)[0];
    }
  }

  lemma {:induction false} TrimStartSkips(before: Text, s: Text)
    requires AllWhitespace(before)
    ensures TrimStart(before + s) == TrimStart(s)
    decreases |before|
  {
    if before == [] {
      assert before + s == s;
    } else {
      assert (before + s)[1..] == before[1..] + s;
      TrimStartSkips(before[1..], s);
    }
  }

  lemma {:induction false} TrimEndSkips(s: Text, after: Text)
    requires AllWhitespace(after)
    ensures TrimEnd(s + after) == TrimEnd(s)
    decreases |after|
  {
    if after == [] {
      assert s + after == s;
    } else {
      var n := |after| - 1;
      assert (s + after)[..|s| + n] == s + after[..n];
      TrimEndSkips(s, after[..n]);
    }
  }

  /** Whitespace around a text that has none at its ends is all that trimming removes. */
  lemma TrimAround(before: Text, s: Text, after: Text)
    requires AllWhitespace(before) && AllWhitespace(after) && Tight(s)
    ensures Trim(before + s + after) == s
  {
    assert before + s + after == before + (s + after);
    TrimStartSkips(before, s + after);
    if s == [] {
      TrimStartSkips(after, []);
      assert s + after == after + [];
    } else {
      assert (s + after)[0] == s[0];
      TrimEndSkips(s, after);
    }
  }

  /** Surrounding whitespace never matters to a trimmed text. */
  lemma TrimIgnoresAround(before: Text, s: Text, after: Text)
    requires AllWhitespace(before) && AllWhitespace(after)
    ensures Trim(before + s + after) == Trim(s)
  {
    hide Trim;
    var b, a := TrimSplits(s);
    assert before + s + after == (before + b) + Trim(s) + (a + after);
    TrimAround(before + b, Trim(s), a + after);
  }

  /** The order of the `<` operator on strings: by code unit, a proper prefix first. */
  predicate Less(a: Text, b: Text) {
    if b == [] then false
    else if a == [] then true
    else a[0] < b[0] || (a[0] == b[0] && Less(a[1..], b[1..]))
  }

  /** The order of two strings by their first difference: the smaller code unit there, or the end of a. */
  ghost predicate PrecedesAt(a: Text, b: Text, k: nat) {
    && k <= |a| && k < |b| && a[..k] == b[..k]
    && (k == |a| || a[k] < b[k])
  }

  ghost predicate Precedes(a: Text, b: Text) {
    exists k: nat :: PrecedesAt(a, b, k)
  }

  /** A proper prefix comes first; other strings go by the code units where they first differ. */
  lemma {:induction false} LessMeans(a: Text, b: Text)
    ensures Less(a, b) <==> Precedes(a, b)
    decreases |a|
  {
    if a == [] {
      assert b != [] ==> PrecedesAt(a, b, 0);
    } else if b != [] {
      if a[0] == b[0] {
        LessMeans(a[1..], b[1..]);
        PrecedesTails(a, b);
      } else {
        LessByHeads(a, b);
      }
    }
  }

  lemma LessByHeads(a: Text, b: Text)
    requires a != [] && b != [] && a[0] != b[0]
    ensures Precedes(a, b) <==> a[0] < b[0]
  {
    assert a[0] < b[0] ==> PrecedesAt(a, b, 0);
    forall k: nat | 0 < k <= |a| && k <= |b| ensures a[..k] != b[..k] {
      assert a[..k][0] != b[..k][0];
    }
  }

  lemma PrecedesTails(a: Text, b: Text)
    requires a != [] && b != [] && a[0] == b[0]
    ensures Precedes(a, b) <==> Precedes(a[1..], b[1..])
  {
    if Precedes(a, b) {
      var k: nat :| PrecedesAt(a, b, k);
      assert a[1..][..k - 1] == a[..k][1..] && b[1..][..k - 1] == b[..k][1..];
      assert PrecedesAt(a[1..], b[1..], k - 1);
    }
    if Precedes(a[1..], b[1..]) {
      var k: nat :| PrecedesAt(a[1..], b[1..], k);
      assert a[..k + 1] == [a[0]] + a[1..][..k] && b[..k + 1] == [b[0]] + b[1..][..k];
      assert PrecedesAt(a, b, k + 1);
    }
  }

  lemma {:induction false} LessIrreflexive(a: Text)
    ensures !Less(a, a)
    decreases |a|
  {
    if a != [] {
      LessIrreflexive(a[1..]);
    }
  }

  lemma {:induction false} LessTransitive(a: Text, b: Text, c: Text)
    requires Less(a, b) && Less(b, c)
    ensures Less(a, c)
    decreases |a|
  {
    if a != [] && a[0] == b[0] == c[0] {
      LessTransitive(a[1..], b[1..], c[1..]);
    }
  }

  lemma {:induction false} LessTotal(a: Text, b: Text)
    ensures Less(a, b) || Less(b, a) || a == b
    decreases |a|
  {
    if a != [] && b != [] {
      LessTotal(a[1..], b[1..]);
      assert a == [a[0]] + a[1..] && b == [b[0]] + b[1..];
    }
  }

  lemma LessAsymmetric(a: Text, b: Text)
    ensures !(Less(a, b) && Less(b, a))
  {
    if Less(a, b) && Less(b, a) {
      LessTransitive(a, b, a);
      LessIrreflexive(a);
    }
  }

  predicate AtMost(a: Text, b: Text) {
    !Less(b, a)
  }

  lemma AtMostIsTotal()
    ensures forall a, b: Text :: AtMost(a, b) || AtMost(b, a)
    ensures forall a, b, c: Text :: AtMost(a, b) && AtMost(b, c) ==> AtMost(a, c)
  {
    forall a, b: Text ensures AtMost(a, b) || AtMost(b, a) {
      LessAsymmetric(a, b);
    }
    forall a, b, c: Text | AtMost(a, b) && AtMost(b, c) ensures AtMost(a, c) {
      LessTotal(a, b);
      LessTotal(b, c);
      if Less(c, a) {
        if Less(a, b) {
          LessTransitive(c, a, b);
        }
      }
    }
  }

  // ----- decimal numerals

  predicate AllDigits(s: Text) {
    forall i :: 0 <= i < |s| ==> IsDigit(s[i])
  }

  function ValueOf(digits: Text): nat
    requires AllDigits(digits)
  {
    if digits == [] then 0 else 10 * ValueOf(digits[..|digits| - 1]) + (digits[|digits| - 1] - 48)
  }

  /** Decimal digits without leading zeros. */
  function Decimal(n: nat): (s: Text)
    ensures AllDigits(s) && |s| > 0
    ensures |s| > 1 ==> s[0] != ZERO
    ensures n > 0 ==> s[0] != ZERO
  {
    if n < 10 then [48 + n] else Decimal(n / 10) + [48 + n % 10]
  }

  lemma {:induction false} ValueOfDecimal(n: nat)
    ensures ValueOf(Decimal(n)) == n
    decreases n
  {
    if n >= 10 {
      ValueOfDecimal(n / 10);
      assert Decimal(n)[..|Decimal(n)| - 1] == Decimal(n / 10);
    } else {
      assert Decimal(n)[..0] == [];
    }
  }

  predicate NoLeadingZero(s: Text) {
    |s| > 0 && (s[0] == ZERO ==> |s| == 1)
  }

  lemma {:induction false} ValuePositive(s: Text)
    requires AllDigits(s) && |s| > 0 && s[0] != ZERO
    ensures ValueOf(s) > 0
    decreases |s|
  {
    if |s| > 1 {
      ValuePositive(s[..|s| - 1]);
    }
  }

  /** A numeral without leading zeros is the decimal form of its value. */
  lemma {:induction false} DecimalOfValue(s: Text)
    requires AllDigits(s) && NoLeadingZero(s)
    ensures Decimal(ValueOf(s)) == s
    decreases |s|
  {
    if |s| == 1 {
      assert s[..0] == [];
    } else {
      var init := s[..|s| - 1];
      ValuePositive(init);
      DecimalOfValue(init);
      assert s == init + [s[|s| - 1]];
    }
  }

  /** How many digits a text starts with. */
  function DigitSpan(t: Text): (n: nat)
    ensures n <= |t| && AllDigits(t[..n])
    ensures n < |t| ==> !IsDigit(t[n])
  {
    if t == [] || !IsDigit(t[0]) then 0
    else
      var n := DigitSpan(t[1..]);
      assert t[..n + 1] == [t[0]] + t[1..][..n];
      n + 1
  }

  predicate EndsNumber(rest: Text) {
    rest == [] || !IsDigit(rest[0])
  }

  lemma {:induction false} SpanOf(digits: Text, rest: Text)
    requires AllDigits(digits) && EndsNumber(rest)
    ensures DigitSpan(digits + rest) == |digits|
    decreases |digits|
  {
    if digits != [] {
      assert (digits + rest)[1..] == digits[1..] + rest;
      SpanOf(digits[1..], rest);
    } else {
      assert digits + rest == rest;
    }
  }

  function StripZeros(s: Text): (r: Text)
    ensures AllDigits(s) ==> AllDigits(r)
  {
    if |s| > 1 && s[0] == ZERO then StripZeros(s[1..]) else s
  }

  lemma {:induction false} ValueSkipsLeadingZero(s: Text)
    requires AllDigits(s) && |s| > 0 && s[0] == ZERO
    ensures ValueOf(s[1..]) == ValueOf(s)
    decreases |s|
  {
    if |s| > 1 {
      ValueSkipsLeadingZero(s[..|s| - 1]);
      assert s[..|s| - 1][1..] == s[1..][..|s| - 2];
    } else {
      assert s[..0] == [];
    }
  }

  lemma {:induction false} StripZerosKeepsValue(s: Text)
    requires AllDigits(s) && |s| > 0
    ensures NoLeadingZero(StripZeros(s)) && ValueOf(StripZeros(s)) == ValueOf(s)
    decreases |s|
  {
    if |s| > 1 && s[0] == ZERO {
      ValueSkipsLeadingZero(s);
      StripZerosKeepsValue(s[1..]);
    }
  }

  /** Two numerals have one value exactly when they agree up to leading zeros. */
  lemma SameValueIffSameDigits(a: Text, b: Text)
    requires AllDigits(a) && AllDigits(b) && |a| > 0 && |b| > 0
    ensures ValueOf(a) == ValueOf(b) <==> StripZeros(a) == StripZeros(b)
  {
    StripZerosKeepsValue(a);
    StripZerosKeepsValue(b);
    DecimalOfValue(StripZeros(a));
    DecimalOfValue(StripZeros(b));
  }

  // ----- lines

  function Join(parts: seq<Text>, separator: CodeUnit): Text {
    if parts == [] then []
    else if |parts| == 1 then parts[0]
    else parts[0] + [separator] + Join(parts[1..], separator)
  }

  function IndexOf(s: Text, c: CodeUnit): (i: nat)
    ensures i <= |s| && c !in s[..i]
    ensures i < |s| ==> s[i] == c
  {
    if s == [] || s[0] == c then 0
    else
      var rest := IndexOf(s[1..], c);
      assert s[..rest + 1] == [s[0]] + s[1..][..rest];
      rest + 1
  }

  function Split(s: Text, separator: CodeUnit): (parts: seq<Text>)
    ensures |parts| > 0
    ensures forall p :: p in parts ==> separator !in p
    decreases |s|
  {
    var i := IndexOf(s, separator);
    if i == |s| then
      assert s[..i] == s;
      [s]
    else [s[..i]] + Split(s[i + 1..], separator)
  }

  lemma JoinCons(head: Text, tail: seq<Text>, separator: CodeUnit)
    requires |tail| > 0
    ensures Join([head] + tail, separator) == head + [separator] + Join(tail, separator)
  {
    assert ([head] + tail)[1..] == tail;
  }

  lemma CutAt(s: Text, i: nat)
    requires i < |s|
    ensures s == s[..i] + [s[i]] + s[i + 1..]
  {
  }

  lemma {:induction false} JoinSplit(s: Text, separator: CodeUnit)
    ensures Join(Split(s, separator), separator) == s
    decreases |s|
  {
    var i := IndexOf(s, separator);
    if i < |s| {
      JoinSplit(s[i + 1..], separator);
      JoinCons(s[..i], Split(s[i + 1..], separator), separator);
      CutAt(s, i);
    }
  }

  lemma {:induction false} IndexOfFirst(prefix: Text, c: CodeUnit, rest: Text)
    requires c !in prefix
    ensures IndexOf(prefix + [c] + rest, c) == |prefix|
    decreases |prefix|
  {
    if prefix != [] {
      IndexOfFirst(prefix[1..], c, rest);
      assert (prefix + [c] + rest)[1..] == prefix[1..] + [c] + rest;
      assert prefix[0] in prefix;
    }
  }

  lemma {:induction false} IndexOfAbsent(s: Text, c: CodeUnit)
    requires c !in s
    ensures IndexOf(s, c) == |s|
  {
    if s != [] {
      assert s[0] in s;
      IndexOfAbsent(s[1..], c);
    }
  }

  lemma SplitCons(head: Text, rest: Text, separator: CodeUnit)
    requires separator !in head
    ensures Split(head + [separator] + rest, separator) == [head] + Split(rest, separator)
  {
    var s := head + [separator] + rest;
    IndexOfFirst(head, separator, rest);
    assert s[..|head|] == head && s[|head| + 1..] == rest;
  }

  lemma {:induction false} SplitJoin(parts: seq<Text>, separator: CodeUnit)
    requires |parts| > 0 && forall p :: p in parts ==> separator !in p
    ensures Split(Join(parts, separator), separator) == parts
    decreases |parts|
  {
    if |parts| == 1 {
      IndexOfAbsent(parts[0], separator);
      assert parts == [parts[0]];
    } else {
      var head, tail := parts[0], parts[1..];
      assert parts == [head] + tail;
      JoinCons(head, tail, separator);
      SplitCons(head, Join(tail, separator), separator);
      SplitJoin(tail, separator);
    }
  }
}
