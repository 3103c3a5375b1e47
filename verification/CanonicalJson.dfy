/**
 The canonical JSON printer a manifest digest rests on
 (apps/control-plane/src/evidence-attestation.ts:271-287).

 A reader is written here and shown to invert the printer, so the printer separates any two
 values that differ by more than the order of their keys.  Numbers are integers.
 */
module CanonicalJson {
  import opened Wrappers
  import opened Texts
  import opened Sorting

  datatype Json =
    | Null
    | Bool(flag: bool)
    | Num(number: int)
    | Str(text: Text)
    | Arr(items: seq<Json>)
    | Obj(members: seq<Member>)
  datatype Member = Member(key: Text, value: Json)

  const NULL: Text := [110, 117, 108, 108]
  const TRUE: Text := [116, 114, 117, 101]
  const FALSE: Text := [102, 97, 108, 115, 101]
  const OPEN_LIST: CodeUnit := 91
  const CLOSE_LIST: CodeUnit := 93
  const OPEN_OBJECT: CodeUnit := 123
  const CLOSE_OBJECT: CodeUnit := 125
  const LETTER_U: CodeUnit := 117

  // ----- strings

  predicate IsHigh(c: CodeUnit) {
    0xD800 <= c < 0xDC00
  }

  predicate IsLow(c: CodeUnit) {
    0xDC00 <= c < 0xE000
  }

  function HexDigit(n: int): CodeUnit
    requires 0 <= n < 16
  {
    if n < 10 then 48 + n else 87 + n
  }

  function Hex(c: CodeUnit): Text {
    [HexDigit(c / 4096), HexDigit(c / 256 % 16), HexDigit(c / 16 % 16), HexDigit(c % 16)]
  }

  /** The letter of a two-character escape. */
  function ShortEscape(c: CodeUnit): Option<CodeUnit> {
    if c == 8 then Some(98)
    else if c == 9 then Some(116)
    else if c == 10 then Some(110)
    else if c == 12 then Some(102)
    else if c == 13 then Some(114)
    else if c == QUOTE || c == BACKSLASH then Some(c)
    else None
  }

  function EscapeUnit(c: CodeUnit): Text {
    if ShortEscape(c).Some? then [BACKSLASH, ShortEscape(c).value]
    else if c < 0x20 || IsHigh(c) || IsLow(c) then [BACKSLASH, LETTER_U] + Hex(c)
    else [c]
  }

  /** The number four hexadecimal digits stand for. */
  function Sixteens(digits: Text): int {
    if digits == [] then 0
    else
      var last: int := digits[|digits| - 1];
      16 * Sixteens(digits[..|digits| - 1]) + (if last < 97 then last - 48 else last - 87)
  }

  lemma HexValue(c: CodeUnit)
    ensures |Hex(c)| == 4 && Sixteens(Hex(c)) == c
    ensures forall k :: 0 <= k < 4 ==> 48 <= Hex(c)[k] <= 57 || 97 <= Hex(c)[k] <= 102
  {
    var d := Hex(c);
    assert d[..3][..2][..1][..0] == [] && d[..3][..2][..1] == d[..1] && d[..3][..2] == d[..2];
    assert Sixteens(d[..1]) == c / 4096;
    assert Sixteens(d[..2]) == c / 256;
    assert Sixteens(d[..3]) == c / 16;
  }

  /** How JSON.stringify writes one code unit that is not half of a pair: as it stands, unless it is a quotation
      mark, a backslash, a control or a surrogate; the five named controls by a letter, the others by four
      lower-case hexadecimal digits. */
  lemma EscapeForm(c: CodeUnit)
    ensures EscapeUnit(c) == [c] <==> c >= 0x20 && c != 34 && c != 92 && !(0xD800 <= c < 0xE000)
    ensures c == 34 || c == 92 ==> EscapeUnit(c) == [92, c]
    ensures c == 8 ==> EscapeUnit(c) == [92, 98]
    ensures c == 9 ==> EscapeUnit(c) == [92, 116]
    ensures c == 10 ==> EscapeUnit(c) == [92, 110]
    ensures c == 12 ==> EscapeUnit(c) == [92, 102]
    ensures c == 13 ==> EscapeUnit(c) == [92, 114]
    ensures (c < 0x20 && c !in {8, 9, 10, 12, 13}) || 0xD800 <= c < 0xE000 ==>
              && |EscapeUnit(c)| == 6 && EscapeUnit(c)[..2] == [92, 117]
              && (forall k :: 2 <= k < 6 ==> 48 <= EscapeUnit(c)[k] <= 57 || 97 <= EscapeUnit(c)[k] <= 102)
              && c == Sixteens(EscapeUnit(c)[2..])
  {
    hide Hex, Sixteens;
    HexValue(c);
    if ShortEscape(c).None? && (c < 0x20 || IsHigh(c) || IsLow(c)) {
      var e := EscapeUnit(c);
      assert e == [92, 117] + Hex(c);
      assert e[..2] == [92, 117] && e[2..] == Hex(c);
      assert forall k :: 2 <= k < 6 ==> e[k] == Hex(c)[k - 2];
    }
  }

  /** Surrogate pairs stay as they are; a lone surrogate is escaped. */
  function Escape(s: Text): Text {
    if s == [] then []
    else if |s| > 1 && IsHigh(s[0]) && IsLow(s[1]) then s[..2] + Escape(s[2..])
    else EscapeUnit(s[0]) + Escape(s[1..])
  }

  function Quote(s: Text): Text {
    [QUOTE] + Escape(s) + [QUOTE]
  }

  // ----- values

  predicate KeyAtMost(a: Member, b: Member) {
    AtMost(a.key, b.key)
  }

  function SortedMembers(members: seq<Member>): (sorted: seq<Member>)
    ensures |sorted| == |members|
    ensures forall m :: m in sorted <==> m in members
  {
    SortPermutes(members, KeyAtMost);
    Sort(members, KeyAtMost)
  }

  function Number(n: int): Text {
    if n < 0 then [MINUS] + Decimal(-n) else Decimal(n)
  }

  function Canonical(v: Json): Text
    decreases v, 1, 0
  {
    match v
    case Null => NULL
    case Bool(flag) => if flag then TRUE else FALSE
    case Num(n) => Number(n)
    case Str(s) => Quote(s)
    case Arr(items) => [OPEN_LIST] + Join(ItemTexts(v, items), COMMA) + [CLOSE_LIST]
    case Obj(members) => [OPEN_OBJECT] + Join(MemberTexts(v, SortedMembers(members)), COMMA) + [CLOSE_OBJECT]
  }

  function ItemTexts(ghost whole: Json, items: seq<Json>): (texts: seq<Text>)
    requires forall k :: 0 <= k < |items| ==> items[k] < whole
    ensures |texts| == |items|
    decreases whole, 0, |items|
  {
    if items == [] then [] else [Canonical(items[0])] + ItemTexts(whole, items[1..])
  }

  function MemberTexts(ghost whole: Json, members: seq<Member>): (texts: seq<Text>)
    requires forall m :: m in members ==> m.value < whole
    ensures |texts| == |members|
    decreases whole, 0, |members|
  {
    if members == [] then []
    else [Quote(members[0].key) + [COLON] + Canonical(members[0].value)] + MemberTexts(whole, members[1..])
  }

  /** The value with its keys in the printed order, all the way down. */
  function Normal(v: Json): Json
    decreases v, 1, 0
  {
    match v
    case Arr(items) => Arr(NormalItems(v, items))
    case Obj(members) => Obj(NormalMembers(v, SortedMembers(members)))
    case _ => v
  }

  function NormalItems(ghost whole: Json, items: seq<Json>): (r: seq<Json>)
    requires forall k :: 0 <= k < |items| ==> items[k] < whole
    ensures |r| == |items|
    ensures forall k :: 0 <= k < |items| ==> r[k] == Normal(items[k])
    decreases whole, 0, |items|
  {
    if items == [] then [] else [Normal(items[0])] + NormalItems(whole, items[1..])
  }

  function NormalMembers(ghost whole: Json, members: seq<Member>): (r: seq<Member>)
    requires forall m :: m in members ==> m.value < whole
    ensures |r| == |members|
    ensures forall k :: 0 <= k < |members| ==> r[k] == Member(members[k].key, Normal(members[k].value))
    decreases whole, 0, |members|
  {
    if members == [] then []
    else [Member(members[0].key, Normal(members[0].value))] + NormalMembers(whole, members[1..])
  }

  // ----- the reader

  function FromHex(c: CodeUnit): Option<int> {
    if 48 <= c <= 57 then Some(c - 48) else if 97 <= c <= 102 then Some(c - 87) else None
  }

  function ReadHex(t: Text): Option<CodeUnit>
    requires |t| == 4
  {
    var a, b, c, d := FromHex(t[0]), FromHex(t[1]), FromHex(t[2]), FromHex(t[3]);
    if a.Some? && b.Some? && c.Some? && d.Some? then
      var n := a.value * 4096 + b.value * 256 + c.value * 16 + d.value;
      if 0 <= n < 0x1_0000 then Some(n) else None
    else None
  }

  function LongEscape(c: CodeUnit): Option<CodeUnit> {
    if c == 98 then Some(8)
    else if c == 116 then Some(9)
    else if c == 110 then Some(10)
    else if c == 102 then Some(12)
    else if c == 114 then Some(13)
    else if c == QUOTE || c == BACKSLASH then Some(c)
    else None
  }

  /** One character of a string, escaped or not, and what follows it. */
  function ReadUnit(t: Text): (r: Option<(CodeUnit, Text)>)
    requires t != []
    ensures r.Some? ==> |r.value.1| < |t|
  {
    if t[0] != BACKSLASH then Some((t[0], t[1..]))
    else if |t| == 1 then None
    else if t[1] == LETTER_U then
      if |t| < 6 || ReadHex(t[2..6]).None? then None else Some((ReadHex(t[2..6]).value, t[6..]))
    else if LongEscape(t[1]).Some? then Some((LongEscape(t[1]).value, t[2..]))
    else None
  }

  /** The rest of a string, after its opening quote. */
  function ReadString(t: Text): (r: Option<(Text, Text)>)
    ensures r.Some? ==> |r.value.1| < |t|
    decreases |t|
  {
    if t == [] then None
    else if t[0] == QUOTE then Some(([], t[1..]))
    else
      var unit := ReadUnit(t);
      if unit.None? then None
      else
        var rest := ReadString(unit.value.1);
        if rest.None? then None else Some(([unit.value.0] + rest.value.0, rest.value.1))
  }

  function ReadNumber(t: Text): (r: Option<(Json, Text)>)
    ensures r.Some? ==> |r.value.1| < |t|
  {
    var negative := t != [] && t[0] == MINUS;
    var digits := if negative then t[1..] else t;
    var n := DigitSpan(digits);
    if n == 0 then None
    else
      var value: int := ValueOf(digits[..n]);
      Some((Num(if negative then -value else value), digits[n..]))
  }

  function ReadValue(t: Text): (r: Option<(Json, Text)>)
    ensures r.Some? ==> |r.value.1| < |t|
    decreases |t|, 0
  {
    if t == [] then None
    else if NULL <= t then Some((Null, t[4..]))
    else if TRUE <= t then Some((Bool(true), t[4..]))
    else if FALSE <= t then Some((Bool(false), t[5..]))
    else if t[0] == QUOTE then
      match ReadString(t[1..])
      case Some((s, rest)) => Some((Str(s), rest))
      case None => None
    else if t[0] == OPEN_LIST then
      if |t| > 1 && t[1] == CLOSE_LIST then Some((Arr([]), t[2..]))
      else
        match ReadItems(t[1..])
        case Some((items, rest)) => Some((Arr(items), rest))
        case None => None
    else if t[0] == OPEN_OBJECT then
      if |t| > 1 && t[1] == CLOSE_OBJECT then Some((Obj([]), t[2..]))
      else
        match ReadMembers(t[1..])
        case Some((members, rest)) => Some((Obj(members), rest))
        case None => None
    else ReadNumber(t)
  }

  /** One or more items up to the closing bracket. */
  function ReadItems(t: Text): (r: Option<(seq<Json>, Text)>)
    ensures r.Some? ==> |r.value.1| < |t|
    decreases |t|, 1
  {
    match ReadValue(t)
    case None => None
    case Some((item, rest)) =>
      if rest != [] && rest[0] == CLOSE_LIST then Some(([item], rest[1..]))
      else if rest != [] && rest[0] == COMMA then
        match ReadItems(rest[1..])
        case Some((items, after)) => Some(([item] + items, after))
        case None => None
      else None
  }

  function ReadMember(t: Text): (r: Option<(Member, Text)>)
    ensures r.Some? ==> |r.value.1| < |t|
    decreases |t|, 1
  {
    if t == [] || t[0] != QUOTE then None
    else
      match ReadString(t[1..])
      case None => None
      case Some((key, rest)) =>
        if rest == [] || rest[0] != COLON then None
        else
          match ReadValue(rest[1..])
          case Some((value, after)) => Some((Member(key, value), after))
          case None => None
  }

  function ReadMembers(t: Text): (r: Option<(seq<Member>, Text)>)
    ensures r.Some? ==> |r.value.1| < |t|
    decreases |t|, 2
  {
    match ReadMember(t)
    case None => None
    case Some((member, rest)) =>
      if rest != [] && rest[0] == CLOSE_OBJECT then Some(([member], rest[1..]))
      else if rest != [] && rest[0] == COMMA then
        match ReadMembers(rest[1..])
        case Some((members, after)) => Some(([member] + members, after))
        case None => None
      else None
  }

  // ----- reading back what was printed

  lemma UnitRoundTrip(c: CodeUnit, rest: Text)
    ensures EscapeUnit(c) + rest != [] && (EscapeUnit(c) + rest)[0] != QUOTE
    ensures ReadUnit(EscapeUnit(c) + rest) == Some((c, rest))
  {
    var t := EscapeUnit(c) + rest;
    if ShortEscape(c).Some? {
      assert t[2..] == rest;
    } else if c < 0x20 || IsHigh(c) || IsLow(c) {
      assert t[2..6] == Hex(c) && t[6..] == rest;
      HexRoundTrip(c);
    } else {
      assert t[1..] == rest;
    }
  }

  lemma HexDigitRoundTrip(n: int)
    requires 0 <= n < 16
    ensures FromHex(HexDigit(n)) == Some(n)
  {
  }

  lemma Nibbles(c: CodeUnit)
    ensures c == c / 4096 * 4096 + c / 256 % 16 * 256 + c / 16 % 16 * 16 + c % 16
  {
    var a := c / 16;
    var b := a / 16;
    assert c == a * 16 + c % 16 && a == b * 16 + a % 16 && b == b / 16 * 16 + b % 16;
    assert c / 256 == b && c / 4096 == b / 16;
  }

  lemma HexRoundTrip(c: CodeUnit)
    ensures ReadHex(Hex(c)) == Some(c)
  {
    hide HexDigit, FromHex;
    HexDigitRoundTrip(c / 4096);
    HexDigitRoundTrip(c / 256 % 16);
    HexDigitRoundTrip(c / 16 % 16);
    HexDigitRoundTrip(c % 16);
    Nibbles(c);
  }

  lemma ReadsOn(t: Text, c: CodeUnit, rest: Text, s: Text, after: Text)
    requires t != [] && t[0] != QUOTE && ReadUnit(t) == Some((c, rest)) && ReadString(rest) == Some((s, after))
    ensures ReadString(t) == Some(([c] + s, after))
  {
  }

  lemma PairReads(high: CodeUnit, low: CodeUnit, tail: Text, s: Text, after: Text)
    requires IsHigh(high) && IsLow(low) && ReadString(tail) == Some((s, after))
    ensures ReadString([high, low] + tail) == Some(([high, low] + s, after))
  {
    var t := [high, low] + tail;
    assert t[1..] == [low] + tail && t[1..][1..] == tail;
    ReadsOn(t[1..], low, tail, s, after);
    ReadsOn(t, high, t[1..], [low] + s, after);
    assert [high] + ([low] + s) == [high, low] + s;
  }

  lemma {:induction false} StringRoundTrip(s: Text, rest: Text)
    ensures ReadString(Escape(s) + [QUOTE] + rest) == Some((s, rest))
    decreases |s|
  {
    hide ReadUnit, EscapeUnit;
    var t := Escape(s) + [QUOTE] + rest;
    if s == [] {
      assert t[1..] == rest;
    } else if |s| > 1 && IsHigh(s[0]) && IsLow(s[1]) {
      StringRoundTrip(s[2..], rest);
      var tail := Escape(s[2..]) + [QUOTE] + rest;
      assert t == [s[0], s[1]] + tail && s == [s[0], s[1]] + s[2..];
      PairReads(s[0], s[1], tail, s[2..], rest);
    } else {
      StringRoundTrip(s[1..], rest);
      var tail := Escape(s[1..]) + [QUOTE] + rest;
      assert t == EscapeUnit(s[0]) + tail && s == [s[0]] + s[1..];
      UnitRoundTrip(s[0], tail);
      ReadsOn(t, s[0], tail, s[1..], rest);
    }
  }

  lemma NumberRoundTrip(n: int, rest: Text)
    requires EndsNumber(rest)
    ensures ReadNumber(Number(n) + rest) == Some((Num(n), rest))
    ensures (Number(n) + rest)[0] == MINUS || IsDigit((Number(n) + rest)[0])
  {
    hide Decimal, DigitSpan, ValueOf;
    var size := if n < 0 then -n else n;
    var digits := Decimal(size);
    SpanOf(digits, rest);
    ValueOfDecimal(size);
    var t := digits + rest;
    assert t[..|digits|] == digits && t[|digits|..] == rest;
    if n < 0 {
      assert (Number(n) + rest)[1..] == t;
    }
  }

  /** No printed value starts with a closing bracket. */
  lemma Opens(v: Json)
    ensures Canonical(v) != []
    ensures Canonical(v)[0] != CLOSE_LIST && Canonical(v)[0] != CLOSE_OBJECT
  {
  }

  lemma KeywordRoundTrip(v: Json, rest: Text)
    requires v.Null? || v.Bool?
    ensures ReadValue(Canonical(v) + rest) == Some((v, rest))
  {
    var word := Canonical(v);
    var t := word + rest;
    assert t[..|word|] == word && t[|word|..] == rest;
    assert t[0] == word[0];
  }

  lemma QuotedRoundTrip(s: Text, rest: Text)
    ensures ReadValue(Quote(s) + rest) == Some((Str(s), rest))
  {
    hide Escape, ReadItems, ReadMembers, ReadNumber;
    var t := Quote(s) + rest;
    StringRoundTrip(s, rest);
    assert t[1..] == Escape(s) + [QUOTE] + rest;
    assert t[0] == QUOTE;
  }

  /** Reading what was printed gives the value back with its keys in order, and leaves the rest. */
  lemma {:induction false} RoundTrip(v: Json, rest: Text)
    requires EndsNumber(rest)
    ensures ReadValue(Canonical(v) + rest) == Some((Normal(v), rest))
    decreases v, 1, 0
  {
    hide ReadString, ReadItems, ReadMembers, ReadNumber;
    match v {
      case Null => KeywordRoundTrip(v, rest);
      case Bool(flag) => KeywordRoundTrip(v, rest);
      case Num(n) => NumberRoundTrip(n, rest);
      case Str(s) => QuotedRoundTrip(s, rest);
      case Arr(items) => ListRoundTrip(v, items, rest);
      case Obj(members) => ObjectRoundTrip(v, SortedMembers(members), rest);
    }
  }

  lemma ListRoundTrip(whole: Json, items: seq<Json>, rest: Text)
    requires forall k :: 0 <= k < |items| ==> items[k] < whole
    ensures ReadValue([OPEN_LIST] + Join(ItemTexts(whole, items), COMMA) + [CLOSE_LIST] + rest)
         == Some((Arr(NormalItems(whole, items)), rest))
    decreases whole, 0, |items| + 1
  {
    hide Canonical, Normal, ReadString, ReadItems, ReadMembers, ReadNumber;
    var body := Join(ItemTexts(whole, items), COMMA);
    var t := [OPEN_LIST] + body + [CLOSE_LIST] + rest;
    assert t[0] == OPEN_LIST;
    if items == [] {
      assert t[2..] == rest;
    } else {
      ItemsRoundTrip(whole, items, rest);
      assert t[1..] == body + [CLOSE_LIST] + rest;
      ItemsOpen(whole, items);
      assert t[1] == body[0];
    }
  }

  lemma ItemsOpen(whole: Json, items: seq<Json>)
    requires items != [] && forall k :: 0 <= k < |items| ==> items[k] < whole
    ensures var body := Join(ItemTexts(whole, items), COMMA);
            body != [] && body[0] != CLOSE_LIST
  {
    hide Canonical;
    Opens(items[0]);
  }

  lemma ReadItemsStep(t: Text, item: Json, rest: Text)
    requires ReadValue(t) == Some((item, rest)) && rest != []
    ensures rest[0] == CLOSE_LIST ==> ReadItems(t) == Some(([item], rest[1..]))
    ensures rest[0] == COMMA && ReadItems(rest[1..]).Some? ==>
              ReadItems(t) == Some(([item] + ReadItems(rest[1..]).value.0, ReadItems(rest[1..]).value.1))
  {
    hide ReadValue;
  }

  lemma {:induction false} ItemsRoundTrip(whole: Json, items: seq<Json>, rest: Text)
    requires items != [] && forall k :: 0 <= k < |items| ==> items[k] < whole
    ensures ReadItems(Join(ItemTexts(whole, items), COMMA) + [CLOSE_LIST] + rest)
         == Some((NormalItems(whole, items), rest))
    decreases whole, 0, |items|
  {
    hide Canonical, Normal, ReadValue, ReadItems;
    var first, others := Canonical(items[0]), items[1..];
    var texts := ItemTexts(whole, items);
    var t := Join(texts, COMMA) + [CLOSE_LIST] + rest;
    if others == [] {
      assert texts == [first];
      assert t == first + ([CLOSE_LIST] + rest);
      RoundTrip(items[0], [CLOSE_LIST] + rest);
      assert ([CLOSE_LIST] + rest)[1..] == rest;
      ReadItemsStep(t, Normal(items[0]), [CLOSE_LIST] + rest);
      assert NormalItems(whole, items) == [Normal(items[0])];
    } else {
      var tail := Join(ItemTexts(whole, others), COMMA) + [CLOSE_LIST] + rest;
      ItemsRoundTrip(whole, others, rest);
      JoinCons(first, ItemTexts(whole, others), COMMA);
      assert t == first + ([COMMA] + tail);
      RoundTrip(items[0], [COMMA] + tail);
      assert ([COMMA] + tail)[1..] == tail;
      ReadItemsStep(t, Normal(items[0]), [COMMA] + tail);
    }
  }

  lemma ObjectRoundTrip(whole: Json, members: seq<Member>, rest: Text)
    requires forall m :: m in members ==> m.value < whole
    ensures ReadValue([OPEN_OBJECT] + Join(MemberTexts(whole, members), COMMA) + [CLOSE_OBJECT] + rest)
         == Some((Obj(NormalMembers(whole, members)), rest))
    decreases whole, 0, |members| + 1
  {
    hide Canonical, Normal, Escape, ReadString, ReadItems, ReadMembers, ReadNumber;
    var body := Join(MemberTexts(whole, members), COMMA);
    var t := [OPEN_OBJECT] + body + [CLOSE_OBJECT] + rest;
    assert t[0] == OPEN_OBJECT;
    if members == [] {
      assert t[2..] == rest;
    } else {
      MembersRoundTrip(whole, members, rest);
      assert t[1..] == body + [CLOSE_OBJECT] + rest;
      assert body[0] == QUOTE && t[1] == body[0];
    }
  }

  lemma MemberRoundTrip(m: Member, rest: Text)
    requires EndsNumber(rest)
    requires ReadValue(Canonical(m.value) + rest) == Some((Normal(m.value), rest))
    ensures ReadMember(Quote(m.key) + [COLON] + Canonical(m.value) + rest)
         == Some((Member(m.key, Normal(m.value)), rest))
  {
    hide Canonical, Normal, Escape, ReadString, ReadValue;
    var value := Canonical(m.value) + rest;
    var t := Quote(m.key) + [COLON] + Canonical(m.value) + rest;
    StringRoundTrip(m.key, [COLON] + value);
    assert t[1..] == Escape(m.key) + [QUOTE] + ([COLON] + value);
    assert ([COLON] + value)[1..] == value;
  }

  lemma ReadMembersStep(t: Text, member: Member, rest: Text)
    requires ReadMember(t) == Some((member, rest)) && rest != []
    ensures rest[0] == CLOSE_OBJECT ==> ReadMembers(t) == Some(([member], rest[1..]))
    ensures rest[0] == COMMA && ReadMembers(rest[1..]).Some? ==>
              ReadMembers(t) == Some(([member] + ReadMembers(rest[1..]).value.0, ReadMembers(rest[1..]).value.1))
  {
    hide ReadMember;
  }

  lemma {:induction false} MembersRoundTrip(whole: Json, members: seq<Member>, rest: Text)
    requires members != [] && forall m :: m in members ==> m.value < whole
    ensures ReadMembers(Join(MemberTexts(whole, members), COMMA) + [CLOSE_OBJECT] + rest)
         == Some((NormalMembers(whole, members), rest))
    decreases whole, 0, |members|
  {
    hide Canonical, Normal, Quote, ReadMember, ReadMembers;
    var m, others := members[0], members[1..];
    var first := Quote(m.key) + [COLON] + Canonical(m.value);
    var texts := MemberTexts(whole, members);
    var t := Join(texts, COMMA) + [CLOSE_OBJECT] + rest;
    if others == [] {
      assert texts == [first];
      assert t == first + ([CLOSE_OBJECT] + rest);
      RoundTrip(m.value, [CLOSE_OBJECT] + rest);
      MemberRoundTrip(m, [CLOSE_OBJECT] + rest);
      assert ([CLOSE_OBJECT] + rest)[1..] == rest;
      ReadMembersStep(t, Member(m.key, Normal(m.value)), [CLOSE_OBJECT] + rest);
      assert NormalMembers(whole, members) == [Member(m.key, Normal(m.value))];
    } else {
      var tail := Join(MemberTexts(whole, others), COMMA) + [CLOSE_OBJECT] + rest;
      MembersRoundTrip(whole, others, rest);
      JoinCons(first, MemberTexts(whole, others), COMMA);
      assert t == first + ([COMMA] + tail);
      RoundTrip(m.value, [COMMA] + tail);
      MemberRoundTrip(m, [COMMA] + tail);
      assert ([COMMA] + tail)[1..] == tail;
      ReadMembersStep(t, Member(m.key, Normal(m.value)), [COMMA] + tail);
    }
  }
}
