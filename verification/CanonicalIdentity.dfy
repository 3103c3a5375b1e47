/**
 What the canonical form identifies.
 */
module CanonicalIdentity {
  /**
   Source: apps/control-plane/src/evidence-attestation.ts:271-287.

   Two values print the same exactly when they differ only in the order of their keys, and a
   printed value has no lone surrogate, so encoding it as UTF-8 for the digest loses nothing.
   */
  import opened Wrappers
  import opened Texts
  import opened Sorting
  import opened CanonicalJson

  ghost predicate DistinctKeys(members: seq<Member>) {
    forall i, j :: 0 <= i < j < |members| ==> members[i].key != members[j].key
  }

  /** What JSON.parse and object literals build: no key twice in one object. */
  ghost predicate WellFormed(v: Json) {
    match v
    case Arr(items) => forall k :: 0 <= k < |items| ==> WellFormed(items[k])
    case Obj(members) => DistinctKeys(members) && forall k :: 0 <= k < |members| ==> WellFormed(members[k].value)
    case _ => true
  }

  /** Equal but for the order of keys, at every depth. */
  ghost predicate Same(a: Json, b: Json) {
    match a
    case Arr(items) =>
      b.Arr? && |items| == |b.items| && forall k :: 0 <= k < |items| ==> Same(items[k], b.items[k])
    case Obj(members) =>
      && b.Obj?
      && (forall i :: 0 <= i < |members| ==> Matches(members[i], b.members))
      && (forall j :: 0 <= j < |b.members| ==> HasKey(members, b.members[j].key))
    case _ => a == b
  }

  /** Some member has this key and the same value. */
  ghost predicate Matches(m: Member, others: seq<Member>) {
    exists j :: 0 <= j < |others| && m.key == others[j].key && Same(m.value, others[j].value)
  }

  ghost predicate HasKey(members: seq<Member>, key: Text) {
    exists m :: m in members && m.key == key
  }

  // ----- printing depends on the normal form and nothing else

  lemma {:induction false} NormalDeterminesText(a: Json, b: Json)
    requires Normal(a) == Normal(b)
    ensures Canonical(a) == Canonical(b)
    decreases a, 1, 0
  {
    match a {
      case Arr(items) => SameItemTexts(a, items, b, b.items);
      case Obj(members) => SameMemberTexts(a, SortedMembers(members), b, SortedMembers(b.members));
      case _ =>
    }
  }

  lemma {:induction false} SameItemTexts(a: Json, s: seq<Json>, b: Json, t: seq<Json>)
    requires forall k :: 0 <= k < |s| ==> s[k] < a
    requires forall k :: 0 <= k < |t| ==> t[k] < b
    requires NormalItems(a, s) == NormalItems(b, t)
    ensures ItemTexts(a, s) == ItemTexts(b, t)
    decreases a, 0, |s|
  {
    assert |s| == |NormalItems(b, t)| == |t|;
    if s != [] {
      assert Normal(s[0]) == NormalItems(a, s)[0] == Normal(t[0]);
      NormalDeterminesText(s[0], t[0]);
      assert NormalItems(a, s)[1..] == NormalItems(a, s[1..]) && NormalItems(b, t)[1..] == NormalItems(b, t[1..]);
      SameItemTexts(a, s[1..], b, t[1..]);
    }
  }

  lemma {:induction false} SameMemberTexts(a: Json, s: seq<Member>, b: Json, t: seq<Member>)
    requires forall m :: m in s ==> m.value < a
    requires forall m :: m in t ==> m.value < b
    requires NormalMembers(a, s) == NormalMembers(b, t)
    ensures MemberTexts(a, s) == MemberTexts(b, t)
    decreases a, 0, |s|
  {
    assert |s| == |NormalMembers(b, t)| == |t|;
    if s != [] {
      assert NormalMembers(a, s)[0] == NormalMembers(b, t)[0];
      NormalDeterminesText(s[0].value, t[0].value);
      assert NormalMembers(a, s)[1..] == NormalMembers(a, s[1..]);
      assert NormalMembers(b, t)[1..] == NormalMembers(b, t[1..]);
      SameMemberTexts(a, s[1..], b, t[1..]);
    }
  }

  lemma TextDecidesNormal(a: Json, b: Json)
    ensures Canonical(a) == Canonical(b) <==> Normal(a) == Normal(b)
  {
    hide Canonical, Normal, ReadValue;
    RoundTrip(a, []);
    RoundTrip(b, []);
    if Normal(a) == Normal(b) {
      NormalDeterminesText(a, b);
    }
  }

  // ----- the normal form depends on the members and not on their order

  lemma {:induction false} InsertKeepsDistinct(x: Member, s: seq<Member>)
    requires DistinctKeys(s) && !HasKey(s, x.key)
    ensures DistinctKeys(Insert(x, s, KeyAtMost))
    decreases |s|
  {
    if s != [] {
      assert s[0] in s;
      assert forall m :: m in s[1..] ==> m in s;
      if KeyAtMost(x, s[0]) {
        assert forall k :: 0 <= k < |s| ==> s[k] in s;
      } else {
        InsertKeepsDistinct(x, s[1..]);
        InsertPermutes(x, s[1..], KeyAtMost);
        var r := Insert(x, s[1..], KeyAtMost);
        SameElements(r, [x] + s[1..]);
        forall k | 0 <= k < |r| ensures r[k].key != s[0].key {
          assert r[k] in [x] + s[1..];
        }
      }
    }
  }

  lemma {:induction false} SortKeepsDistinct(s: seq<Member>)
    requires DistinctKeys(s)
    ensures DistinctKeys(Sort(s, KeyAtMost))
    decreases |s|
  {
    if s != [] {
      SortKeepsDistinct(s[1..]);
      SortPermutes(s[1..], KeyAtMost);
      InsertKeepsDistinct(s[0], Sort(s[1..], KeyAtMost));
    }
  }

  /** Keys in strictly ascending order. */
  ghost predicate Ascending(s: seq<Member>) {
    forall i, j :: 0 <= i < j < |s| ==> Less(s[i].key, s[j].key)
  }

  lemma SortedAscends(members: seq<Member>)
    requires DistinctKeys(members)
    ensures Ascending(SortedMembers(members))
  {
    var s := SortedMembers(members);
    AtMostIsTotal();
    SortOrdered(members, KeyAtMost);
    SortKeepsDistinct(members);
    forall i, j | 0 <= i < j < |s| ensures Less(s[i].key, s[j].key) {
      assert KeyAtMost(s[i], s[j]);
      LessTotal(s[i].key, s[j].key);
    }
  }

  // ----- the printed text, spelled out

  /** The text of one member: its quoted key, a colon and the text of its value. */
  function Entry(key: Text, value: Text): Text {
    Quote(key) + [COLON] + value
  }

  lemma {:induction false} EntryAt(whole: Json, members: seq<Member>, k: nat)
    requires (forall m :: m in members ==> m.value < whole) && k < |members|
    ensures MemberTexts(whole, members)[k] == Entry(members[k].key, Canonical(members[k].value))
    decreases k
  {
    hide Canonical, Quote;
    if k > 0 {
      EntryAt(whole, members[1..], k - 1);
    }
  }

  lemma {:induction false} ItemAt(whole: Json, items: seq<Json>, k: nat)
    requires (forall j :: 0 <= j < |items| ==> items[j] < whole) && k < |items|
    ensures ItemTexts(whole, items)[k] == Canonical(items[k])
    decreases k
  {
    hide Canonical;
    if k > 0 {
      ItemAt(whole, items[1..], k - 1);
    }
  }

  /** A list prints its items in order, between brackets and separated by commas. */
  lemma ListText(v: Json) returns (texts: seq<Text>)
    requires v.Arr?
    ensures Canonical(v) == [91] + Join(texts, 44) + [93]
    ensures |texts| == |v.items| && forall k :: 0 <= k < |texts| ==> texts[k] == Canonical(v.items[k])
  {
    texts := ItemTexts(v, v.items);
    forall k | 0 <= k < |texts| ensures texts[k] == Canonical(v.items[k]) {
      ItemAt(v, v.items, k);
    }
  }

  /** An object prints each member once, between braces and separated by commas, and of two keys first the one
      that is a proper prefix of the other or has the smaller code unit where they first differ. */
  lemma ObjectText(v: Json) returns (members: seq<Member>, texts: seq<Text>)
    requires v.Obj? && DistinctKeys(v.members)
    ensures Canonical(v) == [123] + Join(texts, 44) + [125]
    ensures multiset(members) == multiset(v.members) && |texts| == |members|
    ensures forall k :: 0 <= k < |texts| ==> texts[k] == Entry(members[k].key, Canonical(members[k].value))
    ensures forall i, j :: 0 <= i < j < |members| ==> Precedes(members[i].key, members[j].key)
  {
    members := SortedMembers(v.members);
    texts := MemberTexts(v, members);
    SortPermutes(v.members, KeyAtMost);
    SortedAscends(v.members);
    forall k | 0 <= k < |texts| ensures texts[k] == Entry(members[k].key, Canonical(members[k].value)) {
      EntryAt(v, members, k);
    }
    forall i, j | 0 <= i < j < |members| ensures Precedes(members[i].key, members[j].key) {
      LessMeans(members[i].key, members[j].key);
    }
  }

  /** Members given in that order are printed as they stand. */
  lemma OrderedObjectText(v: Json, members: seq<Member>, texts: seq<Text>)
    requires v.Obj? && DistinctKeys(v.members) && forall m :: m in members <==> m in v.members
    requires forall i, j :: 0 <= i < j < |members| ==> Precedes(members[i].key, members[j].key)
    requires |texts| == |members|
    requires forall k :: 0 <= k < |texts| ==> texts[k] == Entry(members[k].key, Canonical(members[k].value))
    ensures Canonical(v) == [123] + Join(texts, 44) + [125]
  {
    var sorted := SortedMembers(v.members);
    SortedAscends(v.members);
    forall i, j | 0 <= i < j < |members| ensures Less(members[i].key, members[j].key) {
      LessMeans(members[i].key, members[j].key);
    }
    assert forall key :: HasKey(members, key) <==> HasKey(sorted, key);
    SameKeysSameOrder(members, sorted);
    forall k | 0 <= k < |members| ensures members[k] == sorted[k] {
      assert members[k] in members && sorted[k] in sorted;
      var a :| 0 <= a < |v.members| && v.members[a] == members[k];
      var b :| 0 <= b < |v.members| && v.members[b] == sorted[k];
      assert a == b;
    }
    assert members == sorted;
    forall k | 0 <= k < |texts| ensures MemberTexts(v, sorted)[k] == texts[k] {
      EntryAt(v, sorted, k);
    }
    assert MemberTexts(v, sorted) == texts;
  }

  /** Nothing in the text needs an escape. */
  predicate IsPlain(s: Text) {
    forall k :: 0 <= k < |s| ==> 0x20 <= s[k] < 0xD800 && s[k] != 34 && s[k] != 92
  }

  lemma {:induction false} PlainEscapes(s: Text)
    requires IsPlain(s)
    ensures Escape(s) == s
    decreases |s|
  {
    if s != [] {
      PlainEscapes(s[1..]);
      assert s == [s[0]] + s[1..];
    }
  }

  /** A plain text is printed as it stands, between quotation marks. */
  lemma PlainQuotes(s: Text)
    requires IsPlain(s)
    ensures Quote(s) == [34] + s + [34]
  {
    PlainEscapes(s);
  }

  ghost predicate SameKeys(s: seq<Member>, t: seq<Member>) {
    forall key :: HasKey(s, key) <==> HasKey(t, key)
  }

  lemma LeastKey(s: seq<Member>, t: seq<Member>)
    requires Ascending(s) && Ascending(t) && s != [] && t != [] && SameKeys(s, t)
    ensures s[0].key == t[0].key
  {
    assert s[0] in s && t[0] in t;
    assert HasKey(s, s[0].key) && HasKey(t, t[0].key);
    var i :| 0 <= i < |t| && t[i].key == s[0].key;
    var j :| 0 <= j < |s| && s[j].key == t[0].key;
    LessAsymmetric(s[0].key, t[0].key);
  }

  lemma DropLeastKey(s: seq<Member>, key: Text)
    requires Ascending(s) && s != []
    ensures HasKey(s[1..], key) <==> HasKey(s, key) && key != s[0].key
  {
    LessIrreflexive(key);
    assert s == [s[0]] + s[1..];
    forall k | 1 <= k < |s| ensures s[k].key != s[0].key {
      LessIrreflexive(s[0].key);
    }
    if HasKey(s[1..], key) {
      var m :| m in s[1..] && m.key == key;
      var k :| 0 <= k < |s[1..]| && s[1..][k] == m;
      assert s[k + 1] == m && m in s;
    }
    if HasKey(s, key) && key != s[0].key {
      var m :| m in s && m.key == key;
      assert m in s[1..];
    }
  }

  lemma NonEmpty(s: seq<Member>, t: seq<Member>)
    requires s != [] && SameKeys(s, t)
    ensures t != []
  {
    assert s[0] in s;
    assert HasKey(s, s[0].key);
  }

  lemma {:induction false} SameKeysSameOrder(s: seq<Member>, t: seq<Member>)
    requires Ascending(s) && Ascending(t) && SameKeys(s, t)
    ensures |s| == |t| && forall k :: 0 <= k < |s| ==> s[k].key == t[k].key
    decreases |s|
  {
    if s == [] {
      if t != [] {
        NonEmpty(t, s);
      }
    } else {
      assert s[0] in s && HasKey(s, s[0].key);
      LeastKey(s, t);
      forall key ensures HasKey(s[1..], key) <==> HasKey(t[1..], key) {
        DropLeastKey(s, key);
        DropLeastKey(t, key);
      }
      SameKeysSameOrder(s[1..], t[1..]);
      assert forall k :: 1 <= k < |s| ==> s[k] == s[1..][k - 1] && t[k] == t[1..][k - 1];
    }
  }

  /** The objects' members agree key by key. */
  ghost predicate Agree(s: seq<Member>, t: seq<Member>) {
    && SameKeys(s, t)
    && forall m, n :: m in s && n in t && m.key == n.key ==> Normal(m.value) == Normal(n.value)
  }

  lemma ObjectsAgree(a: Json, b: Json)
    requires a.Obj? && b.Obj? && DistinctKeys(a.members) && DistinctKeys(b.members)
    ensures Normal(a) == Normal(b) <==> Agree(a.members, b.members)
  {
    hide Normal, SortedMembers, Agree;
    var s, t := SortedMembers(a.members), SortedMembers(b.members);
    SortedAscends(a.members);
    SortedAscends(b.members);
    NormalOfObject(a);
    NormalOfObject(b);
    AgreeIgnoresOrder(a.members, s, b.members, t);
    if Normal(a) == Normal(b) {
      assert forall k :: 0 <= k < |s| ==> NormalMembers(a, s)[k] == NormalMembers(b, t)[k];
      PairedAgree(s, t);
    }
    if Agree(s, t) {
      AgreePaired(s, t);
      assert NormalMembers(a, s) == NormalMembers(b, t);
    }
  }

  lemma AgreeIgnoresOrder(m: seq<Member>, s: seq<Member>, n: seq<Member>, t: seq<Member>)
    requires forall x :: x in s <==> x in m
    requires forall x :: x in t <==> x in n
    ensures Agree(m, n) <==> Agree(s, t)
  {
    hide Normal;
    assert forall key :: HasKey(m, key) <==> HasKey(s, key);
    assert forall key :: HasKey(n, key) <==> HasKey(t, key);
  }

  lemma AgreePaired(s: seq<Member>, t: seq<Member>)
    requires Ascending(s) && Ascending(t) && Agree(s, t)
    ensures |s| == |t|
    ensures forall k :: 0 <= k < |s| ==> s[k].key == t[k].key && Normal(s[k].value) == Normal(t[k].value)
  {
    hide Normal;
    SameKeysSameOrder(s, t);
    forall k | 0 <= k < |s| ensures Normal(s[k].value) == Normal(t[k].value) {
      assert s[k] in s && t[k] in t;
    }
  }

  lemma NormalOfObject(a: Json)
    requires a.Obj?
    ensures var s := SortedMembers(a.members);
            && (forall m :: m in s ==> m.value < a)
            && Normal(a) == Obj(NormalMembers(a, s))
  {
  }

  lemma PairedAgree(s: seq<Member>, t: seq<Member>)
    requires |s| == |t| && Ascending(s)
    requires forall k :: 0 <= k < |s| ==> s[k].key == t[k].key && Normal(s[k].value) == Normal(t[k].value)
    ensures Agree(s, t)
  {
    hide Normal;
    forall key ensures HasKey(s, key) <==> HasKey(t, key) {
      if HasKey(s, key) {
        var k :| 0 <= k < |s| && s[k].key == key;
        assert t[k] in t;
      }
      if HasKey(t, key) {
        var k :| 0 <= k < |t| && t[k].key == key;
        assert s[k] in s;
      }
    }
    forall m, n | m in s && n in t && m.key == n.key ensures Normal(m.value) == Normal(n.value) {
      var i :| 0 <= i < |s| && s[i] == m;
      var j :| 0 <= j < |t| && t[j] == n;
      LessIrreflexive(m.key);
      assert i == j;
    }
  }

  /** The normal forms coincide exactly when the values are the same but for the order of keys. */
  lemma {:induction false} NormalIffSame(a: Json, b: Json)
    requires WellFormed(a) && WellFormed(b)
    ensures Normal(a) == Normal(b) <==> Same(a, b)
    decreases a
  {
    match a {
      case Arr(items) =>
        if b.Arr? && |b.items| == |items| {
          forall k | 0 <= k < |items| ensures Normal(items[k]) == Normal(b.items[k]) <==> Same(items[k], b.items[k]) {
            NormalIffSame(items[k], b.items[k]);
          }
          ListsAgree(a, b);
        }
      case Obj(members) =>
        if b.Obj? {
          forall m, n | m in members && n in b.members ensures Normal(m.value) == Normal(n.value) <==> Same(m.value, n.value) {
            NormalIffSame(m.value, n.value);
          }
          ObjectsAgree(a, b);
          AgreeIffSame(a, b);
        }
      case _ =>
    }
  }

  lemma ListsAgree(a: Json, b: Json)
    requires a.Arr? && b.Arr? && |a.items| == |b.items|
    ensures Normal(a) == Normal(b) <==> forall k :: 0 <= k < |a.items| ==> Normal(a.items[k]) == Normal(b.items[k])
  {
    var s, t := NormalItems(a, a.items), NormalItems(b, b.items);
    assert forall k :: 0 <= k < |s| ==> s[k] == Normal(a.items[k]) && t[k] == Normal(b.items[k]);
  }

  lemma AgreeIffSame(a: Json, b: Json)
    requires a.Obj? && b.Obj? && DistinctKeys(a.members) && DistinctKeys(b.members)
    requires forall m, n :: m in a.members && n in b.members ==>
               (Normal(m.value) == Normal(n.value) <==> Same(m.value, n.value))
    ensures Agree(a.members, b.members) <==> Same(a, b)
  {
    hide Normal;
    if Agree(a.members, b.members) {
      forall i | 0 <= i < |a.members|
        ensures Matches(a.members[i], b.members)
      {
        assert HasKey(a.members, a.members[i].key);
        var j :| 0 <= j < |b.members| && b.members[j].key == a.members[i].key;
        assert a.members[i] in a.members && b.members[j] in b.members;
        assert Same(a.members[i].value, b.members[j].value);
      }
      forall j | 0 <= j < |b.members| ensures HasKey(a.members, b.members[j].key) {
        assert HasKey(b.members, b.members[j].key);
      }
    }
    if Same(a, b) {
      SameAgrees(a, b);
    }
  }

  lemma SameAgrees(a: Json, b: Json)
    requires a.Obj? && b.Obj? && DistinctKeys(b.members) && Same(a, b)
    requires forall m, n :: m in a.members && n in b.members ==>
               (Normal(m.value) == Normal(n.value) <==> Same(m.value, n.value))
    ensures Agree(a.members, b.members)
  {
    hide Normal;
    forall m | m in a.members ensures Matches(m, b.members) {
      var i :| 0 <= i < |a.members| && a.members[i] == m;
    }
    forall key ensures HasKey(a.members, key) <==> HasKey(b.members, key) {
      if HasKey(b.members, key) {
        var j :| 0 <= j < |b.members| && b.members[j].key == key;
      }
    }
    forall m, n | m in a.members && n in b.members && m.key == n.key ensures Normal(m.value) == Normal(n.value) {
      var j :| 0 <= j < |b.members| && m.key == b.members[j].key && Same(m.value, b.members[j].value);
      var l :| 0 <= l < |b.members| && b.members[l] == n;
      assert j == l;
    }
  }

  /** Injective up to the order of keys, and independent of that order. */
  lemma SameTextIffSame(a: Json, b: Json)
    requires WellFormed(a) && WellFormed(b)
    ensures Canonical(a) == Canonical(b) <==> Same(a, b)
  {
    hide *;
    TextDecidesNormal(a, b);
    NormalIffSame(a, b);
  }

  // ----- the text is well-formed UTF-16

  /** Every surrogate is half of a pair. */
  predicate WellPaired(t: Text) {
    if t == [] then true
    else if 0xD800 <= t[0] < 0xDC00 then |t| > 1 && 0xDC00 <= t[1] < 0xE000 && WellPaired(t[2..])
    else !(0xDC00 <= t[0] < 0xE000) && WellPaired(t[1..])
  }

  lemma {:induction false} PairedConcat(a: Text, b: Text)
    requires WellPaired(a) && WellPaired(b)
    ensures WellPaired(a + b)
    decreases |a|
  {
    if a == [] {
      assert a + b == b;
    } else if IsHigh(a[0]) {
      assert (a + b)[2..] == a[2..] + b;
      PairedConcat(a[2..], b);
    } else {
      assert (a + b)[1..] == a[1..] + b;
      PairedConcat(a[1..], b);
    }
  }

  lemma {:induction false} NoSurrogates(t: Text)
    requires forall k :: 0 <= k < |t| ==> !IsHigh(t[k]) && !IsLow(t[k])
    ensures WellPaired(t)
    decreases |t|
  {
    if t != [] {
      NoSurrogates(t[1..]);
    }
  }

  lemma {:induction false} EscapePaired(s: Text)
    ensures WellPaired(Escape(s))
    decreases |s|
  {
    if s == [] {
    } else if |s| > 1 && IsHigh(s[0]) && IsLow(s[1]) {
      EscapePaired(s[2..]);
      assert s[..2][2..] == [];
      PairedConcat(s[..2], Escape(s[2..]));
    } else {
      EscapePaired(s[1..]);
      NoSurrogates(EscapeUnit(s[0]));
      PairedConcat(EscapeUnit(s[0]), Escape(s[1..]));
    }
  }

  lemma QuotePaired(s: Text)
    ensures WellPaired(Quote(s))
  {
    EscapePaired(s);
    NoSurrogates([QUOTE]);
    PairedConcat([QUOTE], Escape(s));
    PairedConcat([QUOTE] + Escape(s), [QUOTE]);
  }

  lemma {:induction false} JoinPaired(parts: seq<Text>)
    requires forall k :: 0 <= k < |parts| ==> WellPaired(parts[k])
    ensures WellPaired(Join(parts, COMMA))
    decreases |parts|
  {
    if |parts| > 1 {
      JoinPaired(parts[1..]);
      NoSurrogates([COMMA]);
      PairedConcat(parts[0], [COMMA]);
      PairedConcat(parts[0] + [COMMA], Join(parts[1..], COMMA));
    }
  }

  lemma BracketPaired(open: CodeUnit, body: Text, close: CodeUnit)
    requires WellPaired(body) && !IsHigh(open) && !IsLow(open) && !IsHigh(close) && !IsLow(close)
    ensures WellPaired([open] + body + [close])
  {
    NoSurrogates([open]);
    NoSurrogates([close]);
    PairedConcat([open], body);
    PairedConcat([open] + body, [close]);
  }

  /** Whatever the strings in a value are, its canonical text can be encoded as UTF-8 without loss. */
  lemma {:induction false} CanonicalPaired(v: Json)
    ensures WellPaired(Canonical(v))
    decreases v, 1, 0
  {
    hide WellPaired;
    match v {
      case Null => NoSurrogates(NULL);
      case Bool(flag) => NoSurrogates(TRUE); NoSurrogates(FALSE);
      case Num(n) => NoSurrogates(Number(n));
      case Str(s) => QuotePaired(s);
      case Arr(items) =>
        ItemsPaired(v, items);
        JoinPaired(ItemTexts(v, items));
        BracketPaired(OPEN_LIST, Join(ItemTexts(v, items), COMMA), CLOSE_LIST);
      case Obj(members) =>
        var sorted := SortedMembers(members);
        MembersPaired(v, sorted);
        JoinPaired(MemberTexts(v, sorted));
        BracketPaired(OPEN_OBJECT, Join(MemberTexts(v, sorted), COMMA), CLOSE_OBJECT);
    }
  }

  lemma {:induction false} ItemsPaired(whole: Json, items: seq<Json>)
    requires forall k :: 0 <= k < |items| ==> items[k] < whole
    ensures forall k :: 0 <= k < |items| ==> WellPaired(ItemTexts(whole, items)[k])
    decreases whole, 0, |items|
  {
    hide WellPaired, Canonical;
    if items != [] {
      CanonicalPaired(items[0]);
      ItemsPaired(whole, items[1..]);
    }
  }

  lemma {:induction false} MembersPaired(whole: Json, members: seq<Member>)
    requires forall m :: m in members ==> m.value < whole
    ensures forall k :: 0 <= k < |members| ==> WellPaired(MemberTexts(whole, members)[k])
    decreases whole, 0, |members|
  {
    hide WellPaired, Canonical, Quote;
    if members != [] {
      var m := members[0];
      CanonicalPaired(m.value);
      QuotePaired(m.key);
      NoSurrogates([COLON]);
      PairedConcat(Quote(m.key), [COLON]);
      PairedConcat(Quote(m.key) + [COLON], Canonical(m.value));
      MembersPaired(whole, members[1..]);
    }
  }
}
