/**
 Selecting what a review is given under its budgets.
 */
module ReviewBundle {
  /**
   Source: packages/core/src/review-bundle.ts:138-143, 255-355.

   Candidates come with the score, cost and keys computed for them; scores are reals and ties
   are broken by code unit.  The three input lists are one list here, contexts first.
   */
  import opened Wrappers
  import opened Texts
  import opened Sorting

  datatype Kind = Context | Scanner | Rule

  datatype Item = Item(kind: Kind, id: Text, stableKey: Text, score: real, cost: nat, duplicateKey: Text)

  datatype Reason = Duplicate | CharacterBudget | ContextLimit | ScannerLimit | RuleLimit

  datatype Drop = Drop(item: Item, reason: Reason)

  datatype Limits = Limits(characters: int, contexts: int, scanners: int, rules: int)

  datatype Usage = Usage(characters: nat, contexts: nat, scanners: nat, rules: nat)

  const NOTHING: Usage := Usage(0, 0, 0, 0)

  function LimitOf(limits: Limits, kind: Kind): int {
    match kind
    case Context => limits.contexts
    case Scanner => limits.scanners
    case Rule => limits.rules
  }

  function CountOf(u: Usage, kind: Kind): nat {
    match kind
    case Context => u.contexts
    case Scanner => u.scanners
    case Rule => u.rules
  }

  function LimitReason(kind: Kind): Reason {
    match kind
    case Context => ContextLimit
    case Scanner => ScannerLimit
    case Rule => RuleLimit
  }

  function With(u: Usage, item: Item): Usage {
    var v := u.(characters := u.characters + item.cost);
    match item.kind
    case Context => v.(contexts := u.contexts + 1)
    case Scanner => v.(scanners := u.scanners + 1)
    case Rule => v.(rules := u.rules + 1)
  }

  /** Why an item does not fit any more, if it does not. */
  function Refusal(limits: Limits, u: Usage, item: Item): Option<Reason> {
    if CountOf(u, item.kind) >= LimitOf(limits, item.kind) then Some(LimitReason(item.kind))
    else if u.characters + item.cost > limits.characters then Some(CharacterBudget)
    else None
  }

  predicate RanksBefore(a: Item, b: Item) {
    a.score > b.score || (a.score == b.score && AtMost(a.stableKey, b.stableKey))
  }

  lemma RankingIsTotal()
    ensures TotalPreorder(RanksBefore)
  {
    AtMostIsTotal();
  }

  // ----- duplicates

  predicate HasKey(items: seq<Item>, key: Text) {
    exists k :: 0 <= k < |items| && items[k].duplicateKey == key
  }

  /** The first candidate of each key. */
  function Firsts(candidates: seq<Item>): seq<Item> {
    if candidates == [] then []
    else
      var firsts, last := Firsts(candidates[..|candidates| - 1]), candidates[|candidates| - 1];
      if HasKey(firsts, last.duplicateKey) then firsts else firsts + [last]
  }

  /** No key is kept twice, every key of a candidate is kept, and what is kept for a key is its first
      candidate. */
  lemma {:induction false} FirstsMean(candidates: seq<Item>, key: Text)
    ensures DistinctKeys(Firsts(candidates))
    ensures HasKey(Firsts(candidates), key) <==> HasKey(candidates, key)
    ensures forall r :: r in Firsts(candidates) && r.duplicateKey == key ==> IsFirst(candidates, r)
    decreases |candidates|
  {
    hide HasKey, IsFirst, DistinctKeys;
    if candidates == [] {
      NoKeys();
    } else {
      var init, last := candidates[..|candidates| - 1], candidates[|candidates| - 1];
      assert candidates == init + [last];
      FirstsMean(init, key);
      FirstsMean(init, last.duplicateKey);
      FirstStays(init, last);
      KeyAdded(init, last);
      KeyAdded(Firsts(init), last);
      if !HasKey(Firsts(init), last.duplicateKey) {
        DistinctSnoc(Firsts(init), last);
      }
    }
  }

  lemma NoKeys()
    ensures DistinctKeys([]) && forall key :: !HasKey([], key)
  {
  }

  lemma DistinctSnoc(items: seq<Item>, last: Item)
    requires DistinctKeys(items) && !HasKey(items, last.duplicateKey)
    ensures DistinctKeys(items + [last])
  {
  }

  /** The item stands in the list with no other of its key before it. */
  ghost predicate IsFirst(candidates: seq<Item>, item: Item) {
    exists k :: 0 <= k < |candidates| && candidates[k] == item && !HasKey(candidates[..k], item.duplicateKey)
  }

  lemma FirstStays(init: seq<Item>, last: Item)
    ensures forall r :: IsFirst(init, r) ==> IsFirst(init + [last], r)
    ensures !HasKey(init, last.duplicateKey) ==> IsFirst(init + [last], last)
  {
    var all := init + [last];
    assert all[..|init|] == init && all[|init|] == last;
    forall r | IsFirst(init, r) ensures IsFirst(all, r) {
      var k :| 0 <= k < |init| && init[k] == r && !HasKey(init[..k], r.duplicateKey);
      assert all[k] == r && all[..k] == init[..k];
    }
  }

  function Repeats(candidates: seq<Item>): seq<Drop> {
    if candidates == [] then []
    else
      var init, last := candidates[..|candidates| - 1], candidates[|candidates| - 1];
      Repeats(init) + (if HasKey(Firsts(init), last.duplicateKey) then [Drop(last, Duplicate)] else [])
  }

  // ----- the greedy choice, and what it means

  /** What the chosen items use. */
  function UsageOf(items: seq<Item>, chosen: seq<bool>): Usage
    requires |items| == |chosen|
  {
    if items == [] then NOTHING
    else
      var n := |items| - 1;
      var u := UsageOf(items[..n], chosen[..n]);
      if chosen[n] then With(u, items[n]) else u
  }

  /** An item is chosen when it fits beside the items chosen before it. */
  function Greedy(limits: Limits, items: seq<Item>): (chosen: seq<bool>)
    ensures |chosen| == |items|
  {
    if items == [] then []
    else
      var n := |items| - 1;
      var chosen := Greedy(limits, items[..n]);
      chosen + [Refusal(limits, UsageOf(items[..n], chosen), items[n]).None?]
  }

  /** Every chosen item fitted when it was reached. */
  ghost predicate Feasible(limits: Limits, items: seq<Item>, chosen: seq<bool>)
    requires |items| == |chosen|
  {
    forall k :: 0 <= k < |items| && chosen[k] ==> Refusal(limits, UsageOf(items[..k], chosen[..k]), items[k]).None?
  }

  lemma {:induction false} GreedyPrefix(limits: Limits, items: seq<Item>, k: nat)
    requires k <= |items|
    ensures Greedy(limits, items)[..k] == Greedy(limits, items[..k])
    decreases |items|
  {
    if k < |items| {
      var n := |items| - 1;
      assert items[..n][..k] == items[..k];
      GreedyPrefix(limits, items[..n], k);
      assert Greedy(limits, items)[..k] == Greedy(limits, items[..n])[..k];
    } else {
      assert items[..k] == items;
    }
  }

  lemma GreedyAt(limits: Limits, items: seq<Item>, k: nat)
    requires k < |items|
    ensures Greedy(limits, items)[k]
        <==> Refusal(limits, UsageOf(items[..k], Greedy(limits, items[..k])), items[k]).None?
  {
    GreedyPrefix(limits, items, k + 1);
    assert items[..k + 1][..k] == items[..k];
    assert Greedy(limits, items)[k] == Greedy(limits, items)[..k + 1][k];
  }

  lemma GreedyIsFeasible(limits: Limits, items: seq<Item>)
    ensures Feasible(limits, items, Greedy(limits, items))
  {
    forall k | 0 <= k < |items| && Greedy(limits, items)[k]
      ensures Refusal(limits, UsageOf(items[..k], Greedy(limits, items)[..k]), items[k]).None?
    {
      GreedyPrefix(limits, items, k);
      GreedyAt(limits, items, k);
    }
  }

  /** Of all feasible choices the greedy one is the first: where another first differs from it, the
      greedy one takes the better-ranked item. */
  lemma GreedyIsFirst(limits: Limits, items: seq<Item>, other: seq<bool>, k: nat)
    requires |other| == |items| && k < |items| && Feasible(limits, items, other)
    requires other[..k] == Greedy(limits, items)[..k] && other[k] != Greedy(limits, items)[k]
    ensures Greedy(limits, items)[k]
  {
    GreedyPrefix(limits, items, k);
    GreedyAt(limits, items, k);
  }

  // ----- budgets

  function Taken(items: seq<Item>, chosen: seq<bool>): seq<Item>
    requires |items| == |chosen|
  {
    if items == [] then []
    else
      var n := |items| - 1;
      Taken(items[..n], chosen[..n]) + (if chosen[n] then [items[n]] else [])
  }

  function Costs(items: seq<Item>): nat {
    if items == [] then 0 else Costs(items[..|items| - 1]) + items[|items| - 1].cost
  }

  function OfKind(items: seq<Item>, kind: Kind): seq<Item> {
    if items == [] then []
    else
      var n := |items| - 1;
      OfKind(items[..n], kind) + (if items[n].kind == kind then [items[n]] else [])
  }

  lemma TakenSnoc(taken: seq<Item>, item: Item, kind: Kind)
    ensures Costs(taken + [item]) == Costs(taken) + item.cost
    ensures OfKind(taken + [item], kind) == OfKind(taken, kind) + (if item.kind == kind then [item] else [])
  {
    assert (taken + [item])[..|taken|] == taken;
  }

  /** Usage is the cost and the number of the chosen items. */
  lemma {:induction false} UsageCounts(items: seq<Item>, chosen: seq<bool>, kind: Kind)
    requires |items| == |chosen|
    ensures UsageOf(items, chosen).characters == Costs(Taken(items, chosen))
    ensures CountOf(UsageOf(items, chosen), kind) == |OfKind(Taken(items, chosen), kind)|
    decreases |items|
  {
    if items != [] {
      var n := |items| - 1;
      UsageCounts(items[..n], chosen[..n], kind);
      if chosen[n] {
        TakenSnoc(Taken(items[..n], chosen[..n]), items[n], kind);
      } else {
        assert Taken(items, chosen) == Taken(items[..n], chosen[..n]);
      }
    }
  }

  predicate Within(limits: Limits, u: Usage) {
    && u.characters <= Max(limits.characters, 0) && u.contexts <= Max(limits.contexts, 0)
    && u.scanners <= Max(limits.scanners, 0) && u.rules <= Max(limits.rules, 0)
  }

  lemma {:induction false} GreedyWithin(limits: Limits, items: seq<Item>)
    ensures Within(limits, UsageOf(items, Greedy(limits, items)))
    decreases |items|
  {
    if items != [] {
      var n := |items| - 1;
      GreedyWithin(limits, items[..n]);
      assert Greedy(limits, items)[..n] == Greedy(limits, items[..n]);
    }
  }

  predicate NoLess(u: Usage, v: Usage) {
    u.characters <= v.characters && u.contexts <= v.contexts && u.scanners <= v.scanners && u.rules <= v.rules
  }

  lemma {:induction false} UsageGrows(items: seq<Item>, chosen: seq<bool>, k: nat)
    requires |items| == |chosen| && k <= |items|
    ensures NoLess(UsageOf(items[..k], chosen[..k]), UsageOf(items, chosen))
    decreases |items|
  {
    if k < |items| {
      var n := |items| - 1;
      assert items[..n][..k] == items[..k] && chosen[..n][..k] == chosen[..k];
      UsageGrows(items[..n], chosen[..n], k);
    } else {
      assert items[..k] == items && chosen[..k] == chosen;
    }
  }

  /** The choice is maximal: an item left out still does not fit at the end, for a reason that held
      when it was reached. */
  lemma GreedyIsMaximal(limits: Limits, items: seq<Item>, k: nat)
    requires k < |items| && !Greedy(limits, items)[k]
    ensures Refusal(limits, UsageOf(items, Greedy(limits, items)), items[k]).Some?
  {
    GreedyPrefix(limits, items, k);
    GreedyAt(limits, items, k);
    UsageGrows(items, Greedy(limits, items), k);
  }

  // ----- what is dropped

  function LeftOut(limits: Limits, items: seq<Item>): seq<Drop> {
    if items == [] then []
    else
      var n := |items| - 1;
      var refusal := Refusal(limits, UsageOf(items[..n], Greedy(limits, items[..n])), items[n]);
      LeftOut(limits, items[..n]) + (if refusal.Some? then [Drop(items[n], refusal.value)] else [])
  }

  function ItemsOf(drops: seq<Drop>): seq<Item> {
    seq(|drops|, k requires 0 <= k < |drops| => drops[k].item)
  }

  lemma ItemsOfConcat(a: seq<Drop>, b: seq<Drop>)
    ensures ItemsOf(a + b) == ItemsOf(a) + ItemsOf(b)
  {
  }

  /** Every candidate is the first of its key or a dropped repeat. */
  lemma {:induction false} RepeatsAccount(candidates: seq<Item>)
    ensures multiset(Firsts(candidates)) + multiset(ItemsOf(Repeats(candidates))) == multiset(candidates)
    decreases |candidates|
  {
    if candidates != [] {
      var init, last := candidates[..|candidates| - 1], candidates[|candidates| - 1];
      RepeatsAccount(init);
      assert candidates == init + [last];
      ItemsOfConcat(Repeats(init), [Drop(last, Duplicate)]);
      assert ItemsOf([Drop(last, Duplicate)]) == [last];
      if !HasKey(Firsts(init), last.duplicateKey) {
        assert Repeats(candidates) == Repeats(init);
      }
    }
  }

  lemma StepTaken(limits: Limits, before: seq<Item>, item: Item)
    ensures var after := before + [item];
            var u := UsageOf(before, Greedy(limits, before));
            var refusal := Refusal(limits, u, item);
            var taken := Taken(before, Greedy(limits, before));
            if refusal.Some? then
              && UsageOf(after, Greedy(limits, after)) == u && Taken(after, Greedy(limits, after)) == taken
              && LeftOut(limits, after) == LeftOut(limits, before) + [Drop(item, refusal.value)]
            else
              && UsageOf(after, Greedy(limits, after)) == With(u, item)
              && Taken(after, Greedy(limits, after)) == taken + [item]
              && LeftOut(limits, after) == LeftOut(limits, before)
  {
    var after := before + [item];
    assert after[..|before|] == before;
    assert Greedy(limits, after)[..|before|] == Greedy(limits, before);
  }

  /** Every ranked item is taken or dropped. */
  lemma {:induction false} GreedyAccounts(limits: Limits, items: seq<Item>)
    ensures multiset(Taken(items, Greedy(limits, items))) + multiset(ItemsOf(LeftOut(limits, items))) == multiset(items)
    decreases |items|
  {
    hide *;
    if items == [] {
      EmptyAccounts(limits);
    } else {
      var n := |items| - 1;
      var init, last := items[..n], items[n];
      GreedyAccounts(limits, init);
      StepTaken(limits, init, last);
      assert items == init + [last];
      var refusal := Refusal(limits, UsageOf(init, Greedy(limits, init)), last);
      EitherGrows(Taken(init, Greedy(limits, init)), ItemsOf(LeftOut(limits, init)), init, last);
      if refusal.Some? {
        ItemsOfConcat(LeftOut(limits, init), [Drop(last, refusal.value)]);
        OneItem(Drop(last, refusal.value));
      }
    }
  }

  lemma EmptyAccounts(limits: Limits)
    ensures Taken([], Greedy(limits, [])) == [] && ItemsOf(LeftOut(limits, [])) == []
  {
  }

  lemma EitherGrows(taken: seq<Item>, left: seq<Item>, all: seq<Item>, item: Item)
    requires multiset(taken) + multiset(left) == multiset(all)
    ensures multiset(taken + [item]) + multiset(left) == multiset(all + [item])
    ensures multiset(taken) + multiset(left + [item]) == multiset(all + [item])
  {
  }

  lemma OneItem(d: Drop)
    ensures ItemsOf([d]) == [d.item]
  {
  }

  // ----- the selection as a whole

  datatype Bundle = Bundle(
    contexts: seq<Item>, scanners: seq<Item>, rules: seq<Item>, characters: nat, dropped: seq<Drop>)

  function Ranked(candidates: seq<Item>): seq<Item> {
    Sort(Firsts(candidates), RanksBefore)
  }

  function Selected(limits: Limits, candidates: seq<Item>): seq<Item> {
    Taken(Ranked(candidates), Greedy(limits, Ranked(candidates)))
  }

  /** Each candidate is selected or dropped, once. */
  lemma SelectionAccounts(limits: Limits, candidates: seq<Item>)
    ensures multiset(Selected(limits, candidates))
            + multiset(ItemsOf(Repeats(candidates) + LeftOut(limits, Ranked(candidates)))) == multiset(candidates)
  {
    var ranked := Ranked(candidates);
    RepeatsAccount(candidates);
    GreedyAccounts(limits, ranked);
    SortPermutes(Firsts(candidates), RanksBefore);
    ItemsOfConcat(Repeats(candidates), LeftOut(limits, ranked));
  }

  ghost predicate DistinctKeys(items: seq<Item>) {
    forall i, j :: 0 <= i < j < |items| ==> items[i].duplicateKey != items[j].duplicateKey
  }

  lemma {:induction false} NothingRepeats(candidates: seq<Item>)
    requires DistinctKeys(candidates)
    ensures Firsts(candidates) == candidates && Repeats(candidates) == []
    decreases |candidates|
  {
    if candidates != [] {
      NothingRepeats(candidates[..|candidates| - 1]);
    }
  }

  /** Without duplicates and ties the selection does not depend on the order of the input. */
  lemma SelectionIgnoresOrder(limits: Limits, a: seq<Item>, b: seq<Item>)
    requires multiset(a) == multiset(b) && DistinctKeys(a) && DistinctKeys(b)
    requires forall x, y :: x in a && y in a && x.score == y.score && x.stableKey == y.stableKey ==> x == y
    ensures Ranked(a) == Ranked(b) && Selected(limits, a) == Selected(limits, b)
    ensures Repeats(a) + LeftOut(limits, Ranked(a)) == Repeats(b) + LeftOut(limits, Ranked(b))
  {
    NothingRepeats(a);
    NothingRepeats(b);
    RankingIsTotal();
    forall x, y | x in a && y in a && RanksBefore(x, y) && RanksBefore(y, x) ensures x == y {
      LessTotal(x.stableKey, y.stableKey);
    }
    SortIgnoresInputOrder(a, b, RanksBefore);
  }

  // ----- the selection by score

  /** A higher score, or the same score and a smaller key. */
  ghost predicate Beats(y: Item, x: Item) {
    y.score > x.score || (y.score == x.score && Precedes(y.stableKey, x.stableKey))
  }

  ghost function BetterThan(x: Item): Item -> bool {
    y => Beats(y, x)
  }

  ghost function NotWorseThan(x: Item): Item -> bool {
    y => !Beats(x, y)
  }

  /** The item keeps the character budget and the count of its kind beside the others. */
  ghost predicate FitsBeside(limits: Limits, others: seq<Item>, x: Item) {
    |OfKind(others, x.kind)| < LimitOf(limits, x.kind) && Costs(others) + x.cost <= limits.characters
  }

  lemma RankMeansBeats(a: Item, b: Item)
    ensures RanksBefore(a, b) <==> !Beats(b, a)
  {
    LessMeans(b.stableKey, a.stableKey);
  }

  lemma {:induction false} FilterConcat(a: seq<Item>, b: seq<Item>, keep: Item -> bool)
    ensures Filter(a + b, keep) == Filter(a, keep) + Filter(b, keep)
    decreases |b|
  {
    if b == [] {
      assert a + b == a;
    } else {
      hide Filter;
      var init, last := b[..|b| - 1], b[|b| - 1];
      var kept := if keep(last) then [last] else [];
      assert b == init + [last];
      Reassociated(a, init, [last]);
      FilterConcat(a, init, keep);
      FilterSnoc(a + init, last, keep);
      FilterSnoc(init, last, keep);
      Reassociated(Filter(a, keep), Filter(init, keep), kept);
    }
  }

  lemma Reassociated(a: seq<Item>, b: seq<Item>, c: seq<Item>)
    ensures (a + b) + c == a + (b + c)
  {
  }

  lemma {:induction false} FilterUses(s: seq<Item>, keep: Item -> bool, kind: Kind)
    ensures Costs(Filter(s, keep)) <= Costs(s) && |OfKind(Filter(s, keep), kind)| <= |OfKind(s, kind)|
    decreases |s|
  {
    if s != [] {
      var n := |s| - 1;
      assert s == s[..n] + [s[n]];
      FilterUses(s[..n], keep, kind);
      FilterSnoc(s[..n], s[n], keep);
      TakenSnoc(s[..n], s[n], kind);
      TakenSnoc(Filter(s[..n], keep), s[n], kind);
    }
  }

  lemma {:induction false} UsesConcat(a: seq<Item>, b: seq<Item>, kind: Kind)
    ensures Costs(a + b) == Costs(a) + Costs(b) && OfKind(a + b, kind) == OfKind(a, kind) + OfKind(b, kind)
    decreases |b|
  {
    if b == [] {
      assert a + b == a;
    } else {
      var n := |b| - 1;
      assert a + b == (a + b[..n]) + [b[n]] && b == b[..n] + [b[n]];
      UsesConcat(a, b[..n], kind);
      TakenSnoc(a + b[..n], b[n], kind);
      TakenSnoc(b[..n], b[n], kind);
    }
  }

  lemma {:induction false} FilterAll(s: seq<Item>, keep: Item -> bool)
    requires forall y :: y in s ==> keep(y)
    ensures Filter(s, keep) == s
    decreases |s|
  {
    if s != [] {
      var n := |s| - 1;
      assert s == s[..n] + [s[n]];
      FilterAll(s[..n], keep);
    }
  }

  lemma {:induction false} TakenSplits(items: seq<Item>, chosen: seq<bool>, k: nat) returns (rest: seq<Item>)
    requires |items| == |chosen| && k <= |items|
    ensures Taken(items, chosen) == Taken(items[..k], chosen[..k]) + rest
    ensures forall y :: y in rest ==> exists j :: k <= j < |items| && items[j] == y && chosen[j]
    decreases |items|
  {
    if k == |items| {
      assert items[..k] == items && chosen[..k] == chosen;
      rest := [];
    } else {
      var n := |items| - 1;
      var before := TakenSplits(items[..n], chosen[..n], k);
      assert items[..n][..k] == items[..k] && chosen[..n][..k] == chosen[..k];
      rest := before + (if chosen[n] then [items[n]] else []);
      forall y | y in before ensures exists j :: k <= j < |items| && items[j] == y && chosen[j] {
        var j :| k <= j < n && items[..n][j] == y && chosen[..n][j];
        assert items[j] == y;
      }
    }
  }

  lemma {:induction false} TakenFrom(items: seq<Item>, chosen: seq<bool>)
    requires |items| == |chosen|
    ensures forall y :: y in Taken(items, chosen) <==> exists j :: 0 <= j < |items| && items[j] == y && chosen[j]
    decreases |items|
  {
    if items != [] {
      var n := |items| - 1;
      TakenFrom(items[..n], chosen[..n]);
      forall y ensures y in Taken(items, chosen) <==> exists j :: 0 <= j < |items| && items[j] == y && chosen[j] {
        if j :| 0 <= j < |items| && items[j] == y && chosen[j] {
          assert j < n ==> items[..n][j] == y && chosen[..n][j];
        }
        if y in Taken(items[..n], chosen[..n]) {
          var j :| 0 <= j < n && items[..n][j] == y && chosen[..n][j];
          assert items[j] == y && chosen[j];
        }
      }
    }
  }

  lemma RankedInOrder(candidates: seq<Item>)
    ensures Ordered(Ranked(candidates), RanksBefore) && Distinct(Ranked(candidates))
    ensures forall x :: x in Ranked(candidates) <==> x in Firsts(candidates)
  {
    RankingIsTotal();
    SortPermutes(Firsts(candidates), RanksBefore);
    SortOrdered(Firsts(candidates), RanksBefore);
    FirstsMean(candidates, []);
    SortDistinct(Firsts(candidates), RanksBefore);
  }

  /** Of the candidates kept for their keys, a selected one fits beside the selected ones that beat it, and one
      that is not selected does not fit beside the selected ones it does not beat. */
  lemma SelectedByScore(limits: Limits, candidates: seq<Item>, x: Item)
    requires x in Firsts(candidates)
    ensures var selected := Selected(limits, candidates);
            && (x in selected ==> FitsBeside(limits, Filter(selected, BetterThan(x)), x))
            && (x !in selected ==> !FitsBeside(limits, Filter(selected, NotWorseThan(x)), x))
  {
    hide Greedy, Taken, Sort, FitsBeside, OfKind, Costs, RanksBefore, Filter, UsageOf, Firsts, Beats;
    var ranked := Ranked(candidates);
    var chosen := Greedy(limits, ranked);
    RankedInOrder(candidates);
    var k :| 0 <= k < |ranked| && ranked[k] == x;
    var rest := TakenSplits(ranked, chosen, k);
    TakenFrom(ranked, chosen);
    assert x in Selected(limits, candidates) <==> chosen[k];
    var before := Taken(ranked[..k], chosen[..k]);
    GreedyPrefix(limits, ranked, k);
    GreedyAt(limits, ranked, k);
    TakenFrom(ranked[..k], chosen[..k]);
    FitsWhenReached(limits, ranked[..k], x);
    forall y | y in rest ensures !Beats(y, x) {
      var j :| k <= j < |ranked| && ranked[j] == y && chosen[j];
      NotBeatenLater(ranked, k, j);
    }
    forall y | y in before ensures !Beats(x, y) {
      var j :| 0 <= j < k && ranked[..k][j] == y && chosen[..k][j];
      RankMeansBeats(ranked[j], ranked[k]);
    }
    BesideBetter(limits, before, rest, x);
  }

  lemma NotBeatenLater(ranked: seq<Item>, k: nat, j: nat)
    requires Ordered(ranked, RanksBefore) && k <= j < |ranked|
    ensures !Beats(ranked[j], ranked[k])
  {
    RankMeansBeats(ranked[k], ranked[j]);
    LessMeans(ranked[k].stableKey, ranked[k].stableKey);
    LessIrreflexive(ranked[k].stableKey);
  }

  lemma FitsWhenReached(limits: Limits, reached: seq<Item>, x: Item)
    ensures Refusal(limits, UsageOf(reached, Greedy(limits, reached)), x).None? <==>
            FitsBeside(limits, Taken(reached, Greedy(limits, reached)), x)
  {
    hide Taken, UsageOf, Greedy, OfKind, Costs;
    UsageCounts(reached, Greedy(limits, reached), x.kind);
  }

  lemma BesideBetter(limits: Limits, before: seq<Item>, rest: seq<Item>, x: Item)
    requires (forall y :: y in rest ==> !Beats(y, x)) && (forall y :: y in before ==> !Beats(x, y))
    ensures FitsBeside(limits, before, x) ==> FitsBeside(limits, Filter(before + rest, BetterThan(x)), x)
    ensures !FitsBeside(limits, before, x) ==> !FitsBeside(limits, Filter(before + rest, NotWorseThan(x)), x)
  {
    hide OfKind, Costs, Beats, Filter;
    FilterConcat(before, rest, BetterThan(x));
    FilterConcat(before, rest, NotWorseThan(x));
    NothingBetter(rest, x);
    FilterUses(before, BetterThan(x), x.kind);
    FilterAll(before, NotWorseThan(x));
    UsesConcat(before, Filter(rest, NotWorseThan(x)), x.kind);
    assert Filter(before, BetterThan(x)) + [] == Filter(before, BetterThan(x));
  }

  lemma {:induction false} NothingBetter(rest: seq<Item>, x: Item)
    requires forall y :: y in rest ==> !Beats(y, x)
    ensures Filter(rest, BetterThan(x)) == []
    decreases |rest|
  {
    hide Beats;
    if rest != [] {
      var n := |rest| - 1;
      assert rest == rest[..n] + [rest[n]];
      NothingBetter(rest[..n], x);
    }
  }

  /** Why a candidate kept for its key was left out: no room for another of its kind beside the selected ones, or
      room for that but not for its cost. */
  lemma ReasonsMean(limits: Limits, candidates: seq<Item>, d: Drop)
    requires d in LeftOut(limits, Ranked(candidates))
    ensures var selected := Selected(limits, candidates);
            match d.reason
            case Duplicate => false
            case CharacterBudget => Costs(selected) + d.item.cost > limits.characters
            case ContextLimit => d.item.kind == Context && |OfKind(selected, Context)| >= limits.contexts
            case ScannerLimit => d.item.kind == Scanner && |OfKind(selected, Scanner)| >= limits.scanners
            case RuleLimit => d.item.kind == Rule && |OfKind(selected, Rule)| >= limits.rules
  {
    hide Sort, Greedy, OfKind, Costs, UsageOf, Taken;
    var ranked := Ranked(candidates);
    var chosen := Greedy(limits, ranked);
    var k := DropAt(limits, ranked, d);
    GreedyPrefix(limits, ranked, k);
    UsageGrows(ranked, chosen, k);
    UsageCounts(ranked, chosen, d.item.kind);
  }

  lemma {:induction false} DropAt(limits: Limits, items: seq<Item>, d: Drop) returns (k: nat)
    requires d in LeftOut(limits, items)
    ensures k < |items| && items[k] == d.item
    ensures Refusal(limits, UsageOf(items[..k], Greedy(limits, items[..k])), items[k]) == Some(d.reason)
    decreases |items|
  {
    hide Greedy, Refusal, UsageOf;
    var n := |items| - 1;
    var refusal := Refusal(limits, UsageOf(items[..n], Greedy(limits, items[..n])), items[n]);
    if refusal.Some? && d == Drop(items[n], refusal.value) {
      k := n;
    } else {
      k := DropAt(limits, items[..n], d);
      assert items[..n][..k] == items[..k];
    }
  }

  method Deduplicate(candidates: seq<Item>) returns (firsts: seq<Item>, dropped: seq<Drop>)
    ensures firsts == Firsts(candidates) && dropped == Repeats(candidates)
  {
    firsts, dropped := [], [];
    var seen: set<Text> := {};
    for k := 0 to |candidates|
      invariant firsts == Firsts(candidates[..k]) && dropped == Repeats(candidates[..k])
      invariant forall key :: key in seen <==> HasKey(firsts, key)
    {
      var item := candidates[k];
      assert candidates[..k + 1][..k] == candidates[..k];
      if item.duplicateKey in seen {
        dropped := dropped + [Drop(item, Duplicate)];
      } else {
        KeyAdded(firsts, item);
        seen := seen + {item.duplicateKey};
        firsts := firsts + [item];
      }
    }
    assert candidates[..|candidates|] == candidates;
  }

  lemma KeyAdded(items: seq<Item>, item: Item)
    ensures forall key :: HasKey(items + [item], key) <==> HasKey(items, key) || key == item.duplicateKey
  {
    forall key ensures HasKey(items + [item], key) <==> HasKey(items, key) || key == item.duplicateKey {
      if HasKey(items, key) {
        var k :| 0 <= k < |items| && items[k].duplicateKey == key;
        assert (items + [item])[k] == items[k];
      }
      assert (items + [item])[|items|] == item;
    }
  }

  /** One pass over the ranked items with running counters. */
  method TakeGreedily(limits: Limits, items: seq<Item>) returns (bundle: Bundle)
    ensures var taken := Taken(items, Greedy(limits, items));
            bundle == Bundle(OfKind(taken, Context), OfKind(taken, Scanner), OfKind(taken, Rule), Costs(taken),
                             LeftOut(limits, items))
  {
    var contexts: seq<Item>, scanners: seq<Item>, rules: seq<Item>, dropped: seq<Drop> := [], [], [], [];
    var u := NOTHING;
    for k := 0 to |items|
      invariant u == UsageOf(items[..k], Greedy(limits, items[..k]))
      invariant contexts == OfKind(Taken(items[..k], Greedy(limits, items[..k])), Context)
      invariant scanners == OfKind(Taken(items[..k], Greedy(limits, items[..k])), Scanner)
      invariant rules == OfKind(Taken(items[..k], Greedy(limits, items[..k])), Rule)
      invariant dropped == LeftOut(limits, items[..k])
    {
      hide OfKind, Costs;
      var item := items[k];
      ghost var before := Taken(items[..k], Greedy(limits, items[..k]));
      StepTaken(limits, items[..k], item);
      assert items[..k + 1] == items[..k] + [item];
      var refusal := Refusal(limits, u, item);
      if refusal.Some? {
        dropped := dropped + [Drop(item, refusal.value)];
      } else {
        TakenSnoc(before, item, Context);
        TakenSnoc(before, item, Scanner);
        TakenSnoc(before, item, Rule);
        u := With(u, item);
        match item.kind {
          case Context => contexts := contexts + [item];
          case Scanner => scanners := scanners + [item];
          case Rule => rules := rules + [item];
        }
      }
    }
    assert items[..|items|] == items;
    UsageCounts(items, Greedy(limits, items), Context);
    bundle := Bundle(contexts, scanners, rules, u.characters, dropped);
  }

  /** The bundle holds the selected items, kind by kind, within every budget, and accounts for the rest. */
  method BuildReviewBundle(limits: Limits, candidates: seq<Item>) returns (bundle: Bundle)
    ensures bundle.contexts == OfKind(Selected(limits, candidates), Context)
    ensures bundle.scanners == OfKind(Selected(limits, candidates), Scanner)
    ensures bundle.rules == OfKind(Selected(limits, candidates), Rule)
    ensures bundle.characters == Costs(Selected(limits, candidates)) <= Max(limits.characters, 0)
    ensures |bundle.contexts| <= Max(limits.contexts, 0) && |bundle.scanners| <= Max(limits.scanners, 0)
            && |bundle.rules| <= Max(limits.rules, 0)
    ensures multiset(Selected(limits, candidates)) + multiset(ItemsOf(bundle.dropped)) == multiset(candidates)
    ensures bundle.dropped == Repeats(candidates) + LeftOut(limits, Ranked(candidates))
  {
    var firsts, repeats := Deduplicate(candidates);
    var ranked := Sort(firsts, RanksBefore);
    bundle := TakeGreedily(limits, ranked);
    UsageCounts(ranked, Greedy(limits, ranked), Context);
    UsageCounts(ranked, Greedy(limits, ranked), Scanner);
    UsageCounts(ranked, Greedy(limits, ranked), Rule);
    GreedyWithin(limits, ranked);
    SelectionAccounts(limits, candidates);
    bundle := bundle.(dropped := repeats + bundle.dropped);
  }
}
