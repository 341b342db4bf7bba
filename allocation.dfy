/** The "Finalise Split" calculation: every assigned item's discounted price,
    in whole pennies, is divided among the people it is split between; each
    gets the floor share and the leftover pennies go one each to people
    drawn at random from the split.  The random draw is a parameter: one
    sequence of winners per item, which may be any draw `random.sample`
    could return. */
module Allocation {
  import opened Discount

  type Person = string

  /** The fixed roster of the household. */
  const People: seq<Person> := ["Joe", "Nic", "Nat"]

  /** One item as the splitting section hands it over: its price in pounds and
      the people ticked for it. */
  datatype Assignment = Assignment(price: real, split: seq<Person>)

  /** One item once its discounted price is in whole pennies. */
  datatype PennyItem = PennyItem(pennies: int, split: seq<Person>)

  predicate Distinct(s: seq<Person>)
  {
    forall i, j :: 0 <= i < j < |s| ==> s[i] != s[j]
  }

  function Elems(s: seq<Person>): set<Person>
  {
    set x | x in s
  }

  /** What the multiselect (or the "All" button) can produce: distinct members
      of the roster. */
  predicate ValidSplit(split: seq<Person>)
  {
    Distinct(split) && forall p :: p in split ==> p in People
  }

  /** What `random.sample(split, k)` can return: `k` distinct members of
      `split`. */
  predicate IsSample(sample: seq<Person>, split: seq<Person>, k: int)
  {
    |sample| == k && Distinct(sample) && forall p :: p in sample ==> p in split
  }

  /** Every split is valid, and every item with people on it comes with a draw
      of as many winners as its division leaves pennies over. */
  predicate ValidChoices(items: seq<PennyItem>, samples: seq<seq<Person>>)
  {
    && |samples| == |items|
    && (forall i :: 0 <= i < |items| ==> ValidSplit(items[i].split))
    && (forall i :: 0 <= i < |items| && items[i].split != [] ==>
          IsSample(samples[i], items[i].split, items[i].pennies % |items[i].split|))
  }

  /** `round(discounted_price(price, ...) * 100)` for one item. */
  function ItemPennies(a: Assignment, apply15: bool, extra: real): (pennies: int)
    ensures var d := DiscountedPrice(a.price, apply15, extra);
            d * 100.0 - 0.5 <= pennies as real <= d * 100.0 + 0.5
    ensures 0.0 <= a.price && extra <= 100.0 ==> 0 <= pennies
    ensures !apply15 && extra <= 0.0 ==> pennies == ToPennies(a.price)
  {
    ToPennies(DiscountedPrice(a.price, apply15, extra))
  }

  function ToPennyItems(assignments: seq<Assignment>, apply15: bool, extra: real): (items: seq<PennyItem>)
    ensures |items| == |assignments|
    ensures forall i :: 0 <= i < |items| ==>
              items[i] == PennyItem(ItemPennies(assignments[i], apply15, extra), assignments[i].split)
  {
    seq(|assignments|, i requires 0 <= i < |assignments| =>
      PennyItem(ItemPennies(assignments[i], apply15, extra), assignments[i].split))
  }

  /** Reference definition of what one item adds to one person's total:
      nothing when nobody or somebody else is on the item, otherwise the
      floor share plus a penny for a winner of the draw. */
  function Gain(item: PennyItem, sample: seq<Person>, p: Person): int
  {
    if item.split == [] || p !in item.split then 0
    else item.pennies / |item.split| + (if p in sample then 1 else 0)
  }

  /** What a person owes over a sequence of items: the sum of their gains. */
  function Owed(items: seq<PennyItem>, samples: seq<seq<Person>>, p: Person): int
    requires |samples| == |items|
    decreases |items|
  {
    if items == [] then 0
    else Owed(items[..|items| - 1], samples[..|samples| - 1], p)
         + Gain(items[|items| - 1], samples[|samples| - 1], p)
  }

  /** The totals dictionary the calculation should end with: one entry per
      person on the roster. */
  function FinalTotals(items: seq<PennyItem>, samples: seq<seq<Person>>): map<Person, int>
    requires |samples| == |items|
  {
    map p | p in People :: Owed(items, samples, p)
  }

  /** The pennies of all items that somebody is on. */
  function TotalPennies(items: seq<PennyItem>): int
    decreases |items|
  {
    if items == [] then 0
    else TotalPennies(items[..|items| - 1])
         + (if items[|items| - 1].split == [] then 0 else items[|items| - 1].pennies)
  }

  /** Sum of the entries of `m` for the people of `roster`. */
  function SumOver(roster: seq<Person>, m: map<Person, int>): int
    requires forall p :: p in roster ==> p in m
  {
    if roster == [] then 0 else m[roster[0]] + SumOver(roster[1..], m)
  }

  /** `sum(final_totals.values())`: the grand total, a sum over the roster,
      which are exactly the keys of the dictionary. */
  function GrandTotal(m: map<Person, int>): (total: int)
    requires forall p :: p in People ==> p in m
    ensures total == m["Joe"] + m["Nic"] + m["Nat"]
  {
    assert People[1..] == ["Nic", "Nat"];
    assert People[1..][1..] == ["Nat"];
    assert People[1..][1..][1..] == [];
    assert SumOver(["Nat"], m) == m["Nat"];
    assert SumOver(["Nic", "Nat"], m) == m["Nic"] + m["Nat"];
    SumOver(People, m)
  }

  /** The loop `for person in people: totals[person] += amount`, over
      distinct people who all have an entry: each of them gains `amount` and
      nobody else changes. */
  method AddToEach(totals: map<Person, int>, people: seq<Person>, amount: int)
    returns (updated: map<Person, int>)
    requires Distinct(people)
    requires forall p :: p in people ==> p in totals
    ensures updated.Keys == totals.Keys
    ensures forall p :: p in updated ==>
              updated[p] == totals[p] + (if p in people then amount else 0)
  {
    updated := totals;
    var j := 0;
    while j < |people|
      invariant 0 <= j <= |people|
      invariant updated.Keys == totals.Keys
      invariant forall p :: p in updated ==>
                  updated[p] == totals[p] + (if p in people[..j] then amount else 0)
    {
      var person := people[j];
      assert people[..j + 1] == people[..j] + [person];
      assert person !in people[..j];
      updated := updated[person := updated[person] + amount];
      j := j + 1;
    }
    assert people[..j] == people;
  }

  /** One item's crediting step: everyone on the split gains the floor share
      of the item's pennies, and when the division leaves a remainder each
      drawn winner gains one more penny. */
  method CreditItem(totals: map<Person, int>, split: seq<Person>, pennies: int,
                    winners: seq<Person>)
    returns (updated: map<Person, int>)
    requires totals.Keys == Elems(People)
    requires ValidSplit(split) && split != []
    requires IsSample(winners, split, pennies % |split|)
    ensures updated.Keys == totals.Keys
    ensures forall p :: p in updated ==>
              updated[p] == totals[p] + Gain(PennyItem(pennies, split), winners, p)
  {
    var share := pennies / |split|;
    var remainder := pennies % |split|;
    updated := AddToEach(totals, split, share);
    if remainder > 0 {
      updated := AddToEach(updated, winners, 1);
    }
  }

  /** The finalise handler: start every person at 0, then for each item that
      somebody is on, convert its discounted price to pennies and credit it. */
  method FinaliseSplit(assignments: seq<Assignment>, apply15: bool, extraDiscount: real,
                       samples: seq<seq<Person>>)
    returns (finalTotals: map<Person, int>)
    requires ValidChoices(ToPennyItems(assignments, apply15, extraDiscount), samples)
    ensures finalTotals == FinalTotals(ToPennyItems(assignments, apply15, extraDiscount), samples)
    ensures finalTotals.Keys == Elems(People)
    ensures GrandTotal(finalTotals) == TotalPennies(ToPennyItems(assignments, apply15, extraDiscount))
  {
    ghost var items := ToPennyItems(assignments, apply15, extraDiscount);
    finalTotals := map p | p in People :: 0;
    var i := 0;
    while i < |assignments|
      invariant 0 <= i <= |assignments|
      invariant finalTotals.Keys == Elems(People)
      invariant forall p :: p in finalTotals ==> finalTotals[p] == Owed(items[..i], samples[..i], p)
    {
      var item := assignments[i];
      if item.split == [] {
        OwedPrefixStep(items, samples, i);
        i := i + 1;
        continue;
      }
      var price := DiscountedPrice(item.price, apply15, extraDiscount);
      var pennies := ToPennies(price);
      assert items[i] == PennyItem(pennies, item.split);
      assert ValidSplit(item.split);
      assert IsSample(samples[i], item.split, pennies % |item.split|);
      finalTotals := CreditItem(finalTotals, item.split, pennies, samples[i]);
      OwedPrefixStep(items, samples, i);
      i := i + 1;
    }
    assert items[..|assignments|] == items;
    assert samples[..|assignments|] == samples;
    TotalsAreFinal(finalTotals, items, samples);
    GrandTotalConservation(items, samples);
  }

  lemma TotalsAreFinal(m: map<Person, int>, items: seq<PennyItem>, samples: seq<seq<Person>>)
    requires |samples| == |items|
    requires m.Keys == Elems(People)
    requires forall p :: p in m ==> m[p] == Owed(items, samples, p)
    ensures m == FinalTotals(items, samples)
  {
  }

  /** Extending a prefix of the items by one adds that item's gain. */
  lemma OwedPrefixStep(items: seq<PennyItem>, samples: seq<seq<Person>>, i: nat)
    requires |samples| == |items| && i < |items|
    ensures forall p :: Owed(items[..i + 1], samples[..i + 1], p)
                        == Owed(items[..i], samples[..i], p) + Gain(items[i], samples[i], p)
  {
    assert items[..i + 1][..i] == items[..i];
    assert samples[..i + 1][..i] == samples[..i];
  }

  // ---------------------------------------------------------------------
  // Counting lemmas

  lemma {:induction false} DistinctCard(s: seq<Person>)
    requires Distinct(s)
    ensures |Elems(s)| == |s|
  {
    if s != [] {
      DistinctCard(s[1..]);
      assert Elems(s) == {s[0]} + Elems(s[1..]);
      assert s[0] !in Elems(s[1..]);
    }
  }

  /** How many people of `roster` are in `xs`. */
  function CountIn(roster: seq<Person>, xs: seq<Person>): nat
  {
    if roster == [] then 0 else (if roster[0] in xs then 1 else 0) + CountIn(roster[1..], xs)
  }

  lemma {:induction false} CountInIntersection(roster: seq<Person>, xs: seq<Person>)
    requires Distinct(roster)
    ensures CountIn(roster, xs) == |Elems(roster) * Elems(xs)|
  {
    if roster != [] {
      var r := roster[0];
      var rest := roster[1..];
      assert Distinct(rest);
      CountInIntersection(rest, xs);
      ElemsCons(roster);
      var restInter := Elems(rest) * Elems(xs);
      assert r !in restInter;
      if r in xs {
        assert Elems(roster) * Elems(xs) == {r} + restInter;
        assert |{r} + restInter| == |restInter| + 1;
      } else {
        assert Elems(roster) * Elems(xs) == restInter;
      }
    }
  }

  lemma ElemsCons(s: seq<Person>)
    requires s != [] && Distinct(s)
    ensures Elems(s) == {s[0]} + Elems(s[1..])
    ensures s[0] !in Elems(s[1..])
  {
  }

  /** Counting the roster members that lie in a duplicate-free sub-sequence
      counts that sub-sequence. */
  lemma CountInSubset(roster: seq<Person>, xs: seq<Person>)
    requires Distinct(roster) && Distinct(xs)
    requires forall p :: p in xs ==> p in roster
    ensures CountIn(roster, xs) == |xs|
  {
    CountInIntersection(roster, xs);
    assert Elems(roster) * Elems(xs) == Elems(xs);
    DistinctCard(xs);
  }

  /** Sum of one item's gains over the people of `roster`. */
  function SumGains(roster: seq<Person>, item: PennyItem, sample: seq<Person>): int
  {
    if roster == [] then 0 else Gain(item, sample, roster[0]) + SumGains(roster[1..], item, sample)
  }

  lemma {:induction false} SumGainsCount(roster: seq<Person>, item: PennyItem, sample: seq<Person>)
    requires item.split != []
    requires forall p :: p in sample ==> p in item.split
    ensures SumGains(roster, item, sample)
            == (item.pennies / |item.split|) * CountIn(roster, item.split) + CountIn(roster, sample)
  {
    if roster != [] {
      SumGainsCount(roster[1..], item, sample);
    }
  }

  /** One item's gains over a duplicate-free roster containing its split add
      up to the item's pennies, or to nothing when nobody is on it. */
  lemma SumGainsItem(roster: seq<Person>, item: PennyItem, sample: seq<Person>)
    requires Distinct(roster) && Distinct(item.split)
    requires forall p :: p in item.split ==> p in roster
    requires item.split != [] ==> IsSample(sample, item.split, item.pennies % |item.split|)
    ensures SumGains(roster, item, sample) == if item.split == [] then 0 else item.pennies
  {
    if item.split == [] {
      SumGainsZero(roster, item, sample);
    } else {
      SumGainsCount(roster, item, sample);
      CountInSubset(roster, item.split);
      CountInSubset(roster, sample);
    }
  }

  lemma {:induction false} SumGainsZero(roster: seq<Person>, item: PennyItem, sample: seq<Person>)
    requires item.split == []
    ensures SumGains(roster, item, sample) == 0
  {
    if roster != [] {
      SumGainsZero(roster[1..], item, sample);
    }
  }

  /** Sum over `roster` of what each person owes. */
  function SumOwed(roster: seq<Person>, items: seq<PennyItem>, samples: seq<seq<Person>>): int
    requires |samples| == |items|
  {
    if roster == [] then 0 else Owed(items, samples, roster[0]) + SumOwed(roster[1..], items, samples)
  }

  lemma {:induction false} SumOwedStep(roster: seq<Person>, items: seq<PennyItem>, samples: seq<seq<Person>>)
    requires |samples| == |items| && items != []
    ensures SumOwed(roster, items, samples)
            == SumOwed(roster, items[..|items| - 1], samples[..|samples| - 1])
               + SumGains(roster, items[|items| - 1], samples[|samples| - 1])
  {
    if roster != [] {
      SumOwedStep(roster[1..], items, samples);
    }
  }

  lemma {:induction false} SumOwedEmpty(roster: seq<Person>)
    ensures SumOwed(roster, [], []) == 0
  {
    if roster != [] {
      SumOwedEmpty(roster[1..]);
    }
  }

  lemma {:induction false} SumOverTotals(roster: seq<Person>, items: seq<PennyItem>, samples: seq<seq<Person>>)
    requires |samples| == |items|
    requires forall p :: p in roster ==> p in People
    ensures SumOver(roster, FinalTotals(items, samples)) == SumOwed(roster, items, samples)
  {
    if roster != [] {
      SumOverTotals(roster[1..], items, samples);
    }
  }

  lemma PeopleDistinct()
    ensures Distinct(People)
  {
  }

  // ---------------------------------------------------------------------
  // Properties of the allocation

  /** No penny is lost or created: the grand total equals the pennies of all
      items somebody is on, whichever winners the draws picked. */
  lemma {:induction false} GrandTotalConservation(items: seq<PennyItem>, samples: seq<seq<Person>>)
    requires ValidChoices(items, samples)
    ensures GrandTotal(FinalTotals(items, samples)) == TotalPennies(items)
  {
    SumOverTotals(People, items, samples);
    if items == [] {
      SumOwedEmpty(People);
    } else {
      var last := |items| - 1;
      assert ValidChoices(items[..last], samples[..last]);
      GrandTotalConservation(items[..last], samples[..last]);
      SumOverTotals(People, items[..last], samples[..last]);
      SumOwedStep(People, items, samples);
      PeopleDistinct();
      SumGainsItem(People, items[last], samples[last]);
    }
  }

  /** Within one item: people on it gain the floor share or one penny more,
      people off it gain nothing, and the remainder is below the number of
      people, so a draw of that many distinct winners exists. */
  lemma ItemGainBounds(item: PennyItem, sample: seq<Person>, p: Person)
    requires item.split != []
    requires IsSample(sample, item.split, item.pennies % |item.split|)
    ensures 0 <= item.pennies % |item.split| < |item.split|
    ensures p in item.split ==>
              Gain(item, sample, p) == item.pennies / |item.split|
              || Gain(item, sample, p) == item.pennies / |item.split| + 1
    ensures p !in item.split ==> Gain(item, sample, p) == 0
  {
  }

  /** Fairness within an item: any two people on it gain within one penny of
      each other. */
  lemma ItemWithinOnePenny(item: PennyItem, sample: seq<Person>, p: Person, q: Person)
    requires item.split != [] && p in item.split && q in item.split
    ensures -1 <= Gain(item, sample, p) - Gain(item, sample, q) <= 1
  {
  }

  /** Exactly `remainder` people receive the extra penny: the people of the
      roster gaining one more than the floor share are the winners of the
      draw, and there are as many of them as pennies are left over. */
  lemma ExtraPennyWinners(item: PennyItem, sample: seq<Person>)
    requires ValidSplit(item.split) && item.split != []
    requires IsSample(sample, item.split, item.pennies % |item.split|)
    ensures (set p | p in People && p in item.split && Gain(item, sample, p) == item.pennies / |item.split| + 1)
            == Elems(sample)
    ensures |Elems(sample)| == item.pennies % |item.split|
  {
    DistinctCard(sample);
  }

  /** Appending an item nobody is on leaves everyone's total unchanged. */
  lemma EmptySplitUnchanged(items: seq<PennyItem>, samples: seq<seq<Person>>, pennies: int,
                            sample: seq<Person>, p: Person)
    requires |samples| == |items|
    ensures Owed(items + [PennyItem(pennies, [])], samples + [sample], p) == Owed(items, samples, p)
  {
    assert (items + [PennyItem(pennies, [])])[..|items|] == items;
    assert (samples + [sample])[..|samples|] == samples;
  }

  /** What is owed over two lists of items together is the sum of what is
      owed over each. */
  lemma {:induction false} OwedAppend(a: seq<PennyItem>, sa: seq<seq<Person>>,
                                      b: seq<PennyItem>, sb: seq<seq<Person>>, p: Person)
    requires |sa| == |a| && |sb| == |b|
    ensures Owed(a + b, sa + sb, p) == Owed(a, sa, p) + Owed(b, sb, p)
    decreases |b|
  {
    if b == [] {
      assert a + b == a;
      assert sa + sb == sa;
    } else {
      var n := |b| - 1;
      OwedAppend(a, sa, b[..n], sb[..n], p);
      assert (a + b)[..|a + b| - 1] == a + b[..n];
      assert (sa + sb)[..|sa + sb| - 1] == sa + sb[..n];
    }
  }

  /** An item nobody is on may sit anywhere in the list: taking it out leaves
      everyone's total unchanged. */
  lemma EmptySplitAnywhere(items: seq<PennyItem>, samples: seq<seq<Person>>, k: nat, p: Person)
    requires |samples| == |items| && k < |items|
    requires items[k].split == []
    ensures Owed(items[..k] + items[k + 1..], samples[..k] + samples[k + 1..], p)
            == Owed(items, samples, p)
  {
    var front, sfront := items[..k + 1], samples[..k + 1];
    assert items == front + items[k + 1..];
    assert samples == sfront + samples[k + 1..];
    OwedAppend(front, sfront, items[k + 1..], samples[k + 1..], p);
    OwedAppend(items[..k], samples[..k], items[k + 1..], samples[k + 1..], p);
    assert front[..k] == items[..k];
    assert sfront[..k] == samples[..k];
  }

  /** With no negative amounts, nobody ends up with a negative total. */
  lemma {:induction false} OwedNonNegative(items: seq<PennyItem>, samples: seq<seq<Person>>, p: Person)
    requires |samples| == |items|
    requires forall i :: 0 <= i < |items| ==> 0 <= items[i].pennies
    ensures 0 <= Owed(items, samples, p)
  {
    if items != [] {
      OwedNonNegative(items[..|items| - 1], samples[..|samples| - 1], p);
    }
  }

  /** Non-negative prices with an extra discount of at most 100% give
      non-negative totals for everyone. */
  lemma TotalsNonNegative(assignments: seq<Assignment>, apply15: bool, extra: real,
                          samples: seq<seq<Person>>)
    requires |samples| == |assignments|
    requires forall i :: 0 <= i < |assignments| ==> 0.0 <= assignments[i].price
    requires extra <= 100.0
    ensures forall p :: p in People ==>
              0 <= FinalTotals(ToPennyItems(assignments, apply15, extra), samples)[p]
  {
    var items := ToPennyItems(assignments, apply15, extra);
    forall p | p in People
      ensures 0 <= FinalTotals(items, samples)[p]
    {
      OwedNonNegative(items, samples, p);
    }
  }

  /** A draw always exists: the first `remainder` people of each split form a
      valid choice, so the precondition of `FinaliseSplit` excludes no receipt
      whose splits are valid. */
  function FirstWinners(items: seq<PennyItem>): (samples: seq<seq<Person>>)
    requires forall i :: 0 <= i < |items| ==> ValidSplit(items[i].split)
    ensures ValidChoices(items, samples)
  {
    seq(|items|, i requires 0 <= i < |items| =>
      if items[i].split == [] then [] else items[i].split[..items[i].pennies % |items[i].split|])
  }

  /** An item split to a single person gives that person all of its pennies
      and nobody else anything. */
  lemma SinglePerson(pennies: int, a: Person, sample: seq<Person>)
    requires a in People
    requires IsSample(sample, [a], pennies % 1)
    ensures FinalTotals([PennyItem(pennies, [a])], [sample])
            == map p | p in People :: if p == a then pennies else 0
  {
    var items := [PennyItem(pennies, [a])];
    assert items[..0] == [];
    assert sample == [];
    forall p | p in People
      ensures Owed(items, [sample], p) == if p == a then pennies else 0
    {
      assert Owed(items, [sample], p) == Owed([], [], p) + Gain(items[0], sample, p);
    }
  }

  /** One penny among all three: exactly one person, the drawn one, gets it. */
  lemma OnePennyAmongThree(winner: Person)
    requires winner in People
    ensures FinalTotals([PennyItem(1, People)], [[winner]])
            == map p | p in People :: if p == winner then 1 else 0
  {
    var items := [PennyItem(1, People)];
    assert items[..0] == [];
    forall p | p in People
      ensures Owed(items, [[winner]], p) == if p == winner then 1 else 0
    {
      assert Owed(items, [[winner]], p) == Owed([], [], p) + Gain(items[0], [winner], p);
    }
  }

  /** The worked receipt: 3.00 split three ways and 2.00 for Joe, with the
      colleague discount, give Joe 255, Nic 85 and Nat 85 pennies, 425 in all. */
  lemma WorkedReceipt()
    ensures ToPennyItems([Assignment(3.0, People), Assignment(2.0, ["Joe"])], true, 0.0)
            == [PennyItem(255, People), PennyItem(170, ["Joe"])]
    ensures FinalTotals([PennyItem(255, People), PennyItem(170, ["Joe"])], [[], []])
            == map["Joe" := 255, "Nic" := 85, "Nat" := 85]
    ensures GrandTotal(FinalTotals([PennyItem(255, People), PennyItem(170, ["Joe"])], [[], []])) == 425
  {
    ToPenniesExact(255);
    ToPenniesExact(170);
    assert DiscountedPrice(3.0, true, 0.0) == 255 as real / 100.0;
    assert DiscountedPrice(2.0, true, 0.0) == 170 as real / 100.0;
    var items := [PennyItem(255, People), PennyItem(170, ["Joe"])];
    var samples: seq<seq<Person>> := [[], []];
    assert items[..1] == [PennyItem(255, People)];
    assert samples[..1] == [[]];
    assert items[..1][..0] == [];
    assert samples[..1][..0] == [];
    forall p | p in People
      ensures Owed(items, samples, p) == if p == "Joe" then 255 else 85
    {
      assert Owed(items[..1], samples[..1], p) == Gain(items[0], [], p);
      assert Owed(items, samples, p) == Owed(items[..1], samples[..1], p) + Gain(items[1], [], p);
    }
    assert Elems(People) == {"Joe", "Nic", "Nat"};
  }
}
