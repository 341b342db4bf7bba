# Sainsbury's splitter: the penny-exact allocator, in Dafny

The splitter divides a shared grocery receipt among a fixed household of
three (Joe, Nic and Nat). Once every item has been assigned to the people
who share it, "Finalise Split" works out what each person owes in whole
pennies:

- it applies the 15% colleague discount and any extra percentage to each price;
- it rounds the result to pennies;
- it gives everyone on the item the floor share;
- it hands the leftover pennies, one each, to people drawn at random from the item's split.

This project models that calculation and also the small text routine that
cuts the JSON list out of the vision model's reply. It proves the following:

- no penny is lost or created;
- within an item, any two people's shares differ by at most one penny;
- exactly `remainder` people get an extra penny;
- an item nobody is on changes nothing;
- the list slice starts at the first `[` and ends at the last `]`.

Three modules, one per component:

- `Discount` (discount.dfy) covers `discounted_price` over exact rationals (`real`) and the
  conversion `round(price * 100)`. Python's `round` rounds half to even, and
  `RoundHalfEven` models exactly that.
- `Allocation` (allocation.dfy) covers the finalise loop. `FinaliseSplit` is the loop over the
  assignments. `CreditItem` credits one item by calling `AddToEach` twice,
  once for the floor share to everyone on the split and once for the extra
  penny to each drawn winner. These two calls stand for the item's two inner
  loops. `AddToEach` and `FinaliseSplit` are the model's two loops, each a method with loop
  invariants. `CreditItem` is proved against `Gain`, what one item adds to
  one person, and `FinaliseSplit` against `FinalTotals`, built from `Owed`,
  what a person owes over a list of items. `AddToEach`'s ensures give the
  new map in terms of the old one. The
  `random.sample` draw is a parameter. `samples[i]` is the sequence of winners
  for item `i`, and the precondition `ValidChoices` admits every draw
  `random.sample(split, k=remainder)` can return: `remainder` distinct members of the
  split. `FirstWinners` shows that such a draw always exists, so the
  precondition excludes no receipt.
- `Response` (response.dfy) covers removing the `` ```json `` and `` ``` `` fences, Python's
  `str.strip()` with its default whitespace set, `find('[')`, `rfind(']')`,
  and the slice, including Python's empty slice when every `]` comes before
  every `[`.

Inputs the model takes as parameters rather than computing:

- `response.text` (an `Option<string>`);
- the discount settings (`apply15`, `extraDiscount`);
- the item list, as `Assignment(price, split)` values;
- the random draws.

Two facts about the code shape the model:

- `discounted_price` neither clamps nor rejects an extra percentage outside
  [0, 100], so `DiscountedPrice` has no precondition. Only its bounds need
  `extra <= 100`, which the widget at split.py:206-207 guarantees.
- The price edit field at split.py:157 has no minimum, so the allocator is
  modelled for any integer number of pennies. Python's `//` and `%` with a
  positive divisor floor the quotient and leave a non-negative remainder,
  exactly as Dafny's do. Non-negativity of the totals is proved only under
  non-negative prices.

## Model

| member | source | states |
|---|---|---|
| `Discount.DiscountedPrice` | split.py:33-39 | with the flat discount off and no positive extra percentage the price is returned unchanged; for a non-negative price and an extra percentage of at most 100 the result lies between 0 and the price |
| `Discount.DiscountClosedForm` | split.py:33-39 | for either setting of the flat discount and any extra percentage of at least 0, the result is the price, times 0.85 when the flat discount is on, then times `1 - extra/100`, the flat step applied first |
| `Discount.DiscountMonotone` | split.py:37-38 | for a non-negative price, a larger extra percentage never gives a larger discounted price |
| `Discount.ExtraStepMonotone` | split.py:37-38 | the step taking a further `extra`% off a non-negative amount gives no more for a larger percentage, including the switch from "no extra" to a positive one |
| `Discount.DiscountExamples` | split.py:33-39 | 100.00 becomes 85.00 with the flat discount, 76.50 with a further 10%, and stays 100.00 with neither |
| `Discount.RoundHalfEven` | split.py:261 | Python's `round`: the result is within one half of the argument, and on an exact tie it is even; non-negative arguments round to non-negative integers |
| `Discount.RoundHalfEvenUnique` | split.py:261 | those two properties determine the rounded result uniquely |
| `Discount.ToPennies` | split.py:261 | `round(price * 100)` is within half a penny of the exact amount and is non-negative for non-negative amounts |
| `Discount.ToPenniesExact` | split.py:261 | an amount that is a whole number of pennies converts to exactly that number |
| `Allocation.ItemPennies` | split.py:260-261 | an item's pennies are within half a penny of 100 times its discounted price; they are non-negative for a non-negative price and an extra percentage of at most 100; with no discount they are the price's own pennies |
| `Allocation.ToPennyItems` | split.py:260-261 | one entry per assignment, in order, carrying that assignment's split and its `round(discounted_price(...) * 100)` pennies |
| `Allocation.GrandTotal` | split.py:277 | `sum(final_totals.values())` over the roster: Joe's, Nic's and Nat's totals added |
| `Allocation.AddToEach` | split.py:264-265 | adding an amount for each person of a duplicate-free list raises exactly those people's entries by that amount, leaves every other entry alone, and keeps the keys |
| `Allocation.CreditItem` | split.py:262-268 | after crediting one item, each person's entry grew by exactly their `Gain`: the floor share `pennies // len(split)` if they are on the split, plus one penny if they are a drawn winner, and nothing otherwise; the keys are unchanged |
| `Allocation.FinaliseSplit` | split.py:255-268 | the totals start at 0 for exactly the keys in `PEOPLE`; after the loop each person's total is what they owe over all items (`FinalTotals`), and the grand total equals the pennies of all items somebody is on |
| `Allocation.SumGainsItem` | split.py:262-268 | one item's gains over the roster add up to its pennies (share times the number of people, plus the remainder), or to 0 when nobody is on it |
| `Allocation.GrandTotalConservation` | split.py:255-268 | conservation: the sum of the final totals over the roster equals the sum of pennies over items with a non-empty split, for every valid choice of winners |
| `Allocation.ItemGainBounds` | split.py:262-268 | `0 <= remainder < len(split)`, so `random.sample` is never asked for more winners than the split has; each person on the split gains the share or the share plus one, and each person off it gains 0 |
| `Allocation.ItemWithinOnePenny` | split.py:264-268 | any two people on the same item gain within one penny of each other |
| `Allocation.ExtraPennyWinners` | split.py:263-268 | the people gaining share plus one are exactly the drawn winners, and there are `remainder` of them |
| `Allocation.EmptySplitUnchanged` | split.py:258-259 | appending an item with an empty split leaves every person's total unchanged |
| `Allocation.EmptySplitAnywhere` | split.py:257-259 | removing an item with an empty split from any position of the list leaves every person's total unchanged |
| `Allocation.OwedNonNegative` | split.py:264-268 | when no item has negative pennies, no person's total is negative |
| `Allocation.TotalsNonNegative` | split.py:255-268 | with non-negative prices and an extra discount of at most 100%, every final total is non-negative |
| `Allocation.FirstWinners` | split.py:266-267 | for every list of valid splits, a choice of winners meeting `FinaliseSplit`'s precondition exists |
| `Allocation.PeopleDistinct` | split.py:29 | the roster has no duplicate names |
| `Allocation.SinglePerson` | split.py:262-265 | an item split to one person gives that person all its pennies and everyone else 0 |
| `Allocation.OnePennyAmongThree` | split.py:262-268 | one penny split three ways goes to the drawn winner alone |
| `Allocation.WorkedReceipt` | split.py:255-268 | 3.00 shared by all three and 2.00 for Joe, with the colleague discount, give 255 and 170 pennies, then Joe 255, Nic 85 and Nat 85; the grand total of those final totals is 425 |
| `Response.ReplaceAll` | split.py:111 | `str.replace`, replacing the leftmost occurrences without overlaps: replacing the pattern by itself changes nothing, a replacement no longer than the pattern never lengthens the text, and a text shorter than the pattern is returned as it is; that occurrences really are replaced is stated by `NoOccurrenceUnchanged`, `OccurrenceShrinks` and `ReplaceChangesIff` |
| `Response.NoOccurrenceUnchanged` | split.py:111 | a text in which the pattern occurs nowhere comes back from `str.replace` unchanged |
| `Response.OccurrenceShrinks` | split.py:111 | with a replacement shorter than the pattern, a text in which the pattern occurs gets strictly shorter, so at least one occurrence is replaced |
| `Response.ReplaceChangesIff` | split.py:111 | replacing a pattern by something shorter, as both fence removals do, changes the text exactly when the pattern occurs in it |
| `Response.ReplaceKeepsChar` | split.py:111 | `str.replace` neither adds nor removes a character that is in neither the pattern nor the replacement |
| `Response.TrimStart` | split.py:111 | `lstrip`: the result is a suffix not starting with whitespace, and everything dropped is whitespace |
| `Response.TrimEnd` | split.py:111 | `rstrip`: the result is a prefix not ending with whitespace, and everything dropped is whitespace |
| `Response.Strip` | split.py:111 | `strip`: the result is a contiguous middle part of the input, everything dropped on either side of it is whitespace, and neither end of the result is whitespace |
| `Response.StripKeepsChar` | split.py:111 | stripping keeps every non-whitespace character |
| `Response.RawText` | split.py:110 | `response.text or ""`: the reply's text, or the empty string when there is none |
| `Response.Clean` | split.py:111 | both fences are removed, then the text is stripped: the result is a middle part of the fence-free text with only whitespace dropped around it, and neither of its ends is whitespace |
| `Response.FenceRemovalIsComplete` | split.py:111 | after `.replace("```", "")` the text contains no "```" at all |
| `Response.CleanHasNoFence` | split.py:111 | the cleaned reply contains no markdown fence |
| `Response.BracketsSurviveCleaning` | split.py:111 | the cleaned reply contains `[` (or `]`) exactly when the raw reply does |
| `Response.Find` | split.py:112 | `find` returns -1 exactly when the character is absent, and otherwise the index of its first occurrence |
| `Response.RFind` | split.py:113 | `rfind` returns -1 exactly when the character is absent, and otherwise the index of its last occurrence |
| `Response.SliceList` | split.py:112-120 | the error branch is taken exactly when the cleaned text lacks `[` or `]`, and it shows that text; otherwise the slice is non-empty exactly when some `[` precedes some `]`, and then it starts with `[`, ends with `]`, and is the contiguous span with no `[` before it and no `]` after it |
| `Response.ExtractList` | split.py:110-120 | the error branch is taken exactly when the model's reply itself has no `[` or no `]` |
| `Response.FencedReplyExample` | split.py:110-120 | a reply "```json\n[]\n```" is cut down to the list "[]" |

## Left out

- The Streamlit interface is not modelled: widgets, layout, styling, `st.session_state` bookkeeping, reset
  and rerun, and editing, deleting or adding items (split.py:12-27, 45-50,
  138-247, 270-279). It is presentation and session plumbing. The model takes
  the item list and the discount settings as plain values.
- The Gemini client and its request, the prompt, and PIL image handling are not modelled
  (split.py:10, 56-108). They are network and foreign-library calls. The reply text is a
  parameter.
- `json.loads`, the confidence back-fill and the low-confidence warning are not modelled
  (split.py:120-133). They are a library parser over dynamic dictionaries. The
  model stops at the slice handed to the parser.
- The receipt-total checker is not modelled (split.py:186-197). It is a floating-point
  comparison for display only.
- `Discount.DiscountedPrice` and `Discount.ToPennies` work over exact rationals, not IEEE doubles. A
  product such as `price * 0.85 * 100` that a double stores just below a
  half-penny can round differently in Python than here.
- `random.sample`'s randomness is not modelled. Each draw is any duplicate-free choice of
  `remainder` members of the split, and every property is proved for all such
  choices. Uniformity is a probabilistic claim and is not stated.
- `Allocation.GrandTotal` sums the final totals over the roster instead of iterating over the
  dictionary's values. `FinaliseSplit` proves that the keys are exactly the
  roster, so the two sums are the same.
- `Allocation.FinaliseSplit` keeps `final_totals` as a map value that each `+=` replaces, rather than a
  dictionary object updated in place. No other code holds a reference to it, so
  aliasing has no effect.
- `Response.ReplaceAll` requires a non-empty pattern. Python's behaviour for an empty
  pattern, which inserts the replacement between characters, is not modelled
  because the code only replaces the two fence strings.
