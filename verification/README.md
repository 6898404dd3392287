# Buyer negotiation engine, modelled in Dafny

This project models the buyer agent of the negotiation hackathon service
(`buyer_agent.py`). The seller sends free-text messages. For each one the
buyer:

- reads a price out of the text (`_parse_price`);
- notices whether the message says "final" or asks for speed;
- advances its round counter;
- answers with a `NegotiationResponse`: an action (`ACCEPT`, `COUNTER`,
  `ASK` or `REJECT`), a reply text and an optional offer price.

Counter replies are drawn from four fixed templates
(`_generate_counter_message`).

Modules, one per concern:

- `Wrappers`:
  - `Option`, Python's `Optional`;
  - `Result`, a value or the exception raised instead of returning one.
- `Text`:
  - ASCII digits and lower-casing;
  - `str()` of an integer, with its round trip through `int()`;
  - Python's `in` on strings.
- `PriceParser`: `_parse_price`.
  - It models the regular-expression search of
    `(?:₹|rs|inr)?\s*(\d{1,3}(?:,\d{3})*)` over the lower-cased message step
    by step: start positions left to right, marker alternatives in order,
    greedy whitespace, the numeral.
  - It proves that this is the same as reading the numeral that starts at
    the first digit of the message.
  - `int()` refuses a string of more than 4300 digits with a `ValueError`.
    CPython 3.11, and the 3.7.14, 3.8.14, 3.9.14 and 3.10.7 security
    releases, have a default limit of 4300 digits; older interpreters have
    none. `ParsePrice` returns that error as a
    `Result` failure.
- `Binary64`: the part of Python's `float` the thresholds use.
  - Every double the buyer computes (an integer times one of its
    constants, or a sum or half of such values) is a whole number of
    units of 2^-53, and is held as that number.
  - Rounding to 53 significant bits is round-to-nearest, ties-to-even.
  - An `int * float` rounds the integer, then rounds the product.
  - Comparisons between an `int` and a `float` are exact.
  - `int()` truncates.
- `Thresholds`: the six float literals as the doubles they denote, and
  every threshold of `negotiate` computed as the source computes it.
  - Each threshold has an exact rational reading (0.85 as 85/100, …), with
    lemmas saying where the two agree.
  - For budgets below 2^40 all of them agree except the 110% ceiling. The
    ceiling `budget * 1.1` lands strictly above 11·budget/10 for many
    budgets. For example, `100 * 1.1` is 110.00000000000001, while
    `1000 * 1.1` is exactly 1100.0.
- `Negotiation`: the decision tree of `negotiate`, as pure functions of the
  extracted price, the budget, the round number, the two message signals
  and the template choice.
- `BuyerAgent`: the agent as a value (product, budget, round counter,
  memory trace). A call of `negotiate` is a transition, and a session is a
  sequence of calls.
  - A call whose price `int()` refuses raises after the round counter has
    been advanced and the seller's message stored.
  - main.py:70-71 turns that exception into an HTTP 500 but keeps the
    session. The next call continues on the same agent only when the
    caller sends an id it already holds: its own, or one a successful
    reply returned. The 500 does not carry the id main.py:45 generated
    for a first call without one, so the browser front end, which learns
    its id only from a successful reply, starts a fresh agent instead.
  - The memory is always the trace of the rounds played: each round's
    seller record, then the buyer's reply unless that call raised.

Facts the proofs bring out:

- **The price can only come from the first digit.** With no digit there is
  no price. Otherwise the price is the numeral that starts at the first
  digit, so a currency marker never changes it. A price of 0 is falsy in
  the source and is treated like no price.
- **A numeral of more than 4300 digits makes the call raise.** The round
  still counts and the seller's message stays in memory, with no reply
  after it. On one agent, two such calls followed by a mid-range offer
  get that offer accepted at once, because it arrives in round 3. Across
  service calls this needs a caller that sends an id it already holds.
- **The buyer never accepts above budget.** Every acceptance is at the
  seller's own price.
- **A mid-range counter can exceed the seller's ask.** With a budget of
  1000, an offer of 900 gets a counter of 950.
- **The same mid-range, non-final offer is accepted on the third call.**
- **The standard above-budget path rarely rejects.** The midpoint is
  truncated before it is compared with `budget * 1.1`. Below 2^40 it
  rejects exactly when all of these hold:
  - the budget is a multiple of 10;
  - the offer is at least 120% of the budget;
  - `budget * 1.1` rounds to exactly 11·budget/10.

  For a budget of 100 and an offer of 150 the buyer counters at 110, which
  is exactly 110% of the budget. Read with exact decimals, the rule at
  buyer_agent.py:94 would reject here (110 ≥ 110). The code compares with
  the double 110.00000000000001 instead, and the model follows the code.

## Model

| member | source | states |
|---|---|---|
| Text.NatToStringRoundTrip | buyer_agent.py:70 | the decimal text `str()` writes into a reply has digits only, no leading zero, and reads back as the same number |
| Text.Lower | buyer_agent.py:43 | lower-casing keeps the length and maps every character on its own, so digits and commas stay where they were |
| Text.ContainsIff | buyer_agent.py:63-64 | `word in text` holds exactly when the word occurs at some index of the text |
| Text.ContainsInfix | buyer_agent.py:89 | a reply built as text, the priced word and more text contains the priced word |
| PriceParser.MatchAtDigit | buyer_agent.py:43 | at a digit the pattern matches with no marker and no whitespace, and the group starts at that digit |
| PriceParser.SearchWithoutDigit | buyer_agent.py:43-46 | if no digit follows a position, the search from there finds nothing, so there is no price |
| PriceParser.SearchFindsFirstDigit | buyer_agent.py:43 | whatever marker or whitespace an earlier start consumes, the group found starts at the first digit and ends where the greedy numeral ends |
| PriceParser.ParsePrice | buyer_agent.py:41-46 | `_parse_price`: the search, then `int()` of group 1 without commas; no match gives no price, and more than 4300 digits give the `ValueError` (characterised by PriceParser.ParsePriceReadsFirstDigit) |
| PriceParser.FirstNumeral | buyer_agent.py:44-46 | the reference reading: no price exactly when the message has no digit; otherwise `int()` of the numeral at the first digit, which may raise |
| PriceParser.ParsePriceReadsFirstDigit | buyer_agent.py:41-46 | `_parse_price` has the outcome of the reference reading: no price iff the message has no digit, otherwise `int()` of the numeral at the first digit, the `ValueError` included |
| PriceParser.NoPriceWithoutDigit | buyer_agent.py:41-46 | `_parse_price` returns None exactly when the message has no digit: every digit gives a price or the `ValueError` |
| PriceParser.MarkerNeverChangesPrice | buyer_agent.py:43 | a digit-free prefix (a currency marker, whitespace, words) never changes the extracted price |
| PriceParser.RupeeSignExample | buyer_agent.py:43 | a leading `₹` does not change the price |
| PriceParser.RsMarkerExample | buyer_agent.py:43 | a leading `rs ` does not change the price |
| PriceParser.InrMarkerExample | buyer_agent.py:43 | a leading `INR ` does not change the price, whatever its case |
| PriceParser.ReadsGroupedNumeral | buyer_agent.py:43-45 | one to three leading digits followed by `,ddd` groups, behind any digit-free prefix, are read as the digits with the commas removed when there are at most 4300 of them; with more, `int()` raises and reports their number |
| PriceParser.OverlongNumeral | buyer_agent.py:45 | a grouped numeral of more than 4300 digits makes `int()` raise, whatever its value, reporting its digit count |
| PriceParser.ThousandsExample | buyer_agent.py:43-45 | `1,234` reads as 1234 |
| PriceParser.TrailingDigitExample | buyer_agent.py:43-45 | `1,2345` reads as 1234: the fourth digit after the comma is not read |
| PriceParser.UngroupedExample | buyer_agent.py:43 | `1234` without a comma reads as 123, since at most three leading digits are taken |
| PriceParser.ShortGroupExample | buyer_agent.py:43-45 | `12,34` reads as 12: a comma without three digits ends the numeral |
| PriceParser.TwelveHundredExample | buyer_agent.py:43-45 | `1,200` reads as 1200 behind any digit-free prefix and before anything that is not a group |
| PriceParser.NineFiftyExample | buyer_agent.py:43-45 | `950` reads as 950 in the same setting |
| Binary64.RoundOnGrid | buyer_agent.py:67 | a rounded product is a multiple of the step of its last kept bit and at most half a step away from the exact value |
| Binary64.RoundError | buyer_agent.py:67 | rounding moves a value by at most 2^-53 of itself |
| Binary64.RoundEven | buyer_agent.py:93 | from 1.0 up a double is an even number of units, so halving the float sum in the midpoint is exact |
| Binary64.Between | buyer_agent.py:67 | for a double between two whole numbers v and v+1: `int()` gives v, and an integer compares with it exactly as with v, the equal case included |
| Binary64.IntHalfTrunc | buyer_agent.py:93 | for an integer sum m below 2^53, `int(m / 2)` is m halved and rounded down |
| Binary64.RoundToNearest | buyer_agent.py:85 | a value with 53 + s binary digits, within less than half a step of a multiple of 2^s, rounds to that multiple |
| Binary64.Times | buyer_agent.py:67 | `int * float`: the integer rounded to a double, times the constant, rounded again (characterised by Binary64.RoundOnGrid and Binary64.RoundError) |
| Thresholds.GreatDealBelowBudget | buyer_agent.py:67 | a positive great deal is below the budget, for every budget |
| Thresholds.ScaledDown | buyer_agent.py:80-87 | scaling a positive integer by 0.93, 0.95 or 0.98 lands below it, and so does the truncated result |
| Thresholds.CeilingAboveBudget | buyer_agent.py:85 | `budget * 1.1` is above the budget, for every positive budget |
| Thresholds.IsGreatDeal | buyer_agent.py:67 | `offer_price <= budget * 0.85` on doubles (characterised by Thresholds.GreatDealAgrees and Thresholds.GreatDealBelowBudget) |
| Thresholds.MidRangeCounter | buyer_agent.py:80 | `max(int(offer_price * 0.93), int(budget * 0.95))` (characterised by Thresholds.MidRangeCounterAgrees) |
| Thresholds.WithinUrgentReach | buyer_agent.py:85 | `budget * 1.1 >= offer_price` on doubles (characterised by Thresholds.UrgentReachAgrees) |
| Thresholds.UrgentCounter | buyer_agent.py:87 | `int(budget * 0.98)` (characterised by Thresholds.UrgentCounterAgrees) |
| Thresholds.StandardCounter | buyer_agent.py:93 | the capped midpoint, with the integer or the float branch of `min` (characterised by Thresholds.StandardCounterAgrees and Thresholds.CappedMidpoint) |
| Thresholds.ReachesCeiling | buyer_agent.py:94 | `counter >= budget * 1.1` on doubles (characterised by Thresholds.CeilingExactly) |
| Thresholds.Point85Bracket | buyer_agent.py:67 | below 2^40, `n * 0.85` lies in [⌊85n/100⌋, ⌊85n/100⌋ + 1) |
| Thresholds.Point93Bracket | buyer_agent.py:80 | below 2^40, `n * 0.93` lies in [⌊93n/100⌋, ⌊93n/100⌋ + 1) |
| Thresholds.Point95Bracket | buyer_agent.py:80 | below 2^40, `n * 0.95` lies in [⌊95n/100⌋, ⌊95n/100⌋ + 1) |
| Thresholds.Point98Bracket | buyer_agent.py:87 | below 2^40, `n * 0.98` lies in [⌊98n/100⌋, ⌊98n/100⌋ + 1) |
| Thresholds.OnePointOneBracket | buyer_agent.py:85-94 | below 2^40, `n * 1.1` lies in [⌊11n/10⌋, ⌊11n/10⌋ + 1), strictly above the lower end when 11n/10 is not whole |
| Thresholds.OnePointTwoBracket | buyer_agent.py:93 | below 2^40, `n * 1.2` lies in [⌊12n/10⌋, ⌊12n/10⌋ + 1), is exactly 6n/5 when that is whole, and is within 2n units of it otherwise |
| Thresholds.GreatDealAgrees | buyer_agent.py:67 | below 2^40, `offer <= budget * 0.85` holds exactly when 100·offer ≤ 85·budget |
| Thresholds.MidRangeCounterAgrees | buyer_agent.py:80 | below 2^40, the mid-range counter is max(⌊93·offer/100⌋, ⌊95·budget/100⌋) |
| Thresholds.UrgentReachAgrees | buyer_agent.py:85 | below 2^40, `budget * 1.1 >= offer` holds exactly when 10·offer ≤ 11·budget |
| Thresholds.UrgentCounterAgrees | buyer_agent.py:87 | below 2^40, `int(budget * 0.98)` is ⌊98·budget/100⌋ |
| Thresholds.StandardCounterAgrees | buyer_agent.py:93 | below 2^40, the standard counter is ⌊(10·budget + min(10·offer, 12·budget))/20⌋ |
| Thresholds.CappedMidpoint | buyer_agent.py:93 | below 2^40, when the 1.2 cap is taken, the float midpoint truncates to ⌊11·budget/10⌋ |
| Thresholds.CeilingExactly | buyer_agent.py:94 | below 2^40, `counter >= budget * 1.1` holds exactly when 10·counter > 11·budget, or they are equal and `budget * 1.1` is exactly the counter |
| Thresholds.CeilingAtHundred | buyer_agent.py:94 | `100 * 1.1` is 110 plus 128 units, so a counter of 110 does not reach it, though 110 is exactly 110% of 100 |
| Thresholds.CeilingAtThousand | buyer_agent.py:94 | `1000 * 1.1` is exactly 1100.0, so a counter of 1100 reaches it |
| Negotiation.OpensFinal | buyer_agent.py:63 | a message that starts with "Final", in any case, is a final offer |
| Negotiation.IsFinal | buyer_agent.py:63 | a message is final exactly when "final" occurs at some index of its lower-cased text |
| Negotiation.IsUrgent | buyer_agent.py:64 | a message is urgent exactly when "soon", "quick" or "immediate" occurs at some index of its lower-cased text |
| Negotiation.CounterMessage | buyer_agent.py:48-56 | the counter reply is one of the four templates and names the offer as `₹<offer>` |
| Negotiation.CounterMessageIgnoresBudget | buyer_agent.py:48-56 | the counter wording is the chosen template filled with the offer, the same whatever budget is passed |
| Negotiation.Decide | buyer_agent.py:66-109 | a price goes with the response exactly for ACCEPT and COUNTER; an accept is at the seller's positive price, within budget; a counter stays below `budget * 1.1` and names its price |
| Negotiation.DecideOnOffer | buyer_agent.py:66-101 | with a positive price, the same promises as Decide |
| Negotiation.DecideMidRange | buyer_agent.py:72-83 | within budget but no great deal: accept at the seller's price exactly from round 3 or on a final offer, otherwise counter below the budget with a template reply |
| Negotiation.DecideAboveBudget | buyer_agent.py:84-101 | above budget: only COUNTER or REJECT, a price exactly on a counter, a counter below `budget * 1.1` and named in the reply |
| Negotiation.NoPriceRule | buyer_agent.py:102-109 | with no price, or a price of 0 (which fails `if offer_price`), no price is offered; REJECT iff the message is final, ASK iff it is not |
| Negotiation.AcceptExactly | buyer_agent.py:66-77 | ACCEPT exactly for a positive great deal, or a positive price within budget from round 3 or on a final offer |
| Negotiation.GreatDealAccepted | buyer_agent.py:67-71 | a great deal is accepted at the seller's price in every round; below 2^40 it is at most 85% of the budget |
| Negotiation.MidRangeCounterBounds | buyer_agent.py:80 | the mid-range counter is below the budget; below 2^40 it is the rational counter and at least ⌊95·budget/100⌋ |
| Negotiation.MidRangeRule | buyer_agent.py:72-83 | mid-range: ACCEPT iff round ≥ 3 or final, at the seller's price; otherwise COUNTER at the mid-range counter, below budget, with a template reply |
| Negotiation.MidRangeCounterAboveAsk | buyer_agent.py:80 | with budget 1000 and offer 900, the buyer counters at 950, above the seller's ask |
| Negotiation.UrgentRule | buyer_agent.py:85-90 | urgent and within `budget * 1.1`: COUNTER at `int(budget * 0.98)`, below budget and offer; below 2^40 that is ⌊98·budget/100⌋, and the offer is at most 110% of the budget |
| Negotiation.StandardCounterBounds | buyer_agent.py:93 | below 2^40 the capped midpoint is the rational one, at least the budget and at most 110% of it |
| Negotiation.StandardRule | buyer_agent.py:91-101 | otherwise above budget: REJECT iff the capped midpoint reaches `budget * 1.1`, else COUNTER at it, at least the budget below 2^40 |
| Negotiation.CounterWithinTenPercent | buyer_agent.py:80-101 | below 2^40 no counter exceeds 110% of the budget |
| Negotiation.RejectExactly | buyer_agent.py:93-97 | below 2^40 the standard path rejects iff the budget is a multiple of 10, the offer is at least 120% of it, and `budget * 1.1` is exactly 11·budget/10 |
| Negotiation.MidpointAtCeiling | buyer_agent.py:93-94 | the rational capped midpoint never exceeds 110% of the budget and meets it iff the budget is a multiple of 10 and the offer at least 120% of it |
| Negotiation.CounterAtExactCeiling | buyer_agent.py:93-101 | budget 100 and offer 150 give a COUNTER at 110, exactly 110% of the budget |
| BuyerAgent.NewAgent | buyer_agent.py:22-25 | a fresh agent has played no rounds and remembers nothing: it holds the trace of no rounds |
| BuyerAgent.SellerRecord | buyer_agent.py:60 | the stored text of the seller's message, `Seller (Round n): message` (its place in memory is stated by BuyerAgent.Negotiate) |
| BuyerAgent.BuyerRecord | buyer_agent.py:111 | the stored text of the buyer's reply, `Buyer: reply` (its place in memory is stated by BuyerAgent.Negotiate) |
| BuyerAgent.Negotiate | buyer_agent.py:58-112 | a call advances the round counter by one and keeps product and budget; it raises exactly when `_parse_price` does, leaving only the seller record under the new round; otherwise it appends the seller record and then the buyer record of the reply |
| BuyerAgent.NegotiateExtendsTrace | buyer_agent.py:59-111 | if the memory is the trace of the rounds played, after a call it is that trace plus the new round: the seller's message, and the reply unless the call raised |
| BuyerAgent.RunSession | main.py:53-60 | a session of calls, raising or not, advances the round counter by the number of calls, gives one outcome per call, and only appends one or two records per call to the memory |
| BuyerAgent.SessionResponseAt | buyer_agent.py:59-73 | the i-th outcome of a session is what the i-th message gets in round i + 1, the exception included; earlier calls, raising or not, matter only through the counter |
| BuyerAgent.SessionExtendsTrace | buyer_agent.py:59-111 | after a session the memory is the trace of the earlier rounds followed by one round per call, each with its reply unless that call raised |
| BuyerAgent.MidRangeReply | buyer_agent.py:72-83 | a mid-range, non-final message gets a COUNTER before round 3 and an ACCEPT at the seller's price from round 3 on |
| BuyerAgent.MidRangeEscalation | buyer_agent.py:73 | the same mid-range, non-final offer, repeated, is countered until the counter reaches 3 and accepted after |
| BuyerAgent.ThirdMidRangeCallAccepts | buyer_agent.py:59-77 | a fresh agent sent such an offer three times counters twice, then accepts at the seller's price |
| BuyerAgent.FailedCallsCountAsRounds | buyer_agent.py:59-73 | on one agent, after two calls that raise, a fresh agent accepts a mid-range, non-final offer at the seller's price at once, since it arrives in round 3 (through main.py, only for a caller that resends an id it holds) |
| BuyerAgent.OverlongPriceScenario | buyer_agent.py:58-62 | a message with a numeral of more than 4300 digits makes the call raise, with the round counted and only the seller's message added to memory |
| BuyerAgent.OverBudgetScenario | buyer_agent.py:91-97 | "…1,200…" against a budget of 1000 is read as 1200 and rejected in any round, urgent or not |
| BuyerAgent.FinalOfferScenario | buyer_agent.py:63-77 | "Final offer: 950…" against a budget of 1000 is accepted at 950 in any round |

## Left out

- The Concordia `Persona`, `ObservationModule` and `DecisionModule` are left out. They are built in the constructor and never used by `negotiate`.
- The memory module is a list of stored texts. `Document` is not modelled.
- `random.choice` in `_generate_counter_message` is a parameter, the template index 0–3. Randomness is not modelled.
- `re`, `\d`, `\s` and `str.lower()` are ASCII-only:
  - `\d` is `0`–`9`;
  - `\s` is the six ASCII whitespace characters space, `\t`, `\n`, `\r`,
    `\x0b` and `\x0c`. Python's `\s` on a `str` also matches `\x1c`–`\x1f`,
    `\x85` and the Unicode spaces;
  - `lower()` folds `A`–`Z` only.
  - Python's Unicode digits, Unicode whitespace and full case folding are not modelled.
- The HTTP layer of main.py is left out: FastAPI, session storage by id, hourly expiry, `/api/reset`, the 500 response built from an exception and JSON output. An exception is kept as the call's `Failure` outcome, and the session goes on with the agent the failed call left behind. In main.py that agent is reached again only by a caller that sends an id it already holds; a first call without an id gets a 500 without the generated id. main.py:42-43 rejects a budget that is not positive before calling the agent. The model takes `budget > 0` as a precondition of `Negotiate` and `Decide` instead. (In main.py the 400 raised there is caught by the `except Exception` at main.py:70-71 and turned into a 500.)
- Static/script.js, the browser front end, is not part of this model.
- The `product` argument of `negotiate` is unused in the source. The model also ignores it. The constructed `budget` is stored and never read, because the per-call budget decides.
- Binary64 has no largest double: values are unbounded multiples of
  2^-53, with no overflow to infinity and no `OverflowError`. In the
  source, with a positive price, this matters only for a budget or offer
  large enough that a double at buyer_agent.py:85-94 is infinite or the
  sum at buyer_agent.py:93 overflows, from a budget of about 8.2·10^307:
  - from about 8.2·10^307, with an offer above `budget * 1.2`, the float
    sum `budget + budget * 1.2` at :93 is infinite and `int()` raises
    `OverflowError`;
  - from about 1.5·10^308, `budget * 1.2` is infinite, `min` keeps the
    offer, and the true division of `budget + offer_price` at :93 raises
    `OverflowError` when the quotient is beyond the double range;
  - from about 1.64·10^308, `budget * 1.1` is infinite without raising, so
    the test at :85 always holds and the test at :94 never holds;
  - from about 1.8·10^308, `budget * 0.85` at :67 raises `OverflowError`,
    since the budget does not convert to a double.
- Binary64.Times: rounds without an exponent bound, so a product beyond the double range stays finite where Python's is infinite, and converting an integer beyond the range does not raise.
- Thresholds.WithinUrgentReach: from a budget of about 1.64·10^308 the source's `budget * 1.1` is infinite and the test holds for every offer; the model compares with the finite product.
- Thresholds.ReachesCeiling: from a budget of about 1.64·10^308 the source's test never holds; the model compares with the finite product.
- Thresholds.StandardCounter: where the source raises `OverflowError` at :93 (cases above), the model returns the midpoint of the unbounded values.
- BuyerAgent.Negotiate: with a positive price and a budget from about 8.2·10^307, the source can raise `OverflowError` or take another branch at :85 or :94 (cases above). The model gives the response of the unbounded doubles, with the reply recorded.
- BuyerAgent.NegotiateExtendsTrace: where the source raises `OverflowError`, it leaves the seller record without a reply, where the model records one.
- BuyerAgent.RunSession: a priced call with a budget from about 8.2·10^307 has the model's response as outcome, where the source can raise `OverflowError` or answer differently.
- BuyerAgent.SessionExtendsTrace: the same gap, for every call of the session with such a budget.
- Negotiation.Decide: promises a response for every positive budget. With a positive price and a budget from about 8.2·10^307 the source can raise `OverflowError` instead, or reach a different action through an infinite `budget * 1.1`.
- Negotiation.DecideOnOffer: the same gap as Negotiation.Decide.
- PriceParser.ParsePrice: the digit limit is CPython's default of 4300. CPython 3.11, and the 3.7.14, 3.8.14, 3.9.14 and 3.10.7 security releases, have a default limit of 4300 digits; older interpreters have none. `sys.set_int_max_str_digits` can change the limit or switch it off. Neither the older interpreters nor a changed limit is modelled.
- Thresholds.GreatDealAgrees: stated only for budgets below 2^40. Beyond that, the float threshold and the rational one may part.
- Thresholds.MidRangeCounterAgrees: stated only for budgets below 2^40, for the same reason.
- Thresholds.UrgentReachAgrees: stated only for budgets below 2^40.
- Thresholds.UrgentCounterAgrees: stated only for budgets below 2^40.
- Thresholds.StandardCounterAgrees: stated only for budgets below 2^40.
- Thresholds.CeilingExactly: stated only for budgets below 2^40.
- Binary64.IntHalfTrunc: stated only for sums below 2^53. Above that, the rounding of `m / 2` can move past the next integer.
- Thresholds.CappedMidpoint: stated only for budgets below 2^40. At 2^60 + 1 the float midpoint is no longer ⌊11·budget/10⌋.
- Negotiation.CounterWithinTenPercent: stated only for budgets below 2^40. For every budget, Decide itself promises that a counter stays below `budget * 1.1` as a double.
- Negotiation.RejectExactly: stated only for budgets below 2^40.
- Negotiation.StandardCounterBounds: stated only for budgets below 2^40.
- Negotiation.MidRangeCounterAboveAsk: shown for the single pair 900/1000. It is not a general rule.
- Negotiation.CounterAtExactCeiling: shown for the single pair 150/100. It is not a general rule.
