/** The buyer's decision policy: from the extracted price, the budget, the
    round number and two signals read off the seller's message, choose one
    of four actions, a reply and an optional offer price. The price
    thresholds are computed in floating point, as the source computes them
    (module Thresholds). */
module Negotiation {
  import opened Wrappers
  import opened Text
  import opened Binary64
  import opened Thresholds

  datatype Action = Accept | Counter | Ask | Reject

  /** `NegotiationResponse`: the action, the reply text and the offer. */
  datatype Response = Response(action: Action, message: string, offerPrice: Option<int>)

  const Rupee: string := "\U{20B9}"

  /** `ACCEPT` and `COUNTER` carry a price; `ASK` and `REJECT` do not. */
  predicate CarriesPrice(action: Action) {
    action == Accept || action == Counter
  }

  /** The message declares a final offer: "final" occurs in it, any case. */
  predicate IsFinal(message: string)
    ensures IsFinal(message) ==> exists i :: OccursAt(Lower(message), "final", i)
    ensures (exists i :: OccursAt(Lower(message), "final", i)) ==> IsFinal(message)
  {
    ContainsIff(Lower(message), "final");
    Contains(Lower(message), "final")
  }

  /** A message that opens with "Final", in any case, is final. */
  lemma OpensFinal(m: string)
    requires |m| >= 5 && Lower(m[..5]) == "final"
    ensures IsFinal(m)
  {
    assert Lower(m)[..5] == Lower(m[..5]);
    ContainsAt(Lower(m), "final", 0);
  }

  const UrgencyWords: seq<string> := ["soon", "quick", "immediate"]

  /** Python's `any(word in text for word in words)`. */
  predicate ContainsAny(text: string, words: seq<string>)
    decreases |words|
  {
    |words| > 0 && (Contains(text, words[0]) || ContainsAny(text, words[1..]))
  }

  /** The message asks for a fast close: "soon", "quick" or "immediate"
      occurs in it, any case. */
  predicate IsUrgent(message: string)
    ensures IsUrgent(message) ==> UrgencyWordOccurs(Lower(message))
    ensures UrgencyWordOccurs(Lower(message)) ==> IsUrgent(message)
  {
    var s := Lower(message);
    ContainsIff(s, "soon");
    ContainsIff(s, "quick");
    ContainsIff(s, "immediate");
    var w := UrgencyWords;
    assert w[0] == "soon" && w[1..][0] == "quick" && w[1..][1..][0] == "immediate" && |w[1..][1..][1..]| == 0;
    ContainsAny(s, UrgencyWords)
  }

  /** One of the urgency words occurs in `s` at some position. */
  ghost predicate UrgencyWordOccurs(s: string) {
    || (exists i :: OccursAt(s, "soon", i))
    || (exists i :: OccursAt(s, "quick", i))
    || (exists i :: OccursAt(s, "immediate", i))
  }

  /** A reply wording, the text before and after `₹<price>`. */
  datatype Wording = Wording(before: string, after: string) {
    function Fill(price: int): string {
      before + (Rupee + IntToString(price)) + after
    }
  }

  /** The wordings of the four counter-message templates of
      `_generate_counter_message`, in order. */
  const CounterWordings: seq<Wording> := [
    Wording("My research suggests ", " would be a fair price. What do you think?"),
    Wording("I can do ", " based on current market rates."),
    Wording("Would ", " work for you? That aligns better with my budget."),
    Wording("Given the specs, I believe ", " is reasonable. Your thoughts?") ]

  /** The four templates filled in with the counter price. */
  function CounterTemplates(offer: int): seq<string> {
    [ CounterWordings[0].Fill(offer), CounterWordings[1].Fill(offer),
      CounterWordings[2].Fill(offer), CounterWordings[3].Fill(offer) ]
  }

  /** Which template `random.choice` picks. */
  type TemplateIndex = i: nat | i < 4

  /** `_generate_counter_message`: one of the four fixed templates, each
      naming the counter price in rupees. The budget argument plays no part
      in the wording. */
  function CounterMessage(offer: int, budget: int, choice: TemplateIndex): (r: string)
    ensures r in CounterTemplates(offer)
    ensures Contains(r, Rupee + IntToString(offer))
  {
    var w := CounterWordings[choice];
    ContainsInfix(w.before, Rupee + IntToString(offer), w.after);
    w.Fill(offer)
  }

  /** The wording depends on the offer and the template only, not on the
      budget passed in. */
  lemma CounterMessageIgnoresBudget(offer: int, b1: int, b2: int, choice: TemplateIndex)
    ensures CounterMessage(offer, b1, choice) == CounterMessage(offer, b2, choice)
    ensures CounterMessage(offer, b1, choice) == CounterTemplates(offer)[choice]
  {
  }

  function GreatDealMessage(price: int): string {
    Wording("Excellent! I accept ", ". Let's proceed with the paperwork.").Fill(price)
  }

  function ConcludeMessage(price: int): string {
    Wording("I'll accept your ", " offer to conclude this deal.").Fill(price)
  }

  function UrgentMessage(counter: int): string {
    Wording("I understand the urgency. My best offer is ", ".").Fill(counter)
  }

  function SettleMessage(budget: int, counter: int): string {
    Wording("My maximum is " + Rupee + IntToString(budget) + ". Could we settle at ", "?").Fill(counter)
  }

  const OverBudgetMessage: string := "This exceeds my budget constraints. Thank you for your time."
  const NoPriceDeclineMessage: string := "Without a clear price, I'll need to decline. Thank you."
  const AskPriceMessage: string := "Could you please specify your asking price for the product?"

  /** The decision tree of `negotiate`, after the round counter has been
      advanced to `round`. An extracted price of 0 is falsy in the source
      and takes the no-price branch. The buyer never accepts above budget
      and accepts only the seller's own price; a counter stays below
      `budget * 1.1` and names its price in the reply. */
  function Decide(price: Option<nat>, budget: int, round: nat, isFinal: bool, isUrgent: bool,
                  choice: TemplateIndex): (r: Response)
    requires budget > 0
    ensures r.offerPrice.Some? <==> CarriesPrice(r.action)
    ensures r.action == Accept ==> price.Some? && r.offerPrice == Some(price.value) && 0 < price.value <= budget
    ensures r.action == Counter ==> r.offerPrice.value >= 0 && !ReachesCeiling(r.offerPrice.value, budget)
    ensures r.action == Counter ==> Contains(r.message, Rupee + IntToString(r.offerPrice.value))
  {
    if price.Some? && price.value != 0 then
      DecideOnOffer(price.value, budget, round, isFinal, isUrgent, choice)
    else if isFinal then
      Response(Reject, NoPriceDeclineMessage, None)
    else
      Response(Ask, AskPriceMessage, None)
  }

  /** The branch of `negotiate` taken when the message names a positive
      price. */
  function DecideOnOffer(price: nat, budget: nat, round: nat, isFinal: bool, isUrgent: bool,
                         choice: TemplateIndex): (r: Response)
    requires 0 < price && budget > 0
    ensures r.offerPrice.Some? <==> CarriesPrice(r.action)
    ensures r.action == Accept ==> r.offerPrice == Some(price) && price <= budget
    ensures r.action == Counter ==> r.offerPrice.value >= 0 && !ReachesCeiling(r.offerPrice.value, budget)
    ensures r.action == Counter ==> Contains(r.message, Rupee + IntToString(r.offerPrice.value))
  {
    if IsGreatDeal(price, budget) then
      GreatDealBelowBudget(price, budget);
      Response(Accept, GreatDealMessage(price), Some(price))
    else if price <= budget then
      DecideMidRange(price, budget, round, isFinal, choice)
    else
      DecideAboveBudget(price, budget, isUrgent, choice)
  }

  /** The branch of `negotiate` taken when the price is within budget but
      no great deal: accept from round 3 on or on a final offer, otherwise
      counter below the budget. */
  function DecideMidRange(price: nat, budget: nat, round: nat, isFinal: bool, choice: TemplateIndex): (r: Response)
    requires 0 < price <= budget
    ensures r.action == Accept || r.action == Counter
    ensures r.offerPrice.Some?
    ensures r.action == Accept <==> round >= 3 || isFinal
    ensures r.action == Accept ==> r.offerPrice == Some(price)
    ensures r.action == Counter ==> 0 <= r.offerPrice.value < budget && !ReachesCeiling(r.offerPrice.value, budget)
    ensures r.action == Counter ==> r.message in CounterTemplates(r.offerPrice.value)
  {
    if round >= 3 || isFinal then
      Response(Accept, ConcludeMessage(price), Some(price))
    else
      var c := MidRangeCounter(price, budget);
      MidRangeCounterBounds(price, budget);
      CeilingAboveBudget(budget);
      Response(Counter, CounterMessage(c, budget, choice), Some(c))
  }

  /** The branch of `negotiate` taken when the price is above budget: the
      buyer counters below `budget * 1.1` or rejects, and never accepts. */
  function DecideAboveBudget(price: nat, budget: nat, isUrgent: bool, choice: TemplateIndex): (r: Response)
    requires 0 < budget < price
    ensures r.action == Counter || r.action == Reject
    ensures r.offerPrice.Some? <==> r.action == Counter
    ensures r.action == Counter ==> r.offerPrice.value >= 0 && !ReachesCeiling(r.offerPrice.value, budget)
    ensures r.action == Counter ==> Contains(r.message, Rupee + IntToString(r.offerPrice.value))
  {
    if isUrgent && WithinUrgentReach(price, budget) then
      var c := UrgentCounter(budget);
      ScaledDown(budget, Point98);
      CeilingAboveBudget(budget);
      ContainsInfix("I understand the urgency. My best offer is ", Rupee + IntToString(c), ".");
      Response(Counter, UrgentMessage(c), Some(c))
    else
      var c := StandardCounter(price, budget);
      if ReachesCeiling(c, budget) then
        Response(Reject, OverBudgetMessage, None)
      else
        ContainsInfix("My maximum is " + Rupee + IntToString(budget) + ". Could we settle at ",
                      Rupee + IntToString(c), "?");
        Response(Counter, SettleMessage(budget, c), Some(c))
  }

  /** No price, or a price of 0: the buyer rejects a final message and
      otherwise asks for a price, offering nothing either way. */
  lemma NoPriceRule(price: Option<nat>, budget: int, round: nat, isFinal: bool, isUrgent: bool,
                    choice: TemplateIndex)
    requires budget > 0
    requires price.None? || price.value == 0
    ensures var r := Decide(price, budget, round, isFinal, isUrgent, choice);
      r.offerPrice.None? && (r.action == Reject <==> isFinal) && (r.action == Ask <==> !isFinal)
  {
  }

  /** The buyer accepts exactly a positive price that is a great deal, or
      is within budget once three rounds have passed or the offer is final. */
  lemma AcceptExactly(price: Option<nat>, budget: int, round: nat, isFinal: bool, isUrgent: bool,
                      choice: TemplateIndex)
    requires budget > 0
    ensures Decide(price, budget, round, isFinal, isUrgent, choice).action == Accept <==>
      price.Some? && price.value > 0 &&
      (IsGreatDeal(price.value, budget) || (price.value <= budget && (round >= 3 || isFinal)))
  {
  }

  /** A great deal is accepted at the seller's price in every round,
      whatever the signals; below the limit it is an offer of at most 85%
      of the budget. */
  lemma GreatDealAccepted(price: nat, budget: int, round: nat, isFinal: bool, isUrgent: bool,
                          choice: TemplateIndex)
    requires budget > 0 && 0 < price && IsGreatDeal(price, budget)
    ensures var r := Decide(Some(price), budget, round, isFinal, isUrgent, choice);
      r.action == Accept && r.offerPrice == Some(price)
    ensures budget < PriceLimit ==> 100 * price <= 85 * budget
  {
    if budget < PriceLimit {
      GreatDealAgrees(price, budget);
    }
  }

  /** The mid-range counter is below the budget and, below the limit, the
      larger of 93% of the offer and 95% of the budget, rounded down. */
  lemma MidRangeCounterBounds(price: nat, budget: nat)
    requires 0 < price <= budget
    ensures MidRangeCounter(price, budget) < budget
    ensures budget < PriceLimit ==>
      MidRangeCounter(price, budget) == ExactMidRangeCounter(price, budget) &&
      95 * budget / 100 <= MidRangeCounter(price, budget)
  {
    ScaledDown(price, Point93);
    ScaledDown(budget, Point95);
    if budget < PriceLimit {
      MidRangeCounterAgrees(price, budget);
    }
  }

  /** Between 85% of the budget and the budget: accept at the seller's
      price from round 3 on or on a final offer, otherwise counter at the
      mid-range counter, which is below the budget. */
  lemma MidRangeRule(price: nat, budget: int, round: nat, isFinal: bool, isUrgent: bool,
                     choice: TemplateIndex)
    requires budget > 0 && 0 < price && !IsGreatDeal(price, budget) && price <= budget
    ensures var r := Decide(Some(price), budget, round, isFinal, isUrgent, choice);
      && (r.action == Accept <==> round >= 3 || isFinal)
      && (r.action == Accept ==> r.offerPrice == Some(price))
      && (r.action != Accept ==>
            r.action == Counter && r.offerPrice == Some(MidRangeCounter(price, budget)) &&
            r.offerPrice.value < budget && r.message in CounterTemplates(r.offerPrice.value))
  {
    MidRangeCounterBounds(price, budget);
  }

  /** The mid-range counter can be above the seller's own price: with a
      budget of 1000 and an offer of 900, the buyer counters at 950. */
  lemma MidRangeCounterAboveAsk(round: nat, isUrgent: bool, choice: TemplateIndex)
    requires round < 3
    ensures var r := Decide(Some(900), 1000, round, false, isUrgent, choice);
      r.action == Counter && r.offerPrice == Some(950)
  {
    var price, budget := 900, 1000;
    GreatDealAgrees(price, budget);
    MidRangeCounterBounds(price, budget);
    assert ExactMidRangeCounter(price, budget) == 950 by {
      assert 93 * price / 100 == 837 && 95 * budget / 100 == 950;
    }
    MidRangeRule(price, budget, round, false, isUrgent, choice);
  }

  /** Above budget, an urgent offer within `budget * 1.1` is countered at
      `int(budget * 0.98)`, strictly below both the budget and the offer;
      below the limit that is 98% of the budget, rounded down. */
  lemma UrgentRule(price: nat, budget: int, round: nat, isFinal: bool, choice: TemplateIndex)
    requires budget > 0 && budget < price && WithinUrgentReach(price, budget)
    ensures var r := Decide(Some(price), budget, round, isFinal, true, choice);
      && r.action == Counter
      && r.offerPrice == Some(UrgentCounter(budget))
      && UrgentCounter(budget) < budget < price
    ensures budget < PriceLimit ==>
      UrgentCounter(budget) == ExactUrgentCounter(budget) && 10 * price <= 11 * budget
  {
    ScaledDown(budget, Point98);
    if budget < PriceLimit {
      UrgentCounterAgrees(budget);
      UrgentReachAgrees(price, budget);
    }
  }

  /** Below the limit the capped midpoint lies between the budget and 110%
      of it. */
  lemma StandardCounterBounds(price: nat, budget: nat)
    requires 0 < budget < price && budget < PriceLimit
    ensures StandardCounter(price, budget) == ExactStandardCounter(price, budget)
    ensures budget <= StandardCounter(price, budget)
    ensures 10 * StandardCounter(price, budget) <= 11 * budget
  {
    StandardCounterAgrees(price, budget);
  }

  /** Above budget otherwise: the buyer proposes the capped midpoint unless
      it reaches `budget * 1.1`, when it rejects; below the limit the
      proposal is at least the budget. */
  lemma StandardRule(price: nat, budget: int, round: nat, isFinal: bool, isUrgent: bool,
                     choice: TemplateIndex)
    requires budget > 0 && budget < price && !(isUrgent && WithinUrgentReach(price, budget))
    ensures var r := Decide(Some(price), budget, round, isFinal, isUrgent, choice);
      && (r.action == Reject <==> ReachesCeiling(StandardCounter(price, budget), budget))
      && (r.action != Reject ==>
            r.action == Counter && r.offerPrice == Some(StandardCounter(price, budget)) &&
            (budget < PriceLimit ==> budget <= r.offerPrice.value))
  {
    if budget < PriceLimit {
      StandardCounterBounds(price, budget);
    }
  }

  /** Below the limit no counter goes beyond 110% of the budget. */
  lemma CounterWithinTenPercent(price: Option<nat>, budget: int, round: nat, isFinal: bool,
                                isUrgent: bool, choice: TemplateIndex)
    requires 0 < budget < PriceLimit
    ensures var r := Decide(price, budget, round, isFinal, isUrgent, choice);
      r.action == Counter ==> 10 * r.offerPrice.value <= 11 * budget
  {
    var r := Decide(price, budget, round, isFinal, isUrgent, choice);
    if r.action == Counter {
      CeilingExactly(r.offerPrice.value, budget);
    }
  }

  /** Because the midpoint is truncated before it is compared with
      `budget * 1.1`, the standard path can reject only when 110% of the
      budget is a whole number, and then only if the float product lands
      on it exactly: below the limit it rejects exactly when the budget is
      a multiple of 10, the offer is at least 120% of the budget, and
      `budget * 1.1` rounds to 11 * budget / 10. */
  lemma RejectExactly(price: nat, budget: int, round: nat, isFinal: bool,
                      isUrgent: bool, choice: TemplateIndex)
    requires 0 < budget < PriceLimit && budget < price && !(isUrgent && WithinUrgentReach(price, budget))
    ensures Decide(Some(price), budget, round, isFinal, isUrgent, choice).action == Reject <==>
      budget % 10 == 0 && 10 * price >= 12 * budget &&
      Times(budget, OnePointOne) == 11 * budget / 10 * Unit
  {
    var c := StandardCounter(price, budget);
    StandardRule(price, budget, round, isFinal, isUrgent, choice);
    StandardCounterBounds(price, budget);
    CeilingExactly(c, budget);
    MidpointAtCeiling(price, budget);
  }

  /** The exact capped midpoint reaches 110% of the budget only when the
      budget is a multiple of 10 and the offer is at least 120% of it. */
  lemma MidpointAtCeiling(price: nat, budget: nat)
    requires 0 < budget < price
    ensures 10 * ExactStandardCounter(price, budget) <= 11 * budget
    ensures 10 * ExactStandardCounter(price, budget) == 11 * budget <==>
      budget % 10 == 0 && 10 * price >= 12 * budget
    ensures 10 * ExactStandardCounter(price, budget) == 11 * budget ==>
      ExactStandardCounter(price, budget) == 11 * budget / 10
  {
    var c := ExactStandardCounter(price, budget);
    var q, r := budget / 10, budget % 10;
    assert budget == 10 * q + r;
    if 10 * price >= 12 * budget {
      assert 22 * budget == 20 * (11 * q + r) + 2 * r;
      assert c == 11 * q + r;
    } else {
      assert 20 * c <= 10 * budget + 10 * price;
    }
  }

  /** With a budget of 100 and an offer of 150 the midpoint is 110, exactly
      110% of the budget, but `100 * 1.1` is 110.00000000000001: the buyer
      counters at 110 instead of rejecting. */
  lemma CounterAtExactCeiling(round: nat, isFinal: bool, choice: TemplateIndex)
    ensures var r := Decide(Some(150), 100, round, isFinal, false, choice);
      r.action == Counter && r.offerPrice == Some(110)
  {
    var price, budget := 150, 100;
    StandardCounterBounds(price, budget);
    assert ExactStandardCounter(price, budget) == 110 by {
      assert Min(10 * price, 12 * budget) == 1200;
    }
    CeilingAtHundred();
    StandardRule(price, budget, round, isFinal, false, choice);
  }
}
