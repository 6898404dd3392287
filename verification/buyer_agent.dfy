/** The buyer agent as a value: its product and budget as constructed, the
    round counter and the memory trace. `negotiate` becomes a transition
    from one agent value to the next, and a session is a sequence of such
    calls. A call can raise: `int()` refuses a price of too many digits
    after the round has been counted and the seller's message stored, and
    the agent keeps that state for the session's next call. */
module BuyerAgent {
  import opened Wrappers
  import opened Text
  import opened PriceParser
  import opened Negotiation
  import opened Thresholds

  /** `YourBuyerAgent`: `product`, `budget`, `negotiation_rounds` and the
      memory module, kept as the list of stored document texts. */
  datatype Agent = Agent(product: string, budget: int, rounds: nat, log: seq<string>)

  /** A freshly constructed agent: no rounds played, nothing remembered. */
  function NewAgent(product: string, budget: int): (a: Agent)
    ensures Traces(a, [])
  {
    Agent(product, budget, 0, [])
  }

  /** The memory record of the seller's message in a round. */
  function SellerRecord(round: nat, message: string): string {
    "Seller (Round " + NatToString(round) + "): " + message
  }

  /** The memory record of the buyer's reply. */
  function BuyerRecord(reply: string): string {
    "Buyer: " + reply
  }

  /** What a call gives back: the response, or the exception it raised. */
  type Outcome = Result<Response, ParseError>

  /** The agent after a call, and the call's outcome. */
  datatype Step = Step(agent: Agent, outcome: Outcome)

  /** `negotiate`: advance the round counter by one, record the seller's
      message under the new round, read the price. When `int()` raises, the
      call ends there: the round stays counted and the seller record stays
      stored, with no reply after it. Otherwise decide and record the reply.
      The decision uses the per-call `budget` argument, not the constructed
      one, and the `product` argument is not used at all. */
  function Negotiate(a: Agent, product: string, budget: int, sellerMessage: string,
                     choice: TemplateIndex): (s: Step)
    requires budget > 0
    ensures s.agent.rounds == a.rounds + 1
    ensures s.agent.product == a.product && s.agent.budget == a.budget
    ensures s.outcome.Failure? <==> ParsePrice(sellerMessage).Failure?
    ensures s.outcome.Failure? ==>
      s.outcome.error == ParsePrice(sellerMessage).error &&
      s.agent.log == a.log + [SellerRecord(s.agent.rounds, sellerMessage)]
    ensures s.outcome.Success? ==>
      s.agent.log == a.log + [SellerRecord(s.agent.rounds, sellerMessage), BuyerRecord(s.outcome.value.message)]
  {
    var round := a.rounds + 1;
    var stored := a.log + [SellerRecord(round, sellerMessage)];
    match ParsePrice(sellerMessage)
    case Failure(e) => Step(a.(rounds := round, log := stored), Failure(e))
    case Success(price) =>
      var response := Decide(price, budget, round, IsFinal(sellerMessage), IsUrgent(sellerMessage), choice);
      Step(a.(rounds := round, log := stored + [BuyerRecord(response.message)]), Success(response))
  }

  /** What one round leaves in memory: the seller's message, and the
      buyer's reply unless the call raised before replying. */
  datatype Turn = Turn(message: string, reply: Option<string>)

  /** The records one round adds to memory, under its round number. */
  function TurnRecords(round: nat, t: Turn): seq<string> {
    [SellerRecord(round, t.message)] + (if t.reply.Some? then [BuyerRecord(t.reply.value)] else [])
  }

  /** The memory trace of rounds 1 to |turns|, in round order. */
  function Trace(turns: seq<Turn>): seq<string>
    decreases |turns|
  {
    if |turns| == 0 then [] else Trace(turns[..|turns| - 1]) + TurnRecords(|turns|, turns[|turns| - 1])
  }

  /** The agent has played exactly these rounds and remembers exactly
      their records. */
  predicate Traces(a: Agent, turns: seq<Turn>) {
    a.rounds == |turns| && a.log == Trace(turns)
  }

  /** The round a call with this message and this outcome leaves behind. */
  function TurnOf(message: string, outcome: Outcome): Turn {
    Turn(message, if outcome.Success? then Some(outcome.value.message) else None)
  }

  /** Each call, answered or not, adds its own round to the trace: the
      memory stays the record of the rounds counted, in order. */
  lemma NegotiateExtendsTrace(a: Agent, product: string, budget: int,
                              sellerMessage: string, choice: TemplateIndex,
                              turns: seq<Turn>)
    requires budget > 0 && Traces(a, turns)
    ensures var s := Negotiate(a, product, budget, sellerMessage, choice);
      Traces(s.agent, turns + [TurnOf(sellerMessage, s.outcome)])
  {
    var s := Negotiate(a, product, budget, sellerMessage, choice);
    var t := turns + [TurnOf(sellerMessage, s.outcome)];
    assert t[..|t| - 1] == turns;
  }

  /** A budget main.py lets through to the agent. */
  type PositiveBudget = b: int | b > 0 witness 1

  /** One request of a session: the arguments main.py passes to `negotiate`,
      plus the template choice. */
  datatype Call = Call(product: string, budget: PositiveBudget, message: string, choice: TemplateIndex)

  /** The agent after a sequence of calls, and the outcomes in order. */
  datatype Session = Session(agent: Agent, outcomes: seq<Outcome>)

  /** A session: the calls applied one after another to the same agent,
      whether or not an earlier call raised. The round counter advances by
      exactly the number of calls, the trace grows by one or two records
      per call and keeps what it held. */
  function RunSession(a: Agent, calls: seq<Call>): (s: Session)
    ensures s.agent.rounds == a.rounds + |calls|
    ensures s.agent.product == a.product && s.agent.budget == a.budget
    ensures |s.outcomes| == |calls|
    ensures |a.log| + |calls| <= |s.agent.log| <= |a.log| + 2 * |calls|
    ensures s.agent.log[..|a.log|] == a.log
    decreases |calls|
  {
    if |calls| == 0 then Session(a, [])
    else
      var c := calls[0];
      var step := Negotiate(a, c.product, c.budget, c.message, c.choice);
      var rest := RunSession(step.agent, calls[1..]);
      assert rest.agent.log[..|a.log|] == rest.agent.log[..|step.agent.log|][..|a.log|];
      Session(rest.agent, [step.outcome] + rest.outcomes)
  }

  /** What `negotiate` gives back on a call in a given round. */
  function Reply(c: Call, round: nat): Outcome
  {
    match ParsePrice(c.message)
    case Failure(e) => Failure(e)
    case Success(price) =>
      Success(Decide(price, c.budget, round, IsFinal(c.message), IsUrgent(c.message), c.choice))
  }

  /** A non-empty session is its first call followed by the rest. */
  lemma SessionFirstCall(a: Agent, calls: seq<Call>)
    requires |calls| > 0
    ensures var step := Negotiate(a, calls[0].product, calls[0].budget, calls[0].message, calls[0].choice);
      && step.agent.rounds == a.rounds + 1
      && step.outcome == Reply(calls[0], a.rounds + 1)
      && RunSession(a, calls).outcomes == [step.outcome] + RunSession(step.agent, calls[1..]).outcomes
  {
  }

  /** Past the first call, a session's outcomes are those of the rest of
      the session, run on the agent the first call leaves behind. */
  lemma SessionResponseShift(a: Agent, calls: seq<Call>, i: nat)
    requires 0 < i < |calls|
    ensures var step := Negotiate(a, calls[0].product, calls[0].budget, calls[0].message, calls[0].choice);
      && step.agent.rounds == a.rounds + 1
      && calls[1..][i - 1] == calls[i]
      && RunSession(a, calls).outcomes[i] == RunSession(step.agent, calls[1..]).outcomes[i - 1]
  {
    SessionFirstCall(a, calls);
  }

  /** The i-th outcome of a session is what the i-th message gets in round
      `a.rounds + i + 1`: earlier calls, answered or not, matter only
      through the round counter. */
  lemma {:induction false} SessionResponseAt(a: Agent, calls: seq<Call>, i: nat, round: nat)
    requires i < |calls| && round == a.rounds + i + 1
    ensures RunSession(a, calls).outcomes[i] == Reply(calls[i], round)
    decreases i
  {
    if i == 0 {
      SessionFirstCall(a, calls);
    } else {
      var c := calls[0];
      SessionResponseShift(a, calls, i);
      SessionResponseAt(Negotiate(a, c.product, c.budget, c.message, c.choice).agent, calls[1..], i - 1, round);
    }
  }

  /** The rounds a session leaves in memory, one per call. */
  function SessionTurns(calls: seq<Call>, outcomes: seq<Outcome>): (ts: seq<Turn>)
    requires |outcomes| == |calls|
    ensures |ts| == |calls|
    decreases |calls|
  {
    if |calls| == 0 then []
    else [TurnOf(calls[0].message, outcomes[0])] + SessionTurns(calls[1..], outcomes[1..])
  }

  /** After a session the memory is the trace of the rounds before it
      followed by one round per call: the seller's message, then the reply
      unless that call raised. */
  lemma {:induction false} SessionExtendsTrace(a: Agent, calls: seq<Call>, turns: seq<Turn>)
    requires Traces(a, turns)
    ensures var s := RunSession(a, calls);
      Traces(s.agent, turns + SessionTurns(calls, s.outcomes))
    decreases |calls|
  {
    if |calls| == 0 {
      assert turns + [] == turns;
    } else {
      var c := calls[0];
      var step := Negotiate(a, c.product, c.budget, c.message, c.choice);
      var rest := RunSession(step.agent, calls[1..]);
      SessionFirstCall(a, calls);
      NegotiateExtendsTrace(a, c.product, c.budget, c.message, c.choice, turns);
      SessionExtendsTrace(step.agent, calls[1..], turns + [TurnOf(c.message, step.outcome)]);
      TurnsAppend(turns, calls, step.outcome, rest.outcomes);
    }
  }

  lemma TurnsAppend(turns: seq<Turn>, calls: seq<Call>, first: Outcome, rest: seq<Outcome>)
    requires |calls| == |rest| + 1
    ensures turns + [TurnOf(calls[0].message, first)] + SessionTurns(calls[1..], rest)
         == turns + SessionTurns(calls, [first] + rest)
  {
    assert ([first] + rest)[1..] == rest;
  }

  /** A mid-range, non-final offer is answered: countered before round 3
      and accepted at the seller's price from round 3 on. */
  predicate EscalatesAt(r: Outcome, round: nat, price: nat) {
    && r.Success?
    && (r.value.action == Accept <==> round >= 3)
    && (r.value.action == Counter <==> round < 3)
    && (r.value.action == Accept ==> r.value.offerPrice == Some(price))
  }

  lemma MidRangeReply(c: Call, round: nat, price: nat)
    requires 0 < price && !IsGreatDeal(price, c.budget) && price <= c.budget
    requires ParsePrice(c.message) == Success(Some(price)) && !IsFinal(c.message)
    ensures EscalatesAt(Reply(c, round), round, price)
  {
    MidRangeRule(price, c.budget, round, false, IsUrgent(c.message), c.choice);
  }

  /** The same mid-range, non-final offer, repeated: countered until the
      round counter reaches 3, accepted at the seller's price from then on. */
  lemma MidRangeEscalation(a: Agent, calls: seq<Call>, price: nat, budget: int)
    requires budget > 0 && 0 < price && !IsGreatDeal(price, budget) && price <= budget
    requires forall i :: 0 <= i < |calls| ==>
      calls[i].budget == budget && ParsePrice(calls[i].message) == Success(Some(price)) && !IsFinal(calls[i].message)
    ensures var s := RunSession(a, calls);
      forall i :: 0 <= i < |calls| ==> EscalatesAt(s.outcomes[i], a.rounds + i + 1, price)
  {
    var s := RunSession(a, calls);
    forall i | 0 <= i < |calls|
      ensures EscalatesAt(s.outcomes[i], a.rounds + i + 1, price)
    {
      SessionResponseAt(a, calls, i, a.rounds + i + 1);
      MidRangeReply(calls[i], a.rounds + i + 1, price);
    }
  }

  /** A fresh agent sent the same mid-range, non-final offer three times
      counters twice and accepts the third time, after exactly 3 rounds. */
  lemma ThirdMidRangeCallAccepts(product: string, budget: int, message: string, price: nat,
                                 c0: TemplateIndex, c1: TemplateIndex, c2: TemplateIndex)
    requires budget > 0 && 0 < price && !IsGreatDeal(price, budget) && price <= budget
    requires ParsePrice(message) == Success(Some(price)) && !IsFinal(message)
    ensures var s := RunSession(NewAgent(product, budget),
                                [Call(product, budget, message, c0), Call(product, budget, message, c1),
                                 Call(product, budget, message, c2)]);
      && s.agent.rounds == 3
      && s.outcomes[0].Success? && s.outcomes[0].value.action == Counter
      && s.outcomes[1].Success? && s.outcomes[1].value.action == Counter
      && s.outcomes[2].Success? && s.outcomes[2].value.action == Accept
      && s.outcomes[2].value.offerPrice == Some(price)
  {
    var calls := [Call(product, budget, message, c0), Call(product, budget, message, c1),
                  Call(product, budget, message, c2)];
    var a := NewAgent(product, budget);
    SessionResponseAt(a, calls, 0, 1);
    MidRangeReply(calls[0], 1, price);
    SessionResponseAt(a, calls, 1, 2);
    MidRangeReply(calls[1], 2, price);
    SessionResponseAt(a, calls, 2, 3);
    MidRangeReply(calls[2], 3, price);
  }

  /** Calls that raise still count as rounds: after two messages whose
      price `int()` refuses, a fresh agent accepts a mid-range, non-final
      offer at once, since it arrives in round 3. */
  lemma FailedCallsCountAsRounds(product: string, budget: int, bad: string, message: string, price: nat,
                                 c0: TemplateIndex, c1: TemplateIndex, c2: TemplateIndex)
    requires budget > 0 && 0 < price && !IsGreatDeal(price, budget) && price <= budget
    requires ParsePrice(bad).Failure?
    requires ParsePrice(message) == Success(Some(price)) && !IsFinal(message)
    ensures var s := RunSession(NewAgent(product, budget),
                                [Call(product, budget, bad, c0), Call(product, budget, bad, c1),
                                 Call(product, budget, message, c2)]);
      && s.agent.rounds == 3
      && s.outcomes[0].Failure? && s.outcomes[1].Failure?
      && s.outcomes[2].Success? && s.outcomes[2].value.action == Accept
      && s.outcomes[2].value.offerPrice == Some(price)
  {
    var calls := [Call(product, budget, bad, c0), Call(product, budget, bad, c1),
                  Call(product, budget, message, c2)];
    var a := NewAgent(product, budget);
    SessionResponseAt(a, calls, 0, 1);
    SessionResponseAt(a, calls, 1, 2);
    SessionResponseAt(a, calls, 2, 3);
    MidRangeReply(calls[2], 3, price);
  }

  /** A seller message whose numeral, with its commas dropped, runs past
      4300 digits makes the call raise: the round is counted and the
      seller's message stored, and no reply follows it in memory. */
  lemma OverlongPriceScenario(a: Agent, product: string, budget: int, prefix: string, lead: string,
                              groups: seq<string>, rest: string, choice: TemplateIndex)
    requires budget > 0 && NoDigits(prefix)
    requires 1 <= |lead| <= 3 && AllDigits(lead) && AreGroups(groups)
    requires !IsGroupAt(rest, 0)
    requires |lead| + 3 * |groups| > IntMaxStrDigits
    ensures var m := prefix + lead + Grouped(groups) + rest;
      var s := Negotiate(a, product, budget, m, choice);
      && s.outcome.Failure? && s.outcome.error == TooManyDigits(|lead| + 3 * |groups|)
      && s.agent.rounds == a.rounds + 1
      && s.agent.log == a.log + [SellerRecord(a.rounds + 1, m)]
  {
    var m := prefix + lead + Grouped(groups) + rest;
    OverlongNumeral(prefix, lead, groups, rest);
    RaisingCall(a, product, budget, m, choice, TooManyDigits(|lead| + 3 * |groups|));
  }

  lemma RaisingCall(a: Agent, product: string, budget: int, m: string, choice: TemplateIndex, e: ParseError)
    requires budget > 0 && ParsePrice(m).Failure? && ParsePrice(m).error == e
    ensures var s := Negotiate(a, product, budget, m, choice);
      && s.outcome.Failure? && s.outcome.error == e
      && s.agent.rounds == a.rounds + 1
      && s.agent.log == a.log + [SellerRecord(a.rounds + 1, m)]
  {
  }

  /** A seller asking 1,200 against a budget of 1000, whatever words stand
      around the price (as in "I can offer rs 1,200, need it soon"): the
      price is read as 1200, the offer is beyond the urgent reach, the
      capped midpoint 1100 reaches the ceiling, since `1000 * 1.1` is
      exactly 1100.0, and the buyer rejects, in any round. */
  lemma OverBudgetScenario(a: Agent, product: string, prefix: string, rest: string, choice: TemplateIndex)
    requires NoDigits(prefix) && !IsGroupAt(rest, 0)
    ensures var s := Negotiate(a, product, 1000, prefix + "1,200" + rest, choice);
      && s.outcome.Success?
      && s.outcome.value.action == Reject && s.outcome.value.offerPrice == None
      && s.agent.rounds == a.rounds + 1
  {
    var m := prefix + "1,200" + rest;
    var price, budget := 1200, 1000;
    TwelveHundredExample(prefix, rest);
    UrgentReachAgrees(price, budget);
    StandardCounterBounds(price, budget);
    assert StandardCounter(price, budget) == 1100 by {
      assert Min(10 * price, 12 * budget) == 12000;
    }
    CeilingAtThousand();
    StandardRule(price, budget, a.rounds + 1, IsFinal(m), IsUrgent(m), choice);
  }

  /** "Final offer: 950", and whatever follows it that does not continue the
      numeral, against a budget of 1000: a final offer within budget that
      is no great deal is accepted at 950, in any round. */
  lemma FinalOfferScenario(a: Agent, product: string, rest: string, choice: TemplateIndex)
    requires !IsGroupAt(rest, 0)
    ensures var s := Negotiate(a, product, 1000, "Final offer: " + "950" + rest, choice);
      s.outcome.Success? && s.outcome.value.action == Accept && s.outcome.value.offerPrice == Some(950)
  {
    var prefix := "Final offer: ";
    var m := prefix + "950" + rest;
    var price, budget := 950, 1000;
    assert NoDigits(prefix) by {
      assert forall i :: 0 <= i < |prefix| ==> !IsDigit(prefix[i]);
    }
    NineFiftyExample(prefix, rest);
    assert m[..5] == "Final";
    OpensFinal(m);
    GreatDealAgrees(price, budget);
    MidRangeRule(price, budget, a.rounds + 1, true, IsUrgent(m), choice);
  }
}
