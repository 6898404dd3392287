/** The buyer's price extractor: one `re.search` of the pattern
    `(?:₹|rs|inr)?\s*(\d{1,3}(?:,\d{3})*)` over the lower-cased message,
    whose group 1, with its commas dropped, is read as a decimal integer
    by `int()`, which refuses a string of more than 4300 digits.

    The search is modelled the way a backtracking matcher runs it: start
    positions from left to right; at each, the marker alternatives in
    order and then no marker, greedy whitespace, then the numeral. The
    lemmas below show what that amounts to: the numeral always starts at
    the first digit of the message, so the marker never changes the value. */
module PriceParser {
  import opened Wrappers
  import opened Text

  /** The alternatives of `(?:₹|rs|inr)?`, in the order they are tried;
      the empty string is the `?` choosing no marker. */
  const MarkerAlternatives: seq<string> := ["\U{20B9}", "rs", "inr", ""]

  /** ASCII whitespace matched by `\s`. */
  predicate IsSpace(c: char) {
    c == ' ' || c == '\t' || c == '\n' || c == '\r' || c == '\U{0B}' || c == '\U{0C}'
  }

  predicate NoDigits(s: string) {
    forall i :: 0 <= i < |s| ==> !IsDigit(s[i])
  }

  predicate StartsAt(s: string, i: nat, w: string) {
    i + |w| <= |s| && s[i..i + |w|] == w
  }

  /** Greedy `\s*` from position j: the first position that is not whitespace. */
  function SkipSpaces(s: string, j: nat): (k: nat)
    requires j <= |s|
    ensures j <= k <= |s|
    ensures forall m :: j <= m < k ==> IsSpace(s[m])
    ensures k == |s| || !IsSpace(s[k])
    decreases |s| - j
  {
    if j < |s| && IsSpace(s[j]) then SkipSpaces(s, j + 1) else j
  }

  /** The pattern tried at position i with the given marker alternatives:
      where group 1 begins, if some alternative leads to a digit. Backing
      off the greedy `\s*` cannot help, since it would leave a space, not a
      digit, in front of `\d`. */
  function TryAlternatives(s: string, i: nat, alts: seq<string>): (r: Option<nat>)
    requires i <= |s|
    requires forall a :: a in alts ==> NoDigits(a)
    ensures r.Some? ==> i <= r.value < |s| && IsDigit(s[r.value])
    ensures r.Some? ==> forall m :: i <= m < r.value ==> !IsDigit(s[m])
  {
    if |alts| == 0 then None
    else
      var a := alts[0];
      assert a in alts;
      if StartsAt(s, i, a) && SkipSpaces(s, i + |a|) < |s| && IsDigit(s[SkipSpaces(s, i + |a|)]) then
        var k := SkipSpaces(s, i + |a|);
        assert NoDigits(a);
        assert forall m :: i <= m < i + |a| ==> s[m] == a[m - i] && !IsDigit(a[m - i]) by {
          assert s[i..i + |a|] == a;
        }
        Some(k)
      else
        assert forall b :: b in alts[1..] ==> b in alts;
        TryAlternatives(s, i, alts[1..])
  }

  /** The whole pattern tried at one start position. */
  function MatchAt(s: string, i: nat): (r: Option<nat>)
    requires i <= |s|
    ensures r.Some? ==> i <= r.value < |s| && IsDigit(s[r.value])
    ensures r.Some? ==> forall m :: i <= m < r.value ==> !IsDigit(s[m])
  {
    assert forall a :: a in MarkerAlternatives ==> NoDigits(a) by {
      assert !IsDigit('\U{20B9}');
    }
    TryAlternatives(s, i, MarkerAlternatives)
  }

  /** End of the greedy `\d{1,3}` that starts at the digit at k. */
  function LeadEnd(s: string, k: nat): (e: nat)
    requires k < |s| && IsDigit(s[k])
    ensures k < e <= k + 3 && e <= |s|
    ensures forall m :: k <= m < e ==> IsDigit(s[m])
    ensures e < k + 3 ==> e == |s| || !IsDigit(s[e])
  {
    if k + 1 < |s| && IsDigit(s[k + 1]) then
      if k + 2 < |s| && IsDigit(s[k + 2]) then k + 3 else k + 2
    else k + 1
  }

  /** One `,\d{3}` group starts at j. */
  predicate IsGroupAt(s: string, j: nat) {
    j + 4 <= |s| && s[j] == ',' && IsDigit(s[j + 1]) && IsDigit(s[j + 2]) && IsDigit(s[j + 3])
  }

  /** End of the greedy `(?:,\d{3})*` from j. */
  function GroupsEnd(s: string, j: nat): (e: nat)
    requires j <= |s|
    ensures j <= e <= |s| && (e - j) % 4 == 0
    ensures forall m :: j <= m < e ==> IsDigit(s[m]) || s[m] == ','
    ensures !IsGroupAt(s, e)
    decreases |s| - j
  {
    if IsGroupAt(s, j) then GroupsEnd(s, j + 4) else j
  }

  /** End of group 1 when it starts at the digit at k. */
  function NumeralEnd(s: string, k: nat): (e: nat)
    requires k < |s| && IsDigit(s[k])
    ensures k < e <= |s|
    ensures forall m :: k <= m < e ==> IsDigit(s[m]) || s[m] == ','
  {
    GroupsEnd(s, LeadEnd(s, k))
  }

  /** `str.replace(",", "")`. */
  function RemoveCommas(t: string): (r: string)
    ensures (forall i :: 0 <= i < |t| ==> IsDigit(t[i]) || t[i] == ',') ==> AllDigits(r)
  {
    if |t| == 0 then ""
    else (if t[0] == ',' then "" else [t[0]]) + RemoveCommas(t[1..])
  }

  /** The digits of the numeral that starts at the digit at k: group 1 read
      from there, commas dropped, the string handed to `int()`. */
  function NumeralDigits(s: string, k: nat): (ds: string)
    requires k < |s| && IsDigit(s[k])
    ensures AllDigits(ds)
  {
    RemoveCommas(s[k..NumeralEnd(s, k)])
  }

  /** CPython's default bound on the number of digits `int()` converts from
      a decimal string (`sys.get_int_max_str_digits()`). CPython 3.11, and
      the 3.7.14, 3.8.14, 3.9.14 and 3.10.7 security releases, have this
      default; older interpreters have no limit. */
  const IntMaxStrDigits: nat := 4300

  /** The ValueError `int()` raises on a longer string; it reports the
      number of digits, leading zeros included. */
  datatype ParseError = TooManyDigits(digits: nat)

  /** `int(ds)` on a string of decimal digits, returned as a price. */
  function ReadPrice(ds: string): Result<Option<nat>, ParseError>
    requires AllDigits(ds)
  {
    if |ds| > IntMaxStrDigits then Failure(TooManyDigits(|ds|)) else Success(Some(DecimalValue(ds)))
  }

  /** `re.search`: the span of group 1 at the leftmost start position from i
      where the pattern matches. */
  function Search(s: string, i: nat): (r: Option<(nat, nat)>)
    requires i <= |s|
    ensures r.Some? ==> i <= r.value.0 < r.value.1 <= |s| && IsDigit(s[r.value.0])
    ensures r.Some? ==> forall m :: r.value.0 <= m < r.value.1 ==> IsDigit(s[m]) || s[m] == ','
    decreases |s| - i
  {
    match MatchAt(s, i)
    case Some(k) => Some((k, NumeralEnd(s, k)))
    case None => if i == |s| then None else Search(s, i + 1)
  }

  /** At a digit the pattern matches with no marker and no whitespace. */
  lemma MatchAtDigit(s: string, i: nat)
    requires i < |s| && IsDigit(s[i])
    ensures MatchAt(s, i) == Some(i)
  {
    assert !StartsAt(s, i, "\U{20B9}") by { assert s[i..i + 1][0] == s[i]; }
    assert !StartsAt(s, i, "rs") by { if i + 2 <= |s| { assert s[i..i + 2][0] == s[i]; } }
    assert !StartsAt(s, i, "inr") by { if i + 3 <= |s| { assert s[i..i + 3][0] == s[i]; } }
    assert StartsAt(s, i, "");
    var alts := MarkerAlternatives;
    assert TryAlternatives(s, i, alts) == TryAlternatives(s, i, alts[1..]);
    assert TryAlternatives(s, i, alts[1..]) == TryAlternatives(s, i, alts[2..]);
    assert TryAlternatives(s, i, alts[2..]) == TryAlternatives(s, i, alts[3..]);
    assert alts[3..][0] == "";
  }

  /** With no digit from i on, the search finds nothing. */
  lemma {:induction false} SearchWithoutDigit(s: string, i: nat)
    requires i <= |s|
    requires forall m :: i <= m < |s| ==> !IsDigit(s[m])
    ensures Search(s, i) == None
    decreases |s| - i
  {
    if i < |s| {
      SearchWithoutDigit(s, i + 1);
    }
  }

  /** Whatever marker and whitespace the match at an earlier start position
      consumes, group 1 begins at the first digit d at or after i. */
  lemma {:induction false} SearchFindsFirstDigit(s: string, i: nat, d: nat)
    requires i <= d < |s| && IsDigit(s[d])
    requires forall m :: i <= m < d ==> !IsDigit(s[m])
    ensures Search(s, i) == Some((d, NumeralEnd(s, d)))
    decreases d - i
  {
    match MatchAt(s, i)
    case Some(k) =>
    case None =>
      if i == d {
        MatchAtDigit(s, d);
      } else {
        SearchFindsFirstDigit(s, i + 1, d);
      }
  }

  /** Two strings that agree on every digit and comma have the same groups. */
  predicate SameNumerals(s: string, t: string) {
    |s| == |t| &&
    forall m :: 0 <= m < |s| ==> (IsDigit(s[m]) || s[m] == ',' || IsDigit(t[m]) || t[m] == ',' ==> s[m] == t[m])
  }

  lemma {:induction false} GroupsEndAgree(s: string, t: string, j: nat)
    requires SameNumerals(s, t) && j <= |s|
    ensures GroupsEnd(s, j) == GroupsEnd(t, j)
    decreases |s| - j
  {
    if IsGroupAt(s, j) || IsGroupAt(t, j) {
      assert IsGroupAt(s, j) && IsGroupAt(t, j);
      GroupsEndAgree(s, t, j + 4);
    }
  }

  lemma NumeralAgree(s: string, t: string, k: nat)
    requires SameNumerals(s, t) && k < |s| && IsDigit(s[k])
    ensures IsDigit(t[k]) && NumeralEnd(s, k) == NumeralEnd(t, k)
    ensures s[k..NumeralEnd(s, k)] == t[k..NumeralEnd(t, k)]
  {
    GroupsEndAgree(s, t, LeadEnd(s, k));
  }

  lemma LowerSameNumerals(s: string)
    ensures SameNumerals(Lower(s), s)
  {
  }

  /** `_parse_price`: lower-case the message, search, drop the commas of
      group 1 and read it with `int()`; no match gives no price, and a
      numeral of too many digits raises. */
  function ParsePrice(message: string): Result<Option<nat>, ParseError> {
    var s := Lower(message);
    match Search(s, 0)
    case None => Success(None)
    case Some(span) => ReadPrice(RemoveCommas(s[span.0..span.1]))
  }

  /** The numeral that starts at the first digit of a text, if it has one,
      read with `int()`. */
  function FirstNumeral(message: string): (r: Result<Option<nat>, ParseError>)
    ensures r == Success(None) <==> !HasDigit(message)
  {
    if HasDigit(message) then ReadPrice(NumeralDigits(message, FirstDigit(message))) else Success(None)
  }

  /** The regular-expression search amounts to reading the first numeral:
      there is no price exactly when the message holds no digit, and
      otherwise the outcome is that of `int()` on the numeral that starts
      at the first digit of the message, as written. */
  lemma ParsePriceReadsFirstDigit(message: string)
    ensures ParsePrice(message) == FirstNumeral(message)
  {
    var s := Lower(message);
    LowerSameNumerals(message);
    if !HasDigit(message) {
      SearchWithoutDigit(s, 0);
    } else {
      var d := FirstDigit(message);
      SearchFindsFirstDigit(s, 0, d);
      NumeralAgree(s, message, d);
    }
  }

  /** `_parse_price` gives no price exactly when the message holds no digit:
      every digit leads to a price or to the digit-limit error. */
  lemma NoPriceWithoutDigit(message: string)
    ensures ParsePrice(message) == Success(None) <==> !HasDigit(message)
  {
    ParsePriceReadsFirstDigit(message);
  }

  /** The leftmost digit is the unique digit with none before it. */
  lemma FirstDigitUnique(s: string, k: nat)
    requires k < |s| && IsDigit(s[k])
    requires forall m :: 0 <= m < k ==> !IsDigit(s[m])
    ensures HasDigit(s) && FirstDigit(s) == k
  {
  }

  lemma {:induction false} GroupsEndShift(p: string, s: string, j: nat)
    requires j <= |s|
    ensures GroupsEnd(p + s, |p| + j) == |p| + GroupsEnd(s, j)
    decreases |s| - j
  {
    var t := p + s;
    assert forall m :: 0 <= m < |s| ==> t[|p| + m] == s[m];
    assert IsGroupAt(t, |p| + j) == IsGroupAt(s, j);
    if IsGroupAt(s, j) {
      GroupsEndShift(p, s, j + 4);
    }
  }

  /** A numeral reads the same whatever text stands in front of it. */
  lemma NumeralShift(p: string, s: string, k: nat)
    requires k < |s| && IsDigit(s[k])
    ensures (p + s)[|p| + k] == s[k]
    ensures NumeralEnd(p + s, |p| + k) == |p| + NumeralEnd(s, k)
    ensures NumeralDigits(p + s, |p| + k) == NumeralDigits(s, k)
  {
    LeadEndShift(p, s, k);
    GroupsEndShift(p, s, LeadEnd(s, k));
    SliceShift(p, s, k, NumeralEnd(s, k));
  }

  lemma LeadEndShift(p: string, s: string, k: nat)
    requires k < |s| && IsDigit(s[k])
    ensures (p + s)[|p| + k] == s[k]
    ensures LeadEnd(p + s, |p| + k) == |p| + LeadEnd(s, k)
  {
    var t := p + s;
    assert forall m :: 0 <= m < |s| ==> t[|p| + m] == s[m];
  }

  lemma SliceShift(p: string, s: string, i: nat, j: nat)
    requires i <= j <= |s|
    ensures (p + s)[|p| + i..|p| + j] == s[i..j]
  {
  }

  /** Behind a digit-free prefix, the first digit is the first digit of
      what follows, shifted. */
  lemma FirstDigitShift(prefix: string, rest: string)
    requires NoDigits(prefix)
    ensures HasDigit(prefix + rest) <==> HasDigit(rest)
    ensures HasDigit(rest) ==> FirstDigit(prefix + rest) == |prefix| + FirstDigit(rest)
  {
    var t := prefix + rest;
    if HasDigit(rest) {
      var k := FirstDigit(rest);
      assert t[|prefix| + k] == rest[k];
      assert forall m :: 0 <= m < |prefix| + k ==> !IsDigit(t[m]) by {
        forall m | 0 <= m < |prefix| + k
          ensures !IsDigit(t[m])
        {
          if m >= |prefix| {
            assert t[m] == rest[m - |prefix|];
          }
        }
      }
      FirstDigitUnique(t, |prefix| + k);
    } else {
      assert forall m :: 0 <= m < |t| ==> !IsDigit(t[m]) by {
        forall m | 0 <= m < |t|
          ensures !IsDigit(t[m])
        {
          if m >= |prefix| {
            assert t[m] == rest[m - |prefix|];
          }
        }
      }
    }
  }

  /** A digit-free prefix (a currency marker, whitespace, any words) never
      changes the extracted price. */
  lemma MarkerNeverChangesPrice(prefix: string, rest: string)
    requires NoDigits(prefix)
    ensures ParsePrice(prefix + rest) == ParsePrice(rest)
  {
    ParsePriceReadsFirstDigit(prefix + rest);
    ParsePriceReadsFirstDigit(rest);
    FirstNumeralShift(prefix, rest);
  }

  lemma FirstNumeralShift(prefix: string, rest: string)
    requires NoDigits(prefix)
    ensures FirstNumeral(prefix + rest) == FirstNumeral(rest)
  {
    FirstDigitShift(prefix, rest);
    if HasDigit(rest) {
      NumeralShift(prefix, rest, FirstDigit(rest));
    }
  }

  /** Three-digit groups, as `,\d{3}` repeats them. */
  predicate AreGroups(groups: seq<string>) {
    forall g :: g in groups ==> |g| == 3 && AllDigits(g)
  }

  /** The groups written with their separating commas. */
  function Grouped(groups: seq<string>): (r: string)
    requires AreGroups(groups)
    ensures |r| == 4 * |groups|
  {
    if |groups| == 0 then ""
    else
      assert groups[0] in groups;
      assert forall g :: g in groups[1..] ==> g in groups;
      "," + groups[0] + Grouped(groups[1..])
  }

  /** The groups' digits without commas. */
  function Ungrouped(groups: seq<string>): (r: string)
    requires AreGroups(groups)
    ensures AllDigits(r) && |r| == 3 * |groups|
  {
    if |groups| == 0 then ""
    else
      assert groups[0] in groups;
      assert forall g :: g in groups[1..] ==> g in groups;
      groups[0] + Ungrouped(groups[1..])
  }

  lemma {:induction false} RemoveCommasAppend(a: string, b: string)
    ensures RemoveCommas(a + b) == RemoveCommas(a) + RemoveCommas(b)
    decreases |a|
  {
    if |a| > 0 {
      assert (a + b)[1..] == a[1..] + b;
      RemoveCommasAppend(a[1..], b);
    } else {
      assert a + b == b;
    }
  }

  lemma {:induction false} RemoveCommasOfDigits(a: string)
    requires AllDigits(a)
    ensures RemoveCommas(a) == a
    decreases |a|
  {
    if |a| > 0 {
      RemoveCommasOfDigits(a[1..]);
      assert a == [a[0]] + a[1..];
    }
  }

  lemma {:induction false} RemoveCommasOfGrouped(groups: seq<string>)
    requires AreGroups(groups)
    ensures RemoveCommas(Grouped(groups)) == Ungrouped(groups)
    decreases |groups|
  {
    if |groups| > 0 {
      var g := groups[0];
      assert g in groups;
      assert forall h :: h in groups[1..] ==> h in groups;
      RemoveCommasOfGroup(g, Grouped(groups[1..]));
      RemoveCommasOfGrouped(groups[1..]);
    }
  }

  lemma RemoveCommasOfGroup(g: string, tail: string)
    requires AllDigits(g)
    ensures RemoveCommas("," + g + tail) == g + RemoveCommas(tail)
  {
    var t := "," + g + tail;
    assert t[0] == ',' && t[1..] == g + tail;
    RemoveCommasAppend(g, tail);
    RemoveCommasOfDigits(g);
  }

  /** `(?:,\d{3})*` consumes exactly the groups written at j when no
      further group follows them. */
  lemma {:induction false} GroupsEndOver(s: string, j: nat, groups: seq<string>)
    requires AreGroups(groups)
    requires StartsAt(s, j, Grouped(groups))
    requires !IsGroupAt(s, j + 4 * |groups|)
    ensures GroupsEnd(s, j) == j + 4 * |groups|
    decreases |groups|
  {
    if |groups| > 0 {
      FirstGroupAt(s, j, groups);
      GroupsEndOver(s, j + 4, groups[1..]);
    }
  }

  /** Text that spells out the groups starts with the first of them. */
  lemma FirstGroupAt(s: string, j: nat, groups: seq<string>)
    requires AreGroups(groups) && |groups| > 0
    requires StartsAt(s, j, Grouped(groups))
    ensures IsGroupAt(s, j)
    ensures AreGroups(groups[1..]) && StartsAt(s, j + 4, Grouped(groups[1..]))
  {
    assert groups[0] in groups;
    assert forall h :: h in groups[1..] ==> h in groups;
    GroupThenRest(s, j, groups[0], Grouped(groups[1..]));
  }

  lemma GroupThenRest(s: string, j: nat, g: string, rest: string)
    requires |g| == 3 && AllDigits(g)
    requires StartsAt(s, j, "," + g + rest)
    ensures IsGroupAt(s, j) && StartsAt(s, j + 4, rest)
  {
    var w := "," + g + rest;
    forall m | 0 <= m < |w|
      ensures s[j + m] == w[m]
    {
      assert s[j..j + |w|][m] == s[j + m];
    }
    assert w[0] == ',' && w[1] == g[0] && w[2] == g[1] && w[3] == g[2];
    assert w[4..] == rest;
    assert s[j + 4..j + |w|] == w[4..];
  }

  lemma LeadEndOver(lead: string, tail: string)
    requires 1 <= |lead| <= 3 && AllDigits(lead)
    requires |lead| < 3 ==> |tail| == 0 || !IsDigit(tail[0])
    ensures (lead + tail)[0] == lead[0]
    ensures LeadEnd(lead + tail, 0) == |lead|
  {
    var u := lead + tail;
    assert forall m :: 0 <= m < |lead| ==> u[m] == lead[m];
    if |lead| < 3 && |tail| > 0 {
      assert u[|lead|] == tail[0];
    }
  }

  /** The value of a numeral written as leading digits and groups. */
  lemma GroupedNumeralDigits(lead: string, groups: seq<string>, rest: string)
    requires 1 <= |lead| <= 3 && AllDigits(lead)
    requires AreGroups(groups)
    requires |lead| < 3 && |groups| == 0 ==> |rest| == 0 || !IsDigit(rest[0])
    requires !IsGroupAt(rest, 0)
    ensures IsDigit((lead + Grouped(groups) + rest)[0])
    ensures NumeralDigits(lead + Grouped(groups) + rest, 0) == lead + Ungrouped(groups)
  {
    var w := Grouped(groups);
    AppendAssociates(lead, w, rest);
    GroupedNumeralSpan(lead, groups, rest);
    RemoveCommasAppend(lead, w);
    RemoveCommasOfDigits(lead);
    RemoveCommasOfGrouped(groups);
  }

  /** The numeral spelled as leading digits and groups ends where the groups
      end. */
  lemma GroupedNumeralSpan(lead: string, groups: seq<string>, rest: string)
    requires 1 <= |lead| <= 3 && AllDigits(lead)
    requires AreGroups(groups)
    requires |lead| < 3 && |groups| == 0 ==> |rest| == 0 || !IsDigit(rest[0])
    requires !IsGroupAt(rest, 0)
    ensures IsDigit((lead + (Grouped(groups) + rest))[0])
    ensures var u := lead + (Grouped(groups) + rest);
      u[0..NumeralEnd(u, 0)] == lead + Grouped(groups)
  {
    var w := Grouped(groups);
    var u := lead + (w + rest);
    GroupedNumeralEnd(lead, groups, rest, u);
    FrontOfConcat(lead, w, rest);
  }

  lemma GroupedNumeralEnd(lead: string, groups: seq<string>, rest: string, u: string)
    requires 1 <= |lead| <= 3 && AllDigits(lead)
    requires AreGroups(groups)
    requires |lead| < 3 && |groups| == 0 ==> |rest| == 0 || !IsDigit(rest[0])
    requires !IsGroupAt(rest, 0)
    requires u == lead + (Grouped(groups) + rest)
    ensures IsDigit(u[0]) && NumeralEnd(u, 0) == |lead| + 4 * |groups|
  {
    var w := Grouped(groups);
    NumeralStartsWithLead(lead, groups, rest);
    GroupsFollowLead(lead, w, rest);
    GroupAtSuffix(u, |lead| + |w|, rest);
    GroupsEndOver(u, |lead|, groups);
  }

  /** The leading digits of such a numeral are exactly `lead`. */
  lemma NumeralStartsWithLead(lead: string, groups: seq<string>, rest: string)
    requires 1 <= |lead| <= 3 && AllDigits(lead)
    requires AreGroups(groups)
    requires |lead| < 3 && |groups| == 0 ==> |rest| == 0 || !IsDigit(rest[0])
    ensures var u := lead + (Grouped(groups) + rest);
      IsDigit(u[0]) && LeadEnd(u, 0) == |lead|
  {
    var w := Grouped(groups);
    var tail := w + rest;
    if |groups| > 0 {
      assert tail[0] == w[0] == ',';
    } else {
      assert tail == rest;
    }
    LeadEndOver(lead, tail);
  }

  lemma GroupsFollowLead(lead: string, w: string, rest: string)
    ensures StartsAt(lead + (w + rest), |lead|, w)
    ensures (lead + (w + rest))[|lead| + |w|..] == rest
  {
    var u := lead + (w + rest);
    assert u[|lead|..|lead| + |w|] == w;
  }

  /** Whether a group starts at k depends only on the text from k on. */
  lemma GroupAtSuffix(u: string, k: nat, rest: string)
    requires k <= |u| && u[k..] == rest
    ensures IsGroupAt(u, k) == IsGroupAt(rest, 0)
  {
    if k + 4 <= |u| {
      assert u[k] == rest[0] && u[k + 1] == rest[1] && u[k + 2] == rest[2] && u[k + 3] == rest[3];
    }
  }

  lemma FrontOfConcat(a: string, b: string, c: string)
    ensures (a + (b + c))[0..|a| + |b|] == a + b
  {
    assert (a + (b + c))[0..|a| + |b|] == (a + b + c)[0..|a| + |b|];
  }

  lemma AppendAssociates(a: string, b: string, c: string)
    ensures a + b + c == a + (b + c)
  {
  }

  /** Digit grouping: a numeral written as one to three leading digits and
      any number of `,ddd` groups is read as those digits with the commas
      removed, provided the text after it does not continue the pattern (a
      fourth leading digit is cut off, not read). Whatever digit-free text
      stands before it does not matter. Up to 4300 digits, leading zeros
      included, give that value as the price; more make `int()` raise. */
  lemma ReadsGroupedNumeral(prefix: string, lead: string, groups: seq<string>, rest: string)
    requires NoDigits(prefix)
    requires 1 <= |lead| <= 3 && AllDigits(lead)
    requires AreGroups(groups)
    requires |lead| < 3 && |groups| == 0 ==> |rest| == 0 || !IsDigit(rest[0])
    requires !IsGroupAt(rest, 0)
    ensures |lead| + 3 * |groups| <= IntMaxStrDigits ==>
      ParsePrice(prefix + lead + Grouped(groups) + rest) == Success(Some(DecimalValue(lead + Ungrouped(groups))))
    ensures |lead| + 3 * |groups| > IntMaxStrDigits ==>
      ParsePrice(prefix + lead + Grouped(groups) + rest) == Failure(TooManyDigits(|lead| + 3 * |groups|))
  {
    if |lead| + 3 * |groups| > IntMaxStrDigits {
      GroupedNumeralTooLong(prefix, lead, groups, rest);
    } else {
      GroupedNumeralFits(prefix, lead, groups, rest);
    }
  }

  /** A grouped numeral of more than 4300 digits makes `int()` raise,
      whatever its value. */
  lemma OverlongNumeral(prefix: string, lead: string, groups: seq<string>, rest: string)
    requires NoDigits(prefix)
    requires 1 <= |lead| <= 3 && AllDigits(lead)
    requires AreGroups(groups)
    requires !IsGroupAt(rest, 0)
    requires |lead| + 3 * |groups| > IntMaxStrDigits
    ensures ParsePrice(prefix + lead + Grouped(groups) + rest).Failure?
    ensures ParsePrice(prefix + lead + Grouped(groups) + rest).error == TooManyDigits(|lead| + 3 * |groups|)
  {
    GroupedNumeralTooLong(prefix, lead, groups, rest);
  }

  lemma GroupedNumeralFits(prefix: string, lead: string, groups: seq<string>, rest: string)
    requires NoDigits(prefix)
    requires 1 <= |lead| <= 3 && AllDigits(lead)
    requires AreGroups(groups)
    requires |lead| < 3 && |groups| == 0 ==> |rest| == 0 || !IsDigit(rest[0])
    requires !IsGroupAt(rest, 0)
    requires |lead| + 3 * |groups| <= IntMaxStrDigits
    ensures ParsePrice(prefix + lead + Grouped(groups) + rest) == Success(Some(DecimalValue(lead + Ungrouped(groups))))
  {
    DigitsAppend(lead, Ungrouped(groups));
    GroupedNumeralRead(prefix, lead, groups, rest);
  }

  lemma GroupedNumeralTooLong(prefix: string, lead: string, groups: seq<string>, rest: string)
    requires NoDigits(prefix)
    requires 1 <= |lead| <= 3 && AllDigits(lead)
    requires AreGroups(groups)
    requires |lead| < 3 && |groups| == 0 ==> |rest| == 0 || !IsDigit(rest[0])
    requires !IsGroupAt(rest, 0)
    requires |lead| + 3 * |groups| > IntMaxStrDigits
    ensures ParsePrice(prefix + lead + Grouped(groups) + rest).Failure?
    ensures ParsePrice(prefix + lead + Grouped(groups) + rest).error == TooManyDigits(|lead| + 3 * |groups|)
  {
    DigitsAppend(lead, Ungrouped(groups));
    GroupedNumeralRead(prefix, lead, groups, rest);
  }

  lemma DigitsAppend(a: string, b: string)
    requires AllDigits(a) && AllDigits(b)
    ensures AllDigits(a + b)
  {
    assert forall i :: |a| <= i < |a + b| ==> (a + b)[i] == b[i - |a|];
  }

  lemma GroupedNumeralRead(prefix: string, lead: string, groups: seq<string>, rest: string)
    requires NoDigits(prefix)
    requires 1 <= |lead| <= 3 && AllDigits(lead)
    requires AreGroups(groups)
    requires |lead| < 3 && |groups| == 0 ==> |rest| == 0 || !IsDigit(rest[0])
    requires !IsGroupAt(rest, 0)
    ensures ParsePrice(prefix + lead + Grouped(groups) + rest) == ReadPrice(lead + Ungrouped(groups))
  {
    var u := lead + Grouped(groups) + rest;
    AppendAssociates(prefix + lead, Grouped(groups), rest);
    AppendAssociates(prefix, lead, Grouped(groups) + rest);
    AppendAssociates(lead, Grouped(groups), rest);
    assert ParsePrice(prefix + u) == ParsePrice(u) by {
      MarkerNeverChangesPrice(prefix, u);
    }
    assert ParsePrice(u) == ReadPrice(lead + Ungrouped(groups)) by {
      GroupedNumeralDigits(lead, groups, rest);
      FirstDigitUnique(u, 0);
      ParsePriceReadsFirstDigit(u);
    }
  }

  lemma DecimalAppendDigit(ds: string, c: char)
    requires AllDigits(ds) && IsDigit(c)
    ensures AllDigits(ds + [c])
    ensures DecimalValue(ds + [c]) == 10 * DecimalValue(ds) + DigitValue(c)
  {
    assert (ds + [c])[..|ds|] == ds;
  }

  lemma DecimalLiterals()
    ensures DecimalValue("12") == 12
    ensures DecimalValue("123") == 123
    ensures DecimalValue("1234") == 1234
    ensures DecimalValue("1200") == 1200
    ensures DecimalValue("950") == 950
  {
    DecimalAppendDigit("1", '2');
    assert "1" + ['2'] == "12";
    DecimalAppendDigit("12", '3');
    assert "12" + ['3'] == "123";
    DecimalAppendDigit("123", '4');
    assert "123" + ['4'] == "1234";
    DecimalAppendDigit("12", '0');
    assert "12" + ['0'] == "120";
    DecimalAppendDigit("120", '0');
    assert "120" + ['0'] == "1200";
    DecimalAppendDigit("9", '5');
    assert "9" + ['5'] == "95";
    DecimalAppendDigit("95", '0');
    assert "95" + ['0'] == "950";
  }

  /** Behind a digit-free prefix, the price is the numeral at the start of
      what follows. */
  lemma ReadsAfterPrefix(prefix: string, t: string)
    requires NoDigits(prefix) && |t| > 0 && IsDigit(t[0])
    ensures ParsePrice(prefix + t) == ReadPrice(NumeralDigits(t, 0))
  {
    var u := prefix + t;
    assert u[|prefix|] == t[0];
    FirstDigitUnique(u, |prefix|);
    NumeralShift(prefix, t, 0);
    ParsePriceReadsFirstDigit(u);
  }

  /** A grouped thousands numeral is read whole, commas dropped. */
  lemma ThousandsExample(prefix: string)
    requires NoDigits(prefix)
    ensures ParsePrice(prefix + "1,234") == Success(Some(1234))
  {
    ReadsAfterPrefix(prefix, "1,234");
    ThousandsValue();
    DecimalLiterals();
  }

  lemma ThousandsValue()
    ensures IsDigit("1,234"[0]) && NumeralDigits("1,234", 0) == "1234"
  {
    assert NumeralEnd("1,234", 0) == 5;
    assert "1,234"[0..5] == "1,234";
    assert RemoveCommas("1,234") == "1234";
  }

  /** Digits after a complete group are not read. */
  lemma TrailingDigitExample(prefix: string)
    requires NoDigits(prefix)
    ensures ParsePrice(prefix + "1,2345") == Success(Some(1234))
  {
    ReadsAfterPrefix(prefix, "1,2345");
    TrailingDigitValue();
    DecimalLiterals();
  }

  lemma TrailingDigitValue()
    ensures IsDigit("1,2345"[0]) && NumeralDigits("1,2345", 0) == "1234"
  {
    TrailingDigitEnd();
    assert "1,2345"[0..5] == "1,234";
    CommaDropped();
  }

  lemma TrailingDigitEnd()
    ensures IsDigit("1,2345"[0]) && NumeralEnd("1,2345", 0) == 5
  {
  }

  lemma CommaDropped()
    ensures RemoveCommas("1,234") == "1234"
  {
  }

  /** Without a comma only three leading digits are read. */
  lemma UngroupedExample(prefix: string)
    requires NoDigits(prefix)
    ensures ParsePrice(prefix + "1234") == Success(Some(123))
  {
    ReadsAfterPrefix(prefix, "1234");
    UngroupedValue();
    DecimalLiterals();
  }

  lemma UngroupedValue()
    ensures IsDigit("1234"[0]) && NumeralDigits("1234", 0) == "123"
  {
    assert NumeralEnd("1234", 0) == 3;
    assert "1234"[0..3] == "123";
    assert RemoveCommas("123") == "123";
  }

  /** A comma not followed by three digits ends the numeral. */
  lemma ShortGroupExample(prefix: string)
    requires NoDigits(prefix)
    ensures ParsePrice(prefix + "12,34") == Success(Some(12))
  {
    ReadsAfterPrefix(prefix, "12,34");
    ShortGroupValue();
    DecimalLiterals();
  }

  lemma ShortGroupValue()
    ensures IsDigit("12,34"[0]) && NumeralDigits("12,34", 0) == "12"
  {
    assert NumeralEnd("12,34", 0) == 2;
    assert "12,34"[0..2] == "12";
    assert RemoveCommas("12") == "12";
  }

  /** The rupee sign, `rs` and an upper-case `INR` are digit-free, so each
      may stand before a price without changing it. */
  lemma RupeeSignExample(rest: string)
    ensures ParsePrice("\U{20B9}" + rest) == ParsePrice(rest)
  {
    MarkerNeverChangesPrice("\U{20B9}", rest);
  }

  lemma RsMarkerExample(rest: string)
    ensures ParsePrice("rs " + rest) == ParsePrice(rest)
  {
    var rs := "rs ";
    assert !IsDigit(rs[0]) && !IsDigit(rs[1]) && !IsDigit(rs[2]);
    MarkerNeverChangesPrice(rs, rest);
  }

  lemma InrMarkerExample(rest: string)
    ensures ParsePrice("INR " + rest) == ParsePrice(rest)
  {
    var inr := "INR ";
    assert !IsDigit(inr[0]) && !IsDigit(inr[1]) && !IsDigit(inr[2]) && !IsDigit(inr[3]);
    MarkerNeverChangesPrice(inr, rest);
  }

  /** "1,200" behind any digit-free text is read as 1200. */
  lemma TwelveHundredExample(prefix: string, rest: string)
    requires NoDigits(prefix) && !IsGroupAt(rest, 0)
    ensures ParsePrice(prefix + "1,200" + rest) == Success(Some(1200))
  {
    TwelveHundredGroups();
    ReadsGroupedNumeral(prefix, "1", ["200"], rest);
    assert prefix + "1" + Grouped(["200"]) == prefix + ("1" + Grouped(["200"]));
  }

  lemma TwelveHundredGroups()
    ensures AreGroups(["200"]) && "1" + Grouped(["200"]) == "1,200"
    ensures DecimalValue("1" + Ungrouped(["200"])) == 1200
  {
    assert AllDigits("200");
    assert Grouped(["200"]) == ",200";
    assert Ungrouped(["200"]) == "200";
    DecimalLiterals();
    assert "1" + "200" == "1200";
  }

  /** "950" behind any digit-free text is read as 950. */
  lemma NineFiftyExample(prefix: string, rest: string)
    requires NoDigits(prefix) && !IsGroupAt(rest, 0)
    ensures ParsePrice(prefix + "950" + rest) == Success(Some(950))
  {
    NineFiftyGroups();
    ReadsGroupedNumeral(prefix, "950", [], rest);
    assert prefix + "950" + Grouped([]) == prefix + ("950" + Grouped([]));
  }

  lemma NineFiftyGroups()
    ensures AreGroups([]) && "950" + Grouped([]) == "950"
    ensures DecimalValue("950" + Ungrouped([])) == 950
  {
    DecimalLiterals();
    assert "950" + "" == "950";
  }
}
