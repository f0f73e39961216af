/** Step 4 of the search function: the candidates are listed to the chat model
    numbered from 1, and its reply, a comma-separated list of those numbers,
    picks and orders the meals returned. */
module Rerank {
  import opened Wrappers
  import opened JsText
  import opened MealModel
  import opened MealFormat

  /** At most this many meals are returned. */
  const ResultLimit: nat := 10

  /** `String(x)` of `meal.restaurants?.name`: `undefined` without a
      restaurant row, `null` for a null name. */
  function RestaurantNameText(m: Meal): string {
    match m.restaurant
    case None => "undefined"
    case Some(r) => if r.name.Some? then r.name.value else "null"
  }

  /** `String(x)` of a nullable text column. */
  function NullableText(s: Option<string>): string {
    if s.Some? then s.value else "null"
  }

  /** What follows `N.` on a candidate's line. */
  function ListingText(m: Meal): string {
    " " + m.name + " (" + ListingDetails(m)
  }

  /** What follows the name on a candidate's line. */
  function ListingDetails(m: Meal): string {
    RestaurantNameText(m) + ") - " + NullableText(m.description)
      + " - $" + PriceText(m.priceCents) + " - " + TextOr(m.category, DefaultCategory)
  }

  /** The line listing candidate `i` (0-based) to the model. */
  function ListingLine(i: nat, m: Meal): string {
    NatToString(i + 1) + "." + ListingText(m)
  }

  /** The candidate lines, one per meal in retrieval order (joined by
      newlines into the prompt). */
  function Listing(meals: seq<Meal>): (lines: seq<string>)
    ensures |lines| == |meals|
  {
    seq(|meals|, i requires 0 <= i < |meals| => ListingLine(i, meals[i]))
  }

  /** Candidate `i` is listed under the number `i + 1`: `parseInt` of its line
      reads that number. */
  lemma ListingNumbers(meals: seq<Meal>, i: nat)
    requires i < |meals|
    ensures ParseInt(Listing(meals)[i]) == Some(i + 1)
  {
    assert Listing(meals)[i] == ListingLine(i, meals[i]);
    ListingLineNumber(i, meals[i]);
  }

  lemma ListingLineNumber(i: nat, m: Meal)
    ensures ParseInt(ListingLine(i, m)) == Some(i + 1)
  {
    var rest := "." + ListingText(m);
    assert rest[0] == '.';
    assert ListingLine(i, m) == NatToString(i + 1) + rest;
    ParseIntOfNumeral(i + 1, rest);
  }

  /** Candidate `i`'s line names it: after its number and ". " comes the
      candidate's name, followed by its restaurant in parentheses. */
  lemma ListingNames(meals: seq<Meal>, i: nat)
    requires i < |meals|
    ensures var line := Listing(meals)[i];
      var start := |NatToString(i + 1)| + 2;
      var end := start + |meals[i].name|;
      && end + 2 <= |line|
      && line[..start] == NatToString(i + 1) + ". "
      && line[start..end] == meals[i].name
      && line[end..end + 2] == " ("
  {
    assert Listing(meals)[i] == ListingLine(i, meals[i]);
    ListingLineName(i, meals[i]);
  }

  lemma ListingLineName(i: nat, m: Meal)
    ensures var line := ListingLine(i, m);
      var start := |NatToString(i + 1)| + 2;
      var end := start + |m.name|;
      && end + 2 <= |line|
      && line[..start] == NatToString(i + 1) + ". "
      && line[start..end] == m.name
      && line[end..end + 2] == " ("
  {
    NameAfterNumber(NatToString(i + 1), ListingText(m), m.name, ListingDetails(m));
  }

  lemma NameAfterNumber(number: string, text: string, name: string, details: string)
    requires text == " " + name + " (" + details
    ensures var line := number + "." + text;
      var start := |number| + 2;
      var end := start + |name|;
      && end + 2 <= |line|
      && line[..start] == number + ". "
      && line[start..end] == name
      && line[end..end + 2] == " ("
  {
    var line := number + "." + text;
    assert line == (number + ". ") + name + (" (" + details);
  }

  /** `parseInt(token.trim()) - 1`; `None` stands for `NaN`. */
  function TokenIndex(token: string): Option<int> {
    match ParseInt(Trim(token))
    case None => None
    case Some(k) => Some(k - 1)
  }

  predicate InRange(index: Option<int>, count: nat) {
    index.Some? && 0 <= index.value < count
  }

  /** The `filter` step: the indices, in reply order, that fall inside the
      candidate list. */
  function RankIndices(tokens: seq<string>, count: nat): (ks: seq<nat>)
    ensures |ks| <= |tokens|
    ensures forall i :: 0 <= i < |ks| ==> ks[i] < count
  {
    if |tokens| == 0 then []
    else
      var rest := RankIndices(tokens[1..], count);
      var index := TokenIndex(tokens[0]);
      if InRange(index, count) then [index.value as nat] + rest else rest
  }

  function Take<T>(s: seq<T>, n: nat): (t: seq<T>)
    ensures |t| <= n && t <= s
    ensures |s| <= n ==> t == s
    ensures |s| > n ==> |t| == n
  {
    if |s| <= n then s else s[..n]
  }

  /** The meals a rerank reply selects: each in-range number `k` of the reply
      picks `meals[k - 1]`, in reply order, duplicates kept, at most 10. */
  function RerankSelect(reply: string, meals: seq<Meal>): (ranked: seq<Meal>)
    ensures |ranked| <= ResultLimit
    ensures forall m :: m in ranked ==> m in meals
  {
    Take(Pick(meals, RankIndices(Split(reply, ','), |meals|)), ResultLimit)
  }

  /** The `map(index => meals[index])` step. */
  function Pick(meals: seq<Meal>, ks: seq<nat>): (picked: seq<Meal>)
    requires forall i :: 0 <= i < |ks| ==> ks[i] < |meals|
    ensures |picked| == |ks| && forall i :: 0 <= i < |ks| ==> picked[i] == meals[ks[i]]
  {
    seq(|ks|, i requires 0 <= i < |ks| => meals[ks[i]])
  }

  /** The list used when reranking is not possible: the first 10 candidates in
      retrieval order. */
  function FirstCandidates(meals: seq<Meal>): (ranked: seq<Meal>)
    ensures |ranked| == if |meals| < ResultLimit then |meals| else ResultLimit
    ensures ranked <= meals
  {
    Take(meals, ResultLimit)
  }

  /** The ranked list: the reply's selection when the rerank call succeeded
      with content, otherwise (a non-ok response, or a missing content on
      which `split` throws) the first candidates. It runs only once the
      rerank request got a response: a rejected request never reaches it. */
  method RankMeals(meals: seq<Meal>, reply: ChatReply) returns (ranked: seq<Meal>)
    requires !reply.Rejected?
    ensures reply.Completed? && reply.content.Some? ==> ranked == RerankSelect(reply.content.value, meals)
    ensures reply.HttpError? || (reply.Completed? && reply.content.None?) ==> ranked == FirstCandidates(meals)
    ensures |ranked| <= ResultLimit && forall m :: m in ranked ==> m in meals
  {
    ranked := meals;
    if reply.Completed? {
      match reply.content {
        case Some(content) =>
          ranked := RerankSelect(content, meals);
        case None =>
          ranked := FirstCandidates(meals);
      }
    } else {
      ranked := FirstCandidates(meals);
    }
  }

  // ---------------------------------------------------------------------------
  // Properties of the reply parsing
  // ---------------------------------------------------------------------------

  lemma {:induction false} RankIndicesAppend(xs: seq<string>, ys: seq<string>, count: nat)
    ensures RankIndices(xs + ys, count) == RankIndices(xs, count) + RankIndices(ys, count)
  {
    if |xs| > 0 {
      assert (xs + ys)[0] == xs[0];
      assert (xs + ys)[1..] == xs[1..] + ys;
      RankIndicesAppend(xs[1..], ys, count);
    } else {
      assert xs + ys == ys;
    }
  }

  /** A token holding the numeral `n`, with any whitespace around it, stands
      for index `n - 1`. */
  lemma NumeralToken(before: string, n: nat, after: string)
    requires AllWhiteSpace(before) && AllWhiteSpace(after)
    ensures TokenIndex(before + NatToString(n) + after) == Some(n - 1)
  {
    var d := NatToString(n);
    assert IsDigit(d[0]) && IsDigit(d[|d| - 1]);
    TrimPadded(before, d, after);
    ParseIntOfNumeral(n, "");
    assert d + "" == d;
  }

  lemma NumeralIndex(n: nat)
    ensures TokenIndex(NatToString(n)) == Some(n - 1)
  {
    var d := NatToString(n);
    assert IsDigit(d[0]) && IsDigit(d[|d| - 1]);
    TrimPadded("", d, "");
    assert "" + d + "" == d;
    ParseIntOfNumeral(n, "");
    assert d + "" == d;
  }

  /** The reply listing the numbers `order`, comma-separated. */
  function NumberReply(order: seq<nat>): string {
    Join(seq(|order|, i requires 0 <= i < |order| => NatToString(order[i])), ',')
  }

  /** A reply listing the numbers `order`, each naming a candidate, selects
      exactly those candidates in that order, repeats included, cut to 10. */
  lemma RerankRoundTrip(order: seq<nat>, meals: seq<Meal>)
    requires forall i :: 0 <= i < |order| ==> 1 <= order[i] <= |meals|
    ensures RerankSelect(NumberReply(order), meals)
         == Take(seq(|order|, i requires 0 <= i < |order| => meals[order[i] - 1]), ResultLimit)
  {
    var indices := seq(|order|, i requires 0 <= i < |order| => (order[i] - 1) as nat);
    NumberReplyIndices(order, |meals|, indices);
    PickNumbered(order, meals, indices);
  }

  /** Picking by the indices `order[i] - 1` picks candidate number `order[i]`. */
  lemma PickNumbered(order: seq<nat>, meals: seq<Meal>, indices: seq<nat>)
    requires |indices| == |order|
    requires forall i :: 0 <= i < |order| ==> 1 <= order[i] <= |meals| && indices[i] == order[i] - 1
    ensures Pick(meals, indices) == seq(|order|, i requires 0 <= i < |order| => meals[order[i] - 1])
  {
    var expected := seq(|order|, i requires 0 <= i < |order| => meals[order[i] - 1]);
    var picked := Pick(meals, indices);
    forall i | 0 <= i < |expected| ensures picked[i] == expected[i] {
    }
    assert picked == expected;
  }

  lemma NumberReplyIndices(order: seq<nat>, count: nat, indices: seq<nat>)
    requires |indices| == |order|
    requires forall i :: 0 <= i < |order| ==> 1 <= order[i] <= count && indices[i] == order[i] - 1
    ensures RankIndices(Split(NumberReply(order), ','), count) == indices
  {
    var tokens := seq(|order|, i requires 0 <= i < |order| => NatToString(order[i]));
    if |order| == 0 {
      assert Split(Join(tokens, ','), ',') == [""];
      EmptyTokenUnusable(count);
    } else {
      forall i | 0 <= i < |tokens| ensures ',' !in tokens[i] {
        assert AllDigits(tokens[i], 10);
      }
      SplitOfJoin(tokens, ',');
      forall i | 0 <= i < |order| ensures TokenIndex(tokens[i]) == Some(indices[i] as int) {
        NumeralIndex(order[i]);
      }
      RankIndicesOfNumerals(tokens, indices, count);
    }
  }

  lemma EmptyTokenUnusable(count: nat)
    ensures RankIndices([""], count) == []
  {
    assert TokenIndex("") == None;
  }

  /** A first token naming candidate `k` puts `k` first. */
  lemma RankIndicesHead(tokens: seq<string>, count: nat, k: nat)
    requires |tokens| > 0 && k < count && TokenIndex(tokens[0]) == Some(k as int)
    ensures RankIndices(tokens, count) == [k] + RankIndices(tokens[1..], count)
  {
    assert InRange(TokenIndex(tokens[0]), count);
  }

  lemma {:induction false} RankIndicesOfNumerals(tokens: seq<string>, indices: seq<nat>, count: nat)
    requires |tokens| == |indices|
    requires forall i :: 0 <= i < |indices| ==> indices[i] < count && TokenIndex(tokens[i]) == Some(indices[i] as int)
    ensures RankIndices(tokens, count) == indices
  {
    if |indices| > 0 {
      var ts, ks := tokens[1..], indices[1..];
      forall i | 0 <= i < |ks|
        ensures ks[i] < count && TokenIndex(ts[i]) == Some(ks[i] as int)
      {
        assert ts[i] == tokens[i + 1] && ks[i] == indices[i + 1];
      }
      RankIndicesOfNumerals(ts, ks, count);
      RankIndicesHead(tokens, count, indices[0]);
      assert indices == [indices[0]] + ks;
    }
  }

  /** Splitting around a comma-free middle piece. */
  lemma SplitAroundPiece(before: string, token: string, after: string)
    requires ',' !in token
    ensures Split(before + "," + token + "," + after, ',') == Split(before, ',') + ([token] + Split(after, ','))
    ensures Split(before + "," + after, ',') == Split(before, ',') + Split(after, ',')
  {
    assert before + "," + token + "," + after == before + [','] + (token + [','] + after);
    SplitAround(before, ',', token + [','] + after);
    SplitAround(token, ',', after);
    SplitWithout(token, ',');
    assert before + "," + after == before + [','] + after;
    SplitAround(before, ',', after);
  }

  lemma UnusableTokenIndices(b: seq<string>, token: string, a: seq<string>, count: nat)
    requires !InRange(TokenIndex(token), count)
    ensures RankIndices(b + ([token] + a), count) == RankIndices(b + a, count)
  {
    RankIndicesAppend(b, [token] + a, count);
    RankIndicesAppend([token], a, count);
    RankIndicesAppend(b, a, count);
    assert RankIndices([token], count) == [] by {
      assert [token][1..] == [];
    }
  }

  /** A token that is not a number, or names no candidate, is dropped: the
      selection is the same as if it were not in the reply. */
  lemma UnusableTokenDropped(before: string, token: string, after: string, meals: seq<Meal>)
    requires ',' !in token
    requires !InRange(TokenIndex(token), |meals|)
    ensures RerankSelect(before + "," + token + "," + after, meals) == RerankSelect(before + "," + after, meals)
  {
    SplitAroundPiece(before, token, after);
    UnusableTokenIndices(Split(before, ','), token, Split(after, ','), |meals|);
  }
}
