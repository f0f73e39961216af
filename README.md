# food-eats: the meal search and the four UI state machines

This project is a Dafny model of the core of food-eats, a food-ordering web app. It covers two parts.

**The `search-meals` edge function.** It turns a free-text request into at most ten meals, in five steps:

1. A chat model extracts structured criteria from the query. When its reply is not JSON, the function falls back to a keyword search on the raw query.
2. The criteria become a query against the `meals` table:
   - the meal is available;
   - an `ilike` or-filter over name, description and category, one group per keyword;
   - a category `in` filter;
   - price bounds for "budget", "moderate" and "premium";
   - a limit of 20 rows.
3. The store answers.
4. A second chat call reranks the numbered list of candidates. Its reply is read as comma-separated numbers.
5. Each meal is formatted with defaults for missing fields.

The handler returns these responses:

| case | status |
|---|---|
| missing query | 400 |
| failed extraction call | 500, with the call's status and text |
| store error | 500, "Failed to fetch meals from database" |
| no candidates | 200 with `[]` |
| a chat request, at either call, that gets no response | 500, with the error's message |
| otherwise | 200 with the reranked list, or the first ten candidates when the rerank response is not ok or has no content |

**Four React components, as state machines:**
- the Trend Bites carousel: an index with wrap-around;
- the four-question quiz: a step counter and an answers map;
- the Food Matcher game: score, food shown, started and won;
- the Cuisine Adventure Map: the selected country and the discovered list.

**How the model is built.** Each component's pure step function carries the proofs. A class with the component's state variables has methods that are proved to perform that step.

The model works in the system's own units:
- Prices are integer cents. The source's `15`, `20` and `10` dollar bounds become 1500, 2000 and 1000.
- The two chat calls, `JSON.parse`, the store's table and `Math.random` are parameters.

**JavaScript and PostgreSQL semantics are written out where they matter:**
- `parseInt`, `trim`, `split` and `join`;
- truthiness for `||` defaults;
- the `/\{[\s\S]*\}/` match;
- LIKE/ILIKE with backslash as the escape character;
- PostgREST's reading of an or-filter text as comma-separated `column.operator.value` conditions, where an unquoted value ends at `,` or `)`.

**The or-filter is the core's sharpest edge:**
- The model builds the or-filter with a corrected escape that also escapes the backslash (see "## Findings"). When no keyword holds a comma or `)`, the model's query selects exactly the available meals that satisfy the criteria (`MealFilter.CandidateQueryMeaning`).
- The source's own query, `MealFilter.CandidateQueryAsWritten`, is the same query whenever no keyword holds a backslash (`MealFilter.CandidateQuery`). So it too selects exactly those meals when no keyword holds a comma, `)` or a backslash (`MealFilter.CandidateQueryAsWrittenMeaning`). With a backslash it can admit meals that do not mention the keyword (`MealFilter.BackslashQueryDiffers`).
- A keyword with a comma can break the filter text into a piece that is not a condition. PostgREST then refuses the query and the request ends in the 500 store error (`MealFilter.CommaKeywordRejected`). A fallback search for "chicken, rice" is one case. The handler models this as the store read failing (`SearchHandler.StoreAccepts`).
- A keyword with `)` breaks the filter too: the `)` ends its conditions' values early, so PostgREST refuses the query and the request ends in the same 500 (`MealFilter.ParenKeywordRejected`). A fallback search for "pizza (vegan)" is one case (`MealFilter.PizzaVeganRejected`). For comma-free keywords, PostgREST accepts the query exactly when no keyword holds `)` (`MealFilter.CandidateQueryWellFormed`).

## Model

| member | source | states |
|---|---|---|
| MealModel.TextOr | supabase/functions/search-meals/index.ts:242-247 | `a \|\| 'default'` on a nullable string: the value when it is non-null and non-empty, else the default |
| MealModel.IntOr | supabase/functions/search-meals/index.ts:244 | `a \|\| 15` on a nullable number: the value when it is non-null and non-zero, else the default |
| CriteriaExtraction.JsonCandidate | supabase/functions/search-meals/index.ts:111-112 | when the reply holds a `{` followed later by a `}`, the text parsed runs from the first `{` to the last `}`; otherwise it is the whole reply |
| CriteriaExtraction.CandidateOfWrappedObject | supabase/functions/search-meals/index.ts:111-112 | a JSON object between brace-free prose and a brace-free trailer is cut out exactly |
| CriteriaExtraction.ExtractCriteria | supabase/functions/search-meals/index.ts:106-128 | parsed criteria when the candidate text parses; otherwise the query as the only keyword and every other criterion null, including when the reply content is missing |
| JsText.TrimPadded | supabase/functions/search-meals/index.ts:222 | `trim` removes exactly the surrounding JavaScript whitespace from a token |
| JsText.ParseIntOfNumeral | supabase/functions/search-meals/index.ts:222 | `parseInt` of a decimal numeral followed by a non-digit reads the numeral's value |
| JsText.SplitOfJoin | supabase/functions/search-meals/index.ts:147-150 | `split(',')` undoes `join(',')` when no piece holds a comma |
| JsText.SplitJoin | supabase/functions/search-meals/index.ts:147-151 | splitting a joined text yields the splits of its pieces, in order |
| JsText.ScanIntOfIntToString | supabase/functions/search-meals/index.ts:102 | an integer printed in decimal, followed by a non-digit, reads back as itself |
| LikePattern.EscapeWildcards | supabase/functions/search-meals/index.ts:148 | the escape as written: every `%` and `_` of the result is preceded by a backslash, and the result is no shorter |
| LikePattern.UnescapeEscape | supabase/functions/search-meals/index.ts:148 | removing the added backslashes gives back the keyword |
| LikePattern.SubstringPattern | supabase/functions/search-meals/index.ts:149 | `LIKE '%' + escaped(k) + '%'` holds exactly when the text contains `k` |
| LikePattern.ILikeSubstringPattern | supabase/functions/search-meals/index.ts:148-149 | with the full escape, the `ilike` condition holds exactly when the text contains the keyword ignoring ASCII case |
| LikePattern.EscapeWildcardsWithoutBackslash | supabase/functions/search-meals/index.ts:148 | on keywords without a backslash the escape as written equals the full escape |
| LikePattern.KeywordPatternMatches | supabase/functions/search-meals/index.ts:148-149 | for keywords without a backslash, the condition as written means "contains, ignoring case" |
| LikePattern.BackslashKeywordMissed | supabase/functions/search-meals/index.ts:148 | the keyword `\` is contained in the text `\`, but the pattern built by the escape as written does not match it |
| MealFilter.KeywordConditions | supabase/functions/search-meals/index.ts:147-150 | the or-filter text, one clause of three conditions per keyword joined by commas, built with the corrected escape; it equals the text the source builds whenever no keyword holds a backslash |
| MealFilter.KeywordConditionsAsWritten | supabase/functions/search-meals/index.ts:147-150 | the or-filter text exactly as the source builds it, with the source's escape of `%` and `_` only |
| MealFilter.KeywordConditionsSplit | supabase/functions/search-meals/index.ts:147-151 | for comma-free keywords, the text splits into the three conditions of each keyword, in order, and PostgREST reads every one of them exactly when no keyword holds `)` |
| MealFilter.KeywordConditionCount | supabase/functions/search-meals/index.ts:147-150 | comma-free keywords give exactly three conditions each |
| MealFilter.ParseIlikePiece | supabase/functions/search-meals/index.ts:149 | `column.ilike.pattern` reads back as that column and pattern, and is no condition when the pattern holds `)` |
| MealFilter.ColumnPieceMeaning | supabase/functions/search-meals/index.ts:149 | with the corrected escape and `k` free of `)`, one `column.ilike.%k%` condition holds exactly when the column is non-null and contains `k` ignoring case |
| MealFilter.PiecesMeaning | supabase/functions/search-meals/index.ts:149 | with the corrected escape and a keyword free of `)`, its three conditions together hold exactly when name, description or category mentions it |
| MealFilter.KeywordFilterMeaning | supabase/functions/search-meals/index.ts:145-152 | with the corrected escape and keywords free of commas and `)`, the or-filter holds exactly when the meal mentions some keyword |
| MealFilter.AllHoldAppend | supabase/functions/search-meals/index.ts:132-165 | chaining filters is conjunction: a row satisfies two filter lists together exactly when it satisfies each |
| MealFilter.BuildQuery | supabase/functions/search-meals/index.ts:132-169 | the builder, adding filters one by one, produces the candidate query (with the corrected escape) |
| MealFilter.PriceFiltersMeaning | supabase/functions/search-meals/index.ts:158-165 | the price filters hold exactly when the price is in the band: under 15 dollars for budget, over 20 for premium, 10 to 20 inclusive for moderate, any price otherwise |
| MealFilter.CandidateQueryShape | supabase/functions/search-meals/index.ts:142-169 | availability comes first, the or-filter is present exactly when there are keywords, the category filter exactly when there are categories, and the limit is 20 |
| MealFilter.KeywordFiltersMeaning | supabase/functions/search-meals/index.ts:145-152 | with the corrected escape and keywords free of commas and `)`, the keyword part holds exactly when no keywords were given or some keyword is mentioned |
| MealFilter.CategoryFiltersMeaning | supabase/functions/search-meals/index.ts:154-156 | the category part holds exactly when no categories were given or the meal's category is one of them |
| MealFilter.CandidateQueryParts | supabase/functions/search-meals/index.ts:132-165 | the query holds exactly when availability, keyword, category and price parts all hold |
| MealFilter.CandidateQuerySound | supabase/functions/search-meals/index.ts:142-165 | any row the query admits is available, in the price band and, when categories are given, in one of them |
| MealFilter.CandidateQuery | supabase/functions/search-meals/index.ts:132-165 | the candidate query, built with the corrected escape; it equals the query the source builds whenever no keyword holds a backslash |
| MealFilter.CandidateQueryMeaning | supabase/functions/search-meals/index.ts:132-165 | with keywords free of commas and `)`, the query built with the corrected escape admits a meal exactly when it is eligible for the criteria |
| MealFilter.CandidateQueryAsWritten | supabase/functions/search-meals/index.ts:132-165 | the candidate query exactly as the source builds it, with the source's escape (its meaning: `CandidateQueryAsWrittenMeaning`, `BackslashQueryAdmitsPercent`) |
| MealFilter.CandidateQueryAsWrittenMeaning | supabase/functions/search-meals/index.ts:132-165 | the query the source builds admits a meal exactly when it is eligible, when no keyword holds a comma, `)` or a backslash |
| MealFilter.BackslashPatternMatchesPercent | supabase/functions/search-meals/index.ts:148-149 | the source's pattern for the keyword `\` is `%\%`, and it matches the text "50%" |
| MealFilter.BackslashQueryAdmitsPercent | supabase/functions/search-meals/index.ts:115-152 | the source's query for the fallback search `\` admits every available meal named "50%" |
| MealFilter.BackslashQueryDiffers | supabase/functions/search-meals/index.ts:115-152 | for the fallback search `\`, the source's query admits a meal named "50%" that does not mention `\`, and the corrected query does not admit it |
| MealFilter.Select | supabase/functions/search-meals/index.ts:169 | the rows admitted are exactly the table rows that satisfy the query |
| MealFilter.Execute | supabase/functions/search-meals/index.ts:169 | at most `limit` rows, each an admitted table row; when fewer than the limit, every admitted row |
| MealFilter.CandidatesAreEligible | supabase/functions/search-meals/index.ts:132-169 | with the corrected escape: at most 20 candidates, each available, in the band and category set, and eligible when the keywords have no commas or `)` |
| MealFilter.FallbackCandidatesMentionQuery | supabase/functions/search-meals/index.ts:115-152 | with the fallback criteria and the corrected escape, every candidate is available and mentions the raw query |
| MealFilter.OrFilterPlace | supabase/functions/search-meals/index.ts:142-151 | the only or-filter of the query is the keyword filter, right after availability |
| MealFilter.WellFormed | supabase/functions/search-meals/index.ts:151 | PostgREST accepts a query when every comma-separated piece of each or-filter reads as a `column.operator.value` condition and no value holds `)` (its consequences: `CandidateQueryWellFormed`, `CommaKeywordRejected`, `ParenKeywordRejected`) |
| MealFilter.CandidateQueryWellFormed | supabase/functions/search-meals/index.ts:147-151 | with comma-free keywords, PostgREST accepts the query exactly when no keyword holds `)` |
| MealFilter.ParenCutsNamePiece | supabase/functions/search-meals/index.ts:149 | a keyword holding `)` leaves its `name` condition unread |
| MealFilter.ParenKeywordRejected | supabase/functions/search-meals/index.ts:145-151 | a comma-free keyword holding `)` makes the query unacceptable to PostgREST |
| MealFilter.PizzaVeganRejected | supabase/functions/search-meals/index.ts:145-151 | the fallback search "pizza (vegan)" is refused by the store |
| MealFilter.CommaCutsNamePiece | supabase/functions/search-meals/index.ts:149 | a comma in a keyword cuts its `name` condition, leaving a dot-free tail that is not a condition |
| MealFilter.CommaKeywordRejected | supabase/functions/search-meals/index.ts:145-151 | a keyword whose part after its last comma has no dot makes the query unacceptable to PostgREST |
| MealFilter.ChickenRiceRejected | supabase/functions/search-meals/index.ts:118-151 | the fallback search for "chicken, rice" builds a query PostgREST refuses |
| Rerank.Listing | supabase/functions/search-meals/index.ts:191-193 | one line per candidate |
| Rerank.ListingNumbers | supabase/functions/search-meals/index.ts:191-193 | line `i` starts with the number `i + 1`, which `parseInt` reads back |
| Rerank.ListingNames | supabase/functions/search-meals/index.ts:191-193 | line `i` reads the number `i + 1`, then ". ", then candidate `i`'s name, then " (" before its restaurant |
| JsText.Split | supabase/functions/search-meals/index.ts:222 | `split(',')`: at least one piece, and no piece holds the separator |
| JsText.Join | supabase/functions/search-meals/index.ts:147-150 | `join(',')`: the pieces in order, one separator between neighbours (undone by `split`, `JsText.SplitOfJoin`) |
| JsText.Trim | supabase/functions/search-meals/index.ts:222 | `trim()`: ECMAScript whitespace and line terminators removed from both ends (its meaning: `JsText.TrimPadded`) |
| JsText.ParseInt | supabase/functions/search-meals/index.ts:222 | `parseInt` with no radix: leading whitespace, an optional sign, a `0x` prefix read as hexadecimal, then the longest digit run; NaN (`None`) without digits (its meaning: `JsText.ParseIntOfNumeral`) |
| Rerank.TokenIndex | supabase/functions/search-meals/index.ts:222 | one reply token read as `parseInt(num.trim()) - 1` (its meaning: `Rerank.NumeralToken`, `Rerank.EmptyTokenUnusable`) |
| Rerank.RankIndices | supabase/functions/search-meals/index.ts:222-224 | no more indices than tokens, each a valid candidate index |
| Rerank.Pick | supabase/functions/search-meals/index.ts:225 | `map(index => meals[index])`: one meal per index, the candidate at that index |
| Rerank.Take | supabase/functions/search-meals/index.ts:226 | `slice(0, n)`: a prefix, the whole list when it is short, otherwise exactly `n` long |
| Rerank.RerankSelect | supabase/functions/search-meals/index.ts:222-226 | at most 10 meals, each one of the candidates |
| Rerank.FirstCandidates | supabase/functions/search-meals/index.ts:230-234 | the first `min(10, n)` candidates, in order |
| Rerank.RankMeals | supabase/functions/search-meals/index.ts:216-235 | given a response to the rerank request: with content, the reranked selection; a response that is not ok, or has no content, the first ten; either way at most 10 candidates |
| Rerank.RankIndicesAppend | supabase/functions/search-meals/index.ts:222-224 | reading indices distributes over concatenated token lists |
| Rerank.NumeralToken | supabase/functions/search-meals/index.ts:222 | a whitespace-padded numeral `n` gives index `n - 1` |
| Rerank.NumeralIndex | supabase/functions/search-meals/index.ts:222 | the numeral `n` gives index `n - 1` |
| Rerank.NumberReplyIndices | supabase/functions/search-meals/index.ts:222-224 | a reply listing numbers, each between 1 and the candidate count, reads as those numbers minus one, in order |
| Rerank.RerankRoundTrip | supabase/functions/search-meals/index.ts:222-226 | a reply "3,1,2" with numbers in range picks exactly those candidates in that order, up to 10 |
| Rerank.EmptyTokenUnusable | supabase/functions/search-meals/index.ts:222-224 | an empty token yields no index |
| Rerank.RankIndicesOfNumerals | supabase/functions/search-meals/index.ts:222-224 | tokens that each read as an in-range index give exactly those indices |
| Rerank.UnusableTokenDropped | supabase/functions/search-meals/index.ts:222-225 | a token that is not an in-range number is skipped: the selection is as if it were absent |
| MealFormat.FractionText | supabase/functions/search-meals/index.ts:243 | no fraction is printed for whole dollars; otherwise it starts with a point |
| MealFormat.PriceText | supabase/functions/search-meals/index.ts:243 | a whole-dollar price prints as the integer |
| MealFormat.PriceTextDollars | supabase/functions/search-meals/index.ts:243 | the printed price reads back as its whole dollars, and the rest is empty exactly for whole-dollar prices |
| MealFormat.DeliveryTime | supabase/functions/search-meals/index.ts:244 | `${min \|\| 15}-${max \|\| 30} min` (its meaning: `MealFormat.DeliveryTimeRoundTrip`) |
| MealFormat.DeliveryTimeRoundTrip | supabase/functions/search-meals/index.ts:244 | the delivery text reads back as the restaurant's minimum and maximum, with 15 and 30 substituted for null or zero, and never 0 |
| MealFormat.FormatMeal | supabase/functions/search-meals/index.ts:239-248 | id and name copied; restaurant, emoji and category default when falsy; description defaults to ""; price is "$" + the printed price; the delivery time is `DeliveryTime`, which reads back as the bounds with 15 and 30 for null or zero |
| MealFormat.FormatMeals | supabase/functions/search-meals/index.ts:239-248 | one record per ranked meal, in order |
| SearchHandler.ExtractionFailed | supabase/functions/search-meals/index.ts:99-103 | the error message starts with "Groq extraction error: ", is followed by the status, which reads back, and then " - " and the body text |
| SearchHandler.StoreAccepts | supabase/functions/search-meals/index.ts:167-177 | the store answers the candidate query rather than reporting an error: the query is `WellFormed`, which fails for a keyword holding `)` or a comma that cuts a condition |
| SearchHandler.HandleSearch | supabase/functions/search-meals/index.ts:21-267 | status 400, 500 or 200 and which services are called in each case; the response for each of the outcomes, including 500 with the error's message (or "An unexpected error occurred") when either chat request gets no response; a 200 carries at most 10 meals, each an available meal of the table |
| SearchHandler.StoreOutcome | supabase/functions/search-meals/index.ts:167-235 | the answer once the criteria are known: the store error after the store alone, an empty list without the reranker, or after the reranker its selection, the first ten, or 500 with the error's message when the rerank request gets no response |
| SearchHandler.SearchStore | supabase/functions/search-meals/index.ts:167-258 | from the criteria on: a store error or a refused or-filter gives the 500 store error after the store alone; no candidates give an empty 200 list without the reranker; a rerank request that gets no response gives 500 with the error's message; otherwise the reranked or first candidates, formatted, at most 10, each an available table meal |
| SearchHandler.RerankAndFormat | supabase/functions/search-meals/index.ts:216-248 | given a response to the rerank request: the reranker's selection when it is ok with content, else the first candidates, formatted; at most 10, each with the id and name of a candidate |
| SearchHandler.FormattedFromTable | supabase/functions/search-meals/index.ts:239-248 | every meal formatted from a candidate has the id and name of an available table meal |
| TrendBites.NextTrend | src/components/TrendBites.tsx:87-89 | one step forward; from the last dish, back to the first |
| TrendBites.PrevTrend | src/components/TrendBites.tsx:91-93 | one step back; from the first dish, to the last |
| TrendBites.PrevUndoesNext | src/components/TrendBites.tsx:87-93 | previous undoes next and next undoes previous |
| TrendBites.Step | src/components/TrendBites.tsx:87-93 | a button press keeps the index in range |
| TrendBites.Replay | src/components/TrendBites.tsx:87-93 | any sequence of presses keeps the index in range |
| TrendBites.ReplayNet | src/components/TrendBites.tsx:87-93 | the dish shown is the start index plus (next presses minus previous presses), modulo five |
| TrendBites.Advance | src/components/TrendBites.tsx:95-98 | `count` forward steps, by button or the ten-second timer, stay in range |
| TrendBites.AdvanceIsModular | src/components/TrendBites.tsx:87-98 | `count` forward steps land on `(i + count) mod 5` |
| TrendBites.FullCycle | src/components/TrendBites.tsx:87-98 | five forward steps return to the same dish |
| TrendBites.CounterLabel | src/components/TrendBites.tsx:186-187 | the counter shows 1 to 5 |
| TrendBites.TrendCarousel.constructor | src/components/TrendBites.tsx:12 | the carousel starts on the first dish |
| TrendBites.TrendCarousel.Dish | src/components/TrendBites.tsx:100 | the dish on screen is one of the trending dishes |
| TrendBites.TrendCarousel.Next | src/components/TrendBites.tsx:87-89 | the index becomes `NextTrend` of the old one |
| TrendBites.TrendCarousel.Prev | src/components/TrendBites.tsx:91-93 | the index becomes `PrevTrend` of the old one |
| QuizFlow.Answer | src/components/QuizFlow.tsx:66-75 | the answer is stored under its id, other answers are kept, the step advances by one, and from the last question it goes to the results |
| QuizFlow.AnsweredInOrder | src/components/QuizFlow.tsx:66-75 | after `n` answers the step is `n` |
| QuizFlow.AnsweredInOrderHolds | src/components/QuizFlow.tsx:16-75 | after answering in order, the answers hold exactly the ids asked so far, each with its choice |
| QuizFlow.CompletedQuiz | src/components/QuizFlow.tsx:16-79 | four answers reach the results screen with the keys mood, budget, time and cuisine |
| QuizFlow.RunKeepsStepInRange | src/components/QuizFlow.tsx:66-146 | any clicks keep the step within 0..4, and the results screen shows exactly at step 4 |
| QuizFlow.Quiz.constructor | src/components/QuizFlow.tsx:13-14 | step 0, no answers |
| QuizFlow.Quiz.HandleAnswer | src/components/QuizFlow.tsx:66-75 | the state becomes `Answer` of the old state |
| QuizFlow.Quiz.Reset | src/components/QuizFlow.tsx:143-146 | back to step 0 with no answers, off the results screen |
| SimpleGame.NextFoodStep | src/components/SimpleGame.tsx:28-31 | a food of the list is shown; score and flags are unchanged |
| SimpleGame.StartGameStep | src/components/SimpleGame.tsx:21-26 | started, not won, score 0, with a food shown |
| SimpleGame.MakeChoiceStep | src/components/SimpleGame.tsx:33-45 | a like adds one point and wins at 5, stopping the game and keeping the food; otherwise the next food is shown; a dislike only shows the next food |
| SimpleGame.StepKeepsInvariant | src/components/SimpleGame.tsx:21-97 | one press keeps the game invariant |
| SimpleGame.PlayFromInvariant | src/components/SimpleGame.tsx:21-97 | any presses keep the game invariant |
| SimpleGame.PlayKeepsInvariant | src/components/SimpleGame.tsx:11-97 | from the start, never both started and won, the score is at most 5, a win has exactly 5, and any food shown is from the list |
| SimpleGame.MatcherGame.constructor | src/components/SimpleGame.tsx:11-14 | score 0, no food, not started, not won |
| SimpleGame.MatcherGame.NextFood | src/components/SimpleGame.tsx:28-31 | the state becomes `NextFoodStep` of the old one |
| SimpleGame.MatcherGame.StartGame | src/components/SimpleGame.tsx:21-26 | the state becomes `StartGameStep` of the old one |
| SimpleGame.MatcherGame.MakeChoice | src/components/SimpleGame.tsx:33-45 | the state becomes `MakeChoiceStep` of the old one |
| CuisineMap.ClickCountry | src/components/CuisineAdventureMap.tsx:78-83 | the country is selected and is in the discovered list; it is appended only when new, otherwise the list is unchanged |
| CuisineMap.BackToMap | src/components/CuisineAdventureMap.tsx:191 | the selection is cleared and the discovered list kept |
| CuisineMap.ClickKeepsInvariant | src/components/CuisineAdventureMap.tsx:78-83 | a click keeps the discovered list duplicate-free and made of country names |
| CuisineMap.ClickIdempotent | src/components/CuisineAdventureMap.tsx:80-82 | a second click on the same country changes nothing |
| CuisineMap.TrophyMeansAllDiscovered | src/components/CuisineAdventureMap.tsx:146-150 | the list never exceeds six, and the trophy shows exactly when every country has been discovered |
| CuisineMap.ExploreKeepsInvariant | src/components/CuisineAdventureMap.tsx:78-191 | any clicks on countries and "Back to Map" keep the invariant |
| CuisineMap.AdventureMap.constructor | src/components/CuisineAdventureMap.tsx:12-13 | nothing selected, nothing discovered |
| CuisineMap.AdventureMap.HandleCountryClick | src/components/CuisineAdventureMap.tsx:78-83 | the state becomes `ClickCountry` of the old one |
| CuisineMap.AdventureMap.BackToMapClick | src/components/CuisineAdventureMap.tsx:191 | the state becomes `BackToMap` of the old one |

## Left out

- The CORS preflight, the environment checks and their 500 responses are not modelled. They only read configuration.
- The chat calls themselves, the prompts and their text are not modelled. Each call is a parameter: a request that got no response (with the error's message), an HTTP error with status and text, or an ok reply with its content. The model, temperature and token limits are not modelled.
- A reply body that is not JSON, or that has no `choices` key, is not modelled. In the source `.json()` or `choices[0]` then throws outside the inner `try`, and the outer `catch` answers 500, at either call. An empty `choices` array is modelled: it leaves the content undefined (`Completed(None)`), which gives the keyword fallback at extraction and the first ten candidates at reranking.
- A non-string `query` (a number, an object) is not modelled. The model's query is a string or missing.
- CriteriaExtraction.ExtractCriteria: JSON that parses but is not a criteria object is not modelled. Examples are `null`, `keywords` that is not an array, and a keyword that is not a string. `JSON.parse` is a parameter that yields typed criteria or fails. In the source such a value passes the `try` and then throws at `criteria.keywords`, `.map` or `keyword.replace` (index.ts:145-148), and the outer `catch` returns 500.
- SearchHandler.HandleSearch: because of the line above, the contract does not cover the 500 that follows such a JSON value. Once extraction completes, the 500s it states are the store error and a rerank request that got no response. It also runs the candidate query built with the corrected escape. For a keyword holding a backslash, its candidates can differ from the source's (`MealFilter.BackslashQueryDiffers`). For every other keyword the two queries are equal (`MealFilter.CandidateQuery`).
- SearchHandler.SearchStore: runs the query built with the corrected escape. It agrees with the source except on keywords holding a backslash, as for `HandleSearch`.
- MealFilter.BuildQuery: builds the or-filter text with the corrected escape, not the source's. The two are equal whenever no keyword holds a backslash (`MealFilter.KeywordConditions`).
- MealFilter.ColumnPieceMeaning: is stated for the pattern built with the corrected escape. The source's pattern is the same, and so has this meaning, only for keywords without a backslash (`LikePattern.KeywordPatternMatches`).
- MealFilter.PiecesMeaning: is stated for the corrected escape. It holds of the source's conditions only for keywords without a backslash.
- MealFilter.KeywordFilterMeaning: is stated for the corrected or-filter. The source's or-filter is the same text only when no keyword holds a backslash (`MealFilter.KeywordConditions`). With a backslash it can hold of meals that mention no keyword (`MealFilter.BackslashQueryDiffers`).
- MealFilter.KeywordFiltersMeaning: is stated for the corrected or-filter. It holds of the source's query only when no keyword holds a backslash.
- MealFilter.CandidateQueryMeaning: is stated for the corrected query. For the source's query the same equivalence is proved only when no keyword also holds a backslash (`MealFilter.CandidateQueryAsWrittenMeaning`). `MealFilter.BackslashQueryDiffers` shows it failing otherwise.
- MealFilter.CandidatesAreEligible: its eligibility clause is stated for the corrected query. For the source's query it needs keywords without a backslash as well.
- MealFilter.FallbackCandidatesMentionQuery: is stated for the corrected query. It is false of the source's query for the search `\`, which admits a meal named "50%" (`MealFilter.BackslashQueryDiffers`).
- Logging is not modelled.
- The meal-to-restaurant join is not modelled as a join. It is modelled as optional restaurant fields on each meal.
- The store's row order is not modelled. The rows arrive in the table's order.
- Parts of PostgREST's reading of an or-filter are not modelled:
  - double-quoted values, since every value the source builds starts with `%`, and nested `and(…)`/`or(…)` groups (see the `MealFilter.WellFormed` line below);
  - the `*` alias for `%`, so the model treats `*` in a keyword literally;
  - operators other than `ilike`.
- MealFilter.WellFormed: checks the or-filter's syntax only. A piece that a comma cuts out of a keyword and that names a column the table lacks, or that opens a group with `(`, reads as a condition that holds of no meal. PostgREST or the database refuse it, and the source answers 500.
- Unicode case folding is not modelled. ILIKE and `ContainsIgnoringCase` fold ASCII letters only.
- MealFormat.PriceText: prices are whole cents. A stored price with more than two decimals, and floating-point rounding, are not modelled.
- `parseInt` is modelled with leading whitespace, a sign, the `0x` prefix and decimal digits. Numbers too large for a double are not modelled.
- QuizFlow: the progress-bar percentage, the fixed result cards and the question texts and emojis are not modelled. Only the question ids drive the state.
- TrendBites: the ten-second `setInterval` is modelled as extra "next" steps (`Advance`). Timer scheduling and the cleanup on unmount are not modelled. The dish details other than the name are not modelled.
- SimpleGame: `Math.random` is the parameter `pick`, any index into the food list. The split of the food text into emoji and name on screen is not modelled.
- CuisineMap: a country is its name. Its emoji, map position and dish list are display data and are not modelled.
- The React render, the `onBack` navigation and the batching of state updates are not modelled. Each handler is modelled as one state change.

## Findings

| source | as written | input that shows it | evidently intended | confidence | as-written member | corrected member |
|---|---|---|---|---|---|---|
| supabase/functions/search-meals/index.ts:148 | only `%` and `_` are escaped, but PostgreSQL's LIKE uses backslash as its escape character, so a backslash in a keyword escapes the character after it | keyword `\` against the text `\`: the pattern `%\%` requires a literal `%`, so the meal is not found | every keyword is matched literally, with the backslash escaped too | not executed | LikePattern.BackslashKeywordMissed | LikePattern.ILikeSubstringPattern |
