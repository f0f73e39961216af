/** The `search-meals` request handler, from the request's `query` to the
    response: validation, criteria extraction, the candidate query, the store
    read, reranking and formatting. The store read fails when the store
    reports an error or when it refuses the query's or-filter text. A chat
    request that gets no response throws to the outer `catch`, which answers
    500 with the error's message. The two chat-completion calls and the store
    read are parameters, and `consulted` records which of the three services
    the handler called, in order. */
module SearchHandler {
  import opened Wrappers
  import opened JsText
  import opened MealModel
  import opened CriteriaExtraction
  import opened MealFilter
  import opened Rerank
  import opened MealFormat

  datatype Service = Extraction | Store | Reranker

  /** The JSON body: `{error}` or `{meals}`. */
  datatype Body = ErrorBody(error: string) | MealsBody(meals: seq<FormattedMeal>)

  datatype Response = Response(status: int, body: Body)

  const QueryRequired: string := "Query is required"
  const StoreFailed: string := "Failed to fetch meals from database"
  const ExtractionPrefix: string := "Groq extraction error: "
  /** The outer `catch`'s message when the error carries none. */
  const UnexpectedError: string := "An unexpected error occurred"

  /** The message of the error thrown on a non-ok extraction response, which
      the outer `catch` sends back (it is never empty, so the generic message
      is never used). */
  function ExtractionFailed(status: int, text: string): (message: string)
    ensures message != ""
    ensures |message| > |ExtractionPrefix| && message[..|ExtractionPrefix|] == ExtractionPrefix
    ensures ScanInt(message[|ExtractionPrefix|..]) == Some((status, " - " + text))
  {
    var detail := IntToString(status) + (" - " + text);
    ScanIntOfIntToString(status, " - " + text);
    var message := ExtractionPrefix + detail;
    assert message[..|ExtractionPrefix|] == ExtractionPrefix;
    assert message[|ExtractionPrefix|..] == detail;
    message
  }

  /** The candidates for the criteria: the store's answer to the candidate
      query over the table, given in the engine's order (when the store
      accepts the query, see `WellFormed`). */
  function Candidates(criteria: MealCriteria, table: seq<Meal>): seq<Meal> {
    Execute(CandidateQuery(criteria), table)
  }

  /** The store accepts the candidate query for the criteria. */
  predicate StoreAccepts(criteria: MealCriteria) {
    WellFormed(CandidateQuery(criteria))
  }

  /** One request. `query` is the request's `query` field (`None` when
      missing or null); `extraction` and `rerank` are the two chat replies;
      `parseJson` is `JSON.parse`; `store` is the meals table, or the error
      the store reports. */
  method HandleSearch(query: Option<string>, extraction: ChatReply,
                      parseJson: string -> Option<MealCriteria>,
                      store: Result<seq<Meal>, string>, rerank: ChatReply)
    returns (response: Response, consulted: seq<Service>)
    ensures response.status == 200 || response.status == 400 || response.status == 500
    // a missing or empty query is refused before any service is called
    ensures !Truthy(query) ==> response == Response(400, ErrorBody(QueryRequired)) && consulted == []
    // an extraction request that got no response ends in the outer catch
    ensures Truthy(query) && extraction.Rejected? ==>
      && response == Response(500, ErrorBody(TextOr(Some(extraction.message), UnexpectedError)))
      && consulted == [Extraction]
    // a failed extraction call ends the request with its status and text
    ensures Truthy(query) && extraction.HttpError? ==>
      && response == Response(500, ErrorBody(ExtractionFailed(extraction.status, extraction.text)))
      && consulted == [Extraction]
    // after a completed extraction: the store stage, on the extracted criteria
    ensures Truthy(query) && extraction.Completed? ==>
      && |consulted| > 0 && consulted[0] == Extraction
      && StoreOutcome(ExtractCriteria(query.value, extraction.content, parseJson), store, rerank,
                      response, consulted[1..])
    // every meal returned is one of at most 10, each an available meal of the table
    ensures response.status == 200 ==>
      && store.Success? && response.body.MealsBody?
      && |response.body.meals| <= ResultLimit
      && forall f :: f in response.body.meals ==>
           exists m :: m in store.value && m.isAvailable && f.id == m.id && f.name == m.name
  {
    consulted := [];
    if !Truthy(query) {
      return Response(400, ErrorBody(QueryRequired)), consulted;
    }
    consulted := consulted + [Extraction];
    if extraction.Rejected? {
      return Response(500, ErrorBody(TextOr(Some(extraction.message), UnexpectedError))), consulted;
    }
    if extraction.HttpError? {
      return Response(500, ErrorBody(ExtractionFailed(extraction.status, extraction.text))), consulted;
    }
    var criteria := ExtractCriteria(query.value, extraction.content, parseJson);
    var later;
    response, later := SearchStore(criteria, store, rerank);
    consulted := consulted + later;
    assert consulted[1..] == later;
  }

  /** The answer once the criteria are known: the store error when the store
      fails or refuses the or-filter, after the store alone; no candidates
      give an empty list without the reranker; otherwise the reranker is
      asked, and its selection, the first candidates (a response that is not
      ok or has no content), or the outer `catch` (no response) decide the
      answer. */
  predicate StoreOutcome(criteria: MealCriteria, store: Result<seq<Meal>, string>, rerank: ChatReply,
                         response: Response, consulted: seq<Service>)
  {
    && (store.Failure? || !StoreAccepts(criteria) ==>
          response == Response(500, ErrorBody(StoreFailed)) && consulted == [Store])
    && (store.Success? && StoreAccepts(criteria) ==>
          var candidates := Candidates(criteria, store.value);
          && (|candidates| == 0 ==> response == Response(200, MealsBody([])) && consulted == [Store])
          && (|candidates| > 0 ==> consulted == [Store, Reranker])
          && (|candidates| > 0 && rerank.Completed? && rerank.content.Some? ==>
                response == Response(200, MealsBody(FormatMeals(RerankSelect(rerank.content.value, candidates)))))
          && (|candidates| > 0 && (rerank.HttpError? || (rerank.Completed? && rerank.content.None?)) ==>
                response == Response(200, MealsBody(FormatMeals(FirstCandidates(candidates)))))
          && (|candidates| > 0 && rerank.Rejected? ==>
                response == Response(500, ErrorBody(TextOr(Some(rerank.message), UnexpectedError)))))
  }

  /** The handler from the extracted criteria on: the candidate query, the
      store read and the rerank stage. */
  method SearchStore(criteria: MealCriteria, store: Result<seq<Meal>, string>, rerank: ChatReply)
    returns (response: Response, consulted: seq<Service>)
    ensures response.status == 200 || response.status == 500
    ensures StoreOutcome(criteria, store, rerank, response, consulted)
    ensures response.status == 200 ==>
      && store.Success? && response.body.MealsBody?
      && |response.body.meals| <= ResultLimit
      && forall f :: f in response.body.meals ==>
           exists m :: m in store.value && m.isAvailable && f.id == m.id && f.name == m.name
  {
    var q := BuildQuery(criteria);
    consulted := [Store];
    if store.Failure? || !WellFormed(q) {
      return Response(500, ErrorBody(StoreFailed)), consulted;
    }
    var candidates := Execute(q, store.value);
    if |candidates| == 0 {
      return Response(200, MealsBody([])), consulted;
    }
    consulted := [Store, Reranker];
    if rerank.Rejected? {
      return Response(500, ErrorBody(TextOr(Some(rerank.message), UnexpectedError))), consulted;
    }
    var out := RerankAndFormat(candidates, rerank);
    response := Response(200, MealsBody(out));
    FormattedFromTable(criteria, store.value, out);
  }

  /** The rerank stage over a non-empty candidate list: the reranker's
      choice, or the first candidates when the call fails, formatted. */
  method RerankAndFormat(candidates: seq<Meal>, rerank: ChatReply) returns (out: seq<FormattedMeal>)
    requires !rerank.Rejected?
    ensures rerank.Completed? && rerank.content.Some? ==>
      out == FormatMeals(RerankSelect(rerank.content.value, candidates))
    ensures rerank.HttpError? || (rerank.Completed? && rerank.content.None?) ==>
      out == FormatMeals(FirstCandidates(candidates))
    ensures |out| <= ResultLimit
    ensures forall f :: f in out ==> exists m :: m in candidates && f.id == m.id && f.name == m.name
  {
    var ranked := RankMeals(candidates, rerank);
    out := FormatMeals(ranked);
    forall f | f in out
      ensures exists m :: m in candidates && f.id == m.id && f.name == m.name
    {
      var i :| 0 <= i < |out| && out[i] == f;
      assert ranked[i] in ranked;
    }
  }

  /** Meals formatted from candidates trace back to available meals of the
      table. */
  lemma FormattedFromTable(criteria: MealCriteria, table: seq<Meal>, out: seq<FormattedMeal>)
    requires forall f :: f in out ==>
      exists m :: m in Candidates(criteria, table) && f.id == m.id && f.name == m.name
    ensures forall f :: f in out ==>
      exists m :: m in table && m.isAvailable && f.id == m.id && f.name == m.name
  {
    forall f | f in out
      ensures exists m :: m in table && m.isAvailable && f.id == m.id && f.name == m.name
    {
      var m :| m in Candidates(criteria, table) && f.id == m.id && f.name == m.name;
      CandidateQuerySound(criteria, m);
    }
  }
}
