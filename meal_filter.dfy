/** Step 2 of the search function: the candidate query.

    The query starts as "available meals" and gains, in order, the keyword
    or-filter, the category `in` filter and the price filters, and is read
    with a limit of 20 rows. A filter is kept as the request the store
    receives (the or-filter as its condition text), and `Holds` gives each
    filter its meaning on one meal row, reading the condition text the way
    PostgREST does: comma-separated `column.operator.value` conditions, of
    which only `ilike` occurs here.

    `Eligible` states directly, on a meal record, what the criteria ask for;
    `CandidateQueryMeaning` proves the built query selects exactly those
    meals. The keyword escape used is the corrected one, `EscapeLike` (see
    `LikePattern`). `CandidateQueryAsWritten` is the query the source builds,
    with its own escape; `KeywordConditions` and `CandidateQuery` equal the
    source's text and query whenever no keyword holds a backslash, and
    `BackslashQueryDiffers` shows the two queries parting on the keyword
    `\`. */
module MealFilter {
  import opened Wrappers
  import opened JsText
  import opened MealModel
  import opened LikePattern

  /** `.limit(20)` on the candidate query. */
  const CandidateLimit: nat := 20
  /** Price bounds, in cents, of the three price preferences. */
  const BudgetBelowCents: int := 1500
  const PremiumAboveCents: int := 2000
  const ModerateFromCents: int := 1000
  const ModerateToCents: int := 2000

  /** One filter of the query builder. */
  datatype Filter =
    | IsTrue(column: string)                        // .eq(column, true)
    | AnyOf(conditions: string)                     // .or(conditions)
    | InList(column: string, values: seq<string>)   // .in(column, values)
    | Below(column: string, bound: int)             // .lt(column, bound)
    | Above(column: string, bound: int)             // .gt(column, bound)
    | AtLeast(column: string, bound: int)           // .gte(column, bound)
    | AtMost(column: string, bound: int)            // .lte(column, bound)

  datatype Query = Query(filters: seq<Filter>, limit: nat)

  /** One `column.ilike.pattern` condition of an or-filter. */
  datatype Condition = ILike(column: string, pattern: string)

  // ---------------------------------------------------------------------------
  // Meaning of filters on a meal row
  // ---------------------------------------------------------------------------

  function TextColumn(m: Meal, column: string): Option<string> {
    if column == "name" then Some(m.name)
    else if column == "description" then m.description
    else if column == "category" then m.category
    else None
  }

  function NumberColumn(m: Meal, column: string): Option<int> {
    if column == "price" then Some(m.priceCents) else None
  }

  function BoolColumn(m: Meal, column: string): Option<bool> {
    if column == "is_available" then Some(m.isAvailable) else None
  }

  /** Reads `column.operator.value`; only the `ilike` operator is known. An
      unquoted value ends at `)`, which closes the or-filter's group, so a
      value holding one leaves the rest of the text unread and is no
      condition. */
  function ParseCondition(piece: string): Option<Condition> {
    match IndexOf(piece, '.')
    case None => None
    case Some(i) =>
      var rest := piece[i + 1..];
      match IndexOf(rest, '.')
      case None => None
      case Some(j) =>
        var value := rest[j + 1..];
        if rest[..j] == "ilike" && ')' !in value then Some(ILike(piece[..i], value)) else None
  }

  /** A condition on a null column does not hold, as in SQL. */
  predicate ConditionHolds(c: Condition, m: Meal) {
    TextColumn(m, c.column).Some? && ILikeMatch(c.pattern, TextColumn(m, c.column).value)
  }

  predicate PieceHolds(piece: string, m: Meal) {
    ParseCondition(piece).Some? && ConditionHolds(ParseCondition(piece).value, m)
  }

  predicate Holds(f: Filter, m: Meal) {
    match f
    case IsTrue(col) => BoolColumn(m, col) == Some(true)
    case AnyOf(text) => exists piece :: piece in Split(text, ',') && PieceHolds(piece, m)
    case InList(col, values) => TextColumn(m, col).Some? && TextColumn(m, col).value in values
    case Below(col, b) => NumberColumn(m, col).Some? && NumberColumn(m, col).value < b
    case Above(col, b) => NumberColumn(m, col).Some? && NumberColumn(m, col).value > b
    case AtLeast(col, b) => NumberColumn(m, col).Some? && NumberColumn(m, col).value >= b
    case AtMost(col, b) => NumberColumn(m, col).Some? && NumberColumn(m, col).value <= b
  }

  /** A row satisfies a query when it satisfies every filter. */
  predicate Matches(q: Query, m: Meal) {
    AllHold(q.filters, m)
  }

  /** Every comma-separated piece of an or-filter text reads as a
      condition. */
  predicate AllPiecesParse(text: string) {
    forall piece :: piece in Split(text, ',') ==> ParseCondition(piece).Some?
  }

  /** PostgREST refuses a query whose or-filter holds a piece that is not a
      `column.operator.value` condition: the store read then fails. */
  predicate WellFormed(q: Query) {
    forall i :: 0 <= i < |q.filters| && q.filters[i].AnyOf? ==> AllPiecesParse(q.filters[i].conditions)
  }

  predicate AllHold(filters: seq<Filter>, m: Meal) {
    forall i :: 0 <= i < |filters| ==> Holds(filters[i], m)
  }

  /** Adding filters to a query narrows it: a row satisfies the joined
      filters exactly when it satisfies both parts. */
  lemma AllHoldAppend(a: seq<Filter>, b: seq<Filter>, m: Meal)
    ensures AllHold(a + b, m) <==> AllHold(a, m) && AllHold(b, m)
  {
    if AllHold(a, m) && AllHold(b, m) {
      forall i | 0 <= i < |a + b| ensures Holds((a + b)[i], m) {
        if i >= |a| { assert (a + b)[i] == b[i - |a|]; }
      }
    }
    if AllHold(a + b, m) {
      forall i | 0 <= i < |a| ensures Holds(a[i], m) {
        assert (a + b)[i] == a[i];
      }
      forall i | 0 <= i < |b| ensures Holds(b[i], m) {
        assert (a + b)[|a| + i] == b[i];
      }
    }
  }

  // ---------------------------------------------------------------------------
  // What the criteria ask for, stated on a meal record
  // ---------------------------------------------------------------------------

  predicate KeywordFilterActive(c: MealCriteria) {
    c.keywords.Some? && |c.keywords.value| > 0
  }

  predicate CategoryFilterActive(c: MealCriteria) {
    c.categories.Some? && |c.categories.value| > 0
  }

  /** The meal's name, description or category contains the keyword,
      ignoring case. */
  predicate MentionsKeyword(m: Meal, k: string) {
    || ContainsIgnoringCase(m.name, k)
    || (m.description.Some? && ContainsIgnoringCase(m.description.value, k))
    || (m.category.Some? && ContainsIgnoringCase(m.category.value, k))
  }

  /** The price band of a price preference; an unknown or missing preference
      puts no bound on the price. */
  predicate InPriceBand(preference: Option<string>, cents: int) {
    match preference
    case Some("budget") => cents < BudgetBelowCents
    case Some("premium") => cents > PremiumAboveCents
    case Some("moderate") => ModerateFromCents <= cents <= ModerateToCents
    case _ => true
  }

  /** A meal the criteria select: available, mentioning some keyword when
      there are keywords, in one of the categories when there are
      categories, and in the price band. */
  predicate Eligible(c: MealCriteria, m: Meal) {
    && m.isAvailable
    && (KeywordFilterActive(c) ==> exists k :: k in c.keywords.value && MentionsKeyword(m, k))
    && (CategoryFilterActive(c) ==> m.category.Some? && m.category.value in c.categories.value)
    && InPriceBand(c.pricePreference, m.priceCents)
  }

  // ---------------------------------------------------------------------------
  // The keyword or-filter text
  // ---------------------------------------------------------------------------

  /** The three conditions for one escaped keyword. */
  function KeywordPieces(e: string): seq<string> {
    ["name.ilike.%" + e + "%", "description.ilike.%" + e + "%", "category.ilike.%" + e + "%"]
  }

  /** The text built for one escaped keyword: its three conditions,
      comma-separated. */
  function KeywordClause(e: string): string {
    Join(KeywordPieces(e), ',')
  }

  /** The or-filter text: one clause per keyword, joined by commas. It is
      the text the source sends whenever no keyword holds a backslash. */
  function KeywordConditions(keywords: seq<string>): (text: string)
    ensures NoBackslash(keywords) ==> text == KeywordConditionsAsWritten(keywords)
  {
    ClausesAgree(keywords);
    Join(seq(|keywords|, i requires 0 <= i < |keywords| => KeywordClause(EscapeLike(keywords[i]))), ',')
  }

  /** The or-filter text exactly as the source builds it, with its escape. */
  function KeywordConditionsAsWritten(keywords: seq<string>): string {
    Join(seq(|keywords|, i requires 0 <= i < |keywords| => KeywordClause(EscapeWildcards(keywords[i]))), ',')
  }

  predicate NoBackslash(keywords: seq<string>) {
    forall i :: 0 <= i < |keywords| ==> '\\' !in keywords[i]
  }

  predicate CommaFree(keywords: seq<string>) {
    forall i :: 0 <= i < |keywords| ==> ',' !in keywords[i]
  }

  /** No keyword holds `)`, which would end its conditions' values. */
  predicate ParenFree(keywords: seq<string>) {
    forall i :: 0 <= i < |keywords| ==> ')' !in keywords[i]
  }

  /** Without backslashes, the two escapes give the same clauses. */
  lemma ClausesAgree(keywords: seq<string>)
    ensures NoBackslash(keywords) ==>
      seq(|keywords|, i requires 0 <= i < |keywords| => KeywordClause(EscapeLike(keywords[i])))
      == seq(|keywords|, i requires 0 <= i < |keywords| => KeywordClause(EscapeWildcards(keywords[i])))
  {
    if NoBackslash(keywords) {
      forall i | 0 <= i < |keywords|
        ensures EscapeWildcards(keywords[i]) == EscapeLike(keywords[i])
      {
        EscapeWildcardsWithoutBackslash(keywords[i]);
      }
    }
  }

  lemma {:induction false} EscapeLikeKeepsOut(k: string, c: char)
    requires c !in k && !IsLikeSpecial(c)
    ensures c !in EscapeLike(k)
  {
    if |k| > 0 {
      assert k == [k[0]] + k[1..];
      EscapeLikeKeepsOut(k[1..], c);
    }
  }

  lemma {:induction false} EscapeLikeKeepsIn(k: string, c: char)
    requires c in k
    ensures c in EscapeLike(k)
  {
    if k[0] != c {
      assert c in k[1..];
      EscapeLikeKeepsIn(k[1..], c);
    }
  }

  lemma PieceCommaFree(column: string, e: string)
    requires ',' !in column && ',' !in e
    ensures ',' !in column + ".ilike.%" + e + "%"
  {
    assert ',' !in ".ilike.%";
    assert ',' !in "%";
  }

  lemma ClauseSplits(e: string)
    requires ',' !in e
    ensures Split(KeywordClause(e), ',') == KeywordPieces(e)
  {
    var pieces := KeywordPieces(e);
    PieceCommaFree("name", e);
    PieceCommaFree("description", e);
    PieceCommaFree("category", e);
    assert pieces[0] == "name" + ".ilike.%" + e + "%";
    assert pieces[1] == "description" + ".ilike.%" + e + "%";
    assert pieces[2] == "category" + ".ilike.%" + e + "%";
    SplitOfJoin(pieces, ',');
  }

  lemma {:induction false} InFlatten<T>(x: T, xss: seq<seq<T>>)
    ensures x in Flatten(xss) <==> exists i :: 0 <= i < |xss| && x in xss[i]
  {
    if |xss| > 0 {
      InFlatten(x, xss[1..]);
      if exists i :: 0 <= i < |xss[1..]| && x in xss[1..][i] {
        var i :| 0 <= i < |xss[1..]| && x in xss[1..][i];
        assert x in xss[i + 1];
      }
      if exists i :: 0 <= i < |xss| && x in xss[i] {
        var i :| 0 <= i < |xss| && x in xss[i];
        if i > 0 { assert x in xss[1..][i - 1]; }
      }
    }
  }

  /** The three conditions of each keyword, keyword by keyword. */
  function KeywordGroups(keywords: seq<string>): (groups: seq<seq<string>>)
    ensures |groups| == |keywords|
    ensures forall i :: 0 <= i < |keywords| ==> groups[i] == KeywordPieces(EscapeLike(keywords[i]))
  {
    seq(|keywords|, i requires 0 <= i < |keywords| => KeywordPieces(EscapeLike(keywords[i])))
  }

  /** For comma-free keywords the or-filter text splits into exactly three
      pieces per keyword: name, description and category, in keyword order.
      PostgREST reads every piece as a condition exactly when no keyword
      holds `)`. */
  lemma KeywordConditionsSplit(keywords: seq<string>)
    requires |keywords| > 0 && CommaFree(keywords)
    ensures Split(KeywordConditions(keywords), ',') == Flatten(KeywordGroups(keywords))
    ensures AllPiecesParse(KeywordConditions(keywords)) <==> ParenFree(keywords)
  {
    var clauses := seq(|keywords|, i requires 0 <= i < |keywords| => KeywordClause(EscapeLike(keywords[i])));
    SplitJoin(clauses, ',');
    forall i | 0 <= i < |keywords|
      ensures Split(clauses[i], ',') == KeywordPieces(EscapeLike(keywords[i]))
    {
      EscapeLikeKeepsOut(keywords[i], ',');
      ClauseSplits(EscapeLike(keywords[i]));
    }
    var groups := KeywordGroups(keywords);
    assert seq(|clauses|, i requires 0 <= i < |clauses| => Split(clauses[i], ',')) == groups;
    if ParenFree(keywords) {
      forall piece | piece in Split(KeywordConditions(keywords), ',')
        ensures ParseCondition(piece).Some?
      {
        InFlatten(piece, groups);
        var i :| 0 <= i < |groups| && piece in groups[i];
        EscapeLikeKeepsOut(keywords[i], ')');
        PiecesParse(EscapeLike(keywords[i]));
      }
    } else {
      var i :| 0 <= i < |keywords| && ')' in keywords[i];
      ParenCutsNamePiece(keywords[i]);
      InFlatten(KeywordPieces(EscapeLike(keywords[i]))[0], groups);
    }
  }

  lemma {:induction false} FlattenLength<T>(xss: seq<seq<T>>, n: nat)
    requires forall i :: 0 <= i < |xss| ==> |xss[i]| == n
    ensures |Flatten(xss)| == n * |xss|
  {
    if |xss| > 0 {
      FlattenLength(xss[1..], n);
    }
  }

  /** Three conditions per keyword. */
  lemma KeywordConditionCount(keywords: seq<string>)
    requires |keywords| > 0 && CommaFree(keywords)
    ensures |Split(KeywordConditions(keywords), ',')| == 3 * |keywords|
  {
    KeywordConditionsSplit(keywords);
    FlattenLength(KeywordGroups(keywords), 3);
  }

  /** `column.ilike.pattern` reads back as its column and pattern, unless the
      pattern holds `)`. */
  lemma ParseIlikePiece(column: string, pattern: string)
    requires '.' !in column
    ensures ParseCondition(column + ".ilike." + pattern)
         == if ')' in pattern then None else Some(ILike(column, pattern))
  {
    var piece := column + ".ilike." + pattern;
    assert piece == column + ['.'] + ("ilike." + pattern);
    IndexOfAfter(column, '.', "ilike." + pattern);
    var rest := piece[|column| + 1..];
    assert rest == "ilike" + ['.'] + pattern;
    IndexOfAfter("ilike", '.', pattern);
    assert rest[..5] == "ilike";
    assert piece[..|column|] == column;
    assert rest[6..] == pattern;
  }

  /** One `column.ilike.%keyword%` condition holds exactly when the column is
      not null and contains the keyword, ignoring case. */
  lemma ColumnPieceMeaning(column: string, k: string, m: Meal)
    requires column == "name" || column == "description" || column == "category"
    requires ')' !in k
    ensures PieceHolds(column + ".ilike." + ("%" + EscapeLike(k) + "%"), m)
        <==> TextColumn(m, column).Some? && ContainsIgnoringCase(TextColumn(m, column).value, k)
  {
    EscapeLikeKeepsOut(k, ')');
    assert ')' !in "%" + EscapeLike(k) + "%";
    ParseIlikePiece(column, "%" + EscapeLike(k) + "%");
    if TextColumn(m, column).Some? {
      ILikeSubstringPattern(k, TextColumn(m, column).value);
    }
  }

  /** The three conditions of one keyword together hold exactly when the meal
      mentions the keyword. */
  lemma PiecesMeaning(k: string, m: Meal)
    requires ')' !in k
    ensures (exists p :: p in KeywordPieces(EscapeLike(k)) && PieceHolds(p, m)) <==> MentionsKeyword(m, k)
  {
    var pattern := "%" + EscapeLike(k) + "%";
    var pieces := KeywordPieces(EscapeLike(k));
    assert pieces[0] == "name" + ".ilike." + pattern;
    assert pieces[1] == "description" + ".ilike." + pattern;
    assert pieces[2] == "category" + ".ilike." + pattern;
    ColumnPieceMeaning("name", k, m);
    ColumnPieceMeaning("description", k, m);
    ColumnPieceMeaning("category", k, m);
    assert forall p :: p in pieces <==> p == pieces[0] || p == pieces[1] || p == pieces[2];
  }

  /** Each piece of the or-filter text comes from one keyword. */
  lemma KeywordOfPiece(keywords: seq<string>, piece: string) returns (i: nat)
    requires |keywords| > 0 && CommaFree(keywords)
    requires piece in Split(KeywordConditions(keywords), ',')
    ensures i < |keywords| && piece in KeywordPieces(EscapeLike(keywords[i]))
  {
    var groups := KeywordGroups(keywords);
    KeywordConditionsSplit(keywords);
    InFlatten(piece, groups);
    i :| 0 <= i < |groups| && piece in groups[i];
  }

  /** Each keyword's three conditions are pieces of the or-filter text. */
  lemma PieceOfKeyword(keywords: seq<string>, i: nat, piece: string)
    requires |keywords| > 0 && CommaFree(keywords)
    requires i < |keywords| && piece in KeywordPieces(EscapeLike(keywords[i]))
    ensures piece in Split(KeywordConditions(keywords), ',')
  {
    var groups := KeywordGroups(keywords);
    KeywordConditionsSplit(keywords);
    InFlatten(piece, groups);
    assert piece in groups[i];
  }

  /** The or-filter holds exactly when the meal mentions one of the keywords. */
  lemma KeywordFilterMeaning(keywords: seq<string>, m: Meal)
    requires |keywords| > 0 && CommaFree(keywords) && ParenFree(keywords)
    ensures Holds(AnyOf(KeywordConditions(keywords)), m) <==> exists k :: k in keywords && MentionsKeyword(m, k)
  {
    var text := KeywordConditions(keywords);
    if Holds(AnyOf(text), m) {
      var piece :| piece in Split(text, ',') && PieceHolds(piece, m);
      var i := KeywordOfPiece(keywords, piece);
      assert ')' !in keywords[i];
      PiecesMeaning(keywords[i], m);
      assert keywords[i] in keywords;
    }
    if exists k :: k in keywords && MentionsKeyword(m, k) {
      var k :| k in keywords && MentionsKeyword(m, k);
      var i :| 0 <= i < |keywords| && keywords[i] == k;
      assert ')' !in k;
      PiecesMeaning(k, m);
      var piece :| piece in KeywordPieces(EscapeLike(k)) && PieceHolds(piece, m);
      PieceOfKeyword(keywords, i, piece);
    }
  }

  // ---------------------------------------------------------------------------
  // The query
  // ---------------------------------------------------------------------------

  function KeywordFilters(c: MealCriteria): seq<Filter> {
    if KeywordFilterActive(c) then [AnyOf(KeywordConditions(c.keywords.value))] else []
  }

  function CategoryFilters(c: MealCriteria): seq<Filter> {
    if CategoryFilterActive(c) then [InList("category", c.categories.value)] else []
  }

  function PriceFilters(preference: Option<string>): seq<Filter> {
    match preference
    case Some("budget") => [Below("price", BudgetBelowCents)]
    case Some("premium") => [Above("price", PremiumAboveCents)]
    case Some("moderate") => [AtLeast("price", ModerateFromCents), AtMost("price", ModerateToCents)]
    case _ => []
  }

  /** The candidate query for the criteria. It is the query the source
      sends whenever no keyword holds a backslash. */
  function CandidateQuery(c: MealCriteria): (q: Query)
    ensures (c.keywords.Some? ==> NoBackslash(c.keywords.value)) ==> q == CandidateQueryAsWritten(c)
  {
    Query([IsTrue("is_available")] + KeywordFilters(c) + CategoryFilters(c) + PriceFilters(c.pricePreference),
          CandidateLimit)
  }

  /** The candidate query exactly as the source builds it, with its escape. */
  function CandidateQueryAsWritten(c: MealCriteria): Query {
    var keywordFilters := if KeywordFilterActive(c) then [AnyOf(KeywordConditionsAsWritten(c.keywords.value))] else [];
    Query([IsTrue("is_available")] + keywordFilters + CategoryFilters(c) + PriceFilters(c.pricePreference),
          CandidateLimit)
  }

  /** The query builder, reassigning the query filter by filter. */
  method BuildQuery(c: MealCriteria) returns (q: Query)
    ensures q == CandidateQuery(c)
  {
    var filters := [IsTrue("is_available")];
    if c.keywords.Some? && |c.keywords.value| > 0 {
      filters := filters + [AnyOf(KeywordConditions(c.keywords.value))];
    }
    assert filters == [IsTrue("is_available")] + KeywordFilters(c);
    if c.categories.Some? && |c.categories.value| > 0 {
      filters := filters + [InList("category", c.categories.value)];
    }
    assert filters == [IsTrue("is_available")] + KeywordFilters(c) + CategoryFilters(c);
    if c.pricePreference == Some("budget") {
      filters := filters + [Below("price", BudgetBelowCents)];
    } else if c.pricePreference == Some("premium") {
      filters := filters + [Above("price", PremiumAboveCents)];
    } else if c.pricePreference == Some("moderate") {
      filters := filters + [AtLeast("price", ModerateFromCents)];
      filters := filters + [AtMost("price", ModerateToCents)];
    }
    q := Query(filters, CandidateLimit);
  }

  lemma PriceFiltersMeaning(preference: Option<string>, m: Meal)
    ensures AllHold(PriceFilters(preference), m) <==> InPriceBand(preference, m.priceCents)
  {
    var fs := PriceFilters(preference);
    if preference == Some("moderate") {
      assert fs == [AtLeast("price", ModerateFromCents), AtMost("price", ModerateToCents)];
      assert Holds(fs[0], m) && Holds(fs[1], m) <==> InPriceBand(preference, m.priceCents);
    } else if preference == Some("budget") {
      assert fs == [Below("price", BudgetBelowCents)];
      assert Holds(fs[0], m) <==> InPriceBand(preference, m.priceCents);
    } else if preference == Some("premium") {
      assert fs == [Above("price", PremiumAboveCents)];
      assert Holds(fs[0], m) <==> InPriceBand(preference, m.priceCents);
    } else {
      assert fs == [];
    }
  }

  /** The parts of the candidate query, in order; the price part holds
      neither an or-filter nor a list filter. */
  lemma QueryLayout(c: MealCriteria)
    ensures CandidateQuery(c).filters
         == [IsTrue("is_available")] + KeywordFilters(c) + CategoryFilters(c) + PriceFilters(c.pricePreference)
    ensures forall f :: f in PriceFilters(c.pricePreference) ==> !f.AnyOf? && !f.InList?
  {
  }

  lemma OrFilterShape(c: MealCriteria)
    ensures var q := CandidateQuery(c);
      && (AnyOf(KeywordConditions(c.keywords.GetOr([]))) in q.filters <==> KeywordFilterActive(c))
      && ((exists i :: 0 <= i < |q.filters| && q.filters[i].AnyOf?) <==> KeywordFilterActive(c))
  {
    var q := CandidateQuery(c);
    QueryLayout(c);
    if KeywordFilterActive(c) {
      assert q.filters[1] == AnyOf(KeywordConditions(c.keywords.value));
    } else {
      forall i | 0 <= i < |q.filters| ensures !q.filters[i].AnyOf? {
        assert q.filters[i] in q.filters;
      }
    }
  }

  lemma ListFilterShape(c: MealCriteria)
    ensures var q := CandidateQuery(c);
      (exists i :: 0 <= i < |q.filters| && q.filters[i].InList?) <==> CategoryFilterActive(c)
  {
    var q := CandidateQuery(c);
    QueryLayout(c);
    if CategoryFilterActive(c) {
      assert q.filters[1 + |KeywordFilters(c)|].InList?;
    } else {
      forall i | 0 <= i < |q.filters| ensures !q.filters[i].InList? {
        assert q.filters[i] in q.filters;
      }
    }
  }

  /** Which filters the query carries: availability always, first; the
      or-filter exactly when there are keywords; the category filter exactly
      when there are categories; and the limit is 20. */
  lemma CandidateQueryShape(c: MealCriteria)
    ensures var q := CandidateQuery(c);
      && q.limit == 20
      && |q.filters| > 0 && q.filters[0] == IsTrue("is_available")
      && (AnyOf(KeywordConditions(c.keywords.GetOr([]))) in q.filters <==> KeywordFilterActive(c))
      && ((exists i :: 0 <= i < |q.filters| && q.filters[i].AnyOf?) <==> KeywordFilterActive(c))
      && ((exists i :: 0 <= i < |q.filters| && q.filters[i].InList?) <==> CategoryFilterActive(c))
  {
    OrFilterShape(c);
    ListFilterShape(c);
  }

  lemma KeywordFiltersMeaning(c: MealCriteria, m: Meal)
    requires c.keywords.Some? ==> CommaFree(c.keywords.value) && ParenFree(c.keywords.value)
    ensures AllHold(KeywordFilters(c), m)
        <==> (KeywordFilterActive(c) ==> exists k :: k in c.keywords.value && MentionsKeyword(m, k))
  {
    var fs := KeywordFilters(c);
    if KeywordFilterActive(c) {
      KeywordFilterMeaning(c.keywords.value, m);
      assert fs == [AnyOf(KeywordConditions(c.keywords.value))];
      assert AllHold(fs, m) <==> Holds(fs[0], m);
    }
  }

  lemma CategoryFiltersMeaning(c: MealCriteria, m: Meal)
    ensures AllHold(CategoryFilters(c), m)
        <==> (CategoryFilterActive(c) ==> m.category.Some? && m.category.value in c.categories.value)
  {
    var fs := CategoryFilters(c);
    if CategoryFilterActive(c) {
      assert fs == [InList("category", c.categories.value)];
      assert AllHold(fs, m) <==> Holds(fs[0], m);
    }
  }

  /** The candidate query is the conjunction of its four parts. */
  lemma CandidateQueryParts(c: MealCriteria, m: Meal)
    ensures Matches(CandidateQuery(c), m) <==>
      && m.isAvailable
      && AllHold(KeywordFilters(c), m)
      && AllHold(CategoryFilters(c), m)
      && InPriceBand(c.pricePreference, m.priceCents)
  {
    var head: seq<Filter> := [IsTrue("is_available")];
    AllHoldAppend(head, KeywordFilters(c), m);
    AllHoldAppend(head + KeywordFilters(c), CategoryFilters(c), m);
    AllHoldAppend(head + KeywordFilters(c) + CategoryFilters(c), PriceFilters(c.pricePreference), m);
    PriceFiltersMeaning(c.pricePreference, m);
    assert AllHold(head, m) <==> Holds(head[0], m);
  }

  /** Every row the query admits is available, in the price band and, when
      categories are given, in one of them, whatever the keywords are. */
  lemma CandidateQuerySound(c: MealCriteria, m: Meal)
    requires Matches(CandidateQuery(c), m)
    ensures m.isAvailable
    ensures InPriceBand(c.pricePreference, m.priceCents)
    ensures CategoryFilterActive(c) ==> m.category.Some? && m.category.value in c.categories.value
  {
    CandidateQueryParts(c, m);
    CategoryFiltersMeaning(c, m);
  }

  /** The query admits exactly the eligible meals, when no keyword contains a
      comma (a comma would split a keyword across two conditions) or `)`. */
  lemma CandidateQueryMeaning(c: MealCriteria, m: Meal)
    requires c.keywords.Some? ==> CommaFree(c.keywords.value) && ParenFree(c.keywords.value)
    ensures Matches(CandidateQuery(c), m) <==> Eligible(c, m)
  {
    CandidateQueryParts(c, m);
    KeywordFiltersMeaning(c, m);
    CategoryFiltersMeaning(c, m);
  }

  /** The query the source sends admits exactly the eligible meals when no
      keyword holds a comma, `)` or a backslash. */
  lemma CandidateQueryAsWrittenMeaning(c: MealCriteria, m: Meal)
    requires c.keywords.Some? ==>
      CommaFree(c.keywords.value) && ParenFree(c.keywords.value) && NoBackslash(c.keywords.value)
    ensures Matches(CandidateQueryAsWritten(c), m) <==> Eligible(c, m)
  {
    CandidateQueryMeaning(c, m);
  }

  /** The source's pattern for the keyword `\` is `%\%`, which ends in a
      literal `%`: it matches "50%". */
  lemma BackslashPatternMatchesPercent()
    ensures EscapeWildcards("\\") == "\\"
    ensures ILikeMatch("%" + EscapeWildcards("\\") + "%", "50%")
  {
    var pattern := "%" + EscapeWildcards("\\") + "%";
    assert EscapeWildcards("\\") == "\\";
    assert pattern == ['%', '\\', '%'];
    assert Lower(pattern) == pattern && Lower("50%") == "50%";
    assert LikeMatch(pattern[1..], "%");
    assert LikeMatch(pattern, "50%"[2..]);
    assert LikeMatch(pattern, "50%"[1..]);
  }

  /** The source's or-filter for a single keyword whose escape has no comma
      reads as that keyword's three conditions. */
  lemma SingleKeywordSplit(k: string)
    requires ',' !in EscapeWildcards(k)
    ensures Split(KeywordConditionsAsWritten([k]), ',') == KeywordPieces(EscapeWildcards(k))
  {
    assert KeywordConditionsAsWritten([k]) == KeywordClause(EscapeWildcards(k));
    ClauseSplits(EscapeWildcards(k));
  }

  /** A keyword's `name` condition holds when its pattern matches the meal's
      name. */
  lemma NamePieceHolds(e: string, m: Meal)
    requires ')' !in e && ILikeMatch("%" + e + "%", m.name)
    ensures PieceHolds(KeywordPieces(e)[0], m)
  {
    assert ')' !in "%" + e + "%";
    assert KeywordPieces(e)[0] == "name" + ".ilike." + ("%" + e + "%");
    ParseIlikePiece("name", "%" + e + "%");
  }

  /** "50%" does not contain a backslash. */
  lemma PercentLacksBackslash()
    ensures !ContainsIgnoringCase("50%", "\\")
  {
    assert Lower("\\") == "\\" && Lower("50%") == "50%";
    assert !Contains("", "\\");
    assert "%"[0] != "\\"[0];
    assert "%"[1..] == "" && !Contains("%", "\\");
    assert "0%"[1..] == "%" && !Contains("0%", "\\");
    assert "50%"[1..] == "0%";
  }

  /** The source's or-filter for the single keyword `\` holds of a meal
      named "50%". */
  lemma BackslashFilterHolds(m: Meal)
    requires m.name == "50%"
    ensures Holds(AnyOf(KeywordConditionsAsWritten(["\\"])), m)
  {
    var e := EscapeWildcards("\\");
    BackslashPatternMatchesPercent();
    SingleKeywordSplit("\\");
    assert ')' !in e;
    NamePieceHolds(e, m);
    assert KeywordPieces(e)[0] in Split(KeywordConditionsAsWritten(["\\"]), ',');
  }

  /** The source's query for the fallback search `\` admits every available
      meal named "50%". */
  lemma BackslashQueryAdmitsPercent(m: Meal)
    requires m.isAvailable && m.name == "50%"
    ensures Matches(CandidateQueryAsWritten(FallbackCriteria("\\")), m)
  {
    BackslashFilterHolds(m);
    FallbackAsWrittenMatches("\\", m);
  }

  /** The source's query for the fallback criteria is availability and the
      query's or-filter. */
  lemma FallbackAsWrittenMatches(query: string, m: Meal)
    requires m.isAvailable && Holds(AnyOf(KeywordConditionsAsWritten([query])), m)
    ensures Matches(CandidateQueryAsWritten(FallbackCriteria(query)), m)
  {
    var q := CandidateQueryAsWritten(FallbackCriteria(query));
    assert q.filters == [IsTrue("is_available"), AnyOf(KeywordConditionsAsWritten([query]))];
  }

  /** With a backslash the two queries part: for the fallback search `\`,
      the source's pattern `%\%` asks for a literal `%`, so it admits a meal
      named "50%" that does not mention the query, which the corrected query
      does not admit. */
  lemma BackslashQueryDiffers()
    ensures var m := Meal("1", "50%", None, 500, None, None, true, None);
      && Matches(CandidateQueryAsWritten(FallbackCriteria("\\")), m)
      && !MentionsKeyword(m, "\\")
      && !Matches(CandidateQuery(FallbackCriteria("\\")), m)
  {
    var m := Meal("1", "50%", None, 500, None, None, true, None);
    BackslashQueryAdmitsPercent(m);
    PercentLacksBackslash();
    CandidateQueryMeaning(FallbackCriteria("\\"), m);
  }

  // ---------------------------------------------------------------------------
  // Running the query against the table
  // ---------------------------------------------------------------------------

  /** The rows of `table` the query admits, in table order. */
  function Select(q: Query, table: seq<Meal>): (rows: seq<Meal>)
    ensures |rows| <= |table|
    ensures forall m :: m in rows ==> m in table && Matches(q, m)
    ensures forall m :: m in table && Matches(q, m) ==> m in rows
  {
    if |table| == 0 then []
    else
      var rest := Select(q, table[1..]);
      if Matches(q, table[0]) then [table[0]] + rest else rest
  }

  /** The rows the store returns for the query: the admitted rows, at most
      `q.limit` of them. The table's order is the engine's order, which the
      query does not fix. */
  function Execute(q: Query, table: seq<Meal>): (rows: seq<Meal>)
    ensures |rows| <= q.limit
    ensures forall m :: m in rows ==> m in table && Matches(q, m)
    ensures |rows| < q.limit ==> forall m :: m in table && Matches(q, m) ==> m in rows
  {
    var all := Select(q, table);
    if |all| <= q.limit then all else all[..q.limit]
  }

  /** The candidates of the search: at most 20 available meals of the table,
      each in the price band and category set asked for, and eligible when no
      keyword holds a comma or `)`. */
  lemma CandidatesAreEligible(c: MealCriteria, table: seq<Meal>)
    ensures var rows := Execute(CandidateQuery(c), table);
      && |rows| <= CandidateLimit
      && forall m :: m in rows ==>
        && m in table && m.isAvailable
        && InPriceBand(c.pricePreference, m.priceCents)
        && (CategoryFilterActive(c) ==> m.category.Some? && m.category.value in c.categories.value)
        && ((c.keywords.Some? ==> CommaFree(c.keywords.value) && ParenFree(c.keywords.value)) ==> Eligible(c, m))
  {
    var rows := Execute(CandidateQuery(c), table);
    forall m | m in rows
      ensures InPriceBand(c.pricePreference, m.priceCents) && m.isAvailable
      ensures CategoryFilterActive(c) ==> m.category.Some? && m.category.value in c.categories.value
      ensures (c.keywords.Some? ==> CommaFree(c.keywords.value) && ParenFree(c.keywords.value)) ==> Eligible(c, m)
    {
      CandidateQuerySound(c, m);
      if c.keywords.Some? ==> CommaFree(c.keywords.value) && ParenFree(c.keywords.value) {
        CandidateQueryMeaning(c, m);
      }
    }
  }

  /** With the keyword-only fallback criteria, the candidates are available
      meals whose name, description or category contains the raw query. */
  lemma FallbackCandidatesMentionQuery(query: string, table: seq<Meal>)
    requires ',' !in query && ')' !in query
    ensures forall m :: m in Execute(CandidateQuery(FallbackCriteria(query)), table) ==>
      m.isAvailable && MentionsKeyword(m, query)
  {
    var c := FallbackCriteria(query);
    forall m | m in Execute(CandidateQuery(c), table)
      ensures m.isAvailable && MentionsKeyword(m, query)
    {
      CandidateQueryMeaning(c, m);
      assert Eligible(c, m);
    }
  }

  lemma {:induction false} EscapeLikeAppend(x: string, y: string)
    ensures EscapeLike(x + y) == EscapeLike(x) + EscapeLike(y)
  {
    if |x| > 0 {
      assert (x + y)[0] == x[0] && (x + y)[1..] == x[1..] + y;
      EscapeLikeAppend(x[1..], y);
    } else {
      assert x + y == y;
    }
  }

  /** The or-filter is the query's only filter with condition text: it sits
      right after the availability filter when there are keywords. */
  lemma OrFilterPlace(c: MealCriteria)
    ensures var q := CandidateQuery(c);
      forall i :: 0 <= i < |q.filters| && q.filters[i].AnyOf? ==>
        KeywordFilterActive(c) && i == 1 && q.filters[i] == AnyOf(KeywordConditions(c.keywords.value))
  {
    var q := CandidateQuery(c);
    assert q.filters == [IsTrue("is_available")] + KeywordFilters(c) + (CategoryFilters(c) + PriceFilters(c.pricePreference));
  }

  /** Without commas in the keywords, PostgREST accepts the candidate query
      exactly when no keyword holds `)`: then every piece of the or-filter is
      an `ilike` condition. */
  lemma CandidateQueryWellFormed(c: MealCriteria)
    requires c.keywords.Some? ==> CommaFree(c.keywords.value)
    ensures WellFormed(CandidateQuery(c)) <==> (c.keywords.Some? ==> ParenFree(c.keywords.value))
  {
    OrFilterPlace(c);
    if KeywordFilterActive(c) {
      KeywordConditionsSplit(c.keywords.value);
      assert CandidateQuery(c).filters[1] == AnyOf(KeywordConditions(c.keywords.value));
    }
  }

  lemma PiecesParse(e: string)
    requires ')' !in e
    ensures forall piece :: piece in KeywordPieces(e) ==> ParseCondition(piece).Some?
  {
    var pattern := "%" + e + "%";
    var pieces := KeywordPieces(e);
    assert pieces[0] == "name" + ".ilike." + pattern;
    assert pieces[1] == "description" + ".ilike." + pattern;
    assert pieces[2] == "category" + ".ilike." + pattern;
    PatternParses(e);
    assert forall p :: p in pieces <==> p == pieces[0] || p == pieces[1] || p == pieces[2];
  }

  /** Each column's condition reads, for a pattern without `)`. */
  lemma PatternParses(e: string)
    requires ')' !in e
    ensures var pattern := "%" + e + "%";
      && ParseCondition("name" + ".ilike." + pattern).Some?
      && ParseCondition("description" + ".ilike." + pattern).Some?
      && ParseCondition("category" + ".ilike." + pattern).Some?
  {
    var pattern := "%" + e + "%";
    assert ')' !in pattern;
    ParseIlikePiece("name", pattern);
    ParseIlikePiece("description", pattern);
    ParseIlikePiece("category", pattern);
  }

  /** A keyword holding `)` leaves its `name` condition unread. */
  lemma ParenCutsNamePiece(k: string)
    requires ')' in k
    ensures ParseCondition(KeywordPieces(EscapeLike(k))[0]).None?
  {
    EscapeLikeKeepsIn(k, ')');
    NamePieceUnread(EscapeLike(k));
  }

  lemma NamePieceUnread(e: string)
    requires ')' in e
    ensures ParseCondition(KeywordPieces(e)[0]).None?
  {
    ParenInPattern(e);
    assert KeywordPieces(e)[0] == "name" + ".ilike." + ("%" + e + "%");
    ParseIlikePiece("name", "%" + e + "%");
  }

  /** A piece of one part is a piece of the joined text. */
  lemma InSplitOfJoin(parts: seq<string>, sep: char, i: nat, piece: string)
    requires i < |parts| && piece in Split(parts[i], sep)
    ensures piece in Split(Join(parts, sep), sep)
  {
    var splits := seq(|parts|, j requires 0 <= j < |parts| => Split(parts[j], sep));
    SplitJoin(parts, sep);
    InFlatten(piece, splits);
    assert piece in splits[i];
  }

  /** Escaping leaves a comma in place. */
  lemma EscapeAroundComma(before: string, after: string)
    ensures EscapeLike(before + [','] + after) == EscapeLike(before) + [','] + EscapeLike(after)
  {
    EscapeLikeAppend(before, [','] + after);
    EscapeLikeAppend([','], after);
    assert EscapeLike([',']) == [','];
    assert before + [','] + after == before + ([','] + after);
  }

  /** The text after the last comma of an escaped keyword, closed by `%`, is a
      piece of the keyword's clause. */
  lemma CommaPieceInClause(x: string, y: string)
    requires ',' !in y
    ensures y + "%" in Split(KeywordClause(x + [','] + y), ',')
  {
    var pieces := KeywordPieces(x + [','] + y);
    assert pieces[0] == ("name.ilike.%" + x) + [','] + (y + "%");
    SplitAround("name.ilike.%" + x, ',', y + "%");
    SplitWithout(y + "%", ',');
    InSplitOfJoin(pieces, ',', 0, y + "%");
  }

  /** A piece without a dot names no column, so it is no condition. */
  lemma NoDotNoCondition(piece: string)
    requires '.' !in piece
    ensures ParseCondition(piece).None?
  {
  }

  /** The piece a comma cuts out of a keyword's `name` condition. */
  lemma CommaCutsNamePiece(before: string, after: string)
    requires '.' !in after && ',' !in after
    ensures EscapeLike(after) + "%" in Split(KeywordClause(EscapeLike(before + [','] + after)), ',')
    ensures ParseCondition(EscapeLike(after) + "%").None?
  {
    var ea := EscapeLike(after);
    EscapeAroundComma(before, after);
    EscapeLikeKeepsOut(after, '.');
    EscapeLikeKeepsOut(after, ',');
    CommaPieceInClause(EscapeLike(before), ea);
    assert '.' !in ea + "%";
    NoDotNoCondition(ea + "%");
  }

  /** A keyword holding a comma, whose part after its last comma has no dot,
      breaks the or-filter: that part, closed by `%`, becomes a piece of its
      own with no column or operator, so PostgREST refuses the query (a
      fallback search for "chicken, rice" is one). */
  lemma CommaKeywordRejected(c: MealCriteria, n: nat, before: string, after: string)
    requires c.keywords.Some? && n < |c.keywords.value|
    requires c.keywords.value[n] == before + [','] + after
    requires '.' !in after && ',' !in after
    ensures !WellFormed(CandidateQuery(c))
  {
    var keywords := c.keywords.value;
    var clauses := seq(|keywords|, i requires 0 <= i < |keywords| => KeywordClause(EscapeLike(keywords[i])));
    var bad := EscapeLike(after) + "%";
    CommaCutsNamePiece(before, after);
    InSplitOfJoin(clauses, ',', n, bad);
    var q := CandidateQuery(c);
    assert q.filters[1] == AnyOf(KeywordConditions(keywords));
    assert !AllPiecesParse(q.filters[1].conditions);
  }

  lemma ParenInPattern(e: string)
    requires ')' in e
    ensures ')' in "%" + e + "%"
  {
    var j :| 0 <= j < |e| && e[j] == ')';
    assert ("%" + e + "%")[j + 1] == ')';
  }

  /** A keyword holding `)` and no comma breaks the or-filter: its `name`
      condition's value ends early, so PostgREST refuses the query. */
  lemma ParenKeywordRejected(c: MealCriteria, n: nat)
    requires c.keywords.Some? && n < |c.keywords.value|
    requires ')' in c.keywords.value[n] && ',' !in c.keywords.value[n]
    ensures !WellFormed(CandidateQuery(c))
  {
    var keywords := c.keywords.value;
    var clauses := seq(|keywords|, i requires 0 <= i < |keywords| => KeywordClause(EscapeLike(keywords[i])));
    var bad := KeywordPieces(EscapeLike(keywords[n]))[0];
    ParenCutsNamePiece(keywords[n]);
    EscapeLikeKeepsOut(keywords[n], ',');
    ClauseSplits(EscapeLike(keywords[n]));
    InSplitOfJoin(clauses, ',', n, bad);
    var q := CandidateQuery(c);
    assert q.filters[1] == AnyOf(KeywordConditions(keywords));
    assert !AllPiecesParse(q.filters[1].conditions);
  }

  /** The fallback search for "pizza (vegan)" is refused by the store. */
  lemma PizzaVeganRejected()
    ensures !WellFormed(CandidateQuery(FallbackCriteria("pizza (vegan)")))
  {
    var k := "pizza (vegan)";
    assert k[12] == ')';
    assert forall i :: 0 <= i < |k| ==> k[i] != ',';
    ParenKeywordRejected(FallbackCriteria(k), 0);
  }

  /** The fallback search for "chicken, rice" is refused by the store. */
  lemma ChickenRiceRejected()
    ensures !WellFormed(CandidateQuery(FallbackCriteria("chicken, rice")))
  {
    assert "chicken, rice" == "chicken" + [','] + " rice";
    CommaKeywordRejected(FallbackCriteria("chicken, rice"), 0, "chicken", " rice");
  }
}
