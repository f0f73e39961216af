/** Step 1 of the search function: turning the extraction model's reply into
    `MealCriteria`. The reply is cut down to the text matched by
    `/\{[\s\S]*\}/` (from the first `{` to the last `}`), that text is given to
    `JSON.parse`, and any failure falls back to keyword-only criteria.
    `JSON.parse` itself is a parameter: it maps a text to the criteria it
    denotes, or to `None` when it throws. */
module CriteriaExtraction {
  import opened Wrappers
  import opened JsText
  import opened MealModel

  /** The reply holds a `{` with a `}` somewhere after it. */
  predicate HasBracePair(s: string) {
    exists i, j :: 0 <= i < j < |s| && s[i] == '{' && s[j] == '}'
  }

  /** The text given to `JSON.parse`: the regular-expression match when there
      is one, otherwise the whole reply. */
  function JsonCandidate(reply: string): (json: string)
    ensures HasBracePair(reply) ==>
      exists i, j :: 0 <= i < j < |reply| && json == reply[i..j + 1]
        && reply[i] == '{' && reply[j] == '}'
        && (forall k :: 0 <= k < i ==> reply[k] != '{')
        && (forall k :: j < k < |reply| ==> reply[k] != '}')
    ensures !HasBracePair(reply) ==> json == reply
  {
    match (IndexOf(reply, '{'), LastIndexOf(reply, '}'))
    case (Some(i), Some(j)) =>
      if i < j then reply[i..j + 1]
      else
        assert !HasBracePair(reply);
        reply
    case _ => reply
  }

  /** A JSON object wrapped in prose that has no braces of its own is cut out
      exactly. */
  lemma CandidateOfWrappedObject(prose: string, obj: string, trailer: string)
    requires |obj| >= 2 && obj[0] == '{' && obj[|obj| - 1] == '}'
    requires '{' !in prose && '}' !in trailer
    ensures JsonCandidate(prose + obj + trailer) == obj
  {
    var s := prose + obj + trailer;
    var first := |prose|;
    var last := |prose| + |obj| - 1;
    assert s[first] == '{' && s[last] == '}';
    assert forall k :: 0 <= k < first ==> s[k] == prose[k];
    assert forall k :: last < k < |s| ==> s[k] == trailer[k - |prose| - |obj|];
    var i := IndexOf(s, '{');
    var j := LastIndexOf(s, '}');
    assert i == Some(first) by {
      assert '{' in s;
    }
    assert j == Some(last) by {
      assert '}' in s;
    }
    assert s[first..last + 1] == obj;
  }

  /** The criteria the search uses: the parsed reply, or `FallbackCriteria`
      when the reply is missing (`extractionContent.match` throws on
      `undefined`) or `JSON.parse` throws. */
  function ExtractCriteria(query: string, content: Option<string>, parseJson: string -> Option<MealCriteria>): (c: MealCriteria)
    ensures content.Some? && parseJson(JsonCandidate(content.value)).Some? ==>
      c == parseJson(JsonCandidate(content.value)).value
    ensures content.None? || parseJson(JsonCandidate(content.value)).None? ==>
      && c.keywords == Some([query])
      && c.dietaryRestrictions.None? && c.ingredients.None? && c.textures.None?
      && c.flavors.None? && c.categories.None? && c.exclude.None? && c.pricePreference.None?
  {
    match content
    case None => FallbackCriteria(query)
    case Some(reply) =>
      match parseJson(JsonCandidate(reply))
      case Some(parsed) => parsed
      case None => FallbackCriteria(query)
  }
}
