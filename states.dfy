/** The geographic state normalizer (`__state_normalized__`): the state
    token is looked up in `states_types` to get a key, and the key in
    `unique_states_types` to get the region descriptor, with the pair
    (99, "Extra") where the key is not listed. The keys of
    `unique_states_types` are JSON object keys, and so always strings. */
module States {
  import opened Py
  import opened PyStr

  /** The fallback pair. */
  const Extra: (JsonScalar, string) := (JNum(99), "Extra")

  /** `k in dic_k.keys()`: a number never equals a string key. */
  predicate Listed(k: JsonScalar, unique: map<string, string>)
  {
    k.JStr? && k.s in unique
  }

  /** The pair for one token, as written: `(k, dic_k[str(k)])` when `k` is
      listed, else the fallback; a token missing from `states_types` raises
      `KeyError`. */
  function StatePair(token: string, states: map<string, JsonScalar>, unique: map<string, string>): (r: Result<(JsonScalar, string)>)
    ensures r.Err? <==> token !in states
    ensures r.Err? ==> r.error == KeyError
    ensures r.Ok? && Listed(states[token], unique) ==> r.value == (states[token], unique[states[token].s])
    ensures r.Ok? && !Listed(states[token], unique) ==> r.value == Extra
  {
    if token !in states then Err(KeyError)
    else
      var k := states[token];
      if Listed(k, unique) then Ok((k, unique[StrOf(k)])) else Ok(Extra)
  }

  /** `__state_normalized__`: one pair per token, in order, or the `KeyError`
      of the first token that `states_types` lacks. */
  function StateNormalized(tokens: seq<string>, states: map<string, JsonScalar>, unique: map<string, string>)
    : (r: Result<seq<(JsonScalar, string)>>)
    ensures r.Ok? <==> forall i :: 0 <= i < |tokens| ==> tokens[i] in states
    ensures r.Ok? ==> |r.value| == |tokens|
    ensures r.Err? ==> r.error == KeyError
  {
    MapOrRaise(tokens, t => StatePair(t, states, unique))
  }

  /** As written, an integer key is never listed: its state falls back to
      (99, "Extra") even when `unique_states_types` has its string. */
  lemma IntegerKeyFallsBack(token: string, states: map<string, JsonScalar>, unique: map<string, string>)
    requires token in states && states[token].JNum?
    ensures StatePair(token, states, unique) == Ok(Extra)
  {
  }

  /** The input that shows it: Jalisco with key 14 and descriptor
      "Occidente" under "14". */
  lemma IntegerKeyExample()
    ensures StatePair("Jalisco", map["Jalisco" := JNum(14)], map["14" := "Occidente"]) == Ok(Extra)
  {
  }

  /** The lookup as intended: the key is listed when its string is a key of
      `unique_states_types`. */
  function StatePairIntended(token: string, states: map<string, JsonScalar>, unique: map<string, string>)
    : (r: Result<(JsonScalar, string)>)
    ensures r.Err? <==> token !in states
    ensures r.Err? ==> r.error == KeyError
  {
    if token !in states then Err(KeyError)
    else
      var k := states[token];
      if StrOf(k) in unique then Ok((k, unique[StrOf(k)])) else Ok(Extra)
  }

  /** What the correction changes: the two lookups differ exactly for an
      integer key whose decimal string is listed, unless the listed
      descriptor happens to make the fallback pair itself. */
  lemma CorrectionChanges(token: string, states: map<string, JsonScalar>, unique: map<string, string>)
    requires token in states
    ensures StatePairIntended(token, states, unique) != StatePair(token, states, unique) <==>
              states[token].JNum? && ShowInt(states[token].n) in unique &&
              (states[token], unique[ShowInt(states[token].n)]) != Extra
  {
  }

  /** For an integer key the intended lookup finds the descriptor stored
      under the key's decimal string. */
  lemma IntendedIntegerKey(token: string, n: int, states: map<string, JsonScalar>, unique: map<string, string>)
    requires token in states && states[token] == JNum(n) && ShowInt(n) in unique
    ensures StatePairIntended(token, states, unique) == Ok((JNum(n), unique[ShowInt(n)]))
  {
  }

  /** Where the keys are strings the two lookups agree. */
  lemma IntendedAgreesOnStringKeys(token: string, states: map<string, JsonScalar>, unique: map<string, string>)
    requires token in states && states[token].JStr?
    ensures StatePairIntended(token, states, unique) == StatePair(token, states, unique)
  {
  }

  /** The column with the intended lookup. */
  function StateNormalizedIntended(tokens: seq<string>, states: map<string, JsonScalar>, unique: map<string, string>)
    : (r: Result<seq<(JsonScalar, string)>>)
    ensures r.Ok? <==> forall i :: 0 <= i < |tokens| ==> tokens[i] in states
    ensures r.Ok? ==> |r.value| == |tokens|
    ensures r.Ok? ==> forall i :: 0 <= i < |tokens| ==>
              r.value[i] == (if StrOf(states[tokens[i]]) in unique
                             then (states[tokens[i]], unique[StrOf(states[tokens[i]])]) else Extra)
  {
    MapOrRaise(tokens, t => StatePairIntended(t, states, unique))
  }
}
