/** `getResponse` and `getRandomResponse`: the keyword matcher that picks the
    chat widget's reply.

    The reply is decided in two steps. `Decide` runs the deterministic stages
    (loading check, greeting rules, best category entry, default fallback)
    and yields either a fixed text or the list a random reply is drawn from.
    `GetResponse` then draws from that list with `GetRandomResponse`, whose
    `Math.random()` value is the caller-supplied `roll`. */
module Matcher {
  import opened Text
  import opened Knowledge

  /** What `getResponse` returns: a string, or `undefined` when it indexes an
      empty response list. */
  datatype Reply = Says(text: string) | Undefined

  /** The outcome of the deterministic stages of `getResponse`. */
  datatype Decision = Fixed(text: string) | RandomFrom(pool: seq<string>)

  /** Returned while the knowledge base has not been loaded. */
  const LoadingMessage := "База знаний ещё загружается, подожди немного... ⏳"

  // ---------------------------------------------------------------------
  // getRandomResponse
  // ---------------------------------------------------------------------

  /** `Math.floor(roll * n)` for a `Math.random()` value `roll`: an index of a
      list of `n` elements. */
  function RandomIndex(roll: real, n: nat): (i: nat)
    requires 0.0 <= roll < 1.0
    requires n > 0
    ensures i < n
  {
    var x := roll * n as real;
    assert x < n as real;
    x.Floor
  }

  /** `responses[Math.floor(Math.random() * responses.length)]`: an element
      of the list, or `undefined` exactly when the list is empty. */
  function GetRandomResponse(responses: seq<string>, roll: real): (r: Reply)
    requires 0.0 <= roll < 1.0
    ensures r.Undefined? <==> |responses| == 0
    ensures r.Says? ==> r.text in responses
  {
    if |responses| == 0 then Undefined
    else Says(responses[RandomIndex(roll, |responses|)])
  }

  /** Every element of a non-empty list is drawn by some `Math.random()`
      value: the pick ranges over the whole list, not just part of it. */
  lemma EveryResponseReachable(responses: seq<string>, i: int)
    requires 0 <= i < |responses|
    ensures exists roll: real :: 0.0 <= roll < 1.0 && GetRandomResponse(responses, roll) == Says(responses[i])
  {
    var n := |responses| as real;
    var roll := i as real / n;
    assert roll * n == i as real;
    assert RandomIndex(roll, |responses|) == i;
    assert GetRandomResponse(responses, roll) == Says(responses[i]);
  }

  // ---------------------------------------------------------------------
  // Greeting rules
  // ---------------------------------------------------------------------

  /** Some keyword of the rule occurs in the (lower-cased) message. */
  predicate RuleMatches(rule: GreetingRule, message: string)
  {
    exists k :: k in rule.keywords && Includes(message, k)
  }

  /** Rule `g` is the first rule in order that matches the message. */
  ghost predicate IsFirstMatchingRule(rules: seq<GreetingRule>, message: string, g: int)
  {
    && 0 <= g < |rules|
    && RuleMatches(rules[g], message)
    && forall j :: 0 <= j < g ==> !RuleMatches(rules[j], message)
  }

  /** The outer greeting loop: the index of the first matching rule, or
      `None` when no rule matches. */
  function FirstMatchingRule(rules: seq<GreetingRule>, message: string): (r: Option<nat>)
    ensures r.None? <==> forall j :: 0 <= j < |rules| ==> !RuleMatches(rules[j], message)
    ensures r.Some? ==> IsFirstMatchingRule(rules, message, r.value)
  {
    if |rules| == 0 then None
    else if RuleMatches(rules[0], message) then Some(0)
    else match FirstMatchingRule(rules[1..], message)
      case None => None
      case Some(g) => Some(g + 1)
  }

  // ---------------------------------------------------------------------
  // Category entries
  // ---------------------------------------------------------------------

  /** `matchCount` of the inner keyword loop: how many keywords (duplicates
      included) occur in the message. */
  function MatchCount(keywords: seq<string>, message: string): (r: nat)
    ensures r <= |keywords|
    ensures r == 0 <==> forall i :: 0 <= i < |keywords| ==> !Includes(message, keywords[i])
  {
    if |keywords| == 0 then 0
    else (if Includes(message, keywords[0]) then 1 else 0) + MatchCount(keywords[1..], message)
  }

  /** The positions of `keywords` whose keyword occurs in the message. */
  ghost function MatchingPositions(keywords: seq<string>, message: string, lo: int): set<int>
  {
    set i | 0 <= i < |keywords| && lo <= i && Includes(message, keywords[i])
  }

  /** The count is the number of matching positions from `lo` on. */
  lemma {:induction false} MatchCountFrom(keywords: seq<string>, message: string, lo: nat)
    requires lo <= |keywords|
    ensures MatchCount(keywords[lo..], message) == |MatchingPositions(keywords, message, lo)|
    decreases |keywords| - lo
  {
    if lo == |keywords| {
      assert MatchingPositions(keywords, message, lo) == {};
    } else {
      MatchCountFrom(keywords, message, lo + 1);
      assert keywords[lo..][1..] == keywords[lo + 1..];
      var rest := MatchingPositions(keywords, message, lo + 1);
      if Includes(message, keywords[lo]) {
        assert MatchingPositions(keywords, message, lo) == {lo} + rest;
      } else {
        assert MatchingPositions(keywords, message, lo) == rest;
      }
    }
  }

  /** An entry's match count is the number of positions of its keyword list
      whose keyword occurs in the message; a keyword listed twice counts
      twice. */
  lemma MatchCountIsPositionCount(keywords: seq<string>, message: string)
    ensures MatchCount(keywords, message) == |MatchingPositions(keywords, message, 0)|
  {
    assert keywords[0..] == keywords;
    MatchCountFrom(keywords, message, 0);
  }

  /** The match count of the `j`-th entry of the listing. */
  function Count(listing: seq<Listed>, message: string, j: int): nat
    requires 0 <= j < |listing|
  {
    MatchCount(listing[j].entry.keywords, message)
  }

  /** Entry `k` is the one `bestMatch` ends up holding: it matches at least one
      keyword, no entry matches more, and every earlier entry matches fewer
      (`>` keeps the earliest of several equal maxima). */
  ghost predicate IsBestEntry(listing: seq<Listed>, message: string, k: int)
  {
    && 0 <= k < |listing|
    && Count(listing, message, k) > 0
    && (forall j :: 0 <= j < |listing| ==> Count(listing, message, j) <= Count(listing, message, k))
    && (forall j :: 0 <= j < k ==> Count(listing, message, j) < Count(listing, message, k))
  }

  /** What the loop variables `bestMatch` (as an index) and `maxMatches` say
      once the first `i` entries have been visited. */
  ghost predicate ScanState(listing: seq<Listed>, message: string, i: int, best: Option<nat>, max: nat)
  {
    && 0 <= i <= |listing|
    && (best.None? ==> max == 0 && forall j :: 0 <= j < i ==> Count(listing, message, j) == 0)
    && (best.Some? ==>
          && best.value < i
          && max > 0
          && Count(listing, message, best.value) == max
          && (forall j :: 0 <= j < i ==> Count(listing, message, j) <= max)
          && (forall j :: 0 <= j < best.value ==> Count(listing, message, j) < max))
  }

  /** The category loop from entry `i` on, with `best`/`max` the values of
      `bestMatch`/`maxMatches` so far. */
  function ScanFrom(listing: seq<Listed>, message: string, i: nat, best: Option<nat>, max: nat): (r: Option<nat>)
    requires ScanState(listing, message, i, best, max)
    ensures r.None? <==> forall j :: 0 <= j < |listing| ==> Count(listing, message, j) == 0
    ensures r.Some? ==> IsBestEntry(listing, message, r.value)
    decreases |listing| - i
  {
    if i == |listing| then best
    else
      var c := Count(listing, message, i);
      if c > max then ScanFrom(listing, message, i + 1, Some(i), c)
      else ScanFrom(listing, message, i + 1, best, max)
  }

  /** The entry whose answer `bestMatch` holds after the category loop, or
      `None` when `bestMatch` stays `null` because no keyword matched. */
  function BestEntry(listing: seq<Listed>, message: string): (r: Option<nat>)
    ensures r.None? <==> forall j :: 0 <= j < |listing| ==> Count(listing, message, j) == 0
    ensures r.Some? ==> IsBestEntry(listing, message, r.value)
  {
    ScanFrom(listing, message, 0, None, 0)
  }

  /** At most one entry is the best: the contract of `BestEntry` pins its
      result down completely. */
  lemma BestEntryUnique(listing: seq<Listed>, message: string, k1: int, k2: int)
    requires IsBestEntry(listing, message, k1)
    requires IsBestEntry(listing, message, k2)
    ensures k1 == k2
  {
  }

  // ---------------------------------------------------------------------
  // getResponse
  // ---------------------------------------------------------------------

  /** The deterministic stages of `getResponse` on an already lower-cased
      message. */
  function DecideLower(kb: KnowledgeBase, message: string): Decision
  {
    match FirstMatchingRule(kb.greetings, message)
    case Some(g) => RandomFrom(kb.greetings[g].responses)
    case None =>
      var listing := Listing(kb.categories);
      match BestEntry(listing, message)
      case Some(k) =>
        // `if (bestMatch)`: an empty answer is falsy
        if listing[k].entry.answer != "" then Fixed(listing[k].entry.answer)
        else RandomFrom(kb.defaultResponses)
      case None => RandomFrom(kb.defaultResponses)
  }

  /** The deterministic stages of `getResponse`:
      - while loading, the loading message, whatever the user wrote;
      - when some greeting keyword occurs in the lower-cased message, a
        random reply of the first such rule (categories are not consulted);
      - otherwise the answer of the best entry, when there is one and it is
        not empty;
      - otherwise a random default response. */
  function Decide(store: Store, userMessage: string): (r: Decision)
    ensures store.Loading? ==> r == Fixed(LoadingMessage)
    ensures store.Loaded? ==>
      var kb := store.kb;
      var message := ToLower(userMessage);
      var listing := Listing(kb.categories);
      && (forall g :: IsFirstMatchingRule(kb.greetings, message, g) ==>
            r == RandomFrom(kb.greetings[g].responses))
      && ((forall g :: 0 <= g < |kb.greetings| ==> !RuleMatches(kb.greetings[g], message)) ==>
            && (forall k :: IsBestEntry(listing, message, k) && listing[k].entry.answer != "" ==>
                  r == Fixed(listing[k].entry.answer))
            && (forall k :: IsBestEntry(listing, message, k) && listing[k].entry.answer == "" ==>
                  r == RandomFrom(kb.defaultResponses))
            && ((forall j :: 0 <= j < |listing| ==> Count(listing, message, j) == 0) ==>
                  r == RandomFrom(kb.defaultResponses)))
  {
    match store
    case Loading => Fixed(LoadingMessage)
    case Loaded(kb) =>
      var message := ToLower(userMessage);
      var r := DecideLower(kb, message);
      assert forall g :: IsFirstMatchingRule(kb.greetings, message, g) ==>
        FirstMatchingRule(kb.greetings, message) == Some(g);
      assert forall k :: IsBestEntry(Listing(kb.categories), message, k) ==>
        BestEntry(Listing(kb.categories), message) == Some(k);
      r
  }

  /** The replies a decision can produce. */
  ghost predicate MayProduce(d: Decision, r: Reply)
  {
    match d
    case Fixed(t) => r == Says(t)
    case RandomFrom(pool) => if |pool| == 0 then r == Undefined else r.Says? && r.text in pool
  }

  /** Turns a decision into a reply: the fixed text, or a random element of
      the response list. */
  function Pick(d: Decision, roll: real): (r: Reply)
    requires 0.0 <= roll < 1.0
    ensures MayProduce(d, r)
  {
    match d
    case Fixed(t) => Says(t)
    case RandomFrom(pool) => GetRandomResponse(pool, roll)
  }

  /** Conversely every reply a decision allows is produced by some
      `Math.random()` value. */
  lemma EveryAllowedReplyReachable(d: Decision, r: Reply)
    requires MayProduce(d, r)
    ensures exists roll: real :: 0.0 <= roll < 1.0 && Pick(d, roll) == r
  {
    match d
    case Fixed(t) =>
      assert Pick(d, 0.0) == r;
    case RandomFrom(pool) =>
      if |pool| == 0 {
        assert Pick(d, 0.0) == r;
      } else {
        var i :| 0 <= i < |pool| && pool[i] == r.text;
        EveryResponseReachable(pool, i);
        var roll: real :| 0.0 <= roll < 1.0 && GetRandomResponse(pool, roll) == Says(pool[i]);
        assert Pick(d, roll) == r;
      }
  }

  /** `getResponse(userMessage)` with `roll` the value `Math.random()`
      returns: a reply of the deterministic decision, so that two calls on
      the same message differ only by the random pick. */
  function GetResponse(store: Store, userMessage: string, roll: real): (r: Reply)
    requires 0.0 <= roll < 1.0
    ensures MayProduce(Decide(store, userMessage), r)
  {
    Pick(Decide(store, userMessage), roll)
  }
}
