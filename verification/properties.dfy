/** Consequences of the matcher's contracts that the chat widget relies on,
    and a worked example on the fallback knowledge base. */
module ResponseProperties {
  import opened Text
  import opened Knowledge
  import opened Matcher

  /** While loading, the reply is the loading message whatever was typed. */
  lemma LoadingIgnoresMessage(m1: string, m2: string, roll: real)
    requires 0.0 <= roll < 1.0
    ensures GetResponse(Loading, m1, roll) == GetResponse(Loading, m2, roll) == Says(LoadingMessage)
  {
  }

  /** When a greeting rule matches, the categories and the default replies
      play no part: replacing them changes nothing. */
  lemma GreetingShortCircuits(kb: KnowledgeBase, userMessage: string, cats: seq<Category>, defaults: seq<string>)
    requires exists g :: 0 <= g < |kb.greetings| && RuleMatches(kb.greetings[g], ToLower(userMessage))
    ensures Decide(Loaded(kb), userMessage)
         == Decide(Loaded(KnowledgeBase(kb.greetings, cats, defaults)), userMessage)
  {
    var message := ToLower(userMessage);
    var g :| IsFirstMatchingRule(kb.greetings, message, g) by {
      var r := FirstMatchingRule(kb.greetings, message);
      assert r.Some?;
    }
  }

  /** A greeting rule whose keywords all hold an upper-case letter never
      fires, because only the message is lower-cased. */
  lemma UpperCaseGreetingNeverFires(rule: GreetingRule, userMessage: string)
    requires forall k :: k in rule.keywords ==> !IsLower(k)
    ensures !RuleMatches(rule, ToLower(userMessage))
  {
    forall k | k in rule.keywords
      ensures !Includes(ToLower(userMessage), k)
    {
      UpperCaseKeywordNeverIncluded(userMessage, k);
    }
  }

  /** Keywords holding an upper-case letter never add to an entry's count. */
  lemma {:induction false} UpperCaseKeywordsNeverCount(keywords: seq<string>, userMessage: string)
    requires forall i :: 0 <= i < |keywords| ==> !IsLower(keywords[i])
    ensures MatchCount(keywords, ToLower(userMessage)) == 0
  {
    forall i | 0 <= i < |keywords|
      ensures !Includes(ToLower(userMessage), keywords[i])
    {
      UpperCaseKeywordNeverIncluded(userMessage, keywords[i]);
    }
  }

  /** A message no keyword of any rule or entry occurs in gets a default
      reply. */
  lemma NothingMatchesGivesDefault(kb: KnowledgeBase, userMessage: string, roll: real)
    requires 0.0 <= roll < 1.0
    requires forall g :: 0 <= g < |kb.greetings| ==> !RuleMatches(kb.greetings[g], ToLower(userMessage))
    requires forall l :: l in Listing(kb.categories) ==>
      forall k :: k in l.entry.keywords ==> !Includes(ToLower(userMessage), k)
    ensures Decide(Loaded(kb), userMessage) == RandomFrom(kb.defaultResponses)
    ensures |kb.defaultResponses| > 0 ==> GetResponse(Loaded(kb), userMessage, roll).text in kb.defaultResponses
  {
    var listing := Listing(kb.categories);
    forall j | 0 <= j < |listing|
      ensures Count(listing, ToLower(userMessage), j) == 0
    {
      assert listing[j] in listing;
    }
  }

  /** Counting distributes over concatenation of keyword lists. */
  lemma {:induction false} MatchCountAppend(a: seq<string>, b: seq<string>, message: string)
    ensures MatchCount(a + b, message) == MatchCount(a, message) + MatchCount(b, message)
  {
    if |a| == 0 {
      assert a + b == b;
    } else {
      assert (a + b)[0] == a[0];
      assert (a + b)[1..] == a[1..] + b;
      MatchCountAppend(a[1..], b, message);
    }
  }

  /** A keyword contained in the message counts once per listing: adding it
      twice to any keyword list raises the count by two. */
  lemma DuplicateKeywordsCountTwice(keywords: seq<string>, k: string, message: string)
    requires Includes(message, k)
    ensures MatchCount(keywords + [k, k], message) == MatchCount(keywords, message) + 2
  {
    MatchCountAppend(keywords, [k, k], message);
    assert [k, k][1..] == [k];
  }

  /** Of two entries with equal counts the later one is never selected:
      `>` keeps the earlier one, or one further on with a larger count. */
  lemma TieKeepsEarliestEntry(listing: seq<Listed>, message: string, j: int, k: int)
    requires 0 <= j < k < |listing|
    requires Count(listing, message, j) == Count(listing, message, k)
    ensures BestEntry(listing, message) != Some(k)
  {
  }

  /** When no greeting matches and the selected entry's answer is the empty
      string, the reply is drawn from the default responses, because `""` is
      falsy. */
  lemma EmptyAnswerFallsBackToDefault(kb: KnowledgeBase, userMessage: string, k: int)
    requires forall g :: 0 <= g < |kb.greetings| ==> !RuleMatches(kb.greetings[g], ToLower(userMessage))
    requires IsBestEntry(Listing(kb.categories), ToLower(userMessage), k)
    requires Listing(kb.categories)[k].entry.answer == ""
    ensures Decide(Loaded(kb), userMessage) == RandomFrom(kb.defaultResponses)
  {
  }

  // ---------------------------------------------------------------------
  // Worked example
  // ---------------------------------------------------------------------

  /** The fallback knowledge base answers a capitalised Russian greeting with
      its one greeting reply. */
  lemma FallbackGreets()
    ensures Decide(Loaded(FallbackKnowledgeBase), "Привет") == RandomFrom(["Привет! Как дела?"])
  {
    var message := ToLower("Привет");
    assert message == "привет";
    assert Includes(message, "привет");
    assert RuleMatches(FallbackKnowledgeBase.greetings[0], message);
    assert IsFirstMatchingRule(FallbackKnowledgeBase.greetings, message, 0);
  }
}
