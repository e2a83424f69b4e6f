# Chat widget response selection, in Dafny

A model of the decision-making core of a browser chat widget (`script.js`).
The widget answers a user's message from a static knowledge base of greeting
rules, named categories of question/answer entries and default replies:

- `getResponse` returns a fixed "loading" text while the knowledge base is
  absent; otherwise it lower-cases the message, lets the first greeting rule
  with a keyword contained in the message answer with one of its responses,
  and failing that returns the answer of the entry with the strictly largest
  number of contained keywords (ties keep the earliest entry), falling back to
  a random default reply when no entry matched or the chosen answer is empty.
- `getRandomResponse` picks `responses[Math.floor(Math.random() * n)]`.
- `AIHelper.getCategories`, `getQuestionsByCategory` and `search` list and
  search the knowledge base.

Modules:

- `Text` (`text.dfy`): `includes` as `Includes`, proved equal to "occurs at
  some position"; `toLowerCase` as `ToLower`.
- `Knowledge` (`knowledge.dfy`): the knowledge base as immutable datatypes.
  Categories are an ordered sequence of `(name, entries)` pairs, because
  `for...in` visits object keys in a fixed order: insertion order for
  ordinary keys, after integer-like keys in numeric order (see "Left out"). `Listing` flattens them in
  the visit order of the nested loops. `Store` is the module-level variable,
  `Loading` standing for `null`. The fallback knowledge base of
  `loadKnowledgeBase` is the constant `FallbackKnowledgeBase`.
- `Matcher` (`matcher.dfy`): `getResponse` split into `Decide` and
  `GetResponse`. `Decide` holds the deterministic stages and yields a fixed
  text or the list a random reply is drawn from. `GetResponse` draws from
  that list with `Pick`. The value of `Math.random()` is a parameter `roll` with
  `0 <= roll < 1`, and the pick is `Floor(roll * n)` as in the source. So the
  empty-list case (`undefined`) is modelled rather than excluded, and the
  candidate set does not depend on the roll.
- `Helper` (`helper.dfy`): the three `AIHelper` functions.
- `ResponseProperties` (`properties.dfy`): consequences of the contracts and
  a worked example.

Notes on the source's behaviour that the model keeps:

- Keywords are never lower-cased. `getResponse` lower-cases only the
  message, so a keyword with an upper-case letter can never match there.
  `search` lower-cases the query, the question and the answer, but compares
  the query with the keywords as they are.
- `if (bestMatch)` is JavaScript truthiness. A best entry whose answer is the
  empty string gives a default reply.
- A keyword listed twice in an entry counts twice.
- The empty keyword is contained in every message, as with `includes`.
- An empty response list yields `undefined` (`Reply.Undefined`).

## Model

| member | source | states |
|---|---|---|
| Text.IncludesIff | script.js:125 | `includes` holds exactly when the needle occurs as a slice of the message at some position |
| Text.ToLower | script.js:120 | lower-casing keeps the length, yields a string with no upper-case letter, and leaves already lower-case strings and characters unchanged |
| Text.UpperCaseKeywordNeverIncluded | script.js:120-125 | a keyword containing an upper-case letter is never contained in the lower-cased message, whatever the message |
| Knowledge.Listing | script.js:135-138 | every visited entry comes from some category, tagged with that category's name |
| Knowledge.ListingAppend | script.js:135-138 | the visit order is category by category: the listing of two runs of categories is the concatenation of their listings |
| Knowledge.ListingComplete | script.js:135-138 | every entry of every category is visited, tagged with its category's name |
| Knowledge.Lookup | script.js:246-247 | an own key `categories[name]` is absent exactly when no category carries the name, and otherwise holds the entries of the first category carrying it |
| Knowledge.LookupUnique | script.js:246-247 | with unique keys, looking up a category's name finds that category's entries |
| Matcher.RandomIndex | script.js:167 | `Math.floor(Math.random() * n)` is an index below `n` |
| Matcher.GetRandomResponse | script.js:166-168 | the pick is a member of the list, and `undefined` exactly when the list is empty |
| Matcher.EveryResponseReachable | script.js:166-168 | every element of a non-empty list is picked for some `Math.random()` value |
| Matcher.FirstMatchingRule | script.js:123-129 | the greeting loop finds the first rule in order with a contained keyword, and finds none exactly when no rule has one |
| Matcher.MatchCount | script.js:139-146 | the match count is at most the number of keywords, and zero exactly when no keyword is contained in the message |
| Matcher.MatchCountIsPositionCount | script.js:139-146 | the match count is the number of keyword positions whose keyword is contained in the message, duplicates included |
| Matcher.ScanFrom | script.js:132-154 | continuing the category loop from any state the loop can reach ends in the best entry, or in none exactly when every count is zero |
| Matcher.BestEntry | script.js:132-154 | `bestMatch` ends as the answer of an entry with a positive count that no entry exceeds and every earlier entry falls short of, and stays `null` exactly when every count is zero |
| Matcher.BestEntryUnique | script.js:149-152 | at most one entry satisfies the best-entry condition, so the condition determines the selected answer |
| Matcher.Decide | script.js:115-163 | while loading the loading text; if a greeting matches, the responses of the first matching rule; otherwise the best entry's answer when it is non-empty, and the default responses when it is empty or no entry matched |
| Matcher.Pick | script.js:126-168 | the reply is one the decision allows: its fixed text, or a member of its response list, or `undefined` when that list is empty |
| Matcher.EveryAllowedReplyReachable | script.js:126-168 | every reply a decision allows is returned for some `Math.random()` value |
| Matcher.GetResponse | script.js:115-168 | the reply of `getResponse` is one the decision for the same store and message allows, so the candidate set does not depend on the random value |
| Helper.GetCategories | script.js:239-242 | `[]` while loading, otherwise the category names in order |
| Helper.GetQuestionsByCategory | script.js:245-248 | `[]` while loading or for a name that is not a category, otherwise the entries of the first category with that name, unchanged |
| Helper.QuestionsOfNamedCategory | script.js:245-248 | with unique keys, a category's name returns exactly that category's entries |
| Helper.CategoriesAreTheLookupKeys | script.js:239-248 | a name is listed by `getCategories` exactly when it is an own key of `categories` |
| Helper.Filter | script.js:251-272 | a hit is in the filtered list exactly when some listed entry satisfies the three-way search condition and the hit records its category, question and answer |
| Helper.FilterAppend | script.js:254-269 | filtering two runs of entries concatenates their hits, so the hits keep the visit order |
| Helper.SearchEntriesIsFilter | script.js:258-267 | the inner search loop is the filter over one category's tagged entries |
| Helper.SearchIsFilter | script.js:255-269 | the nested search loops equal the filter over the whole listing in category-then-entry order |
| Helper.Search | script.js:251-272 | `[]` while loading, otherwise the filter of all entries in category-then-entry order for the lower-cased query |
| Helper.SearchIgnoresQueryCase | script.js:259-261 | searching for a word and for its lower-cased form gives the same records, since the query is lower-cased before any comparison |
| Helper.SearchFindsExactlyMatchingEntries | script.js:251-272 | a record is returned exactly when some category holds an entry whose keywords contain the lower-cased query or whose lower-cased question or answer contains it |
| ResponseProperties.LoadingIgnoresMessage | script.js:116-118 | while loading, every message gets the loading text |
| ResponseProperties.GreetingShortCircuits | script.js:123-129 | when a greeting matches, replacing the categories and default replies does not change the decision |
| ResponseProperties.UpperCaseGreetingNeverFires | script.js:120-129 | a greeting rule whose keywords all contain an upper-case letter never fires |
| ResponseProperties.UpperCaseKeywordsNeverCount | script.js:139-146 | keywords that all contain an upper-case letter give a match count of zero |
| ResponseProperties.NothingMatchesGivesDefault | script.js:157-162 | a message containing no keyword of any rule or entry gets a default reply |
| ResponseProperties.MatchCountAppend | script.js:142-146 | the count of two keyword lists put together is the sum of their counts |
| ResponseProperties.DuplicateKeywordsCountTwice | script.js:142-146 | adding a contained keyword twice to any keyword list raises the count by two |
| ResponseProperties.TieKeepsEarliestEntry | script.js:149-152 | of two entries with equal counts the later one is never the selected entry |
| ResponseProperties.EmptyAnswerFallsBackToDefault | script.js:157-162 | for any knowledge base and message, when no greeting matches and the selected entry's answer is empty, the reply is drawn from the default responses |
| ResponseProperties.FallbackGreets | script.js:15-26 | the fallback knowledge base answers "Привет" with its greeting reply |

## Left out

- `loadKnowledgeBase`: fetching and parsing `knowledgebase.json` is I/O. Only
  its fallback knowledge base is kept, as `FallbackKnowledgeBase`. JSON
  values of the wrong type (an entry without `keywords`, a non-string answer)
  are not modelled: the datatypes are typed. Likewise the arguments of the
  helpers are assumed to be strings: `search()` or `search(5)` throws at
  `keyword.toLowerCase()`, and `getQuestionsByCategory()` looks up the key
  `"undefined"`; neither is modelled.
- `sendMessage`, `addMessage`, `showTypingIndicator`, `hideTypingIndicator`,
  `handleKeyPress`, `sendSuggestion`, `clearChat`, `exportChat`, `getStats`
  and the page wiring: DOM manipulation, timers, file download and console
  output. The random 500-1500 ms delay is presentation only.
- `Math.random()` itself: it is the parameter `roll`, and floating-point
  rounding of `roll * n` is not modelled (exact real arithmetic is used).
- Text.ToLower: lower-cases only basic Latin A-Z and Cyrillic U+0400-U+042F.
  The full Unicode case mapping of `toLowerCase` (other scripts, special
  cases that change length) is not modelled.
- Knowledge.Listing: `for...in` visits integer-like keys first, in numeric
  order, before the other keys in insertion order. The model treats the
  stored order as the visit order, so a knowledge base with integer-like
  category names is assumed to be stored in that visit order.
- Helper.GetQuestionsByCategory: a name inherited from `Object.prototype`
  (`"constructor"`, `"toString"`, `"__proto__"`) makes `categories[name]` a
  truthy non-array value, which the source returns. The model returns `[]`
  for every name that is not a category.
- Knowledge.Lookup: models own keys only; for an inherited name such as
  `"constructor"` the source's `categories[name]` is present although no
  category carries the name, while the model reports it absent.
- Knowledge.LookupUnique: a sequence of categories may repeat a name, but a
  parsed JSON object cannot (`JSON.parse` keeps the last duplicate's value at
  the first key's position). A knowledge base with repeated category names
  stands for no JavaScript object; for it `Listing`, `GetCategories` and
  `Lookup` (which takes the first) are modelling choices only, and the
  lookup lemmas require unique names.
- Helper.CategoriesAreTheLookupKeys: states the correspondence for own keys
  only; an inherited name is present in `categories[name]` without being
  listed by `getCategories`, which the model does not represent.
