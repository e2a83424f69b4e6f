/** The `AIHelper` console helpers: list the category names, list one
    category's entries, and search the knowledge base for a word. */
module Helper {
  import opened Text
  import opened Knowledge

  /** One search hit, `{category, question, answer}`. */
  datatype Hit = Hit(category: string, question: string, answer: string)

  // ---------------------------------------------------------------------
  // getCategories and getQuestionsByCategory
  // ---------------------------------------------------------------------

  /** The category names of a sequence of categories, in order. */
  function Names(cats: seq<Category>): (r: seq<string>)
    ensures |r| == |cats|
    ensures forall i :: 0 <= i < |cats| ==> r[i] == cats[i].name
  {
    if |cats| == 0 then [] else [cats[0].name] + Names(cats[1..])
  }

  /** `Object.keys(knowledgeBase.categories)`, or `[]` while loading. */
  function GetCategories(store: Store): (r: seq<string>)
    ensures store.Loading? ==> r == []
    ensures store.Loaded? ==> |r| == |store.kb.categories|
    ensures store.Loaded? ==> forall i :: 0 <= i < |r| ==> r[i] == store.kb.categories[i].name
  {
    match store
    case Loading => []
    case Loaded(kb) => Names(kb.categories)
  }

  /** `categories[category]` when it is present, `[]` while loading or for
      an unknown name. An empty entry list is still an array, which is
      truthy, so it is returned as it is. */
  function GetQuestionsByCategory(store: Store, category: string): (r: seq<Entry>)
    ensures store.Loading? ==> r == []
    ensures store.Loaded? && category !in GetCategories(store) ==> r == []
    ensures store.Loaded? ==> forall i :: IsFirstNamed(store.kb.categories, category, i) ==>
      r == store.kb.categories[i].entries
  {
    match store
    case Loading => []
    case Loaded(kb) =>
      assert forall i :: 0 <= i < |kb.categories| && kb.categories[i].name == category ==>
        GetCategories(store)[i] == category;
      match Lookup(kb.categories, category)
      case None => []
      case Some(entries) => entries
  }

  /** With unique category names, `getQuestionsByCategory` returns the entry
      list of the category carrying the name, unchanged. */
  lemma QuestionsOfNamedCategory(kb: KnowledgeBase, i: int)
    requires UniqueNames(kb.categories)
    requires 0 <= i < |kb.categories|
    ensures GetQuestionsByCategory(Loaded(kb), kb.categories[i].name) == kb.categories[i].entries
  {
    LookupUnique(kb.categories, i);
  }

  /** A name is listed by `getCategories` exactly when
      `getQuestionsByCategory` finds a category under it. */
  lemma CategoriesAreTheLookupKeys(kb: KnowledgeBase, name: string)
    ensures name in GetCategories(Loaded(kb)) <==> Lookup(kb.categories, name).Some?
  {
    var names := GetCategories(Loaded(kb));
    if name in names {
      var i :| 0 <= i < |names| && names[i] == name;
      assert kb.categories[i].name == name;
    }
  }

  // ---------------------------------------------------------------------
  // search
  // ---------------------------------------------------------------------

  /** The search condition on one entry, for an already lower-cased query:
      the query is one of the keywords (exact `Array.prototype.includes`), or
      it occurs in the lower-cased question or the lower-cased answer. */
  predicate EntryMatchesQuery(e: Entry, query: string)
  {
    || query in e.keywords
    || Includes(ToLower(e.question), query)
    || Includes(ToLower(e.answer), query)
  }

  /** The record pushed for a listed entry. */
  function HitOf(l: Listed): Hit
  {
    Hit(l.category, l.entry.question, l.entry.answer)
  }

  /** The inner `for (item of questions)` loop of `search`. */
  function SearchEntries(category: string, entries: seq<Entry>, query: string): seq<Hit>
  {
    if |entries| == 0 then []
    else
      (if EntryMatchesQuery(entries[0], query) then [Hit(category, entries[0].question, entries[0].answer)] else [])
      + SearchEntries(category, entries[1..], query)
  }

  /** The outer `for (category in categories)` loop of `search`. */
  function SearchCategories(cats: seq<Category>, query: string): seq<Hit>
  {
    if |cats| == 0 then []
    else SearchEntries(cats[0].name, cats[0].entries, query) + SearchCategories(cats[1..], query)
  }

  /** `AIHelper.search(keyword)`: `[]` while loading, otherwise the hits for
      the lower-cased keyword in category-then-entry order. */
  function Search(store: Store, keyword: string): (r: seq<Hit>)
    ensures store.Loading? ==> r == []
    ensures store.Loaded? ==> r == Filter(Listing(store.kb.categories), ToLower(keyword))
  {
    match store
    case Loading => []
    case Loaded(kb) =>
      SearchIsFilter(kb.categories, ToLower(keyword));
      SearchCategories(kb.categories, ToLower(keyword))
  }

  /** Reference definition of the search: keep, in order, the hits of the
      listed entries that satisfy the condition. */
  function Filter(listing: seq<Listed>, query: string): (r: seq<Hit>)
    ensures |r| <= |listing|
    ensures forall h :: h in r <==> exists l :: l in listing && EntryMatchesQuery(l.entry, query) && h == HitOf(l)
  {
    if |listing| == 0 then []
    else
      (if EntryMatchesQuery(listing[0].entry, query) then [HitOf(listing[0])] else [])
      + Filter(listing[1..], query)
  }

  /** Filtering distributes over concatenation, so it keeps the order. */
  lemma {:induction false} FilterAppend(a: seq<Listed>, b: seq<Listed>, query: string)
    ensures Filter(a + b, query) == Filter(a, query) + Filter(b, query)
  {
    if |a| == 0 {
      assert a + b == b;
    } else {
      assert (a + b)[1..] == a[1..] + b;
      FilterAppend(a[1..], b, query);
    }
  }

  /** The inner loop filters one category's tagged entries. */
  lemma {:induction false} SearchEntriesIsFilter(category: string, entries: seq<Entry>, query: string)
    ensures SearchEntries(category, entries, query) == Filter(Tag(category, entries), query)
  {
    if |entries| > 0 {
      SearchEntriesIsFilter(category, entries[1..], query);
      assert Tag(category, entries)[1..] == Tag(category, entries[1..]);
    }
  }

  /** The nested loops of `search` filter the listing of all entries. */
  lemma {:induction false} SearchIsFilter(cats: seq<Category>, query: string)
    ensures SearchCategories(cats, query) == Filter(Listing(cats), query)
  {
    if |cats| > 0 {
      SearchEntriesIsFilter(cats[0].name, cats[0].entries, query);
      SearchIsFilter(cats[1..], query);
      FilterAppend(Tag(cats[0].name, cats[0].entries), Listing(cats[1..]), query);
    }
  }

  /** The query is lower-cased before any comparison, so its case does not
      matter. */
  lemma SearchIgnoresQueryCase(store: Store, keyword: string)
    ensures Search(store, ToLower(keyword)) == Search(store, keyword)
  {
    ToLowerIdempotent(keyword);
  }

  /** A hit is found exactly when some category holds an entry that
      satisfies the search condition and the hit records that category, the
      entry's question and its answer. */
  lemma SearchFindsExactlyMatchingEntries(kb: KnowledgeBase, keyword: string, h: Hit)
    ensures h in Search(Loaded(kb), keyword) <==>
      exists i, j :: 0 <= i < |kb.categories| && 0 <= j < |kb.categories[i].entries|
        && EntryMatchesQuery(kb.categories[i].entries[j], ToLower(keyword))
        && h == Hit(kb.categories[i].name, kb.categories[i].entries[j].question, kb.categories[i].entries[j].answer)
  {
    var cats := kb.categories;
    var query := ToLower(keyword);
    if h in Search(Loaded(kb), keyword) {
      var l :| l in Listing(cats) && EntryMatchesQuery(l.entry, query) && h == HitOf(l);
      var i :| 0 <= i < |cats| && l.category == cats[i].name && l.entry in cats[i].entries;
      var j :| 0 <= j < |cats[i].entries| && cats[i].entries[j] == l.entry;
      assert h == Hit(cats[i].name, cats[i].entries[j].question, cats[i].entries[j].answer);
    }
    if exists i, j :: 0 <= i < |cats| && 0 <= j < |cats[i].entries|
        && EntryMatchesQuery(cats[i].entries[j], query)
        && h == Hit(cats[i].name, cats[i].entries[j].question, cats[i].entries[j].answer)
    {
      var i, j :| 0 <= i < |cats| && 0 <= j < |cats[i].entries|
        && EntryMatchesQuery(cats[i].entries[j], query)
        && h == Hit(cats[i].name, cats[i].entries[j].question, cats[i].entries[j].answer);
      ListingComplete(cats, i, j);
      assert HitOf(Listed(cats[i].name, cats[i].entries[j])) == h;
    }
  }
}
