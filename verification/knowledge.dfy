/** The knowledge base the chat widget answers from: greeting rules, named
    categories of question/answer entries, and default replies. It is loaded
    once and never changed afterwards, so it is an immutable value here.

    `for...in` iterates a JSON object's keys in a fixed order (insertion
    order for ordinary keys, integer-like keys first in numeric order), so the
    categories are an ordered sequence of (name, entries) pairs rather than a
    map; the sequence is taken to be stored in that visit order. */
module Knowledge {

  datatype Option<T> = None | Some(value: T)

  /** A greeting rule: it fires when any keyword occurs in the lower-cased
      message, and then one of its responses is picked at random. */
  datatype GreetingRule = GreetingRule(keywords: seq<string>, responses: seq<string>)

  /** One question/answer entry of a category. */
  datatype Entry = Entry(keywords: seq<string>, question: string, answer: string)

  /** A named category, in the order its key appears in the JSON object. */
  datatype Category = Category(name: string, entries: seq<Entry>)

  datatype KnowledgeBase = KnowledgeBase(
    greetings: seq<GreetingRule>,
    categories: seq<Category>,
    defaultResponses: seq<string>)

  /** The module-level `knowledgeBase` variable: `null` until loading
      finishes, the loaded (or fallback) knowledge base afterwards. */
  datatype Store = Loading | Loaded(kb: KnowledgeBase)

  /** An entry together with the name of the category it was found under. */
  datatype Listed = Listed(category: string, entry: Entry)

  /** JSON object keys are unique. */
  ghost predicate UniqueNames(cats: seq<Category>)
  {
    forall i, j :: 0 <= i < j < |cats| ==> cats[i].name != cats[j].name
  }

  /** The entries of one category, each tagged with the category's name. */
  function Tag(name: string, entries: seq<Entry>): (r: seq<Listed>)
    ensures |r| == |entries|
    ensures forall j :: 0 <= j < |r| ==> r[j] == Listed(name, entries[j])
  {
    if |entries| == 0 then [] else [Listed(name, entries[0])] + Tag(name, entries[1..])
  }

  /** Every entry of the knowledge base in the order the nested loops
      `for (category in categories) for (item of questions)` visit them:
      category by category, and within a category in entry order. */
  function Listing(cats: seq<Category>): (r: seq<Listed>)
    ensures forall l :: l in r ==> exists i :: 0 <= i < |cats| && l.category == cats[i].name && l.entry in cats[i].entries
  {
    if |cats| == 0 then [] else Tag(cats[0].name, cats[0].entries) + Listing(cats[1..])
  }

  /** The listing of two runs of categories is the listing of the first
      followed by the listing of the second: the visit order is preserved. */
  lemma {:induction false} ListingAppend(a: seq<Category>, b: seq<Category>)
    ensures Listing(a + b) == Listing(a) + Listing(b)
  {
    if |a| == 0 {
      assert a + b == b;
    } else {
      assert (a + b)[1..] == a[1..] + b;
      ListingAppend(a[1..], b);
    }
  }

  /** Every entry of every category appears in the listing, tagged with its
      category's name. */
  lemma {:induction false} ListingComplete(cats: seq<Category>, i: int, j: int)
    requires 0 <= i < |cats| && 0 <= j < |cats[i].entries|
    ensures Listed(cats[i].name, cats[i].entries[j]) in Listing(cats)
  {
    if i == 0 {
      assert Tag(cats[0].name, cats[0].entries)[j] == Listed(cats[i].name, cats[i].entries[j]);
    } else {
      ListingComplete(cats[1..], i - 1, j);
    }
  }

  /** Category `i` is the first one carrying `name`. */
  ghost predicate IsFirstNamed(cats: seq<Category>, name: string, i: int)
  {
    && 0 <= i < |cats|
    && cats[i].name == name
    && forall j :: 0 <= j < i ==> cats[j].name != name
  }

  /** `categories[name]`: the entries stored under `name`, if any. */
  function Lookup(cats: seq<Category>, name: string): (r: Option<seq<Entry>>)
    ensures r.None? <==> forall i :: 0 <= i < |cats| ==> cats[i].name != name
    ensures forall i :: IsFirstNamed(cats, name, i) ==> r == Some(cats[i].entries)
  {
    if |cats| == 0 then None
    else if cats[0].name == name then Some(cats[0].entries)
    else
      var r := Lookup(cats[1..], name);
      assert forall i :: IsFirstNamed(cats, name, i) ==> IsFirstNamed(cats[1..], name, i - 1);
      r
  }

  /** With unique names the lookup finds the one category carrying the name. */
  lemma LookupUnique(cats: seq<Category>, i: int)
    requires UniqueNames(cats)
    requires 0 <= i < |cats|
    ensures Lookup(cats, cats[i].name) == Some(cats[i].entries)
  {
    assert IsFirstNamed(cats, cats[i].name, i);
  }

  /** The knowledge base used when `knowledgebase.json` cannot be fetched or
      parsed: no categories, one greeting rule, one default reply. */
  const FallbackKnowledgeBase := KnowledgeBase(
    [GreetingRule(["привет", "здравствуй"], ["Привет! Как дела?"])],
    [],
    ["Извини, у меня возникли проблемы с загрузкой базы знаний. Попробуй перезагрузить страницу."])
}
