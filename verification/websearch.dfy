/** Search-result normalisation and snippet formatting from
    `utils/websearch.py`. The Tavily client call is a function parameter. */
module WebSearch {
  import opened Results
  import opened Text

  /** One raw search hit: a dictionary whose string-valued keys are kept. */
  type RawItem = map<string, string>

  /** The search response: a dictionary of which only list-valued keys such
      as "results" are kept. */
  type SearchResponse = map<string, seq<RawItem>>

  /** The search provider, called with a query and a maximum result count. */
  type SearchApi = (string, nat) -> Result<SearchResponse>

  /** A normalised hit: exactly the keys title, url and content. */
  datatype Record = Record(title: string, url: string, content: string)

  /** How many characters of each hit's content a snippet shows. */
  const ExcerptLength: nat := 300

  /** `item.get(key, "")`. */
  function Field(item: RawItem, key: string): (v: string)
    ensures key in item ==> v == item[key]
    ensures key !in item ==> v == ""
  {
    if key in item then item[key] else ""
  }

  /** `res.get("results", [])`. */
  function ResultsOf(res: SearchResponse): (items: seq<RawItem>)
    ensures "results" in res ==> items == res["results"]
    ensures "results" !in res ==> items == []
  {
    if "results" in res then res["results"] else []
  }

  function NormalizeItem(item: RawItem): (r: Record)
    ensures r.title == Field(item, "title")
    ensures r.url == Field(item, "url")
    ensures r.content == Field(item, "content")
  {
    Record(Field(item, "title"), Field(item, "url"), Field(item, "content"))
  }

  /** The normalisation loop of `web_search`: one record per raw hit, in
      order, and no truncation to the requested maximum. */
  function Normalize(res: SearchResponse): (out: seq<Record>)
    ensures |out| == |ResultsOf(res)|
    ensures "results" !in res ==> out == []
    ensures forall i :: 0 <= i < |out| ==> out[i] == NormalizeItem(ResultsOf(res)[i])
  {
    var items := ResultsOf(res);
    seq(|items|, i requires 0 <= i < |items| => NormalizeItem(items[i]))
  }

  /** The dictionary a record stands for. */
  function ToRaw(r: Record): RawItem {
    map["title" := r.title, "url" := r.url, "content" := r.content]
  }

  /** Normalising the dictionary of a record gives the record back. */
  lemma NormalizeItemRoundTrip(r: Record)
    ensures NormalizeItem(ToRaw(r)) == r
  {
    var m := ToRaw(r);
    assert "title" in m && "url" in m && "content" in m;
    assert m["title"] == r.title;
  }

  /** Keys other than title, url and content do not affect the record. */
  lemma NormalizeItemDropsExtraKeys(item: RawItem, extra: RawItem)
    requires "title" !in extra && "url" !in extra && "content" !in extra
    ensures NormalizeItem(item + extra) == NormalizeItem(item)
  {
  }

  /** `web_search`: a raising client call propagates. */
  function Search(query: string, maxResults: nat, api: SearchApi): (r: Result<seq<Record>>)
    ensures r.Failure? <==> api(query, maxResults).Failure?
    ensures r.Failure? ==> r.error == api(query, maxResults).error
    ensures r.Success? ==> r.value == Normalize(api(query, maxResults).value)
    ensures r.Success? ==> |r.value| == |ResultsOf(api(query, maxResults).value)|
  {
    match api(query, maxResults)
    case Failure(e) => Failure(e)
    case Success(res) => Success(Normalize(res))
  }

  function Min(a: nat, b: nat): nat {
    if a <= b then a else b
  }

  /** `content[:300]`. */
  function Excerpt(content: string): (r: string)
    ensures r <= content
    ensures |r| == Min(ExcerptLength, |content|)
  {
    if |content| <= ExcerptLength then content else content[..ExcerptLength]
  }

  /** One formatted snippet; "..." is appended even when nothing was cut. */
  function SnippetEntry(it: Record): (r: string)
    ensures ("- " + it.title + " \U{2014} " + it.url + "\n  ") <= r
    ensures r[|r| - 3..] == "..."
  {
    "- " + it.title + " \U{2014} " + it.url + "\n  " + Excerpt(it.content) + "..."
  }

  /** The head and tail of a snippet frame its excerpt, which is the content
      when it fits and the first 300 characters of it otherwise. */
  lemma SnippetEntryExcerpt(it: Record)
    ensures var head := "- " + it.title + " \U{2014} " + it.url + "\n  ";
            var r := SnippetEntry(it);
            |r| == |head| + Min(ExcerptLength, |it.content|) + 3 &&
            r[|head|..|r| - 3] == (if |it.content| <= ExcerptLength then it.content
                                   else it.content[..ExcerptLength])
  {
  }

  function SnippetEntries(items: seq<Record>): (es: seq<string>)
    ensures |es| == |items|
  {
    seq(|items|, i requires 0 <= i < |items| => SnippetEntry(items[i]))
  }

  /** The formatting step of `summarized_snippets`. */
  function FormatSnippets(items: seq<Record>): (r: string)
    ensures r == "" <==> |items| == 0
    ensures |items| == 1 ==> r == SnippetEntry(items[0])
    ensures |items| > 0 ==> SnippetEntry(items[0]) <= r
  {
    if |items| == 0 then ""
    else
      JoinEmptyIff("\n\n", SnippetEntries(items));
      Join("\n\n", SnippetEntries(items))
  }

  /** One more hit adds a blank line and its snippet: item order is kept. */
  lemma FormatSnippetsSnoc(items: seq<Record>, it: Record)
    requires |items| > 0
    ensures FormatSnippets(items + [it]) == FormatSnippets(items) + "\n\n" + SnippetEntry(it)
  {
    var all := items + [it];
    forall i | 0 <= i < |items|
      ensures SnippetEntries(all)[i] == SnippetEntries(items)[i]
    {
      assert all[i] == items[i];
    }
    assert SnippetEntries(all) == SnippetEntries(items) + [SnippetEntry(it)];
    JoinSnoc("\n\n", SnippetEntries(items), SnippetEntry(it));
  }

  /** `summarized_snippets`: empty when the search found nothing; a raising
      client call propagates. */
  function SummarizedSnippets(query: string, maxResults: nat, api: SearchApi): (r: Result<string>)
    ensures r.Failure? <==> api(query, maxResults).Failure?
    ensures r.Failure? ==> r.error == api(query, maxResults).error
    ensures r.Success? ==> r.value == FormatSnippets(Normalize(api(query, maxResults).value))
    ensures r == Success("") <==>
              api(query, maxResults).Success? && |ResultsOf(api(query, maxResults).value)| == 0
  {
    match Search(query, maxResults, api)
    case Failure(e) => Failure(e)
    case Success(items) => Success(FormatSnippets(items))
  }
}
