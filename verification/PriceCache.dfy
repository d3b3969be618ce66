/** The cached token prices: paging through the price API, and what the cache holds after any run of
    lookups and refreshes. */
module PriceCache {
  import opened Wrappers
  import opened Strings

  const COINGEKO_MAX_PER_PAGE: nat := 250
  const EURUS := "eun"
  const EURUS_QUOTE := Quote("", 0.1)

  datatype Quote = Quote(symbol: string, price: real)

  /** What one request to the API comes to: an error, a response without data, or a list of quotes. */
  datatype Answer = Failed | NoData | Data(quotes: seq<Quote>)
  type Api = seq<string> -> Answer

  type Cache = map<string, Quote>

  // ------------------------------------------------------------------ pages

  function LowerAll(list: seq<string>): (r: seq<string>)
    ensures |r| == |list| && forall i :: 0 <= i < |r| ==> r[i] == Lower(list[i])
  {
    seq(|list|, i requires 0 <= i < |list| => Lower(list[i]))
  }

  function Pages(list: seq<string>, size: nat): seq<seq<string>>
    requires size > 0
    decreases |list|
  {
    if |list| == 0 then []
    else if |list| <= size then [LowerAll(list)]
    else [LowerAll(list[..size])] + Pages(list[size..], size)
  }

  /** The pages hold every symbol once and in order; all are full but the last, which is not empty. */
  lemma {:induction false} PagesExact(list: seq<string>, size: nat)
    requires size > 0
    ensures Concat(Pages(list, size)) == LowerAll(list)
    ensures forall p :: 0 <= p < |Pages(list, size)| ==> 0 < |Pages(list, size)[p]| <= size
    ensures forall p :: 0 <= p < |Pages(list, size)| - 1 ==> |Pages(list, size)[p]| == size
    decreases |list|
  {
    if 0 < |list| <= size {
      assert Pages(list, size)[1..] == [];
      assert LowerAll(list) + [] == LowerAll(list);
    } else if |list| > size {
      PagesExact(list[size..], size);
      assert Pages(list, size)[1..] == Pages(list[size..], size);
      assert LowerAll(list[..size]) + LowerAll(list[size..]) == LowerAll(list);
    }
  }

  /** The quotes of all pages, unless some page brings none. */
  function Collect(pages: seq<seq<string>>, api: Api): Option<seq<Quote>> {
    if |pages| == 0 then Some([])
    else
      var answer, rest := api(pages[0]), Collect(pages[1..], api);
      if answer.Data? && rest.Some? then Some(answer.quotes + rest.value) else None
  }

  /** The pages that are requested: up to the first that brings no data. */
  function Asked(pages: seq<seq<string>>, api: Api): (r: seq<seq<string>>)
    ensures r <= pages
  {
    if |pages| == 0 then []
    else if api(pages[0]).Data? then [pages[0]] + Asked(pages[1..], api)
    else [pages[0]]
  }

  /** A crawl that succeeds has requested every page. */
  lemma {:induction false} CollectedAsksAll(pages: seq<seq<string>>, api: Api)
    requires Collect(pages, api).Some?
    ensures Asked(pages, api) == pages
  {
    if |pages| > 0 {
      CollectedAsksAll(pages[1..], api);
    }
  }

  predicate AllAnswered(pages: seq<seq<string>>, api: Api) {
    forall i :: 0 <= i < |pages| ==> api(pages[i]).Data?
  }

  function QuotesOf(pages: seq<seq<string>>, api: Api): (r: seq<seq<Quote>>)
    requires AllAnswered(pages, api)
    ensures |r| == |pages|
  {
    seq(|pages|, i requires 0 <= i < |pages| => api(pages[i]).quotes)
  }

  /** A crawl succeeds exactly if every page is answered, with the quotes of all pages in order. It asks page
      after page, all of them answered but possibly the last, and stops early only at that. */
  lemma {:induction false} CrawlMeans(pages: seq<seq<string>>, api: Api)
    ensures Collect(pages, api).Some? <==> AllAnswered(pages, api)
    ensures AllAnswered(pages, api) ==> Collect(pages, api) == Some(Concat(QuotesOf(pages, api)))
    ensures forall i :: 0 <= i < |Asked(pages, api)| - 1 ==> api(Asked(pages, api)[i]).Data?
    ensures |Asked(pages, api)| < |pages| ==>
              |Asked(pages, api)| > 0 && !api(Asked(pages, api)[|Asked(pages, api)| - 1]).Data?
  {
    if |pages| > 0 {
      CrawlMeans(pages[1..], api);
      assert AllAnswered(pages, api) <==> api(pages[0]).Data? && AllAnswered(pages[1..], api) by {
        assert forall i :: 0 < i < |pages| ==> pages[i] == pages[1..][i - 1];
      }
      if AllAnswered(pages, api) {
        assert QuotesOf(pages, api)[1..] == QuotesOf(pages[1..], api);
      }
    }
  }

  function Prepend(quotes: seq<Quote>, rest: Option<seq<Quote>>): Option<seq<Quote>> {
    if rest.None? then None else Some(quotes + rest.value)
  }

  /** Midway through a crawl: what has been requested and gathered, and the pages that remain. */
  ghost predicate Progress(pages: seq<seq<string>>, api: Api, asked: seq<seq<string>>, quotes: seq<Quote>,
                           rest: seq<seq<string>>) {
    Asked(pages, api) == asked + Asked(rest, api) && Collect(pages, api) == Prepend(quotes, Collect(rest, api))
  }

  lemma ProgressStart(pages: seq<seq<string>>, api: Api)
    ensures Progress(pages, api, [], [], pages)
  {
    assert [] + Asked(pages, api) == Asked(pages, api);
    assert Collect(pages, api).Some? ==> [] + Collect(pages, api).value == Collect(pages, api).value;
  }

  lemma ProgressStep(pages: seq<seq<string>>, api: Api, asked: seq<seq<string>>, quotes: seq<Quote>,
                     rest: seq<seq<string>>)
    requires Progress(pages, api, asked, quotes, rest) && |rest| > 0
    ensures !api(rest[0]).Data? ==> Asked(pages, api) == asked + [rest[0]] && Collect(pages, api).None?
    ensures api(rest[0]).Data? ==> Progress(pages, api, asked + [rest[0]], quotes + api(rest[0]).quotes, rest[1..])
  {
    var answer, tail := api(rest[0]), Collect(rest[1..], api);
    if answer.Data? {
      assert asked + ([rest[0]] + Asked(rest[1..], api)) == asked + [rest[0]] + Asked(rest[1..], api);
      assert tail.Some? ==> quotes + (answer.quotes + tail.value) == quotes + answer.quotes + tail.value;
    }
  }

  // ------------------------------------------------------------------ cache operations

  /** The object built from a list of quotes, keyed by symbol. */
  function Reduce(quotes: seq<Quote>): Cache {
    if |quotes| == 0 then map[]
    else var last := quotes[|quotes| - 1]; Reduce(quotes[..|quotes| - 1])[last.symbol := last]
  }

  /** `getTokenInfo` on a symbol that is not cached stores the first quote of the answer, if any. */
  function Lookup(c: Cache, api: Api, symbol: string): Cache {
    var key := Lower(symbol);
    if key in c then c
    else
      var answer := api([key]);
      if answer.Data? && |answer.quotes| > 0 then c[key := answer.quotes[0]] else c
  }

  /** The symbols of a balance request that are not cached, in order. */
  function Missing(c: Cache, list: seq<string>): seq<string> {
    if |list| == 0 then []
    else
      var last := Lower(list[|list| - 1]);
      Missing(c, list[..|list| - 1]) + if last in c then [] else [last]
  }

  predicate Lists(list: seq<string>, key: string) {
    exists i :: 0 <= i < |list| && Lower(list[i]) == key
  }

  lemma ListsNext(list: seq<string>, key: string)
    requires |list| > 0
    ensures Lists(list, key) <==> Lists(list[..|list| - 1], key) || Lower(list[|list| - 1]) == key
  {
    var front := list[..|list| - 1];
    if Lists(list, key) && Lower(list[|list| - 1]) != key {
      var i :| 0 <= i < |list| && Lower(list[i]) == key;
      assert front[i] == list[i];
    }
    if Lists(front, key) {
      var i :| 0 <= i < |front| && Lower(front[i]) == key;
      assert list[i] == front[i];
    }
  }

  /** They are, in lower case, the listed symbols that are not cached, and no others. */
  lemma {:induction false} MissingExact(c: Cache, list: seq<string>, key: string)
    ensures key in Missing(c, list) <==> key !in c && Lists(list, key)
  {
    if |list| > 0 {
      MissingExact(c, list[..|list| - 1], key);
      ListsNext(list, key);
    }
  }

  /** `getTokenInfoForGetBalance`: the constant quote is stored only along with fetched ones. */
  function LookupForBalance(c: Cache, api: Api, list: seq<string>): Cache {
    if |Missing(c, list)| == 0 then c
    else
      var answer := api(Missing(c, list));
      if answer.Data? then c[EURUS := EURUS_QUOTE] + Reduce(answer.quotes) else c
  }

  /** The cached keys, each once, in the order they are enumerated. */
  ghost predicate Enumerates(keys: seq<string>, c: Cache) {
    Distinct(keys) && forall key :: key in keys <==> key in c
  }

  /** `updateTokenListInfo`, with the cached keys in the order they are enumerated. */
  function Refresh(c: Cache, api: Api, keys: seq<string>): Cache {
    var results := Collect(Pages(keys, COINGEKO_MAX_PER_PAGE), api);
    if results.Some? then c + Reduce(results.value) else c
  }

  // ------------------------------------------------------------------ the service

  class CoinPriceService {
    /** The stored map, and every list of symbols requested so far. */
    var stored: Cache
    var requests: seq<seq<string>>

    method FetchListTokenInfo(api: Api, list: seq<string>) returns (answer: Answer)
      modifies `requests
      ensures requests == old(requests) + [list] && answer == api(list)
    {
      requests := requests + [list];
      answer := api(list);
    }

    method GetTokenInfo(api: Api, tokenSymbol: string) returns (info: Option<Quote>)
      modifies this
      ensures stored == Lookup(old(stored), api, tokenSymbol)
      ensures requests == old(requests) + if Lower(tokenSymbol) in old(stored) then [] else [[Lower(tokenSymbol)]]
      ensures info == if Lower(tokenSymbol) in stored then Some(stored[Lower(tokenSymbol)]) else None
    {
      var key := Lower(tokenSymbol);
      if key in stored {
        return Some(stored[key]);
      }
      var answer := FetchListTokenInfo(api, [key]);
      if answer.Data? && |answer.quotes| > 0 {
        stored := stored[key := answer.quotes[0]];
        return Some(answer.quotes[0]);
      }
      return None;
    }

    /** Loops over the pages; a page without data ends the crawl with an error. */
    method CrawlData(api: Api, list: seq<string>) returns (results: Option<seq<Quote>>)
      modifies `requests
      ensures results == Collect(Pages(list, COINGEKO_MAX_PER_PAGE), api)
      ensures requests == old(requests) + Asked(Pages(list, COINGEKO_MAX_PER_PAGE), api)
    {
      var pageSize := COINGEKO_MAX_PER_PAGE;
      var quotes := [];
      var i := 0;
      ghost var pages, asked := Pages(list, pageSize), [];
      assert list[0..] == list;
      ProgressStart(pages, api);
      while i < |list|
        invariant 0 <= i
        invariant requests == old(requests) + asked
        invariant Progress(pages, api, asked, quotes, Pages(list[Min(i, |list|)..], pageSize))
        decreases |list| - i
      {
        var page := LowerAll(list[i..Min(i + pageSize, |list|)]);
        PageTaken(list, i, pageSize);
        ProgressStep(pages, api, asked, quotes, Pages(list[i..], pageSize));
        var answer := FetchListTokenInfo(api, page);
        asked := asked + [page];
        if !answer.Data? {
          return None;
        }
        quotes := quotes + answer.quotes;
        i := i + pageSize;
      }
      assert asked + [] == asked && quotes + [] == quotes;
      results := Some(quotes);
    }

    method GetTokenInfoForGetBalance(api: Api, list: seq<string>) returns (info: Option<Cache>)
      modifies this
      ensures stored == LookupForBalance(old(stored), api, list)
      ensures requests == old(requests) + if |Missing(old(stored), list)| == 0 then [] else [Missing(old(stored), list)]
      ensures info.Some? ==> "eun" in info.value
      ensures info.Some? && |Missing(old(stored), list)| == 0 ==> info.value["eun"].price == 0.1
      ensures info.Some? ==>
                info.value == (if |Missing(old(stored), list)| == 0 then stored[EURUS := EURUS_QUOTE] else stored)
    {
      var missing := [];
      for i := 0 to |list|
        invariant missing == Missing(stored, list[..i])
      {
        assert list[..i + 1][..i] == list[..i];
        var token := Lower(list[i]);
        if token !in stored {
          missing := missing + [token];
        }
      }
      assert list[..|list|] == list;
      var local := stored[EURUS := EURUS_QUOTE];
      if |missing| == 0 {
        return Some(local);
      }
      var answer := FetchListTokenInfo(api, missing);
      if !answer.Data? {
        return None;
      }
      var acc := ReduceQuotes(answer.quotes);
      stored := local + acc;
      return Some(stored);
    }

    /** The accumulator of the reduction, overwritten key by key. */
    method ReduceQuotes(quotes: seq<Quote>) returns (acc: Cache)
      ensures acc == Reduce(quotes)
    {
      acc := map[];
      for i := 0 to |quotes|
        invariant acc == Reduce(quotes[..i])
      {
        assert quotes[..i + 1][..i] == quotes[..i];
        acc := acc[quotes[i].symbol := quotes[i]];
      }
      assert quotes[..|quotes|] == quotes;
    }

    /** `keys` is the enumeration of the stored object's keys. */
    method UpdateTokenListInfo(api: Api, keys: seq<string>)
      requires Enumerates(keys, stored)
      modifies this
      ensures stored.Keys >= old(stored.Keys)
      ensures stored == Refresh(old(stored), api, keys)
      ensures requests == old(requests) + Asked(Pages(keys, COINGEKO_MAX_PER_PAGE), api)
    {
      var results := CrawlData(api, keys);
      if results.Some? {
        var acc := ReduceQuotes(results.value);
        stored := stored + acc;
      }
    }
  }

  function Min(a: nat, b: nat): nat {
    if a < b then a else b
  }

  /** The page at `i` is the first of the remaining pages. */
  lemma PageTaken(list: seq<string>, i: nat, size: nat)
    requires i < |list| && size > 0
    ensures var rest := Pages(list[i..], size);
            && |rest| > 0 && rest[0] == LowerAll(list[i..Min(i + size, |list|)])
            && rest[1..] == Pages(list[Min(i + size, |list|)..], size)
  {
    if |list| - i > size {
      assert list[i..][..size] == list[i..i + size];
      assert list[i..][size..] == list[i + size..];
    }
  }

  // ------------------------------------------------------------------ runs and their history

  /** One call of the service with the API as it then answers. */
  datatype Step =
    | TokenInfo(api: Api, symbol: string)
    | BalanceInfo(api: Api, list: seq<string>)
    | RefreshAll(api: Api, keys: seq<string>)

  function Next(c: Cache, s: Step): Cache {
    match s
    case TokenInfo(api, symbol) => Lookup(c, api, symbol)
    case BalanceInfo(api, list) => LookupForBalance(c, api, list)
    case RefreshAll(api, keys) => Refresh(c, api, keys)
  }

  function Run(c: Cache, steps: seq<Step>): Cache
    decreases |steps|
  {
    if |steps| == 0 then c else Run(Next(c, steps[0]), steps[1..])
  }

  /** A value brought in for a symbol. */
  datatype Delivery = Delivery(key: string, quote: Quote)

  function BySymbol(quotes: seq<Quote>): (r: seq<Delivery>)
    ensures |r| == |quotes| && forall i :: 0 <= i < |r| ==> r[i] == Delivery(quotes[i].symbol, quotes[i])
  {
    seq(|quotes|, i requires 0 <= i < |quotes| => Delivery(quotes[i].symbol, quotes[i]))
  }

  /** What a call brings in, in order. */
  function Deliveries(c: Cache, s: Step): seq<Delivery> {
    match s
    case TokenInfo(api, symbol) =>
      var answer := api([Lower(symbol)]);
      if Lower(symbol) !in c && answer.Data? && |answer.quotes| > 0 then [Delivery(Lower(symbol), answer.quotes[0])]
        else []
    case BalanceInfo(api, list) =>
      var answer := api(Missing(c, list));
      if |Missing(c, list)| > 0 && answer.Data? then [Delivery(EURUS, EURUS_QUOTE)] + BySymbol(answer.quotes) else []
    case RefreshAll(api, keys) =>
      var results := Collect(Pages(keys, COINGEKO_MAX_PER_PAGE), api);
      if results.Some? then BySymbol(results.value) else []
  }

  function History(c: Cache, steps: seq<Step>): seq<Delivery>
    decreases |steps|
  {
    if |steps| == 0 then [] else Deliveries(c, steps[0]) + History(Next(c, steps[0]), steps[1..])
  }

  /** The last value brought in for a symbol. */
  function LastFor(h: seq<Delivery>, key: string): Option<Quote> {
    if |h| == 0 then None
    else if h[|h| - 1].key == key then Some(h[|h| - 1].quote)
    else LastFor(h[..|h| - 1], key)
  }

  function Cached(c: Cache, key: string): Option<Quote> {
    if key in c then Some(c[key]) else None
  }

  function Latest(newer: Option<Quote>, older: Option<Quote>): Option<Quote> {
    if newer.Some? then newer else older
  }

  lemma {:induction false} LastOfBoth(g: seq<Delivery>, h: seq<Delivery>, key: string)
    ensures LastFor(g + h, key) == Latest(LastFor(h, key), LastFor(g, key))
  {
    if |h| == 0 {
      assert g + h == g;
    } else {
      assert (g + h)[..|g + h| - 1] == g + h[..|h| - 1];
      LastOfBoth(g, h[..|h| - 1], key);
    }
  }

  lemma {:induction false} ReduceIsLast(quotes: seq<Quote>, key: string)
    ensures Cached(Reduce(quotes), key) == LastFor(BySymbol(quotes), key)
  {
    if |quotes| > 0 {
      var front := quotes[..|quotes| - 1];
      ReduceIsLast(front, key);
      assert BySymbol(quotes)[..|quotes| - 1] == BySymbol(front);
    }
  }

  lemma BalanceIsLatest(c: Cache, quotes: seq<Quote>, key: string)
    ensures Cached(c[EURUS := EURUS_QUOTE] + Reduce(quotes), key) ==
            Latest(LastFor([Delivery(EURUS, EURUS_QUOTE)] + BySymbol(quotes), key), Cached(c, key))
  {
    ReduceIsLast(quotes, key);
    LastOfBoth([Delivery(EURUS, EURUS_QUOTE)], BySymbol(quotes), key);
  }

  lemma RefreshIsLatest(c: Cache, quotes: seq<Quote>, key: string)
    ensures Cached(c + Reduce(quotes), key) == Latest(LastFor(BySymbol(quotes), key), Cached(c, key))
  {
    ReduceIsLast(quotes, key);
  }

  lemma StepIsLatest(c: Cache, s: Step, key: string)
    ensures Cached(Next(c, s), key) == Latest(LastFor(Deliveries(c, s), key), Cached(c, key))
  {
    match s
    case TokenInfo(_, _) =>
    case BalanceInfo(api, list) =>
      var answer := api(Missing(c, list));
      if |Missing(c, list)| > 0 && answer.Data? {
        BalanceIsLatest(c, answer.quotes, key);
      }
    case RefreshAll(api, keys) =>
      var results := Collect(Pages(keys, COINGEKO_MAX_PER_PAGE), api);
      if results.Some? {
        RefreshIsLatest(c, results.value, key);
      }
  }

  /** After any run each symbol has the last value ever brought in for it, or the value it started with. */
  lemma {:induction false} RunIsLatest(c: Cache, steps: seq<Step>, key: string)
    ensures Cached(Run(c, steps), key) == Latest(LastFor(History(c, steps), key), Cached(c, key))
    decreases |steps|
  {
    if |steps| > 0 {
      var d := Next(c, steps[0]);
      StepIsLatest(c, steps[0], key);
      RunIsLatest(d, steps[1..], key);
      LastOfBoth(Deliveries(c, steps[0]), History(d, steps[1..]), key);
    }
  }

  /** No run ever loses a symbol. */
  lemma {:induction false} KeysNeverShrink(c: Cache, steps: seq<Step>)
    ensures c.Keys <= Run(c, steps).Keys
  {
    forall key | key in c ensures key in Run(c, steps) {
      RunIsLatest(c, steps, key);
    }
  }

  // ------------------------------------------------------------------ an API that answers what it is asked

  ghost predicate IsHonest(api: Api) {
    forall list :: api(list).Data? ==> forall q :: q in api(list).quotes ==> q.symbol in list
  }

  ghost predicate KeysMatch(c: Cache) {
    forall key :: key in c && key != EURUS ==> c[key].symbol == key
  }

  lemma {:induction false} ReduceMatches(quotes: seq<Quote>)
    ensures KeysMatch(Reduce(quotes)) && forall key :: key in Reduce(quotes) ==> Reduce(quotes)[key].symbol == key
  {
    if |quotes| > 0 {
      ReduceMatches(quotes[..|quotes| - 1]);
    }
  }

  /** As long as the API quotes only symbols it was asked for, every entry is the quote of its own symbol. */
  lemma {:induction false} HonestRunKeysMatch(c: Cache, steps: seq<Step>)
    requires KeysMatch(c) && forall i :: 0 <= i < |steps| ==> IsHonest(steps[i].api)
    ensures KeysMatch(Run(c, steps))
    decreases |steps|
  {
    if |steps| > 0 {
      HonestStep(c, steps[0]);
      HonestRunKeysMatch(Next(c, steps[0]), steps[1..]);
    }
  }

  lemma HonestStep(c: Cache, s: Step)
    requires KeysMatch(c) && IsHonest(s.api)
    ensures KeysMatch(Next(c, s))
  {
    match s
    case TokenInfo(api, symbol) =>
      var answer := api([Lower(symbol)]);
      if answer.Data? && |answer.quotes| > 0 {
        assert answer.quotes[0] in answer.quotes;
      }
    case BalanceInfo(api, list) =>
      if api(Missing(c, list)).Data? {
        ReduceMatches(api(Missing(c, list)).quotes);
      }
    case RefreshAll(api, keys) =>
      var results := Collect(Pages(keys, COINGEKO_MAX_PER_PAGE), api);
      if results.Some? {
        ReduceMatches(results.value);
      }
  }

  // ------------------------------------------------------------------ refreshes

  ghost predicate KeysLower(c: Cache) {
    forall key :: key in c ==> Lower(key) == key
  }

  ghost predicate ListLower(list: seq<string>) {
    forall i :: 0 <= i < |list| ==> Lower(list[i]) == list[i]
  }

  ghost predicate QuotesLower(quotes: seq<Quote>) {
    forall i :: 0 <= i < |quotes| ==> Lower(quotes[i].symbol) == quotes[i].symbol
  }

  lemma LowerTwice(s: string)
    ensures Lower(Lower(s)) == Lower(s)
  {
  }

  lemma {:induction false} MissingLower(c: Cache, list: seq<string>)
    ensures ListLower(Missing(c, list))
  {
    if |list| > 0 {
      MissingLower(c, list[..|list| - 1]);
      LowerTwice(list[|list| - 1]);
    }
  }

  lemma HonestLower(api: Api, list: seq<string>)
    requires IsHonest(api) && ListLower(list)
    ensures api(list).Data? ==> QuotesLower(api(list).quotes)
  {
    if api(list).Data? {
      forall i | 0 <= i < |api(list).quotes| ensures Lower(api(list).quotes[i].symbol) == api(list).quotes[i].symbol {
        assert api(list).quotes[i] in api(list).quotes;
      }
    }
  }

  lemma {:induction false} PagesLower(list: seq<string>, size: nat)
    requires size > 0
    ensures forall p :: 0 <= p < |Pages(list, size)| ==> ListLower(Pages(list, size)[p])
    decreases |list|
  {
    forall s: string ensures Lower(Lower(s)) == Lower(s) {
      LowerTwice(s);
    }
    if |list| > size {
      PagesLower(list[size..], size);
    }
  }

  lemma {:induction false} CollectLower(pages: seq<seq<string>>, api: Api)
    requires IsHonest(api) && forall p :: 0 <= p < |pages| ==> ListLower(pages[p])
    ensures Collect(pages, api).Some? ==> QuotesLower(Collect(pages, api).value)
  {
    if |pages| > 0 {
      HonestLower(api, pages[0]);
      CollectLower(pages[1..], api);
    }
  }

  lemma {:induction false} ReduceLower(quotes: seq<Quote>)
    requires QuotesLower(quotes)
    ensures KeysLower(Reduce(quotes))
  {
    if |quotes| > 0 {
      ReduceLower(quotes[..|quotes| - 1]);
    }
  }

  lemma StepKeepsLower(c: Cache, s: Step)
    requires KeysLower(c) && IsHonest(s.api)
    ensures KeysLower(Next(c, s))
  {
    match s
    case TokenInfo(_, symbol) => LowerTwice(symbol);
    case BalanceInfo(api, list) =>
      MissingLower(c, list);
      HonestLower(api, Missing(c, list));
      if api(Missing(c, list)).Data? {
        ReduceLower(api(Missing(c, list)).quotes);
      }
    case RefreshAll(api, keys) =>
      PagesLower(keys, COINGEKO_MAX_PER_PAGE);
      CollectLower(Pages(keys, COINGEKO_MAX_PER_PAGE), api);
      if Collect(Pages(keys, COINGEKO_MAX_PER_PAGE), api).Some? {
        ReduceLower(Collect(Pages(keys, COINGEKO_MAX_PER_PAGE), api).value);
      }
  }

  /** With such an API, a cache filled from nothing has lower-case keys only. */
  lemma {:induction false} HonestRunKeysLower(c: Cache, steps: seq<Step>)
    requires KeysLower(c) && forall i :: 0 <= i < |steps| ==> IsHonest(steps[i].api)
    ensures KeysLower(Run(c, steps))
    decreases |steps|
  {
    if |steps| > 0 {
      StepKeepsLower(c, steps[0]);
      HonestRunKeysLower(Next(c, steps[0]), steps[1..]);
    }
  }

  /** A refresh that succeeds has asked for every cached key in order, in lower case, at most 250 at a time. */
  lemma {:induction false} RefreshAsksAll(c: Cache, api: Api, keys: seq<string>)
    requires Enumerates(keys, c) && Collect(Pages(keys, COINGEKO_MAX_PER_PAGE), api).Some?
    ensures Concat(Asked(Pages(keys, COINGEKO_MAX_PER_PAGE), api)) == LowerAll(keys)
    ensures forall page :: page in Asked(Pages(keys, COINGEKO_MAX_PER_PAGE), api) ==>
              0 < |page| <= 250
    ensures forall key :: key in c ==> Lower(key) in Concat(Asked(Pages(keys, COINGEKO_MAX_PER_PAGE), api))
  {
    CollectedAsksAll(Pages(keys, COINGEKO_MAX_PER_PAGE), api);
    PagesExact(keys, COINGEKO_MAX_PER_PAGE);
    forall key | key in c ensures Lower(key) in LowerAll(keys) {
      var i :| 0 <= i < |keys| && keys[i] == key;
      assert LowerAll(keys)[i] == Lower(key);
    }
  }

  /** After any run with an API that answers what it is asked, the symbols that a successful refresh asks for
      are an enumeration of the cache's keys: each once and nothing else. */
  lemma {:induction false} RefreshAsksOnce(steps: seq<Step>, api: Api, keys: seq<string>)
    requires forall i :: 0 <= i < |steps| ==> IsHonest(steps[i].api)
    requires Enumerates(keys, Run(map[], steps)) && Collect(Pages(keys, COINGEKO_MAX_PER_PAGE), api).Some?
    ensures Concat(Asked(Pages(keys, COINGEKO_MAX_PER_PAGE), api)) == keys
    ensures Enumerates(Concat(Asked(Pages(keys, COINGEKO_MAX_PER_PAGE), api)), Run(map[], steps))
  {
    HonestRunKeysLower(map[], steps);
    RefreshAsksAll(Run(map[], steps), api, keys);
    assert forall i :: 0 <= i < |keys| ==> keys[i] in keys;
    assert LowerAll(keys) == keys;
  }
}
