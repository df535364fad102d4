/**
 * The scraper of parser.py. The HTML is abstracted to what the scraper reads
 * from it: the texts of the product-name elements and of the product-price
 * elements, in document order. Fetching a URL is a function parameter.
 */
module Parser {
  import opened Wrappers
  import opened Digits

  /** A title and its price text, reduced to digits, as the scraper yields them. */
  datatype ScrapedItem = ScrapedItem(title: string, price: string)

  datatype ScrapeError = IndexError

  /** What a generator produced before it stopped: the items it yielded, then the exception it raised, if any. */
  datatype Yield = Yield(items: seq<ScrapedItem>, error: Option<ScrapeError>)

  /** One fetched catalog page: the name texts and the price texts, in document order. */
  datatype Page = Page(names: seq<string>, priceTexts: seq<string>)

  const BaseUrl := "https://www.maxidom.ru/catalog/kran-buksy/"
  const DefaultPages := 1

  /**
   * `process_page`: walk the names by index and pair name `i` with price text
   * `i`, keeping only its digits. With fewer price texts than names the walk
   * yields one item per price text and then raises `IndexError`; surplus price
   * texts are never looked at.
   */
  function ProcessPage(page: Page): (y: Yield)
    ensures |y.items| == if |page.priceTexts| < |page.names| then |page.priceTexts| else |page.names|
    ensures y.error.None? <==> |page.names| <= |page.priceTexts|
    ensures forall i :: 0 <= i < |y.items| ==>
              y.items[i] == ScrapedItem(page.names[i], Filter(page.priceTexts[i]))
    decreases |page.names|
  {
    if page.names == [] then Yield([], None)
    else if page.priceTexts == [] then Yield([], Some(IndexError))
    else
      var first := ScrapedItem(page.names[0], Filter(page.priceTexts[0]));
      var rest := ProcessPage(Page(page.names[1..], page.priceTexts[1..]));
      Yield([first] + rest.items, rest.error)
  }

  /** Every price the scraper yields is made of decimal digits only. */
  lemma ScrapedPricesAreDigits(page: Page)
    ensures forall item :: item in ProcessPage(page).items ==> AllDigits(item.price)
  {
    var y := ProcessPage(page);
    forall item | item in y.items ensures AllDigits(item.price) {
      var i :| 0 <= i < |y.items| && y.items[i] == item;
    }
  }

  /** `n` copies of `s`, one after another. */
  function Repeat<T>(s: seq<T>, n: nat): seq<T> {
    if n == 0 then [] else s + Repeat(s, n - 1)
  }

  /** Every element of `n` copies of `s` is an element of `s`. */
  lemma {:induction false} RepeatMembers<T>(s: seq<T>, n: nat)
    ensures forall x :: x in Repeat(s, n) ==> x in s
  {
    if n > 0 {
      RepeatMembers(s, n - 1);
    }
  }

  /** `n >= 1` copies of `s` are `s` followed by elements of `s`. */
  lemma RepeatFirst<T>(s: seq<T>, n: nat)
    requires n >= 1
    ensures |s| <= |Repeat(s, n)| && Repeat(s, n) == s + Repeat(s, n)[|s|..]
    ensures forall x :: x in Repeat(s, n)[|s|..] ==> x in s
  {
    var rest := Repeat(s, n - 1);
    RepeatMembers(s, n - 1);
    assert Repeat(s, n)[|s|..] == rest;
  }

  /** Position `r` of copy `q` (counting from 0) of `n` copies of `s` holds element `r` of `s`. */
  lemma {:induction false} RepeatIndex<T>(s: seq<T>, n: nat, q: nat, r: nat)
    requires q < n && r < |s|
    ensures q * |s| + r < |Repeat(s, n)|
    ensures Repeat(s, n)[q * |s| + r] == s[r]
  {
    if q > 0 {
      RepeatIndex(s, n - 1, q - 1, r);
      MulPred(q, |s|);
    }
  }

  lemma MulPred(n: nat, m: nat)
    requires n > 0
    ensures n * m == m + (n - 1) * m
  {
  }

  /** `n` copies of `s` hold `n * |s|` elements. */
  lemma {:induction false} RepeatLength<T>(s: seq<T>, n: nat)
    ensures |Repeat(s, n)| == n * |s|
  {
    if n > 0 {
      RepeatLength(s, n - 1);
    }
  }

  /**
   * The loop of `get_page` from page `pageNum` to page `pages`. The URL fetched
   * on every round is `baseUrl` itself: the page number does not enter it.
   */
  function PagesFrom(fetch: string -> Page, baseUrl: string, pageNum: int, pages: int): (y: Yield)
    ensures var once := ProcessPage(fetch(baseUrl));
      && (pageNum > pages ==> y == Yield([], None))
      && (pageNum <= pages && once.error.Some? ==> y == once)
      && (pageNum <= pages && once.error.None? ==> y == Yield(Repeat(once.items, pages - pageNum + 1), None))
    decreases pages - pageNum + 1
  {
    if pageNum > pages then Yield([], None)
    else
      var page := ProcessPage(fetch(baseUrl));
      if page.error.Some? then page
      else
        var rest := PagesFrom(fetch, baseUrl, pageNum + 1, pages);
        Yield(page.items + rest.items, rest.error)
  }

  /**
   * `get_page(base_url, pages)`: `range(1, pages + 1)` rounds over the same page,
   * so the items of that one page `pages` times in a row; nothing when `pages`
   * is not positive; and when the page has fewer prices than names, the items of
   * the first round followed by its `IndexError`.
   */
  function GetPage(fetch: string -> Page, baseUrl: string, pages: int): (y: Yield)
    ensures var once := ProcessPage(fetch(baseUrl));
      && (pages <= 0 ==> y == Yield([], None))
      && (pages >= 1 && once.error.Some? ==> y == once)
      && (pages >= 1 && once.error.None? ==> y == Yield(Repeat(once.items, pages), None))
  {
    PagesFrom(fetch, baseUrl, 1, pages)
  }

  /** The default call `get_page()` scrapes the catalog page once. */
  lemma DefaultGetPageScrapesOnce(fetch: string -> Page)
    ensures GetPage(fetch, BaseUrl, DefaultPages) == ProcessPage(fetch(BaseUrl))
  {
    var once := ProcessPage(fetch(BaseUrl));
    if once.error.None? {
      assert Repeat(once.items, 1) == once.items + [];
    }
  }
}
