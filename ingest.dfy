/**
 * One pass of the background scraper in main.py (`background_parser_async`):
 * scrape the catalog page, normalise each item's price, skip an item whose
 * price does not normalise, and hand every other item to `add_item`.
 */
module Ingest {
  import opened Wrappers
  import opened Digits
  import opened Normalize
  import opened Store
  import opened Parser

  /** The body of the `try` for one item; a `ValueError` from the price leaves the table alone. */
  function Step(t: seq<Record>, item: ScrapedItem): (r: seq<Record>)
    requires IdsAscending(t)
    ensures IdsAscending(r) && t <= r
    ensures Names(r) == Names(t) + (if HasDigit(item.price) then {item.title} else {})
    ensures !HasDigit(item.price) ==> r == t
  {
    match CleanPrice(item.price)
    case Err(_) => t
    case Ok(price) => AddIfAbsent(t, item.title, price)
  }

  /** The table after the `for item in items` loop has handled every item in order. */
  function Ingested(t: seq<Record>, items: seq<ScrapedItem>): (r: seq<Record>)
    requires IdsAscending(t)
    ensures IdsAscending(r)
    ensures t <= r
    decreases |items|
  {
    if items == [] then t else Ingested(Step(t, items[0]), items[1..])
  }

  /** The titles of the items whose price holds a digit: the ones that reach `add_item`. */
  function StoredTitles(items: seq<ScrapedItem>): set<string> {
    set x | x in items && HasDigit(x.price) :: x.title
  }

  /**
   * The price `add_item` receives for `title` the first time it is called with
   * that title during the pass, if it is called at all.
   */
  function FirstPrice(items: seq<ScrapedItem>, title: string): Option<int> {
    if items == [] then None
    else if items[0].title == title && CleanPrice(items[0].price).Ok? then Some(CleanPrice(items[0].price).value)
    else FirstPrice(items[1..], title)
  }

  /** Handling `a` and then `b` is handling `a + b`. */
  lemma {:induction false} IngestedAppend(t: seq<Record>, a: seq<ScrapedItem>, b: seq<ScrapedItem>)
    requires IdsAscending(t)
    ensures Ingested(t, a + b) == Ingested(Ingested(t, a), b)
    decreases |a|
  {
    if a == [] {
      assert a + b == b;
    } else {
      assert (a + b)[0] == a[0] && (a + b)[1..] == a[1..] + b;
      IngestedAppend(Step(t, a[0]), a[1..], b);
    }
  }

  /** Handling one more item is one more `Step`. */
  lemma IngestedSnoc(t: seq<Record>, items: seq<ScrapedItem>, item: ScrapedItem)
    requires IdsAscending(t)
    ensures Ingested(t, items + [item]) == Step(Ingested(t, items), item)
  {
    IngestedAppend(t, items, [item]);
    var s := Ingested(t, items);
    assert Ingested(s, [item]) == Ingested(Step(s, item), []);
  }

  /** After a pass the table holds the names it held before and the title of every item with a digit in its price. */
  lemma {:induction false} IngestedNames(t: seq<Record>, items: seq<ScrapedItem>)
    requires IdsAscending(t)
    ensures Names(Ingested(t, items)) == Names(t) + StoredTitles(items)
    decreases |items|
  {
    if items != [] {
      IngestedNames(Step(t, items[0]), items[1..]);
      StoredTitlesCons(items);
    }
  }

  lemma StoredTitlesCons(items: seq<ScrapedItem>)
    requires items != []
    ensures StoredTitles(items)
         == StoredTitles(items[1..]) + (if HasDigit(items[0].price) then {items[0].title} else {})
  {
    assert forall x :: x in items <==> x == items[0] || x in items[1..];
  }

  /** The pass keeps the table free of duplicate names when it was free of them. */
  lemma {:induction false} IngestedKeepsNamesUnique(t: seq<Record>, items: seq<ScrapedItem>)
    requires IdsAscending(t) && UniqueNames(t)
    ensures UniqueNames(Ingested(t, items))
    decreases |items|
  {
    if items != [] {
      var price := CleanPrice(items[0].price);
      if price.Ok? {
        AddIfAbsentKeepsNamesUnique(t, items[0].title, price.value);
      }
      IngestedKeepsNamesUnique(Step(t, items[0]), items[1..]);
    }
  }

  /** A pass over items whose titles are all stored already changes nothing. */
  lemma {:induction false} IngestedKnownTitles(t: seq<Record>, items: seq<ScrapedItem>)
    requires IdsAscending(t) && StoredTitles(items) <= Names(t)
    ensures Ingested(t, items) == t
    decreases |items|
  {
    if items != [] {
      assert items[0] in items;
      assert StoredTitles(items[1..]) <= StoredTitles(items) by {
        assert forall x :: x in items[1..] ==> x in items;
      }
      assert Step(t, items[0]) == t;
      IngestedKnownTitles(t, items[1..]);
    }
  }

  /** Running the pass a second time over the same items leaves the table as the first pass did. */
  lemma IngestedIdempotent(t: seq<Record>, items: seq<ScrapedItem>)
    requires IdsAscending(t)
    ensures Ingested(Ingested(t, items), items) == Ingested(t, items)
  {
    IngestedNames(t, items);
    IngestedKnownTitles(Ingested(t, items), items);
  }

  /** An item whose price has no digit is skipped, and the items after it are handled as if it were absent. */
  lemma IngestedSkipsDigitFree(t: seq<Record>, before: seq<ScrapedItem>, item: ScrapedItem, after: seq<ScrapedItem>)
    requires IdsAscending(t) && !HasDigit(item.price)
    ensures Ingested(t, before + [item] + after) == Ingested(t, before + after)
  {
    IngestedAppend(t, before + [item], after);
    IngestedAppend(t, before, [item]);
    IngestedAppend(t, before, after);
  }

  /**
   * Each row the pass adds carries a name the table did not hold and the price
   * of the first item with that name whose price normalises.
   */
  lemma {:induction false} IngestedCosts(t: seq<Record>, items: seq<ScrapedItem>)
    requires IdsAscending(t)
    ensures var r := Ingested(t, items);
      forall k :: |t| <= k < |r| ==> r[k].name !in Names(t) && FirstPrice(items, r[k].name) == Some(r[k].cost)
    decreases |items|
  {
    if items != [] {
      var x, rest := items[0], items[1..];
      var s := Step(t, x);
      var r := Ingested(t, items);
      IngestedCosts(s, rest);
      assert r == Ingested(s, rest);
      forall k | |t| <= k < |r|
        ensures r[k].name !in Names(t) && FirstPrice(items, r[k].name) == Some(r[k].cost)
      {
        if k < |s| {
          assert |s| == |t| + 1 && k == |t|;
          assert r[k] == s[k];
        } else {
          assert r[k].name !in Names(s);
          assert HasDigit(x.price) ==> x.title in Names(s);
        }
      }
    }
  }

  /** A scraped price normalises as the price text it was filtered from would. */
  lemma ScrapedPriceNormalizes(page: Page, i: nat)
    requires i < |ProcessPage(page).items|
    ensures CleanPrice(ProcessPage(page).items[i].price) == CleanPrice(page.priceTexts[i])
    ensures CleanPrice(ProcessPage(page).items[i].price).Ok? <==> ProcessPage(page).items[i].price != []
  {
    CleanPriceOfFiltered(page.priceTexts[i]);
  }

  /** Items that all occurred earlier in the pass change nothing more. */
  lemma IngestedRepeatedItems(t: seq<Record>, items: seq<ScrapedItem>, rest: seq<ScrapedItem>)
    requires IdsAscending(t) && forall x :: x in rest ==> x in items
    ensures Ingested(t, items + rest) == Ingested(t, items)
  {
    IngestedAppend(t, items, rest);
    IngestedNames(t, items);
    assert StoredTitles(rest) <= StoredTitles(items);
    IngestedKnownTitles(Ingested(t, items), rest);
  }

  /** Scraping the same page several times in one pass stores what scraping it once does. */
  lemma IngestedRepeat(t: seq<Record>, items: seq<ScrapedItem>, n: nat)
    requires IdsAscending(t) && n >= 1
    ensures Ingested(t, Repeat(items, n)) == Ingested(t, items)
  {
    RepeatFirst(items, n);
    IngestedRepeatedItems(t, items, Repeat(items, n)[|items|..]);
  }

  /** For any `pages >= 1`, a pass over `get_page` output stores what one scrape of the page stores. */
  lemma IngestedGetPage(t: seq<Record>, fetch: string -> Page, baseUrl: string, pages: int)
    requires IdsAscending(t) && pages >= 1
    ensures Ingested(t, GetPage(fetch, baseUrl, pages).items) == Ingested(t, ProcessPage(fetch(baseUrl)).items)
  {
    if ProcessPage(fetch(baseUrl)).error.None? {
      IngestedRepeat(t, ProcessPage(fetch(baseUrl)).items, pages);
    }
  }

  /** The `for item in items` loop: each item's price is normalised and the item handed to `add_item`, unless normalising raised `ValueError`. */
  method HandleItems(c: Catalog, items: seq<ScrapedItem>)
    requires c.Valid()
    modifies c
    ensures c.Valid()
    ensures c.records == Ingested(old(c.records), items)
  {
    ghost var target := Ingested(c.records, items);
    assert items[0..] == items;
    var i := 0;
    while i < |items|
      invariant 0 <= i <= |items|
      invariant c.Valid()
      invariant Ingested(c.records, items[i..]) == target
    {
      var item := items[i];
      IngestedFrom(c.records, items, i);
      var price := CleanPrice(item.price);
      if price.Ok? {
        c.AddItem(item.title, price.value);
      }
      i := i + 1;
    }
  }

  /** Handling the items from position `i` on is one `Step` and then the items after it. */
  lemma IngestedFrom(t: seq<Record>, items: seq<ScrapedItem>, i: nat)
    requires IdsAscending(t) && i < |items|
    ensures Ingested(t, items[i..]) == Ingested(Step(t, items[i]), items[i + 1..])
  {
    assert items[i..][1..] == items[i + 1..];
  }

  /**
   * One pass: `get_page()` scrapes the catalog page and its items go through the
   * loop above. An `IndexError` from the scraper is not caught: it ends the pass
   * after the items yielded before it, and `aborted` reports it.
   */
  method IngestPass(c: Catalog, fetch: string -> Page) returns (aborted: bool)
    requires c.Valid()
    modifies c
    ensures c.Valid()
    ensures c.records == Ingested(old(c.records), ProcessPage(fetch(BaseUrl)).items)
    ensures aborted <==> |fetch(BaseUrl).priceTexts| < |fetch(BaseUrl).names|
  {
    var scraped := GetPage(fetch, BaseUrl, DefaultPages);
    DefaultGetPageScrapesOnce(fetch);
    HandleItems(c, scraped.items);
    aborted := scraped.error.Some?;
  }
}
