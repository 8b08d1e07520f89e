/** Choosing the quote to display: `showRandomQuote` over the whole store,
    `filterQuotes` over the pool the selected category admits. The random
    index is the caller's choice here. */
module Selection {
  import opened Quotes

  /** `quotes.filter(q => q.category === c)`. */
  function FilterByCategory(qs: seq<Quote>, c: string): (r: seq<Quote>)
    ensures |r| <= |qs|
    ensures forall q :: q in r ==> q in qs && q.category == c
    ensures forall i :: 0 <= i < |qs| && qs[i].category == c ==> qs[i] in r
  {
    if qs == [] then []
    else
      assert qs == [qs[0]] + qs[1..];
      (if qs[0].category == c then [qs[0]] else []) + FilterByCategory(qs[1..], c)
  }

  /** The filter keeps every quote of the category as often as the store
      holds it, and no other quote. */
  lemma {:induction false} FilterByCategoryCounts(qs: seq<Quote>, c: string, q: Quote)
    ensures multiset(FilterByCategory(qs, c))[q] == if q.category == c then multiset(qs)[q] else 0
  {
    if qs != [] {
      FilterByCategoryCounts(qs[1..], c, q);
      assert qs == [qs[0]] + qs[1..];
    }
  }

  /** Nothing is left when no quote has the category. */
  lemma {:induction false} FilterByCategoryNone(qs: seq<Quote>, c: string)
    requires forall i :: 0 <= i < |qs| ==> qs[i].category != c
    ensures FilterByCategory(qs, c) == []
  {
    if qs != [] {
      FilterByCategoryNone(qs[1..], c);
    }
  }

  /** The filter keeps the order of the store: filtering a concatenation is
      filtering each part. */
  lemma {:induction false} FilterByCategoryAppend(a: seq<Quote>, b: seq<Quote>, c: string)
    ensures FilterByCategory(a + b, c) == FilterByCategory(a, c) + FilterByCategory(b, c)
  {
    if a != [] {
      assert (a + b)[0] == a[0] && (a + b)[1..] == a[1..] + b;
      FilterByCategoryAppend(a[1..], b, c);
      var h := if a[0].category == c then [a[0]] else [];
      calc {
        FilterByCategory(a + b, c);
        h + FilterByCategory(a[1..] + b, c);
        h + (FilterByCategory(a[1..], c) + FilterByCategory(b, c));
        (h + FilterByCategory(a[1..], c)) + FilterByCategory(b, c);
      }
    } else {
      assert a + b == b;
    }
  }

  /** The pool `filterQuotes` draws from: the whole store for "all", else
      the quotes of the selected category. */
  function Pool(qs: seq<Quote>, selected: string): (r: seq<Quote>)
    ensures selected == "all" ==> r == qs
    ensures selected != "all" ==> r == FilterByCategory(qs, selected)
    ensures selected != "all" ==> forall q :: q in r <==> q in qs && q.category == selected
  {
    if selected == "all" then qs else FilterByCategory(qs, selected)
  }

  /** The pool is empty exactly when no quote can be shown: an empty store for
      "all", no quote of the category otherwise. */
  lemma PoolEmptyIff(qs: seq<Quote>, selected: string)
    ensures Pool(qs, selected) == [] <==>
      if selected == "all" then qs == []
      else forall i :: 0 <= i < |qs| ==> qs[i].category != selected
  {
    if selected != "all" {
      if i :| 0 <= i < |qs| && qs[i].category == selected {
        assert qs[i] in Pool(qs, selected);
      }
      var pool := Pool(qs, selected);
      if pool != [] {
        assert pool[0] in qs;
        var i :| 0 <= i < |qs| && qs[i] == pool[0];
        assert qs[i].category == selected;
      }
    }
  }

  /** What `filterQuotes` displays: `None` for the "No quotes found" message
      when the pool is empty, else the pool element at index `choice`. */
  function FilterPick(qs: seq<Quote>, selected: string, choice: nat): (r: Option<Quote>)
    requires Pool(qs, selected) != [] ==> choice < |Pool(qs, selected)|
    ensures r == None <==> Pool(qs, selected) == []
    ensures r.Some? ==> r.value in qs
    ensures r.Some? && selected != "all" ==> r.value.category == selected
  {
    var pool := Pool(qs, selected);
    if pool == [] then None else Some(pool[choice])
  }

  /** What `showRandomQuote` displays: `None` for "No quotes available" on an
      empty store, else the quote at index `choice`. */
  function RandomPick(qs: seq<Quote>, choice: nat): (r: Option<Quote>)
    requires qs != [] ==> choice < |qs|
    ensures r == None <==> qs == []
    ensures r.Some? ==> r.value in qs
  {
    if qs == [] then None else Some(qs[choice])
  }

  /** Showing a random quote is filtering by "all". */
  lemma RandomPickIsAllPool(qs: seq<Quote>, choice: nat)
    requires qs != [] ==> choice < |qs|
    ensures RandomPick(qs, choice) == FilterPick(qs, "all", choice)
  {
  }

  /** On the seed list, filtering by "Motivation" leaves exactly one quote,
      so every pick shows "The only way to do great work ...". */
  lemma DefaultMotivationPick(choice: nat)
    requires choice < 1
    ensures FilterPick(DefaultQuotes(), "Motivation", choice) == Some(DefaultQuotes()[0])
  {
    var qs := DefaultQuotes();
    var rest := FilterByCategory(qs[1..], "Motivation");
    FilterByCategoryNone(qs[1..], "Motivation");
    assert Pool(qs, "Motivation") == [qs[0]] + rest;
  }
}
