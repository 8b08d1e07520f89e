/** The category index `populateCategories` builds:
    `["all", ...new Set(quotes.map(q => q.category))]`. A `Set` keeps its
    elements in insertion order, so the categories come in first-seen order. */
module CategoryIndex {
  import opened Quotes

  /** `quotes.map(q => q.category)`. */
  function CategoryList(qs: seq<Quote>): (r: seq<string>)
    ensures |r| == |qs|
    ensures forall i :: 0 <= i < |qs| ==> r[i] == qs[i].category
  {
    seq(|qs|, i requires 0 <= i < |qs| => qs[i].category)
  }

  /** The elements of `xs` in the order a `Set` built from `xs` iterates them:
      each distinct element once, at the place it was first seen. */
  function Distinct(xs: seq<string>): (d: seq<string>)
    ensures |d| <= |xs|
    ensures forall x :: x in d <==> x in xs
    ensures forall i, j :: 0 <= i < j < |d| ==> d[i] != d[j]
  {
    if xs == [] then []
    else
      var d0 := Distinct(xs[..|xs| - 1]);
      var x := xs[|xs| - 1];
      assert xs == xs[..|xs| - 1] + [x];
      if x in d0 then d0 else d0 + [x]
  }

  /** The option values of the category filter: "all", then every category
      of the store once, in first-seen order. */
  function Categories(qs: seq<Quote>): (r: seq<string>)
    ensures |r| >= 1 && r[0] == "all"
    ensures |r| <= |qs| + 1
    ensures forall c :: c in r[1..] <==> c in CategoryList(qs)
    ensures forall j, k :: 1 <= j < k < |r| ==> r[j] != r[k]
  {
    var r := ["all"] + Distinct(CategoryList(qs));
    assert r[1..] == Distinct(CategoryList(qs));
    r
  }

  /** First-seen order: when one category is listed before another, every
      occurrence of the later one in the list is preceded by an occurrence
      of the earlier one; `p'` is such an earlier occurrence. */
  lemma {:induction false} DistinctFirstSeen(xs: seq<string>, i: nat, j: nat, p: nat) returns (p': nat)
    requires i < j < |Distinct(xs)| && p < |xs| && xs[p] == Distinct(xs)[j]
    ensures p' < p && xs[p'] == Distinct(xs)[i]
  {
    var init, x := xs[..|xs| - 1], xs[|xs| - 1];
    var d0, d := Distinct(init), Distinct(xs);
    assert d[i] == d0[i] && d[i] in init;
    if p < |init| {
      assert init[p] in d0;
      p' := DistinctFirstSeen(init, i, j, p);
    } else {
      var q :| 0 <= q < |init| && init[q] == d[i];
      p' := q;
    }
  }

  /** The category index lists the categories in first-seen order: when
      category `j` comes before category `k` in the index, every quote of
      category `k` is preceded by a quote of category `j`. */
  lemma CategoriesFirstSeen(qs: seq<Quote>, j: nat, k: nat, p: nat) returns (p': nat)
    requires 1 <= j < k < |Categories(qs)| && p < |qs| && qs[p].category == Categories(qs)[k]
    ensures p' < p && qs[p'].category == Categories(qs)[j]
  {
    var cs := CategoryList(qs);
    var d := Distinct(cs);
    var r := Categories(qs);
    assert r == ["all"] + d;
    assert |r| == |d| + 1;
    assert r[k] == d[k - 1] && r[j] == d[j - 1];
    assert j - 1 < k - 1 < |d| && p < |cs| && cs[p] == d[k - 1];
    p' := DistinctFirstSeen(cs, j - 1, k - 1, p);
  }

  /** "all" is listed twice exactly when some quote's category is literally
      "all"; otherwise the index has no repeats. */
  lemma CategoriesRepeatIff(qs: seq<Quote>)
    ensures var r := Categories(qs);
      (exists j, k :: 0 <= j < k < |r| && r[j] == r[k]) <==> (exists i :: 0 <= i < |qs| && qs[i].category == "all")
  {
    var r, cs := Categories(qs), CategoryList(qs);
    if i :| 0 <= i < |qs| && qs[i].category == "all" {
      assert cs[i] == "all";
      assert "all" in r[1..];
      var k :| 0 <= k < |r| - 1 && r[1..][k] == "all";
      assert r[0] == r[k + 1];
    }
    if j, k :| 0 <= j < k < |r| && r[j] == r[k] {
      assert j == 0 && r[k] == "all";
      assert r[k] == r[1..][k - 1];
      assert "all" in cs;
      var i :| 0 <= i < |cs| && cs[i] == "all";
      assert qs[i].category == "all";
    }
  }

  /** Appending quotes whose categories are all already listed leaves the
      index unchanged; in particular importing a store's own export does. */
  lemma {:induction false} DistinctAppendSeen(xs: seq<string>, ys: seq<string>)
    requires forall y :: y in ys ==> y in xs
    ensures Distinct(xs + ys) == Distinct(xs)
    decreases |ys|
  {
    if ys != [] {
      var ys0 := ys[..|ys| - 1];
      DistinctAppendSeen(xs, ys0);
      assert (xs + ys)[..|xs + ys| - 1] == xs + ys0;
      assert ys[|ys| - 1] in xs;
    } else {
      assert xs + ys == xs;
    }
  }

  /** The category index after re-importing already present categories. */
  lemma CategoriesAfterImport(qs: seq<Quote>, imported: seq<Quote>)
    requires forall i :: 0 <= i < |imported| ==> exists j :: 0 <= j < |qs| && qs[j].category == imported[i].category
    ensures Categories(qs + imported) == Categories(qs)
  {
    var cs, ds := CategoryList(qs), CategoryList(imported);
    assert CategoryList(qs + imported) == cs + ds;
    forall y | y in ds ensures y in cs {
      var i :| 0 <= i < |ds| && ds[i] == y;
      var j :| 0 <= j < |qs| && qs[j].category == imported[i].category;
      assert cs[j] == y;
    }
    DistinctAppendSeen(cs, ds);
  }

  /** Appending a category not seen before lists it last. */
  lemma DistinctAppendNew(xs: seq<string>, x: string)
    requires x !in xs
    ensures Distinct(xs + [x]) == Distinct(xs) + [x]
  {
    assert (xs + [x])[..|xs|] == xs;
  }

  /** A list without repeats is its own distinct list. */
  lemma {:induction false} DistinctNoRepeats(xs: seq<string>)
    requires forall i, j :: 0 <= i < j < |xs| ==> xs[i] != xs[j]
    ensures Distinct(xs) == xs
  {
    if xs != [] {
      var init, x := xs[..|xs| - 1], xs[|xs| - 1];
      DistinctNoRepeats(init);
      assert x !in init;
      DistinctAppendNew(init, x);
      assert init + [x] == xs;
    }
  }

  /** On the seed list the index is exactly the six documented values. */
  lemma DefaultCategoryIndex()
    ensures Categories(DefaultQuotes()) ==
      ["all", "Motivation", "Perseverance", "Productivity", "Inspiration", "Determination"]
  {
    var lit := ["Motivation", "Perseverance", "Productivity", "Inspiration", "Determination"];
    var cs := CategoryList(DefaultQuotes());
    assert Distinct(cs) == cs by { DistinctNoRepeats(cs); }
    assert cs == lit;
    assert ["all"] + lit == ["all", "Motivation", "Perseverance", "Productivity", "Inspiration", "Determination"];
  }
}
