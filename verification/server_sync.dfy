/** The server side of synchronisation: shaping the fetched payload into
    quotes (`fetchServerQuotes`) and the "new texts only" merge that
    `handleServerSync` performs, stated as a function over values. */
module ServerSync {
  import opened Quotes

  /** Categories handed out to server quotes by position. */
  const ServerCategories: seq<string> := ["Motivation", "Life", "Inspiration", "Productivity"]

  /** Number of payload items that are kept. */
  const BatchSize: nat := 5

  /** One element of the fetched JSON array; only `title` is read. */
  datatype ServerItem = ServerItem(title: string)

  /** `items.map((item, k) => ...)` for items that sit at positions
      `index`, `index + 1`, ... of the kept batch. */
  function ShapeFrom(items: seq<ServerItem>, index: nat): (r: seq<Quote>)
    ensures |r| == |items|
    ensures forall k :: 0 <= k < |r| ==>
      r[k].text == items[k].title && r[k].category == ServerCategories[(index + k) % 4]
  {
    if items == [] then []
    else [Quote(items[0].title, ServerCategories[index % 4])] + ShapeFrom(items[1..], index + 1)
  }

  /** `data.slice(0, 5).map(...)`: at most five quotes, quote `k` taking the
      `k`-th title and the `k % 4`-th server category. */
  function ShapePayload(data: seq<ServerItem>): (r: seq<Quote>)
    ensures |r| == if |data| < BatchSize then |data| else BatchSize
    ensures forall k :: 0 <= k < |r| ==>
      r[k] == Quote(data[k].title, ServerCategories[k % 4])
  {
    var n := if |data| < BatchSize then |data| else BatchSize;
    ShapeFrom(data[..n], 0)
  }

  /** Every shaped quote carries a server category, the categories cycle
      with period four, and only the first five items matter. */
  lemma ShapePayloadCategories(data: seq<ServerItem>, more: seq<ServerItem>)
    ensures forall k :: 0 <= k < |ShapePayload(data)| ==> ShapePayload(data)[k].category in ServerCategories
    ensures |data| >= BatchSize ==> ShapePayload(data)[4].category == ShapePayload(data)[0].category
    ensures |data| >= BatchSize ==> ShapePayload(data + more) == ShapePayload(data)
  {
    var r := ShapePayload(data);
    forall k | 0 <= k < |r| ensures r[k].category in ServerCategories {
      assert r[k].category == ServerCategories[k % 4];
    }
    if |data| >= BatchSize {
      var r' := ShapePayload(data + more);
      forall k | 0 <= k < |r| ensures r'[k] == r[k] {
        assert (data + more)[k] == data[k];
      }
    }
  }

  /** One turn of the `forEach`: the server quote is appended unless some
      quote already in the list has its text. */
  function Step(local: seq<Quote>, sq: Quote): seq<Quote> {
    if HasText(local, sq.text) then local else local + [sq]
  }

  /** The list after `handleServerSync` has processed `incoming` in order.
      It only ever appends, at most one quote per incoming quote. */
  function Merge(local: seq<Quote>, incoming: seq<Quote>): (r: seq<Quote>)
    ensures |local| <= |r| <= |local| + |incoming|
    ensures r[..|local|] == local
    decreases |incoming|
  {
    if incoming == [] then local
    else Step(Merge(local, incoming[..|incoming| - 1]), incoming[|incoming| - 1])
  }

  /** The reference policy: the incoming quotes, in batch order, whose text is
      neither stored already nor carried by an earlier quote of the batch. */
  function Admitted(local: seq<Quote>, incoming: seq<Quote>): (a: seq<Quote>)
    ensures |a| <= |incoming|
    decreases |incoming|
  {
    if incoming == [] then []
    else
      var init, last := incoming[..|incoming| - 1], incoming[|incoming| - 1];
      Admitted(local, init) + (if HasText(local, last.text) || HasText(init, last.text) then [] else [last])
  }

  /** The texts after the merge are the stored texts and the incoming texts. */
  lemma {:induction false} MergeTexts(local: seq<Quote>, incoming: seq<Quote>, t: string)
    ensures HasText(Merge(local, incoming), t) <==> HasText(local, t) || HasText(incoming, t)
    decreases |incoming|
  {
    if incoming != [] {
      var init, last := incoming[..|incoming| - 1], incoming[|incoming| - 1];
      MergeTexts(local, init, t);
      HasTextAppend(init, [last], t);
      assert init + [last] == incoming;
      var m := Merge(local, init);
      if !HasText(m, last.text) {
        HasTextAppend(m, [last], t);
      }
    }
  }

  /** The merge appends exactly the admitted quotes to the stored list. */
  lemma {:induction false} MergeAppendsAdmitted(local: seq<Quote>, incoming: seq<Quote>)
    ensures Merge(local, incoming) == local + Admitted(local, incoming)
    decreases |incoming|
  {
    if incoming != [] {
      var init, last := incoming[..|incoming| - 1], incoming[|incoming| - 1];
      MergeAppendsAdmitted(local, init);
      MergeTexts(local, init, last.text);
    }
  }

  /** After the merge every incoming quote's text is in the list. */
  lemma MergeCoversIncoming(local: seq<Quote>, incoming: seq<Quote>)
    ensures forall j :: 0 <= j < |incoming| ==> HasText(Merge(local, incoming), incoming[j].text)
  {
    forall j | 0 <= j < |incoming| ensures HasText(Merge(local, incoming), incoming[j].text) {
      MergeTexts(local, incoming, incoming[j].text);
    }
  }

  /** Every quote of `r` from position `n` on has a text that no earlier
      quote of `r` has. */
  predicate NewTextsFrom(r: seq<Quote>, n: nat) {
    forall k, i :: n <= k < |r| && 0 <= i < k ==> r[i].text != r[k].text
  }

  /** A quote is appended only when its text is new: an appended quote's text
      differs from the text of every quote before it, stored or appended. */
  lemma {:induction false} MergeAppendsNewTextsOnly(local: seq<Quote>, incoming: seq<Quote>)
    ensures NewTextsFrom(Merge(local, incoming), |local|)
    decreases |incoming|
  {
    if incoming != [] {
      var init, last := incoming[..|incoming| - 1], incoming[|incoming| - 1];
      MergeAppendsNewTextsOnly(local, init);
      var m := Merge(local, init);
      if !HasText(m, last.text) {
        var r := m + [last];
        forall k, i | |local| <= k < |r| && 0 <= i < k ensures r[i].text != r[k].text {
          if k < |m| {
            assert r[i] == m[i] && r[k] == m[k];
          } else {
            assert r[i] == m[i] && r[k] == last;
          }
        }
      }
    }
  }

  /** A list without repeated texts keeps that property through the merge. */
  lemma MergeKeepsTextsDistinct(local: seq<Quote>, incoming: seq<Quote>)
    requires DistinctTexts(local)
    ensures DistinctTexts(Merge(local, incoming))
  {
    var r := Merge(local, incoming);
    MergeAppendsNewTextsOnly(local, incoming);
    forall i, j | 0 <= i < j < |r| ensures r[i].text != r[j].text {
      if j < |local| {
        assert r[i] == local[i] && r[j] == local[j];
      }
    }
  }

  /** When every incoming text is already stored the merge changes nothing. */
  lemma {:induction false} MergeKnownTexts(local: seq<Quote>, incoming: seq<Quote>)
    requires forall j :: 0 <= j < |incoming| ==> HasText(local, incoming[j].text)
    ensures Merge(local, incoming) == local
    decreases |incoming|
  {
    if incoming != [] {
      MergeKnownTexts(local, incoming[..|incoming| - 1]);
    }
  }

  /** The merge leaves the list unchanged exactly when every incoming text is
      already stored; otherwise the list gets longer. */
  lemma MergeGrowsIff(local: seq<Quote>, incoming: seq<Quote>)
    ensures Merge(local, incoming) == local <==> forall j :: 0 <= j < |incoming| ==> HasText(local, incoming[j].text)
    ensures |Merge(local, incoming)| > |local| <==> exists j :: 0 <= j < |incoming| && !HasText(local, incoming[j].text)
  {
    if forall j :: 0 <= j < |incoming| ==> HasText(local, incoming[j].text) {
      MergeKnownTexts(local, incoming);
    } else {
      MergeCoversIncoming(local, incoming);
      var r := Merge(local, incoming);
      assert r[..|local|] == local;
    }
  }

  /** Merging the same batch a second time changes nothing. */
  lemma MergeIdempotent(local: seq<Quote>, incoming: seq<Quote>)
    ensures Merge(Merge(local, incoming), incoming) == Merge(local, incoming)
  {
    MergeCoversIncoming(local, incoming);
    MergeKnownTexts(Merge(local, incoming), incoming);
  }
}
