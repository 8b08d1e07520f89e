/** The page's quote store: the module-level `quotes` array, mutated in place
    by the add form, the importer and the server sync. The `quotes` slot of
    local storage is kept as the ghost field `saved`; `None` is an absent
    slot. */
module Store {
  import opened Quotes
  import opened Text
  import opened ServerSync

  class QuoteStore {
    var quotes: seq<Quote>
    ghost var saved: Option<seq<Quote>>

    /** Page load: the stored list when the slot holds one, else the seed
        list. Nothing is written back at load. */
    constructor (stored: Option<seq<Quote>>)
      ensures quotes == if stored.Some? then stored.value else DefaultQuotes()
      ensures saved == stored
    {
      quotes := if stored.Some? then stored.value else DefaultQuotes();
      saved := stored;
    }

    /** `saveQuotes`: the storage slot now holds the current list. */
    method SaveQuotes()
      modifies this`saved
      ensures saved == Some(quotes)
    {
      saved := Some(quotes);
    }

    /** The add-quote form's submit handler. Both inputs are trimmed; the
        quote is appended and saved only when neither trimmed input is
        empty, otherwise the store and the slot are left as they were. */
    method AddQuote(textInput: string, categoryInput: string) returns (added: bool)
      modifies this
      ensures added <==> HasContent(textInput) && HasContent(categoryInput)
      ensures quotes == if added then old(quotes) + [Quote(Trim(textInput), Trim(categoryInput))] else old(quotes)
      ensures saved == if added then Some(quotes) else old(saved)
    {
      var text := Trim(textInput);
      var category := Trim(categoryInput);
      if text != [] && category != [] {
        quotes := quotes + [Quote(text, category)];
        SaveQuotes();
        added := true;
      } else {
        added := false;
      }
    }

    /** The import handler's append: every parsed entry is pushed verbatim,
        with no check against the quotes already held, and the list saved. */
    method ImportQuotes(imported: seq<Quote>)
      modifies this
      ensures quotes == old(quotes) + imported
      ensures |quotes| == |old(quotes)| + |imported|
      ensures saved == Some(quotes)
    {
      quotes := quotes + imported;
      SaveQuotes();
    }

    /** `handleServerSync`: each server quote is pushed unless a quote already
        in the list (including one pushed earlier in this batch) has its
        text. The flag says whether anything was pushed; the list is saved
        only then. */
    method HandleServerSync(serverQuotes: seq<Quote>) returns (conflictsResolved: bool)
      modifies this
      ensures quotes == Merge(old(quotes), serverQuotes)
      ensures old(quotes) == quotes[..|old(quotes)|]
      ensures |quotes| <= |old(quotes)| + |serverQuotes|
      ensures forall j :: 0 <= j < |serverQuotes| ==> HasText(quotes, serverQuotes[j].text)
      ensures conflictsResolved <==> |quotes| > |old(quotes)|
      ensures conflictsResolved <==> exists j :: 0 <= j < |serverQuotes| && !HasText(old(quotes), serverQuotes[j].text)
      ensures saved == if conflictsResolved then Some(quotes) else old(saved)
    {
      conflictsResolved := false;
      for i := 0 to |serverQuotes|
        invariant quotes == Merge(old(quotes), serverQuotes[..i])
        invariant conflictsResolved <==> |quotes| > |old(quotes)|
        invariant saved == old(saved)
      {
        var sq := serverQuotes[i];
        var found := HasText(quotes, sq.text);
        if !found {
          quotes := quotes + [sq];
          conflictsResolved := true;
        }
        assert serverQuotes[..i + 1][..i] == serverQuotes[..i];
      }
      assert serverQuotes[..|serverQuotes|] == serverQuotes;
      MergeCoversIncoming(old(quotes), serverQuotes);
      MergeGrowsIff(old(quotes), serverQuotes);
      if conflictsResolved {
        SaveQuotes();
      }
    }

    /** `fetchServerQuotes` once the response has settled: `None` stands for a
        failed fetch or an unparsable body, which is logged and changes
        nothing; otherwise the shaped payload is merged. */
    method FetchServerQuotes(response: Option<seq<ServerItem>>) returns (conflictsResolved: bool)
      modifies this
      ensures quotes == if response.Some? then Merge(old(quotes), ShapePayload(response.value)) else old(quotes)
      ensures conflictsResolved <==> |quotes| > |old(quotes)|
      ensures conflictsResolved ==> response.Some? && saved == Some(quotes)
      ensures !conflictsResolved ==> quotes == old(quotes) && saved == old(saved)
    {
      match response {
        case None =>
          conflictsResolved := false;
        case Some(data) =>
          conflictsResolved := HandleServerSync(ShapePayload(data));
      }
    }
  }

  /** Running the sync twice on the same payload: the second run pushes
      nothing, reports no change and does not save. */
  method SyncTwice(store: QuoteStore, serverQuotes: seq<Quote>) returns (first: bool, second: bool)
    modifies store
    ensures store.quotes == Merge(old(store.quotes), serverQuotes)
    ensures !second
    ensures store.saved == if first then Some(store.quotes) else old(store.saved)
  {
    first := store.HandleServerSync(serverQuotes);
    ghost var afterFirst := store.quotes;
    MergeIdempotent(old(store.quotes), serverQuotes);
    second := store.HandleServerSync(serverQuotes);
    assert store.quotes == afterFirst;
  }
}
