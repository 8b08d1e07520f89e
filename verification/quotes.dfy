/** The quote record, the built-in seed list, and text lookup, which is the
    only notion of quote identity the store has. */
module Quotes {

  datatype Option<T> = None | Some(value: T)

  /** A `{ text, category }` record. There is no identifier field. */
  datatype Quote = Quote(text: string, category: string)

  /** The five quotes the page starts with when nothing is stored. */
  function DefaultQuotes(): (r: seq<Quote>)
    ensures |r| == 5
    ensures forall i, j :: 0 <= i < j < |r| ==> r[i].text != r[j].text && r[i].category != r[j].category
  {
    [ Quote("The only way to do great work is to love what you do.", "Motivation"),
      Quote("Success is not final, failure is not fatal: it is the courage to continue that counts.", "Perseverance"),
      Quote("Don\U{2019}t watch the clock; do what it does. Keep going.", "Productivity"),
      Quote("Your time is limited, so don\U{2019}t waste it living someone else\U{2019}s life.", "Inspiration"),
      Quote("It always seems impossible until it\U{2019}s done.", "Determination") ]
  }

  /** `qs.some(q => q.text === t)`. */
  predicate HasText(qs: seq<Quote>, t: string) {
    exists i :: 0 <= i < |qs| && qs[i].text == t
  }

  /** No two quotes of `qs` carry the same text. */
  predicate DistinctTexts(qs: seq<Quote>) {
    forall i, j :: 0 <= i < j < |qs| ==> qs[i].text != qs[j].text
  }

  /** A text occurs in a concatenation exactly when it occurs in one of the parts. */
  lemma HasTextAppend(a: seq<Quote>, b: seq<Quote>, t: string)
    ensures HasText(a + b, t) <==> HasText(a, t) || HasText(b, t)
  {
    if HasText(a + b, t) {
      var i :| 0 <= i < |a + b| && (a + b)[i].text == t;
      if i >= |a| {
        assert b[i - |a|].text == t;
      }
    }
    if HasText(a, t) {
      var i :| 0 <= i < |a| && a[i].text == t;
      assert (a + b)[i].text == t;
    }
    if HasText(b, t) {
      var i :| 0 <= i < |b| && b[i].text == t;
      assert (a + b)[|a| + i].text == t;
    }
  }
}
