/** The root route: a non-empty `q` query runs the memoized batch lookup, otherwise a fixed banner. */
module Endpoint {

  import opened Wrappers
  import opened Records
  import opened Text
  import opened Pipeline
  import opened Memoize

  const BannerText: string := "asnjson.com: Putting an IP address, to an ASN"

  datatype Page = Banner(text: string) | Body(output: Output)

  method Index(memo: LruCache, store: Store, q: string, resolve: string -> Option<Attrs>) returns (page: Page)
    requires memo.Valid()
    modifies memo, store
    ensures memo.Valid()
    ensures q == "" ==> page == Banner(BannerText) && unchanged(memo) && unchanged(store)
    ensures q != "" ==> page.Body? && q in memo.entries && page.output == memo.entries[q]
    ensures q != "" && q in old(memo.entries) ==>
      page.output == old(memo.entries[q]) && store.entries == old(store.entries)
    ensures q != "" && q !in old(memo.entries) ==>
      page.output == Respond(Walk(old(store.entries), Split(q), resolve))
      && store.entries == Walk(old(store.entries), Split(q), resolve).store
    ensures q != "" && q in old(memo.entries) ==>
      memo.entries == old(memo.entries) && memo.recency == Touch(old(memo.recency), q)
    ensures q != "" && q !in old(memo.entries) ==>
      memo.recency == (if old(|memo.recency|) == MaxSize then old(memo.recency)[1..] else old(memo.recency)) + [q]
    ensures q != "" && q !in old(memo.entries) && old(|memo.recency|) == MaxSize ==>
      memo.entries.Keys == old(memo.entries.Keys) - {old(memo.recency[0])} + {q}
    ensures q != "" && q !in old(memo.entries) && old(|memo.recency|) < MaxSize ==>
      memo.entries.Keys == old(memo.entries.Keys) + {q}
    ensures forall k :: k in memo.entries && k != q ==> k in old(memo.entries) && memo.entries[k] == old(memo.entries[k])
  {
    if q != "" {
      var out := memo.Lookup(q, store, resolve);
      page := Body(out);
    } else {
      page := Banner(BannerText);
    }
  }
}
