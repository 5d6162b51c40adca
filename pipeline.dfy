/**
 * The cache-aside batch lookup: split the request on commas, serve each
 * piece from the key-value store when it is there, otherwise ask the ASN
 * resolver, write its record to the store and serve that. The first piece
 * the resolver rejects aborts the whole batch with an error, but what was
 * already written to the store stays there.
 *
 * `Walk` is the reference definition of that loop (one `Visit` per piece);
 * the method `Process` runs the loop over a `Store` object and is proved
 * to agree with it; the lemmas say what `Walk` guarantees.
 */
module Pipeline {

  import opened Wrappers
  import opened Records
  import opened Text

  /** The key-value store, keyed by address, without expiry. */
  class Store {
    var entries: map<string, Record>

    constructor (initial: map<string, Record>)
      ensures entries == initial
    {
      entries := initial;
    }

    /** The record stored under `key`, if any. */
    function Get(key: string): (r: Option<Record>)
      reads this
      ensures r.Some? <==> key in entries
      ensures r.Some? ==> r.value == entries[key]
    {
      if key in entries then Some(entries[key]) else None
    }

    /** Store `value` under `key`, inserting or overwriting. */
    method Set(key: string, value: Record)
      modifies this
      ensures entries == old(entries)[key := value]
    {
      entries := entries[key := value];
    }
  }

  /** Where the loop stands: still going with its results so far, or aborted on a rejected piece. */
  datatype Progress =
    | Done(results: seq<Record>, cached: nat, store: map<string, Record>)
    | Aborted(bad: string, store: map<string, Record>)

  /** One turn of the loop: a hit is served from the store, a miss goes to the resolver. */
  function Visit(results: seq<Record>, cached: nat, store: map<string, Record>, ip: string,
                 resolve: string -> Option<Attrs>): (p: Progress)
    ensures p.Done? <==> Resolvable(store, resolve, ip)
    ensures p.Done? ==> ip in p.store && p.results == results + [p.store[ip]]
    ensures p.Done? ==> p.cached == if ip in store then cached + 1 else cached
    ensures ip in store ==> p.store == store
    ensures ip !in store && p.Done? ==> p.store == store[ip := MakeRecord(ip, resolve(ip).value)]
    ensures p.Aborted? ==> p.bad == ip && p.store == store
  {
    if ip in store then
      Done(results + [store[ip]], cached + 1, store)
    else
      match resolve(ip)
      case None => Aborted(ip, store)
      case Some(a) =>
        var rec := MakeRecord(ip, a);
        Done(results + [rec], cached, store[ip := rec])
  }

  /** The loop run over `pieces`, in order, starting from `store`. */
  function Walk(store: map<string, Record>, pieces: seq<string>, resolve: string -> Option<Attrs>): (r: Progress)
    ensures r.Done? ==> |r.results| == |pieces| && r.cached <= |r.results|
    ensures r.Aborted? ==> r.bad in pieces && r.bad !in store && resolve(r.bad).None?
    ensures store.Keys <= r.store.Keys
    decreases |pieces|
  {
    if pieces == [] then
      Done([], 0, store)
    else
      match Walk(store, pieces[..|pieces| - 1], resolve)
      case Aborted(bad, st) => Aborted(bad, st)
      case Done(results, cached, st) => Visit(results, cached, st, pieces[|pieces| - 1], resolve)
  }

  /** The body returned for a finished walk; `count` is the number of results. */
  function Respond(w: Progress): (out: Output)
    ensures out.Results? <==> w.Done?
    ensures out.Results? ==> out.results == w.results && out.count == |w.results| && out.cached == w.cached
    ensures out.Error? ==> out.message == InvalidAddress(w.bad)
  {
    match w
    case Done(results, cached, _) => Results(results, |results|, cached)
    case Aborted(bad, _) => Error(InvalidAddress(bad))
  }

  /** The pieces of a batch that the store did not hold at the start. */
  function Misses(store: map<string, Record>, pieces: seq<string>): (missing: set<string>)
  {
    set ip | ip in pieces && ip !in store
  }

  /** A piece the batch can serve: already stored, or accepted by the resolver. */
  predicate Resolvable(store: map<string, Record>, resolve: string -> Option<Attrs>, ip: string)
  {
    ip in store || resolve(ip).Some?
  }

  predicate AllResolvable(store: map<string, Record>, pieces: seq<string>, resolve: string -> Option<Attrs>)
  {
    forall i :: 0 <= i < |pieces| ==> Resolvable(store, resolve, pieces[i])
  }

  /** The record a successful batch serves for a resolvable piece. */
  function Expected(store: map<string, Record>, resolve: string -> Option<Attrs>, ip: string): (r: Record)
    requires Resolvable(store, resolve, ip)
  {
    if ip in store then store[ip] else MakeRecord(ip, resolve(ip).value)
  }

  /** Every entry of `before` is still in `after`, unchanged. */
  predicate Extends(before: map<string, Record>, after: map<string, Record>)
  {
    forall k :: k in before ==> k in after && after[k] == before[k]
  }

  /** Every key of `after` that `before` lacks is a piece of the batch, holding the resolver's record for it. */
  predicate WrittenByResolver(before: map<string, Record>, after: map<string, Record>,
                              pieces: seq<string>, resolve: string -> Option<Attrs>)
  {
    forall k :: k in after && k !in before ==>
      k in pieces && resolve(k).Some? && after[k] == MakeRecord(k, resolve(k).value)
  }

  lemma PrefixOfPrefix(pieces: seq<string>, n: nat)
    requires n < |pieces|
    ensures pieces[..n + 1][..n] == pieces[..n]
    ensures pieces[..n + 1][n] == pieces[n]
  {
  }

  /**
   * The store only grows: entries present before the batch keep their
   * records, and every new key is a piece of the batch holding the
   * resolver's record for it. This holds for an aborted batch too.
   */
  lemma {:induction false} StoreGrowth(store: map<string, Record>, pieces: seq<string>,
                                       resolve: string -> Option<Attrs>)
    ensures Extends(store, Walk(store, pieces, resolve).store)
    ensures WrittenByResolver(store, Walk(store, pieces, resolve).store, pieces, resolve)
    decreases |pieces|
  {
    if pieces != [] {
      var init := pieces[..|pieces| - 1];
      StoreGrowth(store, init, resolve);
      assert forall k :: k in init ==> k in pieces by {
        assert pieces == init + [pieces[|pieces| - 1]];
      }
    }
  }

  /** Once the walk over a prefix has aborted, the walk over the whole batch ends the same way. */
  lemma {:induction false} AbortedPrefix(store: map<string, Record>, pieces: seq<string>, n: nat,
                                         resolve: string -> Option<Attrs>)
    requires n <= |pieces|
    requires Walk(store, pieces[..n], resolve).Aborted?
    ensures Walk(store, pieces, resolve) == Walk(store, pieces[..n], resolve)
    decreases |pieces|
  {
    if n < |pieces| {
      var init := pieces[..|pieces| - 1];
      assert init[..n] == pieces[..n];
      AbortedPrefix(store, init, n, resolve);
    } else {
      assert pieces[..n] == pieces;
    }
  }

  /** Unfolds `Walk` once: the last piece is visited after the walk over the others. */
  lemma WalkLast(store: map<string, Record>, pieces: seq<string>, resolve: string -> Option<Attrs>)
    requires pieces != []
    ensures var init := Walk(store, pieces[..|pieces| - 1], resolve);
      Walk(store, pieces, resolve) ==
        if init.Aborted? then init
        else Visit(init.results, init.cached, init.store, pieces[|pieces| - 1], resolve)
  {
  }

  /**
   * A batch that succeeds serves one record per piece, in the order of the
   * pieces, each the one the final store holds under that piece.
   */
  lemma {:induction false} SuccessfulOrder(store: map<string, Record>, pieces: seq<string>,
                                           resolve: string -> Option<Attrs>)
    requires Walk(store, pieces, resolve).Done?
    ensures |Walk(store, pieces, resolve).results| == |pieces|
    ensures forall i :: 0 <= i < |pieces| ==>
      pieces[i] in Walk(store, pieces, resolve).store &&
      Walk(store, pieces, resolve).results[i] == Walk(store, pieces, resolve).store[pieces[i]]
    decreases |pieces|
  {
    if pieces != [] {
      var init := pieces[..|pieces| - 1];
      var ip := pieces[|pieces| - 1];
      var w0 := Walk(store, init, resolve);
      WalkLast(store, pieces, resolve);
      SuccessfulOrder(store, init, resolve);
      var w := Walk(store, pieces, resolve);
      assert w == Visit(w0.results, w0.cached, w0.store, ip, resolve);
      forall i | 0 <= i < |pieces|
        ensures pieces[i] in w.store && w.results[i] == w.store[pieces[i]]
      {
        if i < |init| {
          assert pieces[i] == init[i];
          assert init[i] in w0.store;
          assert w.results[i] == w0.results[i];
        }
      }
    }
  }

  /** After a successful batch the store holds exactly its old keys and the pieces it lacked. */
  lemma {:induction false} SuccessfulKeys(store: map<string, Record>, pieces: seq<string>,
                                          resolve: string -> Option<Attrs>)
    requires Walk(store, pieces, resolve).Done?
    ensures Walk(store, pieces, resolve).store.Keys == store.Keys + Misses(store, pieces)
    decreases |pieces|
  {
    if pieces == [] {
      assert Misses(store, pieces) == {};
    } else {
      var init := pieces[..|pieces| - 1];
      var ip := pieces[|pieces| - 1];
      assert pieces == init + [ip];
      var w0 := Walk(store, init, resolve);
      WalkLast(store, pieces, resolve);
      SuccessfulKeys(store, init, resolve);
      KeysStep(store, init, ip, w0.store, Walk(store, pieces, resolve).store);
    }
  }

  /** One turn keeps the store's keys equal to the old keys plus the misses so far. */
  lemma KeysStep(store: map<string, Record>, init: seq<string>, ip: string,
                 reached: map<string, Record>, next: map<string, Record>)
    requires reached.Keys == store.Keys + Misses(store, init)
    requires ip in reached ==> next == reached
    requires ip !in reached ==> next.Keys == reached.Keys + {ip}
    ensures next.Keys == store.Keys + Misses(store, init + [ip])
  {
    MissesAppend(store, init, ip, reached);
  }

  /** Appending a piece adds it to the misses exactly when the store reached so far lacks it. */
  lemma MissesAppend(store: map<string, Record>, init: seq<string>, ip: string, reached: map<string, Record>)
    requires reached.Keys == store.Keys + Misses(store, init)
    ensures ip in reached ==> Misses(store, init + [ip]) == Misses(store, init)
    ensures ip !in reached ==>
      Misses(store, init + [ip]) == Misses(store, init) + {ip}
      && |Misses(store, init + [ip])| == |Misses(store, init)| + 1
  {
    if ip !in reached {
      assert Misses(store, init + [ip]) == Misses(store, init) + {ip};
    }
  }

  /**
   * Exactly one resolver answer is used per distinct missing piece: `cached`
   * is the number of pieces minus the number of distinct misses.
   */
  lemma {:induction false} SuccessfulCount(store: map<string, Record>, pieces: seq<string>,
                                           resolve: string -> Option<Attrs>)
    requires Walk(store, pieces, resolve).Done?
    ensures Walk(store, pieces, resolve).cached + |Misses(store, pieces)| == |pieces|
    decreases |pieces|
  {
    if pieces == [] {
      assert Misses(store, pieces) == {};
    } else {
      var init := pieces[..|pieces| - 1];
      var ip := pieces[|pieces| - 1];
      var w0 := Walk(store, init, resolve);
      WalkLast(store, pieces, resolve);
      SuccessfulCount(store, init, resolve);
      SuccessfulKeys(store, init, resolve);
      var w := Walk(store, pieces, resolve);
      assert w.cached == if ip in w0.store then w0.cached + 1 else w0.cached;
      assert pieces == init + [ip];
      MissesAppend(store, init, ip, w0.store);
    }
  }

  /** A batch succeeds exactly when every piece is stored already or accepted by the resolver. */
  lemma {:induction false} SuccessIff(store: map<string, Record>, pieces: seq<string>,
                                      resolve: string -> Option<Attrs>)
    ensures Walk(store, pieces, resolve).Done? <==> AllResolvable(store, pieces, resolve)
    decreases |pieces|
  {
    if pieces != [] {
      var init := pieces[..|pieces| - 1];
      var ip := pieces[|pieces| - 1];
      assert pieces == init + [ip];
      WalkLast(store, pieces, resolve);
      SuccessIff(store, init, resolve);
      var w0 := Walk(store, init, resolve);
      assert AllResolvable(store, pieces, resolve) <==>
        AllResolvable(store, init, resolve) && Resolvable(store, resolve, ip);
      if w0.Done? {
        StoreGrowth(store, init, resolve);
        assert ip in w0.store ==> Resolvable(store, resolve, ip);
      }
    }
  }

  /**
   * A successful batch serves, for each piece in order, the record the store
   * held before the batch, or else the resolver's record for that piece.
   */
  lemma SuccessfulResults(store: map<string, Record>, pieces: seq<string>, resolve: string -> Option<Attrs>)
    requires Walk(store, pieces, resolve).Done?
    ensures AllResolvable(store, pieces, resolve)
    ensures |Walk(store, pieces, resolve).results| == |pieces|
    ensures forall i :: 0 <= i < |pieces| ==>
      Walk(store, pieces, resolve).results[i] == Expected(store, resolve, pieces[i])
  {
    SuccessIff(store, pieces, resolve);
    SuccessfulOrder(store, pieces, resolve);
    StoreGrowth(store, pieces, resolve);
    var w := Walk(store, pieces, resolve);
    forall i | 0 <= i < |pieces|
      ensures w.results[i] == Expected(store, resolve, pieces[i])
    {
      assert Resolvable(store, resolve, pieces[i]);
    }
  }

  /**
   * The walk stops at piece `i`: the store lacks it and the resolver
   * rejects it, every earlier piece was served, the abort names it, and the
   * store is left as the walk over the earlier pieces left it, holding each
   * of them.
   */
  predicate FailsFirstAt(store: map<string, Record>, pieces: seq<string>, resolve: string -> Option<Attrs>, i: int)
  {
    && 0 <= i < |pieces|
    && pieces[i] !in store && resolve(pieces[i]).None?
    && AllResolvable(store, pieces[..i], resolve)
    && Walk(store, pieces[..i], resolve).Done?
    && Walk(store, pieces, resolve) == Aborted(pieces[i], Walk(store, pieces[..i], resolve).store)
    && (forall j :: 0 <= j < i ==> pieces[j] in Walk(store, pieces, resolve).store)
  }

  /**
   * An aborted batch names the first piece, in order, that the store lacks
   * and the resolver rejects. The store is left as the walk over the
   * pieces before it left it: every earlier piece is stored.
   */
  lemma {:induction false} FirstFailure(store: map<string, Record>, pieces: seq<string>,
                                        resolve: string -> Option<Attrs>)
    requires Walk(store, pieces, resolve).Aborted?
    ensures exists i :: FailsFirstAt(store, pieces, resolve, i)
    decreases |pieces|
  {
    var init := pieces[..|pieces| - 1];
    var w := Walk(store, pieces, resolve);
    var w0 := Walk(store, init, resolve);
    if w0.Aborted? {
      FirstFailure(store, init, resolve);
      var i :| FailsFirstAt(store, init, resolve, i);
      WalkLast(store, pieces, resolve);
      assert init[..i] == pieces[..i];
      assert pieces[i] == init[i];
      assert forall j :: 0 <= j < i ==> pieces[j] == init[j];
      assert FailsFirstAt(store, pieces, resolve, i);
    } else {
      var i := |init|;
      assert pieces[..i] == init;
      WalkLast(store, pieces, resolve);
      SuccessIff(store, init, resolve);
      SuccessfulOrder(store, init, resolve);
      StoreGrowth(store, init, resolve);
      assert pieces[i] !in w0.store;
      assert forall j :: 0 <= j < i ==> pieces[j] == init[j];
      assert FailsFirstAt(store, pieces, resolve, i);
    }
  }

  /**
   * The resolver is consulted only for pieces missing from the store at the
   * start: two resolvers that agree on those give the same batch.
   */
  lemma {:induction false} ResolverOnlyOnMisses(store: map<string, Record>, pieces: seq<string>,
                                                r1: string -> Option<Attrs>, r2: string -> Option<Attrs>)
    requires forall ip :: ip in Misses(store, pieces) ==> r1(ip) == r2(ip)
    ensures Walk(store, pieces, r1) == Walk(store, pieces, r2)
    decreases |pieces|
  {
    if pieces != [] {
      var init := pieces[..|pieces| - 1];
      var ip := pieces[|pieces| - 1];
      assert pieces == init + [ip];
      assert Misses(store, init) <= Misses(store, pieces);
      ResolverOnlyOnMisses(store, init, r1, r2);
      StoreGrowth(store, init, r1);
    }
  }

  /**
   * The body of a successful batch counts one record per piece, and no more
   * of them were served from the store than there are records.
   */
  lemma CountsConsistent(store: map<string, Record>, raw: string, resolve: string -> Option<Attrs>)
    ensures Respond(Walk(store, Split(raw), resolve)).Results? ==>
      var out := Respond(Walk(store, Split(raw), resolve));
      out.count == |out.results| == |Split(raw)| && out.cached <= out.count
    ensures Respond(Walk(store, Split(raw), resolve)).Error? ==>
      var out := Respond(Walk(store, Split(raw), resolve));
      exists i :: 0 <= i < |Split(raw)| && out.message == InvalidAddress(Split(raw)[i])
        && Split(raw)[i] !in store && resolve(Split(raw)[i]).None?
  {
    var w := Walk(store, Split(raw), resolve);
    if w.Done? {
      SuccessfulOrder(store, Split(raw), resolve);
      SuccessfulCount(store, Split(raw), resolve);
    } else {
      FirstFailure(store, Split(raw), resolve);
      var i :| FailsFirstAt(store, Split(raw), resolve, i);
    }
  }

  /**
   * The same uncached address twice in one request is resolved once: the
   * second occurrence is a store hit, so the body has two records and
   * `cached` is one.
   */
  lemma RepeatedAddress(store: map<string, Record>, a: string, resolve: string -> Option<Attrs>)
    requires ',' !in a && a !in store && resolve(a).Some?
    ensures Walk(store, Split(a + "," + a), resolve) ==
      var rec := MakeRecord(a, resolve(a).value);
      Done([rec, rec], 1, store[a := rec])
    ensures Respond(Walk(store, Split(a + "," + a), resolve)) ==
      var rec := MakeRecord(a, resolve(a).value);
      Results([rec, rec], 2, 1)
  {
    SplitJoin([a, a]);
    assert Join([a, a]) == a + "," + a;
    assert [a, a][..1] == [a];
    assert [a][..0] == [];
    var rec := MakeRecord(a, resolve(a).value);
    WalkLast(store, [a], resolve);
    assert Walk(store, [a], resolve) == Done([rec], 0, store[a := rec]);
    WalkLast(store, [a, a], resolve);
  }

  /**
   * The batch lookup: one turn per comma-separated piece of `raw`, reading
   * and writing `store` in place; it returns the body `Walk` describes and
   * leaves the store as `Walk` leaves it, on success and on abort alike.
   */
  method Process(store: Store, raw: string, resolve: string -> Option<Attrs>) returns (out: Output)
    modifies store
    ensures out == Respond(Walk(old(store.entries), Split(raw), resolve))
    ensures store.entries == Walk(old(store.entries), Split(raw), resolve).store
  {
    var pieces := Split(raw);
    ghost var initial := store.entries;
    var results: seq<Record> := [];
    var cached: nat := 0;
    var i := 0;
    while i < |pieces|
      invariant 0 <= i <= |pieces|
      invariant Walk(initial, pieces[..i], resolve) == Done(results, cached, store.entries)
    {
      var ip := pieces[i];
      PrefixOfPrefix(pieces, i);
      var hit := store.Get(ip);
      if hit.Some? {
        results := results + [hit.value];
        cached := cached + 1;
      } else {
        var data := resolve(ip);
        if data.None? {
          AbortedPrefix(initial, pieces, i + 1, resolve);
          out := Error(InvalidAddress(ip));
          return;
        }
        var record := MakeRecord(ip, data.value);
        store.Set(ip, record);
        var stored := store.Get(ip);
        results := results + [stored.value];
      }
      i := i + 1;
    }
    assert pieces[..i] == pieces;
    out := Results(results, |results|, cached);
  }
}
