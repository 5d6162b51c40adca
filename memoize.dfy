/**
 * The bounded memo in front of the batch lookup: Python's
 * `functools.lru_cache(maxsize=32)` keyed by the raw request string. A
 * repeated string is answered from the memo without touching the store or
 * the resolver; a new string runs the lookup, and when the memo is full the
 * least recently used string is evicted first. Error bodies are memoized
 * like any other body.
 */
module Memoize {

  import opened Wrappers
  import opened Records
  import opened Text
  import opened Pipeline

  /** The capacity of the memo. */
  const MaxSize: nat := 32

  function Elements(s: seq<string>): (r: set<string>)
  {
    set x | x in s
  }

  predicate Distinct(s: seq<string>)
  {
    forall i, j :: 0 <= i < j < |s| ==> s[i] != s[j]
  }

  /** A list without repetitions has as many elements as entries. */
  lemma {:induction false} DistinctSize(s: seq<string>)
    requires Distinct(s)
    ensures |Elements(s)| == |s|
    decreases |s|
  {
    if s != [] {
      DistinctSize(s[1..]);
      assert Elements(s) == {s[0]} + Elements(s[1..]);
      assert s[0] !in Elements(s[1..]);
    }
  }

  lemma ElementsCons(x: string, s: seq<string>)
    ensures Elements([x] + s) == {x} + Elements(s)
    ensures Distinct([x] + s) <==> x !in s && Distinct(s)
  {
    assert forall i :: 0 <= i < |s| ==> ([x] + s)[i + 1] == s[i];
    if Distinct([x] + s) {
      forall i | 0 <= i < |s|
        ensures s[i] != x
      {
        assert ([x] + s)[0] != ([x] + s)[i + 1];
      }
      forall i, j | 0 <= i < j < |s|
        ensures s[i] != s[j]
      {
        assert ([x] + s)[i + 1] != ([x] + s)[j + 1];
      }
    }
    if x !in s && Distinct(s) {
      forall i, j | 0 <= i < j < |s| + 1
        ensures ([x] + s)[i] != ([x] + s)[j]
      {
        if i > 0 {
          assert ([x] + s)[i] == s[i - 1];
        }
      }
    }
  }

  /** Putting back the head in front of a splice of the tail is a splice one position further on. */
  lemma SpliceCons(s: seq<string>, m: nat, rest: seq<string>)
    requires m < |s| - 1 && rest == s[1..][..m] + s[1..][m + 1..]
    ensures s[m + 1] == s[1..][m] && [s[0]] + rest == s[..m + 1] + s[m + 2..]
  {
    assert s[..m + 1] == [s[0]] + s[1..][..m];
    assert s[m + 2..] == s[1..][m + 1..];
  }

  /** `s` with every occurrence of `k` taken out, the others in their order. */
  function Without(s: seq<string>, k: string): (r: seq<string>)
    ensures Elements(r) == Elements(s) - {k}
    ensures Distinct(s) ==> Distinct(r)
    ensures |r| <= |s| && (k in s ==> |r| < |s|)
    ensures k !in s ==> r == s
    decreases |s|
  {
    if s == [] then
      []
    else
      var rest := Without(s[1..], k);
      assert s == [s[0]] + s[1..];
      ElementsCons(s[0], s[1..]);
      ElementsCons(s[0], rest);
      if s[0] == k then rest else [s[0]] + rest
  }

  /** In a list without repeats, taking `k` out splices it out of its one position. */
  lemma {:induction false} WithoutSplice(s: seq<string>, k: string)
    requires Distinct(s) && k in s
    ensures exists n :: 0 <= n < |s| && s[n] == k && Without(s, k) == s[..n] + s[n + 1..]
    decreases |s|
  {
    assert s == [s[0]] + s[1..];
    ElementsCons(s[0], s[1..]);
    if s[0] == k {
      assert s[..0] + s[1..] == Without(s, k);
    } else {
      WithoutSplice(s[1..], k);
      var m :| 0 <= m < |s| - 1 && s[1..][m] == k && Without(s[1..], k) == s[1..][..m] + s[1..][m + 1..];
      SpliceCons(s, m, Without(s[1..], k));
    }
  }

  /** Marks `k` as the most recently used string. */
  function Touch(recency: seq<string>, k: string): (r: seq<string>)
    requires Distinct(recency)
    ensures Distinct(r) && Elements(r) == Elements(recency) + {k}
    ensures |r| > 0 && r[|r| - 1] == k
    ensures k in recency ==> |r| <= |recency|
    ensures k !in recency ==> r == recency + [k]
    ensures k in recency ==>
      exists n :: 0 <= n < |recency| && recency[n] == k && r == recency[..n] + recency[n + 1..] + [k]
  {
    var rest := Without(recency, k);
    assert k in recency ==>
      exists n :: 0 <= n < |recency| && recency[n] == k && rest == recency[..n] + recency[n + 1..]
    by {
      if k in recency {
        WithoutSplice(recency, k);
      }
    }
    assert Elements(rest + [k]) == Elements(rest) + {k};
    assert Distinct(rest + [k]) by {
      assert forall i :: 0 <= i < |rest| ==> (rest + [k])[i] == rest[i];
    }
    rest + [k]
  }

  /** The memo: bodies by request string, and the strings from least to most recently used. */
  class LruCache {
    var entries: map<string, Output>
    var recency: seq<string>

    ghost predicate Valid()
      reads this
    {
      && Distinct(recency)
      && |recency| <= MaxSize
      && entries.Keys == Elements(recency)
    }

    constructor ()
      ensures Valid() && entries == map[] && recency == []
    {
      entries := map[];
      recency := [];
    }

    /** Records `out` for a string not yet held, evicting the least recently used string when full. */
    method Admit(raw: string, out: Output)
      requires Valid() && raw !in entries
      modifies this
      ensures Valid() && raw in entries && entries[raw] == out && recency[|recency| - 1] == raw
      ensures old(|recency|) == MaxSize ==>
        entries.Keys == old(entries.Keys) - {old(recency[0])} + {raw}
      ensures old(|recency|) < MaxSize ==> entries.Keys == old(entries.Keys) + {raw}
      ensures recency == (if old(|recency|) == MaxSize then old(recency)[1..] else old(recency)) + [raw]
      ensures forall k :: k in entries && k != raw ==> k in old(entries) && entries[k] == old(entries[k])
    {
      if |recency| == MaxSize {
        var oldest := recency[0];
        assert recency == [oldest] + recency[1..];
        ElementsCons(oldest, recency[1..]);
        entries := entries - {oldest};
        recency := recency[1..];
      }
      assert raw !in recency;
      assert Distinct(recency + [raw]) by {
        assert forall i :: 0 <= i < |recency| ==> (recency + [raw])[i] == recency[i];
      }
      assert Elements(recency + [raw]) == Elements(recency) + {raw};
      entries := entries[raw := out];
      recency := recency + [raw];
    }

    /**
     * The memoized batch lookup. A string already held returns the body
     * stored for it and leaves the store alone; any other string runs
     * `Process`, and its body is memoized, evicting the least recently
     * used string when the memo is full. At most `MaxSize` strings are held.
     */
    method Lookup(raw: string, store: Store, resolve: string -> Option<Attrs>) returns (out: Output)
      requires Valid()
      modifies this, store
      ensures Valid() && |entries| <= MaxSize
      ensures raw in entries && entries[raw] == out && recency[|recency| - 1] == raw
      ensures raw in old(entries) ==>
        out == old(entries[raw]) && store.entries == old(store.entries) && entries == old(entries)
      ensures raw !in old(entries) ==>
        out == Respond(Walk(old(store.entries), Split(raw), resolve))
        && store.entries == Walk(old(store.entries), Split(raw), resolve).store
      ensures raw in old(entries) ==> recency == Touch(old(recency), raw)
      ensures raw !in old(entries) ==>
        recency == (if old(|recency|) == MaxSize then old(recency)[1..] else old(recency)) + [raw]
      ensures raw !in old(entries) && old(|recency|) == MaxSize ==>
        entries.Keys == old(entries.Keys) - {old(recency[0])} + {raw}
      ensures raw !in old(entries) && old(|recency|) < MaxSize ==>
        entries.Keys == old(entries.Keys) + {raw}
      ensures forall k :: k in entries && k != raw ==> k in old(entries) && entries[k] == old(entries[k])
    {
      if raw in entries {
        out := entries[raw];
        recency := Touch(recency, raw);
      } else {
        out := Process(store, raw, resolve);
        Admit(raw, out);
      }
      DistinctSize(recency);
    }
  }
}
