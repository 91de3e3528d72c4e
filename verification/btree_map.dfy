/**
 * A `BTreeMap<String, V>` as the sequence of its entries in iteration order,
 * which is ascending key order. Inserting a present key replaces its value;
 * collecting an iterator of pairs behaves as inserting them in turn, so the
 * last pair with a given key decides its value.
 * The lookup is the one of `IndexMap`; the keys are kept here as a set,
 * since the order of a `BTreeMap` follows from `Sorted` rather than from
 * insertion, so `Keys` and its two small lemmas are stated afresh.
 */
module BTreeMap {
  import opened Wrappers
  import opened Strings
  import IndexMap

  /** Iteration order: keys strictly ascending. */
  predicate Sorted<V>(m: seq<(string, V)>) {
    forall i, j :: 0 <= i < j < |m| ==> Less(m[i].0, m[j].0)
  }

  /** The set of keys of the entries. */
  function Keys<V>(m: seq<(string, V)>): set<string> {
    if m == [] then {} else {m[0].0} + Keys(m[1..])
  }

  /** `m.get(k)`: the same lookup as in an `IndexMap`, found exactly for the keys present. */
  function Get<V>(m: seq<(string, V)>, k: string): (r: Option<V>)
    ensures r.Some? <==> k in Keys(m)
  {
    GetFound(m, k);
    IndexMap.Get(m, k)
  }

  lemma {:induction false} GetFound<V>(m: seq<(string, V)>, k: string)
    ensures IndexMap.Get(m, k).Some? <==> k in Keys(m)
  {
    if m != [] && m[0].0 != k {
      GetFound(m[1..], k);
    }
  }

  lemma {:induction false} KeysAt<V>(m: seq<(string, V)>, i: nat)
    requires i < |m|
    ensures m[i].0 in Keys(m)
  {
    if i > 0 {
      KeysAt(m[1..], i - 1);
    }
  }

  /** `m.insert(k, v)` */
  function Insert<V>(m: seq<(string, V)>, k: string, v: V): (r: seq<(string, V)>)
    requires Sorted(m)
    ensures Sorted(r)
    ensures Keys(r) == Keys(m) + {k}
    ensures Get(r, k) == Some(v)
    ensures forall j :: j != k ==> Get(r, j) == Get(m, j)
  {
    if m == [] then [(k, v)]
    else if m[0].0 == k then
      assert ([(k, v)] + m[1..])[1..] == m[1..];
      [(k, v)] + m[1..]
    else if Less(k, m[0].0) then
      assert forall j :: 0 <= j < |m| ==> Less(k, m[j].0) by {
        forall j | 0 <= j < |m| ensures Less(k, m[j].0) {
          if j > 0 { LessTransitive(k, m[0].0, m[j].0); }
        }
      }
      assert ([(k, v)] + m)[1..] == m;
      [(k, v)] + m
    else
      LessTotal(k, m[0].0);
      var rest := Insert(m[1..], k, v);
      assert ([m[0]] + rest)[1..] == rest;
      assert forall j :: 0 <= j < |rest| ==> Less(m[0].0, rest[j].0) by {
        forall j | 0 <= j < |rest| ensures Less(m[0].0, rest[j].0) {
          KeysAt(rest, j);
          if rest[j].0 != k {
            var i := KeyIndex(m[1..], rest[j].0);
            assert m[1..][i] == m[i + 1];
          }
        }
      }
      assert forall j :: j != m[0].0 ==> Get([m[0]] + rest, j) == Get(rest, j) by {
        forall j | j != m[0].0 ensures Get([m[0]] + rest, j) == Get(rest, j) {
          assert IndexMap.Get([m[0]] + rest, j) == IndexMap.Get(rest, j);
        }
      }
      [m[0]] + rest
  }

  /** The position of a key among the entries. */
  lemma {:induction false} KeyIndex<V>(m: seq<(string, V)>, k: string) returns (i: nat)
    requires k in Keys(m)
    ensures i < |m| && m[i].0 == k
  {
    if m[0].0 == k {
      i := 0;
    } else {
      var j := KeyIndex(m[1..], k);
      i := j + 1;
    }
  }

  /** `entries.into_iter().collect::<BTreeMap<_, _>>()` */
  function FromSeq<V>(entries: seq<(string, V)>): (r: seq<(string, V)>)
    ensures Sorted(r)
  {
    if entries == [] then []
    else
      var last := entries[|entries| - 1];
      Insert(FromSeq(entries[..|entries| - 1]), last.0, last.1)
  }

  /** A sorted entry sequence carries no key twice. */
  lemma SortedDistinct<V>(m: seq<(string, V)>, i: nat, j: nat)
    requires Sorted(m)
    requires i < j < |m|
    ensures m[i].0 != m[j].0
  {
    LessIrreflexive(m[i].0);
  }

  lemma {:induction false} KeysSnoc<V>(m: seq<(string, V)>, e: (string, V))
    ensures Keys(m + [e]) == Keys(m) + {e.0}
  {
    if m != [] {
      assert (m + [e])[1..] == m[1..] + [e];
      KeysSnoc(m[1..], e);
    }
  }

  /** The keys of a collected map are exactly the keys of the entries. */
  lemma {:induction false} FromSeqKeys<V>(entries: seq<(string, V)>)
    ensures Keys(FromSeq(entries)) == Keys(entries)
  {
    if entries != [] {
      var init, last := entries[..|entries| - 1], entries[|entries| - 1];
      FromSeqKeys(init);
      KeysSnoc(init, last);
      assert init + [last] == entries;
    }
  }

  /** The value of a key is that of its last entry. */
  lemma {:induction false} FromSeqLastWins<V>(entries: seq<(string, V)>, i: nat)
    requires i < |entries|
    requires forall j :: i < j < |entries| ==> entries[j].0 != entries[i].0
    ensures Get(FromSeq(entries), entries[i].0) == Some(entries[i].1)
  {
    if i < |entries| - 1 {
      FromSeqLastWins(entries[..|entries| - 1], i);
    }
  }
}
