/**
 * An `IndexMap<K, V>` (the property map of an OpenAPI object schema) as the
 * sequence of its entries in iteration order. Inserting a key that is
 * already present replaces its value and keeps its position; a new key goes
 * to the end. Collecting an iterator of pairs inserts them in turn.
 */
module IndexMap {
  import opened Wrappers

  /** The keys in iteration order. */
  function Keys<K(==, !new), V>(m: seq<(K, V)>): (ks: seq<K>)
    ensures |ks| == |m|
  {
    if m == [] then [] else [m[0].0] + Keys(m[1..])
  }

  /** `m.get(k)` */
  function Get<K(==, !new), V>(m: seq<(K, V)>, k: K): Option<V> {
    if m == [] then None
    else if m[0].0 == k then Some(m[0].1)
    else Get(m[1..], k)
  }

  /** No key occurs twice. */
  predicate Distinct<K(==, !new)>(ks: seq<K>) {
    forall i, j :: 0 <= i < j < |ks| ==> ks[i] != ks[j]
  }

  /** `m.insert(k, v)` */
  function Insert<K(==, !new), V>(m: seq<(K, V)>, k: K, v: V): (r: seq<(K, V)>)
    ensures Keys(r) == if k in Keys(m) then Keys(m) else Keys(m) + [k]
    ensures Get(r, k) == Some(v)
    ensures forall j :: j != k ==> Get(r, j) == Get(m, j)
  {
    if m == [] then [(k, v)]
    else if m[0].0 == k then [(k, v)] + m[1..]
    else [m[0]] + Insert(m[1..], k, v)
  }

  /** `entries.into_iter().collect::<IndexMap<_, _>>()` */
  function FromSeq<K(==, !new), V>(entries: seq<(K, V)>): (m: seq<(K, V)>)
    ensures Keys(m) == FirstOccurrences(Keys(entries), {})
  {
    if entries == [] then []
    else
      var init, last := entries[..|entries| - 1], entries[|entries| - 1];
      assert entries == init + [last];
      KeysSnoc(init, last);
      FirstOccurrencesSnoc(Keys(init), {}, last.0);
      FirstOccurrencesElements(Keys(init), {}, last.0);
      Insert(FromSeq(init), last.0, last.1)
  }

  /**
   * The distinct elements of `s` that are not in `seen`, each at the place
   * of its first occurrence.
   */
  function FirstOccurrences<K(==, !new)>(s: seq<K>, seen: set<K>): seq<K> {
    if s == [] then []
    else if s[0] in seen then FirstOccurrences(s[1..], seen)
    else [s[0]] + FirstOccurrences(s[1..], seen + {s[0]})
  }

  lemma {:induction false} FirstOccurrencesElements<K(!new)>(s: seq<K>, seen: set<K>, x: K)
    ensures x in FirstOccurrences(s, seen) <==> x in s && x !in seen
  {
    if s != [] {
      FirstOccurrencesElements(s[1..], if s[0] in seen then seen else seen + {s[0]}, x);
      assert x in s <==> x == s[0] || x in s[1..];
    }
  }

  lemma {:induction false} FirstOccurrencesDistinct<K(!new)>(s: seq<K>, seen: set<K>)
    ensures Distinct(FirstOccurrences(s, seen))
  {
    if s != [] {
      if s[0] in seen {
        FirstOccurrencesDistinct(s[1..], seen);
      } else {
        FirstOccurrencesDistinct(s[1..], seen + {s[0]});
        FirstOccurrencesElements(s[1..], seen + {s[0]}, s[0]);
      }
    }
  }

  /** Appending an element adds it at the end exactly when it is new. */
  lemma {:induction false} FirstOccurrencesSnoc<K(!new)>(s: seq<K>, seen: set<K>, x: K)
    ensures FirstOccurrences(s + [x], seen)
         == FirstOccurrences(s, seen) + (if x in seen || x in s then [] else [x])
  {
    if s == [] {
      assert [x][1..] == [];
    } else {
      assert (s + [x])[1..] == s[1..] + [x];
      FirstOccurrencesSnoc(s[1..], if s[0] in seen then seen else seen + {s[0]}, x);
      assert x in s <==> x == s[0] || x in s[1..];
    }
  }

  lemma {:induction false} KeysSnoc<K(!new), V>(m: seq<(K, V)>, e: (K, V))
    ensures Keys(m + [e]) == Keys(m) + [e.0]
  {
    if m != [] {
      assert (m + [e])[1..] == m[1..] + [e];
      KeysSnoc(m[1..], e);
    }
  }

  lemma {:induction false} KeysAt<K(!new), V>(m: seq<(K, V)>, i: nat)
    requires i < |m|
    ensures |Keys(m)| == |m| && Keys(m)[i] == m[i].0
  {
    if i > 0 {
      KeysAt(m[1..], i - 1);
    } else if |m| > 1 {
      KeysAt(m[1..], 0);
    }
  }

  /** No key of a collected map occurs twice. */
  lemma FromSeqKeys<K(!new), V>(entries: seq<(K, V)>)
    ensures Distinct(Keys(FromSeq(entries)))
  {
    FirstOccurrencesDistinct(Keys(entries), {});
  }

  /** The value of a key is that of its last entry. */
  lemma {:induction false} FromSeqLastWins<K(!new), V>(entries: seq<(K, V)>, i: nat)
    requires i < |entries|
    requires forall j :: i < j < |entries| ==> entries[j].0 != entries[i].0
    ensures Get(FromSeq(entries), entries[i].0) == Some(entries[i].1)
  {
    if i < |entries| - 1 {
      var init := entries[..|entries| - 1];
      FromSeqLastWins(init, i);
    }
  }

  /** A key no entry carries is absent. */
  lemma {:induction false} FromSeqAbsent<K(!new), V>(entries: seq<(K, V)>, k: K)
    requires forall j :: 0 <= j < |entries| ==> entries[j].0 != k
    ensures Get(FromSeq(entries), k) == None
  {
    if entries != [] {
      FromSeqAbsent(entries[..|entries| - 1], k);
    }
  }
}
