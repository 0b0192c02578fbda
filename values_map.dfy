/**
 * The payload of INSERT and UPDATE statements: an ordered map from column name to value.
 * A PHP array keeps its keys unique and its entries in insertion order, so the map is a
 * sequence of (key, value) entries whose keys are pairwise distinct.
 */
module ValuesMap {
  import opened Syntax

  type Entry = (string, Value)
  type Entries = seq<Entry>

  /** The keys of the map, in map order. */
  function Keys(m: Entries): (ks: seq<string>)
  {
    seq(|m|, i requires 0 <= i < |m| => m[i].0)
  }

  /** PHP arrays never hold one key twice. */
  predicate DistinctKeys(m: Entries)
  {
    forall i, j :: 0 <= i < j < |m| ==> m[i].0 != m[j].0
  }

  predicate NoNulls(m: Entries)
  {
    forall i :: 0 <= i < |m| ==> NotNull(m[i].1)
  }

  /** The map view of the entries: the value stored under key k, if any. */
  function Lookup(m: Entries, k: string): (v: Option<Value>)
  {
    if m == [] then None
    else if m[0].0 == k then Some(m[0].1)
    else Lookup(m[1..], k)
  }

  /** a is obtained from b by deleting entries, without reordering the rest. */
  predicate IsSubsequence(a: Entries, b: Entries)
  {
    if a == [] then true
    else if b == [] then false
    else if a[0] == b[0] then IsSubsequence(a[1..], b[1..])
    else IsSubsequence(a, b[1..])
  }

  /**
   * The entries whose value satisfies keep, in their original order and with their
   * original keys: what PHP's array_filter and a foreach that copies the kept entries
   * both produce.
   */
  function Filter(m: Entries, keep: Value -> bool): (r: Entries)
    ensures |r| <= |m|
    ensures forall e :: e in r ==> e in m && keep(e.1)
  {
    if m == [] then []
    else if keep(m[0].1) then [m[0]] + Filter(m[1..], keep)
    else Filter(m[1..], keep)
  }

  /** What `setValues` keeps: every entry whose value is not null. */
  function DropNulls(m: Entries): (r: Entries)
  {
    Filter(m, NotNull)
  }

  /** What `getValues` returns: every entry whose value is not an SQL function. */
  function WithoutFunctions(m: Entries): (r: Entries)
  {
    Filter(m, NotFunction)
  }

  // ---------------------------------------------------------------------------
  // Helper facts

  lemma HeadNotInTail(m: Entries)
    requires DistinctKeys(m) && m != []
    ensures m[0] !in m[1..]
    ensures forall i :: 0 <= i < |m[1..]| ==> m[1..][i].0 != m[0].0
  {
  }

  lemma {:induction false} LookupAbsent(m: Entries, k: string)
    requires forall i :: 0 <= i < |m| ==> m[i].0 != k
    ensures Lookup(m, k) == None
  {
    if m != [] {
      assert m[0].0 != k;
      LookupAbsent(m[1..], k);
    }
  }

  lemma {:induction false} SubsequenceIn(a: Entries, b: Entries)
    requires IsSubsequence(a, b)
    ensures forall e :: e in a ==> e in b
  {
    if a != [] && b != [] {
      if a[0] == b[0] {
        SubsequenceIn(a[1..], b[1..]);
        forall e | e in a ensures e in b {
          if e != a[0] {
            assert e in a[1..];
          }
        }
      } else {
        SubsequenceIn(a, b[1..]);
      }
    }
  }

  // ---------------------------------------------------------------------------
  // Properties of Filter

  /** Every entry that satisfies keep survives the filter. */
  lemma {:induction false} FilterComplete(m: Entries, keep: Value -> bool)
    ensures forall e :: e in m && keep(e.1) ==> e in Filter(m, keep)
  {
    if m != [] {
      FilterComplete(m[1..], keep);
      forall e | e in m && keep(e.1) ensures e in Filter(m, keep) {
        if e != m[0] {
          assert e in m[1..];
        }
      }
    }
  }

  /** The filter deletes entries but never reorders the survivors. */
  lemma {:induction false} FilterIsSubsequence(m: Entries, keep: Value -> bool)
    ensures IsSubsequence(Filter(m, keep), m)
  {
    if m != [] {
      FilterIsSubsequence(m[1..], keep);
      var r := Filter(m, keep);
      if keep(m[0].1) {
        assert r[0] == m[0] && r[1..] == Filter(m[1..], keep);
      } else if r != [] {
        assert r == Filter(m[1..], keep);
        assert r[0] in r;
      }
    }
  }

  /** Filtering a map with unique keys yields a map with unique keys. */
  lemma {:induction false} FilterDistinct(m: Entries, keep: Value -> bool)
    requires DistinctKeys(m)
    ensures DistinctKeys(Filter(m, keep))
  {
    if m != [] {
      HeadNotInTail(m);
      FilterDistinct(m[1..], keep);
      var rest := Filter(m[1..], keep);
      if keep(m[0].1) {
        var r := [m[0]] + rest;
        forall i, j | 0 <= i < j < |r| ensures r[i].0 != r[j].0 {
          if i == 0 {
            assert r[j] == rest[j - 1];
            assert rest[j - 1] in m[1..];
            var p :| 0 <= p < |m[1..]| && m[1..][p] == rest[j - 1];
          } else {
            assert r[i] == rest[i - 1] && r[j] == rest[j - 1];
          }
        }
      }
    }
  }

  /** A filter that keeps every entry is the identity. */
  lemma {:induction false} FilterKeepsAll(m: Entries, keep: Value -> bool)
    requires forall i :: 0 <= i < |m| ==> keep(m[i].1)
    ensures Filter(m, keep) == m
  {
    if m != [] {
      assert keep(m[0].1);
      FilterKeepsAll(m[1..], keep);
      assert [m[0]] + m[1..] == m;
    }
  }

  /** Filtering one more entry appends it exactly when it is kept (the foreach loop's step). */
  lemma {:induction false} FilterAppend(m: Entries, e: Entry, keep: Value -> bool)
    ensures Filter(m + [e], keep) == Filter(m, keep) + (if keep(e.1) then [e] else [])
  {
    if m == [] {
      assert m + [e] == [e];
    } else {
      assert (m + [e])[0] == m[0];
      assert (m + [e])[1..] == m[1..] + [e];
      FilterAppend(m[1..], e, keep);
    }
  }

  /** Seen through the map view, the filter removes the key exactly when its value is not kept. */
  lemma {:induction false} FilterLookup(m: Entries, keep: Value -> bool, k: string)
    requires DistinctKeys(m)
    ensures Lookup(Filter(m, keep), k) ==
              if Lookup(m, k).Some? && keep(Lookup(m, k).value) then Lookup(m, k) else None
  {
    if m != [] {
      HeadNotInTail(m);
      FilterLookup(m[1..], keep, k);
      if m[0].0 == k && !keep(m[0].1) {
        LookupAbsent(m[1..], k);
      }
    }
  }

  /**
   * The filter's result is the ONLY subsequence of m that holds exactly the entries that
   * satisfy keep: "the same entries, keys and relative order, minus the rejected ones"
   * determines it.
   */
  lemma {:induction false} FilterUnique(m: Entries, keep: Value -> bool, r: Entries)
    requires DistinctKeys(m)
    requires IsSubsequence(r, m)
    requires forall e :: e in r <==> e in m && keep(e.1)
    ensures r == Filter(m, keep)
  {
    if m == [] {
      assert r == [];
    } else {
      HeadNotInTail(m);
      var tail := m[1..];
      assert DistinctKeys(tail) by {
        forall i, j | 0 <= i < j < |tail| ensures tail[i].0 != tail[j].0 {
          assert tail[i] == m[i + 1] && tail[j] == m[j + 1];
        }
      }
      if r == [] {
        assert m[0] in m;
        forall e ensures e in r <==> e in tail && keep(e.1) {
          if e in tail { assert e in m; }
        }
        FilterUnique(tail, keep, r);
      } else if r[0] == m[0] {
        assert r[0] in r;
        SubsequenceIn(r[1..], tail);
        forall e ensures e in r[1..] <==> e in tail && keep(e.1) {
          if e in r[1..] {
            assert e in r;
          }
          if e in tail && keep(e.1) {
            assert e in m;
            assert e in r;
            assert e != r[0];
            assert r == [r[0]] + r[1..];
          }
        }
        FilterUnique(tail, keep, r[1..]);
        assert r == [r[0]] + r[1..];
      } else {
        SubsequenceIn(r, tail);
        assert m[0] in m;
        forall e ensures e in r <==> e in tail && keep(e.1) {
          if e in tail { assert e in m; }
        }
        FilterUnique(tail, keep, r);
      }
    }
  }

  /** Filtering twice keeps exactly the entries that pass both tests. */
  lemma {:induction false} FilterFilter(m: Entries, p: Value -> bool, q: Value -> bool, pq: Value -> bool)
    requires forall v :: pq(v) == (p(v) && q(v))
    ensures Filter(Filter(m, p), q) == Filter(m, pq)
  {
    if m != [] {
      FilterFilter(m[1..], p, q, pq);
      assert pq(m[0].1) == (p(m[0].1) && q(m[0].1));
    }
  }
}
