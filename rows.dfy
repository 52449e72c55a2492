/**
 * The record dictionaries the scripts build and the row each one hands to
 * `csv.DictWriter.writerow`. A Python dict is an ordered list of distinct keys
 * with their values; `None` is `Null`.
 */
module Rows {

  datatype Value = Null | Int(i: int) | Str(s: string)

  type Dict = seq<(string, Value)>

  function Keys(d: Dict): (ks: seq<string>)
    ensures |ks| == |d|
    ensures forall n :: 0 <= n < |d| ==> ks[n] == d[n].0
  {
    if d == [] then [] else [d[0].0] + Keys(d[1..])
  }

  predicate DistinctKeys(d: Dict) {
    forall m, n :: 0 <= m < n < |d| ==> d[m].0 != d[n].0
  }

  /** `d.get(k)`: the value stored under `k`, `None` when there is none. */
  function Get(d: Dict, k: string): (v: Value)
    ensures v != Null ==> exists n :: 0 <= n < |d| && d[n] == (k, v)
    ensures (forall n :: 0 <= n < |d| ==> d[n].0 != k) ==> v == Null
    ensures DistinctKeys(d) ==> forall n :: 0 <= n < |d| && d[n].0 == k ==> v == d[n].1
  {
    if d == [] then Null else if d[0].0 == k then d[0].1 else Get(d[1..], k)
  }

  /** `{**d, k: v}`: the entry under `k` takes the value `v` in place, or is
      appended when `d` has no such key. */
  function Put(d: Dict, k: string, v: Value): (r: Dict)
    ensures |r| == |d| || r == d + [(k, v)]
  {
    if d == [] then [(k, v)]
    else if d[0].0 == k then [(k, v)] + PutExisting(d[1..], k, v)
    else [d[0]] + Put(d[1..], k, v)
  }

  /** The rest of a `Put` once `k` has been met: later entries under `k` (which
      a dict never has) take `v` too. */
  function PutExisting(d: Dict, k: string, v: Value): (r: Dict)
    ensures |r| == |d|
    ensures forall n :: 0 <= n < |r| ==> r[n].0 == d[n].0
    ensures forall n :: 0 <= n < |r| && r[n].0 != k ==> r[n].1 == d[n].1
  {
    if d == [] then [] else [(d[0].0, if d[0].0 == k then v else d[0].1)] + PutExisting(d[1..], k, v)
  }

  /** Entries under other keys are copied unchanged, and the keys of `d` keep
      their places. */
  lemma {:induction false} PutEntries(d: Dict, k: string, v: Value)
    ensures |Put(d, k, v)| >= |d|
    ensures forall n :: 0 <= n < |d| ==> Put(d, k, v)[n].0 == d[n].0
    ensures forall n :: 0 <= n < |d| && d[n].0 != k ==> Put(d, k, v)[n] == d[n]
  {
    if d != [] && d[0].0 != k {
      PutEntries(d[1..], k, v);
    }
  }

  /** `Put` stores `v` under `k`. */
  lemma {:induction false} PutGet(d: Dict, k: string, v: Value)
    ensures Get(Put(d, k, v), k) == v
  {
    if d != [] && d[0].0 != k {
      PutGet(d[1..], k, v);
    }
  }

  /** `Put` leaves every other key's value alone. */
  lemma {:induction false} PutOthers(d: Dict, k: string, v: Value, k': string)
    requires k' != k
    ensures Get(Put(d, k, v), k') == Get(d, k')
  {
    if d != [] && d[0].0 != k {
      PutOthers(d[1..], k, v, k');
    } else if d != [] {
      GetExisting(d[1..], k, v, k');
    }
  }

  lemma {:induction false} GetExisting(d: Dict, k: string, v: Value, k': string)
    requires k' != k
    ensures Get(PutExisting(d, k, v), k') == Get(d, k')
  {
    if d != [] {
      GetExisting(d[1..], k, v, k');
    }
  }

  /** `{**d, k: v}`: with `k` present the keys and their order stay as they
      are, otherwise `(k, v)` is appended; afterwards `k` maps to `v`, every
      other key keeps its value, and keys stay distinct. */
  lemma PutSpec(d: Dict, k: string, v: Value)
    ensures (exists n :: 0 <= n < |d| && d[n].0 == k) ==> Keys(Put(d, k, v)) == Keys(d)
    ensures (forall n :: 0 <= n < |d| ==> d[n].0 != k) ==> Put(d, k, v) == d + [(k, v)]
    ensures Get(Put(d, k, v), k) == v
    ensures forall k' :: k' != k ==> Get(Put(d, k, v), k') == Get(d, k')
    ensures DistinctKeys(d) ==> DistinctKeys(Put(d, k, v))
  {
    PutGet(d, k, v);
    forall k' | k' != k
      ensures Get(Put(d, k, v), k') == Get(d, k')
    {
      PutOthers(d, k, v, k');
    }
    PutShape(d, k, v);
  }

  /** The key sequence after a `Put`. */
  lemma PutShape(d: Dict, k: string, v: Value)
    ensures (exists n :: 0 <= n < |d| && d[n].0 == k) ==> Keys(Put(d, k, v)) == Keys(d)
    ensures (forall n :: 0 <= n < |d| ==> d[n].0 != k) ==> Put(d, k, v) == d + [(k, v)]
    ensures DistinctKeys(d) ==> DistinctKeys(Put(d, k, v))
  {
    var r := Put(d, k, v);
    PutEntries(d, k, v);
    if exists n :: 0 <= n < |d| && d[n].0 == k {
      PutPresent(d, k, v);
      assert forall n :: 0 <= n < |r| ==> r[n].0 == d[n].0;
      assert Keys(r) == Keys(d);
    } else {
      PutAbsent(d, k, v);
    }
  }

  lemma {:induction false} PutPresent(d: Dict, k: string, v: Value)
    requires exists n :: 0 <= n < |d| && d[n].0 == k
    ensures |Put(d, k, v)| == |d|
  {
    if d[0].0 != k {
      var n :| 0 <= n < |d| && d[n].0 == k;
      assert d[1..][n - 1].0 == k;
      PutPresent(d[1..], k, v);
    }
  }

  lemma {:induction false} PutAbsent(d: Dict, k: string, v: Value)
    requires forall n :: 0 <= n < |d| ==> d[n].0 != k
    ensures Put(d, k, v) == d + [(k, v)]
  {
    if d != [] {
      assert forall n :: 0 <= n < |d[1..]| ==> d[1..][n].0 != k by {
        forall n | 0 <= n < |d[1..]| ensures d[1..][n].0 != k {
          assert d[1..][n] == d[n + 1];
        }
      }
      PutAbsent(d[1..], k, v);
      assert [d[0]] + (d[1..] + [(k, v)]) == d + [(k, v)];
    }
  }

  /** The dict written for a parsed record: unchanged when its price is not
      `None`, else the same dict with `""` as its price. */
  function CsvRow(item: Dict): Dict {
    if Get(item, "price_dkk") != Null then item else Put(item, "price_dkk", Str(""))
  }

  /** A record with a price (0 included) is written as it is; one without has
      the same keys in the same order, `""` as price, and all else unchanged. */
  lemma CsvRowSubstitution(item: Dict)
    requires exists n :: 0 <= n < |item| && item[n].0 == "price_dkk"
    ensures Get(item, "price_dkk") != Null ==> CsvRow(item) == item
    ensures Get(item, "price_dkk") == Null ==>
      && Keys(CsvRow(item)) == Keys(item)
      && Get(CsvRow(item), "price_dkk") == Str("")
      && forall k :: k != "price_dkk" ==> Get(CsvRow(item), k) == Get(item, k)
    ensures DistinctKeys(item) ==> DistinctKeys(CsvRow(item))
  {
    PutSpec(item, "price_dkk", Str(""));
  }
}
