/**
 * A Python `dict` from strings to strings, as the records of the scraper and the
 * saver are: a sequence of (key, value) entries in insertion order, no key twice.
 */
module Dicts {

  /** No key twice; the invariant of the `Dict` subtype, stated on raw entries so that it can define it. */
  predicate DistinctKeys(entries: seq<(string, string)>) {
    forall i, j :: 0 <= i < j < |entries| ==> entries[i].0 != entries[j].0
  }

  type Dict = d: seq<(string, string)> | DistinctKeys(d)

  /** `list(d.keys())`. */
  function Keys(d: seq<(string, string)>): seq<string>
  {
    seq(|d|, i requires 0 <= i < |d| => d[i].0)
  }

  /** `k in d`. */
  predicate HasKey(d: seq<(string, string)>, k: string) {
    exists i :: 0 <= i < |d| && d[i].0 == k
  }

  /** The listed keys are the keys present. */
  lemma InKeys(d: seq<(string, string)>, k: string)
    ensures k in Keys(d) <==> HasKey(d, k)
  {
    if HasKey(d, k) {
      var i :| 0 <= i < |d| && d[i].0 == k;
      assert Keys(d)[i] == k;
    }
  }

  /** `d.get(k, default)`. */
  function Get(d: seq<(string, string)>, k: string, default: string): (v: string)
    ensures !HasKey(d, k) ==> v == default
    ensures HasKey(d, k) ==> exists i :: 0 <= i < |d| && d[i] == (k, v)
  {
    if d == [] then default
    else if d[0].0 == k then d[0].1
    else
      assert HasKey(d, k) ==> HasKey(d[1..], k) by {
        if HasKey(d, k) {
          var i :| 0 <= i < |d| && d[i].0 == k;
          assert d[1..][i - 1].0 == k;
        }
      }
      var v := Get(d[1..], k, default);
      assert forall i :: 0 <= i < |d| - 1 ==> d[1..][i] == d[i + 1];
      v
  }

  /** In a dict, the value found for a key is the one stored with it. */
  lemma GetAt(d: Dict, i: nat, default: string)
    requires i < |d|
    ensures HasKey(d, d[i].0) && Get(d, d[i].0, default) == d[i].1
  {
    var j :| 0 <= j < |d| && d[j] == (d[i].0, Get(d, d[i].0, default));
    assert i == j;
  }

  /** `d[k] = v`: an existing key keeps its place and takes the new value; a new key goes last. */
  function Put(d: seq<(string, string)>, k: string, v: string): (r: seq<(string, string)>)
    ensures |r| == |d| || |r| == |d| + 1
    ensures forall key :: HasKey(r, key) <==> HasKey(d, key) || key == k
    ensures DistinctKeys(d) ==> DistinctKeys(r)
  {
    if d == [] then
      assert [(k, v)][0].0 == k;
      [(k, v)]
    else if d[0].0 == k then
      var r := [(k, v)] + d[1..];
      assert forall i :: 0 <= i < |d| ==> r[i].0 == d[i].0;
      r
    else
      var rest := Put(d[1..], k, v);
      assert forall key :: HasKey(d, key) <==> d[0].0 == key || HasKey(d[1..], key) by {
        assert HasKey(d, d[0].0);
        forall key | HasKey(d, key) && d[0].0 != key ensures HasKey(d[1..], key) {
          var i :| 0 <= i < |d| && d[i].0 == key;
          assert d[1..][i - 1].0 == key;
        }
        forall key | HasKey(d[1..], key) ensures HasKey(d, key) {
          var i :| 0 <= i < |d| - 1 && d[1..][i].0 == key;
          assert d[i + 1].0 == key;
        }
      }
      var r := [d[0]] + rest;
      assert forall key :: HasKey(r, key) <==> d[0].0 == key || HasKey(rest, key) by {
        assert r[0] == d[0];
        forall key | HasKey(r, key) && d[0].0 != key ensures HasKey(rest, key) {
          var i :| 0 <= i < |r| && r[i].0 == key;
          assert rest[i - 1].0 == key;
        }
        forall key | HasKey(rest, key) ensures HasKey(r, key) {
          var i :| 0 <= i < |rest| && rest[i].0 == key;
          assert r[i + 1].0 == key;
        }
      }
      assert DistinctKeys(d) ==> DistinctKeys(r) by {
        if DistinctKeys(d) {
          assert DistinctKeys(d[1..]);
          forall j | 0 < j < |r| ensures r[0].0 != r[j].0 {
            assert HasKey(rest, rest[j - 1].0);
            if rest[j - 1].0 != k {
              var i :| 0 <= i < |d| - 1 && d[1..][i].0 == rest[j - 1].0;
            }
          }
        }
      }
      r
  }

  /** After `d[k] = v`, the key `k` holds `v` and every other key holds what it held. */
  lemma {:induction false} GetPut(d: seq<(string, string)>, k: string, v: string, key: string, default: string)
    requires DistinctKeys(d)
    ensures Get(Put(d, k, v), key, default) == if key == k then v else Get(d, key, default)
  {
    if d != [] && d[0].0 != k {
      GetPut(d[1..], k, v, key, default);
    }
  }
}
