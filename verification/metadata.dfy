/** A document's metadata (`com.norconex.commons.lang.map.Properties`): a map
    from field name to an ordered list of values. The map's iteration order is
    not fixed by the committers, so the model takes the entries as a sequence in
    whatever order the map yields them. */
module Metadata {
  import opened Wrappers

  /** One map entry: a field name and its values, in order. */
  datatype Entry = Entry(key: string, values: seq<string>)

  type Properties = seq<Entry>

  /** One (field name, value) pair, as the encoders visit them. */
  datatype Pair = Pair(key: string, value: string)

  /** A map holds each key once. */
  predicate UniqueKeys(p: Properties) {
    forall i, j :: 0 <= i < j < |p| ==> p[i].key != p[j].key
  }

  /** `Map.get(key)`: the values of the entry for `key`, or null. */
  function Lookup(p: Properties, key: string): (r: Option<seq<string>>)
    ensures r.None? <==> forall i :: 0 <= i < |p| ==> p[i].key != key
    ensures r.Some? ==> exists i :: 0 <= i < |p| && p[i].key == key && p[i].values == r.value
  {
    if |p| == 0 then None
    else if p[0].key == key then Some(p[0].values)
    else
      var r := Lookup(p[1..], key);
      assert forall i :: 1 <= i < |p| ==> p[i] == p[1..][i - 1];
      r
  }

  /** Every value stored under `key`, in iteration order. */
  function ValuesOf(p: Properties, key: string): seq<string> {
    if |p| == 0 then []
    else (if p[0].key == key then p[0].values else []) + ValuesOf(p[1..], key)
  }

  /** In a map, the values under a key are those of its single entry. */
  lemma {:induction false} ValuesOfLookup(p: Properties, key: string)
    requires UniqueKeys(p)
    ensures ValuesOf(p, key) == (match Lookup(p, key) case Some(vs) => vs case None => [])
  {
    if |p| > 0 {
      assert UniqueKeys(p[1..]) by {
        forall i, j | 0 <= i < j < |p[1..]|
          ensures p[1..][i].key != p[1..][j].key
        {
          assert p[1..][i] == p[i + 1] && p[1..][j] == p[j + 1];
        }
      }
      ValuesOfLookup(p[1..], key);
      if p[0].key == key {
        assert Lookup(p[1..], key).None? by {
          forall i | 0 <= i < |p[1..]|
            ensures p[1..][i].key != key
          {
            assert p[1..][i] == p[i + 1];
          }
        }
      }
    }
  }

  lemma ValuesOfLookupIfUnique(p: Properties, key: string)
    ensures UniqueKeys(p) ==> ValuesOf(p, key) == (match Lookup(p, key) case Some(vs) => vs case None => [])
  {
    if UniqueKeys(p) {
      ValuesOfLookup(p, key);
    }
  }

  /** `Properties.getString(key)`: the first value stored under `key`, or null
      when the key is absent or has no values. */
  function GetString(p: Properties, key: string): (r: Option<string>)
    ensures r.Some? ==> exists i :: 0 <= i < |p| && p[i].key == key && |p[i].values| > 0 && r.value == p[i].values[0]
    ensures UniqueKeys(p) ==> (r.Some? <==> |ValuesOf(p, key)| > 0)
    ensures UniqueKeys(p) && r.Some? ==> r.value == ValuesOf(p, key)[0]
  {
    ValuesOfLookupIfUnique(p, key);
    match Lookup(p, key)
    case None => None
    case Some(vs) => if |vs| == 0 then None else Some(vs[0])
  }

  /** The pairs of one entry. */
  function EntryPairs(e: Entry): (ps: seq<Pair>)
    ensures |ps| == |e.values|
    ensures forall j :: 0 <= j < |ps| ==> ps[j] == Pair(e.key, e.values[j])
  {
    seq(|e.values|, j requires 0 <= j < |e.values| => Pair(e.key, e.values[j]))
  }

  /** Every (key, value) pair of the map, entry by entry and value by value:
      the order of the encoders' nested loops. */
  function Pairs(p: Properties): seq<Pair> {
    if |p| == 0 then [] else EntryPairs(p[0]) + Pairs(p[1..])
  }

  /** A pair is visited exactly when its value is stored under its key. */
  lemma {:induction false} PairsMembership(p: Properties, k: string, v: string)
    ensures Pair(k, v) in Pairs(p) <==> exists i :: 0 <= i < |p| && p[i].key == k && v in p[i].values
  {
    if |p| > 0 {
      PairsMembership(p[1..], k, v);
      if Pair(k, v) in EntryPairs(p[0]) {
        var j :| 0 <= j < |EntryPairs(p[0])| && EntryPairs(p[0])[j] == Pair(k, v);
        assert p[0].values[j] == v;
      }
      if p[0].key == k && v in p[0].values {
        var j :| 0 <= j < |p[0].values| && p[0].values[j] == v;
        assert EntryPairs(p[0])[j] == Pair(k, v);
      }
      if exists i :: 0 <= i < |p| && p[i].key == k && v in p[i].values {
        var i :| 0 <= i < |p| && p[i].key == k && v in p[i].values;
        if i > 0 {
          assert p[1..][i - 1] == p[i];
        }
      }
    }
  }

  /** The pairs whose key is not in `excluded`, in order. */
  function Without(ps: seq<Pair>, excluded: set<string>): (r: seq<Pair>)
    ensures |r| <= |ps|
    ensures forall q :: q in r <==> q in ps && q.key !in excluded
  {
    if |ps| == 0 then []
    else (if ps[0].key in excluded then [] else [ps[0]]) + Without(ps[1..], excluded)
  }

  lemma {:induction false} WithoutAppend(xs: seq<Pair>, ys: seq<Pair>, excluded: set<string>)
    ensures Without(xs + ys, excluded) == Without(xs, excluded) + Without(ys, excluded)
    decreases |xs|
  {
    if |xs| > 0 {
      assert (xs + ys)[1..] == xs[1..] + ys;
      WithoutAppend(xs[1..], ys, excluded);
    } else {
      assert xs + ys == ys;
    }
  }
}
