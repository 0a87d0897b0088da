/**
 Python's insertion-ordered `dict` with string keys: a map from keys to values
 together with the order in which the keys were first assigned. Assigning to a
 present key rewrites its value in place; assigning to a new key appends it.
 */
module Records {

  datatype Option<T> = None | Some(value: T)

  datatype Dict<V> = Dict(order: seq<string>, values: map<string, V>) {

    /** The keys are listed once each, and exactly the keys of `values`. */
    ghost predicate Valid() {
      && Distinct(order)
      && (forall k :: k in values <==> k in order)
    }

    function Size(): nat {
      |order|
    }

    /** `d.get(k)`. */
    function Get(k: string): Option<V> {
      if k in values then Some(values[k]) else None
    }

    /** `d[k] = v`: a new key goes to the end, a present one keeps its place. */
    function Put(k: string, v: V): (r: Dict<V>)
      requires Valid()
      ensures r.Valid()
      ensures r.Get(k) == Some(v)
      ensures forall k' {:trigger r.Get(k')} :: k' != k ==> r.Get(k') == Get(k')
      ensures k in values ==> r.order == order
      ensures k !in values ==> r.order == order + [k]
    {
      if k in values then Dict(order, values[k := v])
      else Dict(order + [k], values[k := v])
    }
  }

  function Empty<V>(): (d: Dict<V>)
    ensures d.Valid() && d.Size() == 0
  {
    Dict([], map[])
  }

  predicate Distinct(ks: seq<string>) {
    forall i, j :: 0 <= i < j < |ks| ==> ks[i] != ks[j]
  }

  function KeysOf<V>(ps: seq<(string, V)>): (ks: seq<string>)
    ensures |ks| == |ps|
    ensures forall i :: 0 <= i < |ps| ==> ks[i] == ps[i].0
  {
    seq(|ps|, i requires 0 <= i < |ps| => ps[i].0)
  }

  /** The dictionary built by assigning the pairs of `ps` in order, as the
      comprehension `{k: v for k, v in ps}` does. */
  function FromPairs<V>(ps: seq<(string, V)>): (d: Dict<V>)
    ensures d.Valid()
    ensures forall k :: k in d.values <==> k in KeysOf(ps)
  {
    if ps == [] then Empty()
    else
      var front := ps[..|ps| - 1];
      var last := ps[|ps| - 1];
      assert KeysOf(ps) == KeysOf(front) + [last.0];
      FromPairs(front).Put(last.0, last.1)
  }

  /** The keys of `ks` in the order of their first occurrence. */
  function FirstOccurrences(ks: seq<string>): seq<string> {
    if ks == [] then []
    else
      var front := FirstOccurrences(ks[..|ks| - 1]);
      if ks[|ks| - 1] in front then front else front + [ks[|ks| - 1]]
  }

  /** The pair at `i` is the last one for its key: no later pair shares it. */
  predicate LastFor<V>(ps: seq<(string, V)>, i: nat)
    requires i < |ps|
  {
    forall j :: i < j < |ps| ==> ps[j].0 != ps[i].0
  }

  /** The keys of `FromPairs(ps)` are listed in the order of their first
      occurrence among the pairs. */
  lemma {:induction false} FromPairsOrder<V>(ps: seq<(string, V)>)
    ensures FromPairs(ps).order == FirstOccurrences(KeysOf(ps))
  {
    if ps != [] {
      var front := ps[..|ps| - 1];
      FromPairsOrder(front);
      assert KeysOf(ps)[..|ps| - 1] == KeysOf(front);
    }
  }

  /** Duplicate keys: the value kept for a key is that of its LAST pair. */
  lemma {:induction false} FromPairsLastWins<V>(ps: seq<(string, V)>)
    ensures forall i :: 0 <= i < |ps| && LastFor(ps, i) ==> FromPairs(ps).Get(ps[i].0) == Some(ps[i].1)
  {
    if ps != [] {
      var front := ps[..|ps| - 1];
      var last := ps[|ps| - 1];
      FromPairsLastWins(front);
      forall i | 0 <= i < |ps| - 1 && LastFor(ps, i)
        ensures FromPairs(ps).Get(ps[i].0) == Some(ps[i].1)
      {
        assert ps[i] == front[i];
        assert LastFor(front, i);
        assert ps[i].0 != last.0;
      }
    }
  }

  /** Every entry of `FromPairs(ps)` is one of the pairs. */
  lemma {:induction false} FromPairsEntries<V>(ps: seq<(string, V)>)
    ensures forall k :: k in FromPairs(ps).values ==>
      exists i :: 0 <= i < |ps| && ps[i] == (k, FromPairs(ps).values[k])
  {
    if ps != [] {
      var front := ps[..|ps| - 1];
      var last := ps[|ps| - 1];
      FromPairsEntries(front);
      forall k | k in FromPairs(ps).values
        ensures exists i :: 0 <= i < |ps| && ps[i] == (k, FromPairs(ps).values[k])
      {
        if k == last.0 {
          assert ps[|ps| - 1] == (k, FromPairs(ps).values[k]);
        } else {
          assert FromPairs(ps).Get(k) == FromPairs(front).Get(k);
          var i :| 0 <= i < |front| && front[i] == (k, FromPairs(front).values[k]);
          assert ps[i] == front[i];
        }
      }
    }
  }

  /** A sequence without repetitions is as long as the set of its elements. */
  lemma {:induction false} DistinctCard(ks: seq<string>)
    requires Distinct(ks)
    ensures |set k | k in ks| == |ks|
  {
    if ks != [] {
      var front := ks[..|ks| - 1];
      var last := ks[|ks| - 1];
      assert Distinct(front);
      DistinctCard(front);
      assert last !in front;
      assert (set k | k in ks) == (set k | k in front) + {last};
    }
  }

  /** The dictionary has exactly one entry per distinct key among the pairs. */
  lemma FromPairsSize<V>(ps: seq<(string, V)>)
    ensures FromPairs(ps).Size() == |set k | k in KeysOf(ps)|
  {
    var d := FromPairs(ps);
    DistinctCard(d.order);
    assert (set k | k in d.order) == (set k | k in KeysOf(ps));
  }
}
