/** Python dicts with string keys (all the modelled dicts are decoded JSON
    objects or are keyed by names) as association lists in insertion order: the order in which
    `items()` and `values()` iterate, and the meaning of "first value". */
module Dicts {
  import opened Common

  type Dict<V> = seq<(string, V)>

  function Keys<V>(d: Dict<V>): (ks: seq<string>)
    ensures |ks| == |d| && forall i :: 0 <= i < |d| ==> ks[i] == d[i].0
  {
    seq(|d|, i requires 0 <= i < |d| => d[i].0)
  }

  /** A dict never holds a key twice. */
  ghost predicate DistinctKeys<V>(d: Dict<V>) {
    forall i, j :: 0 <= i < j < |d| ==> d[i].0 != d[j].0
  }

  /** `set(d.keys())`: as many members as the dict has entries. */
  function KeySet<V>(d: Dict<V>): (ks: set<string>)
    ensures forall k :: k in ks <==> k in Keys(d)
    ensures DistinctKeys(d) ==> |ks| == |d|
  {
    if d == [] then {}
    else
      assert forall k :: k in Keys(d) <==> k == d[0].0 || k in Keys(d[1..]);
      {d[0].0} + KeySet(d[1..])
  }

  /** `d[k]`: the value under `k`, or None where Python raises KeyError. */
  function Lookup<V>(d: Dict<V>, k: string): (r: Option<V>)
    ensures r.Some? <==> k in Keys(d)
    ensures r.Some? ==> (k, r.value) in d
    ensures DistinctKeys(d) ==> forall i :: 0 <= i < |d| && d[i].0 == k ==> r == Some(d[i].1)
  {
    if d == [] then None
    else if d[0].0 == k then Some(d[0].1)
    else Lookup(d[1..], k)
  }

  /** `d[k] = v`: an existing key keeps its position and takes the new value,
      a new key goes to the end. */
  function Assign<V>(d: Dict<V>, k: string, v: V): Dict<V> {
    if d == [] then [(k, v)]
    else if d[0].0 == k then [(k, v)] + d[1..]
    else [d[0]] + Assign(d[1..], k, v)
  }

  /** The keys of `d` after `d[k] = v`: existing keys stay where they were,
      and a new key is appended. */
  lemma {:induction false} AssignKeys<V>(d: Dict<V>, k: string, v: V)
    ensures var r := Assign(d, k, v);
            && |r| == (if k in Keys(d) then |d| else |d| + 1)
            && (forall i :: 0 <= i < |d| ==> r[i].0 == d[i].0)
            && (k !in Keys(d) ==> r[|d|] == (k, v))
  {
    var r := Assign(d, k, v);
    if d != [] && d[0].0 == k {
      forall i | 0 <= i < |d|
        ensures r[i].0 == d[i].0
      {
        if i > 0 {
          assert r[i] == d[1..][i - 1];
        }
      }
      assert Keys(d)[0] == k;
    } else if d != [] {
      var tail := d[1..];
      AssignKeys(tail, k, v);
      var r' := Assign(tail, k, v);
      assert r == [d[0]] + r';
      forall i | 0 <= i < |d|
        ensures r[i].0 == d[i].0
      {
        if i > 0 {
          assert r[i] == r'[i - 1] && d[i] == tail[i - 1];
        }
      }
      assert k in Keys(d) <==> k in Keys(tail) by {
        assert forall j :: 1 <= j < |d| ==> Keys(d)[j] == Keys(tail)[j - 1];
      }
    }
  }

  /** `d[k] = v` never doubles a key. */
  lemma AssignKeepsDistinct<V>(d: Dict<V>, k: string, v: V)
    requires DistinctKeys(d)
    ensures DistinctKeys(Assign(d, k, v))
  {
    AssignKeys(d, k, v);
    var r := Assign(d, k, v);
    forall a, b | 0 <= a < b < |r|
      ensures r[a].0 != r[b].0
    {
      if b == |d| {
        assert r[a].0 == Keys(d)[a];
      }
    }
  }

  /** `d[k]` with the KeyError it raises. */
  function Get<V>(d: Dict<V>, k: string): (r: Result<V>)
    ensures r.Ok? <==> k in Keys(d)
    ensures r.Ok? ==> Lookup(d, k) == Some(r.value)
    ensures r.Err? ==> r.error == KeyError(k)
  {
    match Lookup(d, k)
    case Some(v) => Ok(v)
    case None => Err(KeyError(k))
  }

  /** After `d[k] = v`, `k` reads back as `v` and every other key reads as before. */
  lemma {:induction false} LookupAssign<V>(d: Dict<V>, k: string, v: V, k': string)
    ensures Lookup(Assign(d, k, v), k') == if k' == k then Some(v) else Lookup(d, k')
  {
    if d != [] && d[0].0 != k {
      LookupAssign(d[1..], k, v, k');
    }
  }

  /** `next(iter(d.values()))`: the value of the first key, or StopIteration. */
  function FirstValue<V>(d: Dict<V>): (r: Result<V>)
    ensures r.Err? <==> d == []
    ensures r.Err? ==> r.error == StopIteration
    ensures r.Ok? ==> Lookup(d, Keys(d)[0]) == Some(r.value)
  {
    if d == [] then Err(StopIteration) else Ok(d[0].1)
  }

  /** The dict that a run of assignments `d[k] = v` builds from `{}`. */
  function Build<V>(ops: seq<(string, V)>): (d: Dict<V>)
  {
    if ops == [] then [] else Assign(Build(ops[..|ops| - 1]), ops[|ops| - 1].0, ops[|ops| - 1].1)
  }

  /** Assigning keeps the first value unless the dict was empty or the
      assignment overwrites the first key. */
  lemma FirstValueOfAssign<V>(d: Dict<V>, k: string, v: V)
    ensures FirstValue(Assign(d, k, v)) ==
              if d == [] || d[0].0 == k then Ok(v) else FirstValue(d)
  {
  }

  /** The first key of a built dict is the first key ever inserted, and its
      value is the last one assigned to that key. */
  lemma {:induction false} FirstKeyIsFirstInserted<V>(ops: seq<(string, V)>)
    requires ops != []
    ensures Build(ops) != [] && Keys(Build(ops))[0] == ops[0].0
    ensures FirstValue(Build(ops)).Ok? && Lookup(Build(ops), ops[0].0) == Some(FirstValue(Build(ops)).value)
  {
    if |ops| > 1 {
      var init := ops[..|ops| - 1];
      FirstKeyIsFirstInserted(init);
      assert init[0] == ops[0];
    }
  }

  lemma BuildLast<V>(ops: seq<(string, V)>)
    requires ops != []
    ensures Build(ops) == Assign(Build(ops[..|ops| - 1]), ops[|ops| - 1].0, ops[|ops| - 1].1)
  {
  }

  /** A key reads as the value of the last assignment to it. */
  lemma {:induction false} BuildLastWins<V>(ops: seq<(string, V)>, j: int)
    requires 0 <= j < |ops|
    requires forall j' :: j < j' < |ops| ==> ops[j'].0 != ops[j].0
    ensures Lookup(Build(ops), ops[j].0) == Some(ops[j].1)
  {
    var n := |ops| - 1;
    var init := ops[..n];
    BuildLast(ops);
    LookupAssign(Build(init), ops[n].0, ops[n].1, ops[j].0);
    if j < n {
      assert init[j] == ops[j];
      assert forall j' :: j < j' < n ==> init[j'] == ops[j'];
      BuildLastWins(init, j);
    }
  }

  /** The first value of a built dict is the value last assigned to the
      first key ever inserted. */
  lemma FirstValueIsLastAssigned<V>(ops: seq<(string, V)>, j: int)
    requires 0 <= j < |ops| && ops[j].0 == ops[0].0
    requires forall j' :: j < j' < |ops| ==> ops[j'].0 != ops[0].0
    ensures FirstValue(Build(ops)) == Ok(ops[j].1)
  {
    FirstKeyIsFirstInserted(ops);
    BuildLastWins(ops, j);
  }

  /** Every built dict is a valid dict. */
  lemma {:induction false} BuildDistinct<V>(ops: seq<(string, V)>)
    ensures DistinctKeys(Build(ops))
  {
    if ops != [] {
      BuildDistinct(ops[..|ops| - 1]);
      AssignKeepsDistinct(Build(ops[..|ops| - 1]), ops[|ops| - 1].0, ops[|ops| - 1].1);
    }
  }
}
