/**
  Python's `dict` as the parser uses it: an insertion-ordered association list.
  `Assign` is `d[k] = v` (an existing key keeps its position, a new key goes
  last) and `Update` is `d.update(u)` (assign each item of `u` in turn).
 */
module OrderedDict {
  import opened Wrappers

  /** One entry: a channel id and a channel name. */
  datatype Item = Item(key: nat, value: string)

  type Dict = seq<Item>

  /** The keys of `d` in iteration order. */
  function Keys(d: Dict): (ks: seq<nat>)
    ensures |ks| == |d| && forall i | 0 <= i < |d| :: ks[i] == d[i].key
  {
    seq(|d|, i requires 0 <= i < |d| => d[i].key)
  }

  /** No key occurs twice: every Python dict has this shape. */
  predicate Distinct(d: Dict)
  {
    forall i, j | 0 <= i < j < |d| :: d[i].key != d[j].key
  }

  /** The value `d.items()` pairs with the key `k`, if `k` is present. */
  function Get(d: Dict, k: nat): (r: Option<string>)
    ensures r.None? <==> k !in Keys(d)
    ensures r.Some? ==> exists i | 0 <= i < |d| :: d[i] == Item(k, r.value)
    ensures Distinct(d) ==> forall i | 0 <= i < |d| && d[i].key == k :: r == Some(d[i].value)
  {
    if d == [] then None
    else if d[0].key == k then Some(d[0].value)
    else
      var r := Get(d[1..], k);
      assert Keys(d) == [d[0].key] + Keys(d[1..]);
      r
  }

  /** `d[k] = v`: an existing key keeps its position, a new key goes last. */
  function Assign(d: Dict, k: nat, v: string): (r: Dict)
    ensures k in Keys(d) ==> Keys(r) == Keys(d)
    ensures k !in Keys(d) ==> r == d + [Item(k, v)]
  {
    if d == [] then [Item(k, v)]
    else if d[0].key == k then
      var r := [Item(k, v)] + d[1..];
      assert Keys(r) == Keys(d);
      r
    else
      var tail := Assign(d[1..], k, v);
      assert d == [d[0]] + d[1..];
      KeysCons(d[0], d[1..]);
      KeysCons(d[0], tail);
      [d[0]] + tail
  }

  /** Assigning into a dict keeps its keys distinct. */
  lemma {:induction false} AssignDistinct(d: Dict, k: nat, v: string)
    ensures Distinct(d) ==> Distinct(Assign(d, k, v))
  {
    if Distinct(d) && d != [] && d[0].key != k {
      var tail := Assign(d[1..], k, v);
      DistinctParts(d);
      AssignDistinct(d[1..], k, v);
      assert Assign(d, k, v) == [d[0]] + tail;
      DistinctCons(d[0], tail);
    } else if Distinct(d) && d != [] {
      KeysCons(Item(k, v), d[1..]);
      DistinctParts(d);
      DistinctCons(Item(k, v), d[1..]);
    }
  }

  lemma DistinctParts(d: Dict)
    requires Distinct(d) && d != []
    ensures Distinct(d[1..]) && d[0].key !in Keys(d[1..])
  {
    forall j | 0 <= j < |d| - 1
      ensures Keys(d[1..])[j] != d[0].key
    {
      assert d[1..][j] == d[j + 1];
    }
  }

  lemma KeysSnoc(d: Dict, x: Item)
    ensures Keys(d + [x]) == Keys(d) + [x.key]
  {
    assert forall i | 0 <= i < |d| :: (d + [x])[i] == d[i];
  }

  lemma KeysCons(x: Item, t: Dict)
    ensures Keys([x] + t) == [x.key] + Keys(t)
  {
    assert forall i | 0 < i < |t| + 1 :: ([x] + t)[i] == t[i - 1];
  }

  lemma DistinctCons(x: Item, t: Dict)
    requires Distinct(t) && x.key !in Keys(t)
    ensures Distinct([x] + t)
  {
    var r := [x] + t;
    forall i, j | 0 <= i < j < |r|
      ensures r[i].key != r[j].key
    {
      assert r[j] == t[j - 1];
      assert Keys(t)[j - 1] == t[j - 1].key;
      if i > 0 {
        assert r[i] == t[i - 1];
      }
    }
  }

  /** After `d[k] = v`, looking up `k` gives `v` and every other key is unaffected. */
  lemma {:induction false} AssignGet(d: Dict, k: nat, v: string, k': nat)
    ensures Get(Assign(d, k, v), k') == if k' == k then Some(v) else Get(d, k')
  {
    if d != [] && d[0].key != k {
      AssignGet(d[1..], k, v, k');
      assert Assign(d, k, v)[1..] == Assign(d[1..], k, v);
    }
  }

  /** `d.update(u)`: the items of `u` are assigned into `d` from first to last. */
  function Update(d: Dict, u: Dict): (r: Dict)
    ensures Distinct(d) ==> Distinct(r)
    ensures |d| <= |r| && Keys(r)[..|d|] == Keys(d)
    decreases |u|
  {
    if u == [] then d
    else
      AssignDistinct(d, u[0].key, u[0].value);
      var r := Update(Assign(d, u[0].key, u[0].value), u[1..]);
      assert Keys(Assign(d, u[0].key, u[0].value))[..|d|] == Keys(d);
      r
  }

  /** The value of the last item of `u` with key `k`: the one `d.update(u)` leaves behind. */
  function LastValue(u: Dict, k: nat): Option<string>
  {
    if u == [] then None
    else
      var later := LastValue(u[1..], k);
      if later.Some? then later
      else if u[0].key == k then Some(u[0].value)
      else None
  }

  /** After `d.update(u)`, a key holds its last value in `u`, or else its value in `d`. */
  lemma {:induction false} UpdateGet(d: Dict, u: Dict, k: nat)
    ensures Get(Update(d, u), k) == if LastValue(u, k).Some? then LastValue(u, k) else Get(d, k)
    decreases |u|
  {
    if u != [] {
      AssignGet(d, u[0].key, u[0].value, k);
      UpdateGet(Assign(d, u[0].key, u[0].value), u[1..], k);
    }
  }

  /** The keys of `d.update(u)` are those of `d` and those of `u`, and nothing else. */
  lemma {:induction false} UpdateKeys(d: Dict, u: Dict, k: nat)
    ensures k in Keys(Update(d, u)) <==> k in Keys(d) || k in Keys(u)
  {
    UpdateGet(d, u, k);
    LastValueKeys(u, k);
  }

  lemma {:induction false} LastValueKeys(u: Dict, k: nat)
    ensures LastValue(u, k).Some? <==> k in Keys(u)
  {
    if u != [] {
      LastValueKeys(u[1..], k);
      assert Keys(u) == [u[0].key] + Keys(u[1..]);
    }
  }

  /** In a dict without repeated keys, the last value of a key is its only value. */
  lemma {:induction false} LastValueOfDistinct(u: Dict, k: nat)
    requires Distinct(u)
    ensures LastValue(u, k) == Get(u, k)
  {
    if u != [] {
      assert Distinct(u[1..]);
      LastValueOfDistinct(u[1..], k);
      if u[0].key == k {
        assert Keys(u) == [u[0].key] + Keys(u[1..]);
        assert k !in Keys(u[1..]);
        LastValueKeys(u[1..], k);
      }
    }
  }

  /** Updating an empty dict with a dict gives that dict back, order included. */
  lemma {:induction false} UpdateEmpty(u: Dict)
    requires Distinct(u)
    ensures Update([], u) == u
  {
    UpdateOnto([], u);
  }

  lemma AppendFirst(d: Dict, u: Dict)
    requires u != []
    ensures (d + [u[0]]) + u[1..] == d + u
  {
    assert [u[0]] + u[1..] == u;
  }

  /** Updating `d` with items whose keys are all new appends them in order. */
  lemma {:induction false} UpdateOnto(d: Dict, u: Dict)
    requires Distinct(u)
    requires forall i | 0 <= i < |u| :: u[i].key !in Keys(d)
    ensures Update(d, u) == d + u
    decreases |u|
  {
    if u != [] {
      var d' := Assign(d, u[0].key, u[0].value);
      assert d' == d + [u[0]];
      KeysSnoc(d, u[0]);
      DistinctParts(u);
      forall i | 0 <= i < |u[1..]| ensures u[1..][i].key !in Keys(d') {
        assert u[1..][i] == u[i + 1];
        assert u[1..][i].key == Keys(u[1..])[i];
      }
      UpdateOnto(d', u[1..]);
      AppendFirst(d, u);
    }
  }

}
