/** The full outer join of per-source visit tables on
    (`id_paciente`, `fecha_visita`), as `DataFrame.merge(how='outer')` does it:
    the result is ordered by key (missing key parts last), a key missing on
    both sides matches itself, a key found on only one side keeps that
    side's rows unchanged, and a key found on both sides gives the
    left-major cartesian product of its rows. */
module Merge {
  import opened Records

  predicate StrictlySorted(ks: seq<Key>)
  {
    forall i, j :: 0 <= i < j < |ks| ==> KeyBefore(ks[i], ks[j])
  }

  /** Inserts `k` into a strictly sorted key list, unless already there. */
  function InsertKey(k: Key, ks: seq<Key>): (r: seq<Key>)
    requires StrictlySorted(ks)
    ensures StrictlySorted(r)
    ensures forall x :: x in r <==> x == k || x in ks
  {
    if ks == [] then [k]
    else if k == ks[0] then ks
    else if KeyBefore(k, ks[0]) then
      assert forall x :: x in ks ==> KeyBefore(k, x) by {
        forall x | x in ks ensures KeyBefore(k, x) {
          if x != ks[0] { KeyBeforeTransitive(k, ks[0], x); }
        }
      }
      [k] + ks
    else
      KeyTrichotomy(k, ks[0]);
      var rest := InsertKey(k, ks[1..]);
      assert forall x :: x in rest ==> KeyBefore(ks[0], x);
      [ks[0]] + rest
  }

  /** The distinct keys of `ks` in increasing order. */
  function SortedKeys(ks: seq<Key>): (r: seq<Key>)
    ensures StrictlySorted(r)
    ensures forall x :: x in r <==> x in ks
  {
    if ks == [] then [] else InsertKey(ks[0], SortedKeys(ks[1..]))
  }

  function KeysOf(t: Table): (r: seq<Key>)
    ensures forall k :: k in r <==> HasKey(t, k)
  {
    var r := seq(|t|, i requires 0 <= i < |t| => KeyOf(t[i]));
    assert forall k :: k in r ==> HasKey(t, k) by {
      forall k | k in r ensures HasKey(t, k) {
        var i :| 0 <= i < |r| && r[i] == k;
        assert KeyOf(t[i]) == k;
      }
    }
    assert forall k :: HasKey(t, k) ==> k in r by {
      forall k | HasKey(t, k) ensures k in r {
        var i :| 0 <= i < |t| && KeyOf(t[i]) == k;
        assert r[i] == k;
      }
    }
    r
  }

  /** One joined row: the key and the columns of both sides. */
  function Fuse(l: Row, q: Row): Row
  {
    Row(l.patient, l.date, l.cells + q.cells)
  }

  function FuseEach(l: Row, rs: Table): (r: Table)
    ensures |r| == |rs|
    ensures forall j :: 0 <= j < |rs| ==> r[j] == Fuse(l, rs[j])
  {
    seq(|rs|, j requires 0 <= j < |rs| => Fuse(l, rs[j]))
  }

  /** Cartesian product, each left row with every right row in turn. */
  function Product(ls: Table, rs: Table): (r: Table)
    ensures |r| == |ls| * |rs|
  {
    if ls == [] then []
    else
      var rest := Product(ls[1..], rs);
      assert |ls| * |rs| == |rs| + (|ls| - 1) * |rs| by {
        assert |ls| * |rs| == (1 + (|ls| - 1)) * |rs|;
      }
      FuseEach(ls[0], rs) + rest
  }

  /** Every row of the product fuses a left row with a right row, and
      every such pair occurs. */
  lemma {:induction false} ProductMembers(ls: Table, rs: Table)
    ensures forall o :: o in Product(ls, rs) ==> exists a, b :: a in ls && b in rs && o == Fuse(a, b)
    ensures forall a, b :: a in ls && b in rs ==> Fuse(a, b) in Product(ls, rs)
  {
    if ls != [] {
      ProductMembers(ls[1..], rs);
      var head := FuseEach(ls[0], rs);
      var rest := Product(ls[1..], rs);
      assert Product(ls, rs) == head + rest;
      forall o | o in Product(ls, rs)
        ensures exists a, b :: a in ls && b in rs && o == Fuse(a, b)
      {
        if o in head {
          var j :| 0 <= j < |head| && head[j] == o;
          assert o == Fuse(ls[0], rs[j]) && rs[j] in rs && ls[0] in ls;
        } else {
          assert o in rest;
          var a, b :| a in ls[1..] && b in rs && o == Fuse(a, b);
          assert a in ls;
        }
      }
      forall a, b | a in ls && b in rs
        ensures Fuse(a, b) in Product(ls, rs)
      {
        if a == ls[0] {
          var j :| 0 <= j < |rs| && rs[j] == b;
          assert head[j] == Fuse(a, b);
        } else {
          var i :| 0 <= i < |ls| && ls[i] == a;
          assert ls[1..][i - 1] == a;
          assert Fuse(a, b) in rest;
        }
      }
    }
  }

  /** The product is left-major: left row `i` meets right row `j` at
      position `i * |rs| + j`. */
  lemma {:induction false} ProductOrder(ls: Table, rs: Table, i: int, j: int)
    requires 0 <= i < |ls| && 0 <= j < |rs|
    ensures i * |rs| + j < |Product(ls, rs)|
    ensures Product(ls, rs)[i * |rs| + j] == Fuse(ls[i], rs[j])
  {
    var head := FuseEach(ls[0], rs);
    assert Product(ls, rs) == head + Product(ls[1..], rs);
    if i > 0 {
      ProductOrder(ls[1..], rs, i - 1, j);
      assert i * |rs| + j == |rs| + ((i - 1) * |rs| + j);
      assert ls[1..][i - 1] == ls[i];
    }
  }

  /** The joined rows for key `k`. */
  function Block(left: Table, right: Table, k: Key): (r: Table)
    ensures forall o :: o in r ==> KeyOf(o) == k
    ensures !HasKey(right, k) ==> r == RowsWith(left, k)
    ensures !HasKey(left, k) ==> r == RowsWith(right, k)
    ensures r == [] <==> !HasKey(left, k) && !HasKey(right, k)
  {
    var ls := RowsWith(left, k);
    var rs := RowsWith(right, k);
    if ls == [] then rs
    else if rs == [] then ls
    else
      var p := Product(ls, rs);
      ProductMembers(ls, rs);
      assert forall o :: o in p ==> KeyOf(o) == k;
      p
  }

  /** A key found on both sides yields one row per pair of its left and
      right rows, each holding both rows' columns. */
  lemma BlockBothSides(left: Table, right: Table, k: Key)
    requires HasKey(left, k) && HasKey(right, k)
    ensures |Block(left, right, k)| == |RowsWith(left, k)| * |RowsWith(right, k)|
    ensures forall o :: o in Block(left, right, k) ==>
              exists a, b :: a in RowsWith(left, k) && b in RowsWith(right, k) && o == Fuse(a, b)
    ensures forall a, b :: a in RowsWith(left, k) && b in RowsWith(right, k) ==> Fuse(a, b) in Block(left, right, k)
  {
    BlockIsProduct(left, right, k);
    ProductMembers(RowsWith(left, k), RowsWith(right, k));
  }

  /** On a key found on both sides, left row `i` of the key meets right
      row `j` at position `i * n + j` of its block, `n` being the number
      of right rows: the block is ordered left-major. */
  lemma BlockOrder(left: Table, right: Table, k: Key, i: int, j: int)
    requires HasKey(left, k) && HasKey(right, k)
    requires 0 <= i < |RowsWith(left, k)| && 0 <= j < |RowsWith(right, k)|
    ensures i * |RowsWith(right, k)| + j < |Block(left, right, k)|
    ensures Block(left, right, k)[i * |RowsWith(right, k)| + j] == Fuse(RowsWith(left, k)[i], RowsWith(right, k)[j])
  {
    BlockIsProduct(left, right, k);
    ProductOrder(RowsWith(left, k), RowsWith(right, k), i, j);
  }

  lemma BlockIsProduct(left: Table, right: Table, k: Key)
    requires HasKey(left, k) && HasKey(right, k)
    ensures Block(left, right, k) == Product(RowsWith(left, k), RowsWith(right, k))
  {
  }

  function JoinKeys(left: Table, right: Table, keys: seq<Key>): (r: Table)
    requires StrictlySorted(keys)
    ensures SortedByKey(r)
    ensures forall o :: o in r ==> KeyOf(o) in keys
  {
    if keys == [] then []
    else
      var head := Block(left, right, keys[0]);
      var rest := JoinKeys(left, right, keys[1..]);
      assert SortedByKey(head);
      assert forall x, y :: x in head && y in rest ==> KeyAtMost(KeyOf(x), KeyOf(y)) by {
        forall x, y | x in head && y in rest
          ensures KeyAtMost(KeyOf(x), KeyOf(y))
        {
          var j :| 0 <= j < |keys[1..]| && keys[1..][j] == KeyOf(y);
          assert keys[j + 1] == KeyOf(y);
        }
      }
      SortedConcat(head, rest);
      head + rest
  }

  lemma {:induction false} JoinKeysPerKey(left: Table, right: Table, keys: seq<Key>, k: Key)
    requires StrictlySorted(keys)
    ensures RowsWith(JoinKeys(left, right, keys), k) == if k in keys then Block(left, right, k) else []
  {
    if keys != [] {
      var head := Block(left, right, keys[0]);
      JoinKeysPerKey(left, right, keys[1..], k);
      RowsWithAppend(head, JoinKeys(left, right, keys[1..]), k);
      RowsWithUniform(head, keys[0], k);
      if k == keys[0] {
        forall j | 0 <= j < |keys[1..]|
          ensures keys[1..][j] != k
        {
          assert KeyBefore(keys[0], keys[j + 1]);
          KeyBeforeIrreflexive(k);
        }
        assert k !in keys[1..];
      }
    }
  }

  lemma OuterJoinKey(left: Table, right: Table, keys: seq<Key>, k: Key)
    requires StrictlySorted(keys)
    requires forall x :: x in keys <==> x in KeysOf(left) + KeysOf(right)
    ensures RowsWith(JoinKeys(left, right, keys), k) == Block(left, right, k)
  {
    JoinKeysPerKey(left, right, keys, k);
    if k !in keys {
      assert k !in KeysOf(left) && k !in KeysOf(right);
      assert !HasKey(left, k) && !HasKey(right, k);
    }
  }

  /** `left.merge(right, how='outer', on=['id_paciente', 'fecha_visita'])`. */
  function OuterJoin(left: Table, right: Table): (r: Table)
    ensures SortedByKey(r)
    ensures forall k :: RowsWith(r, k) == Block(left, right, k)
    ensures forall k :: HasKey(r, k) <==> HasKey(left, k) || HasKey(right, k)
  {
    var keys := SortedKeys(KeysOf(left) + KeysOf(right));
    var r := JoinKeys(left, right, keys);
    assert forall k :: RowsWith(r, k) == Block(left, right, k) by {
      forall k ensures RowsWith(r, k) == Block(left, right, k) {
        OuterJoinKey(left, right, keys, k);
      }
    }
    assert forall k :: HasKey(r, k) <==> RowsWith(r, k) != [];
    r
  }

  /** The three-source follow-up merge: als, then nutrition, then
      respiratory data. */
  function Merge3(als: Table, nutr: Table, resp: Table): (r: Table)
    ensures SortedByKey(r)
    ensures forall k :: HasKey(r, k) <==> HasKey(als, k) || HasKey(nutr, k) || HasKey(resp, k)
  {
    OuterJoin(OuterJoin(als, nutr), resp)
  }

  /** A source without the key adds no rows and no columns to it: the
      key's merged rows are the join of the other two sources alone. */
  lemma MissingSourceKey(als: Table, nutr: Table, resp: Table, k: Key)
    ensures !HasKey(resp, k) ==> RowsWith(Merge3(als, nutr, resp), k) == Block(als, nutr, k)
    ensures !HasKey(nutr, k) ==> RowsWith(Merge3(als, nutr, resp), k) == Block(als, resp, k)
    ensures !HasKey(als, k) ==> RowsWith(Merge3(als, nutr, resp), k) == Block(nutr, resp, k)
  {
    var m := OuterJoin(als, nutr);
    assert RowsWith(m, k) == Block(als, nutr, k);
    assert RowsWith(Merge3(als, nutr, resp), k) == Block(m, resp, k);
  }

  /** A key present in only one source comes through with exactly that
      source's rows, so the other sources' columns stay missing. */
  lemma SingleSourceKey(als: Table, nutr: Table, resp: Table, k: Key)
    ensures !HasKey(nutr, k) && !HasKey(resp, k) ==> RowsWith(Merge3(als, nutr, resp), k) == RowsWith(als, k)
    ensures !HasKey(als, k) && !HasKey(resp, k) ==> RowsWith(Merge3(als, nutr, resp), k) == RowsWith(nutr, k)
    ensures !HasKey(als, k) && !HasKey(nutr, k) ==> RowsWith(Merge3(als, nutr, resp), k) == RowsWith(resp, k)
  {
    MissingSourceKey(als, nutr, resp, k);
  }

  /** Three single-visit tables for the same key fuse into exactly one row
      holding the union of their columns. */
  lemma BlockOfSingletons(left: Table, right: Table, k: Key, a: Row, b: Row)
    requires RowsWith(left, k) == [a] && RowsWith(right, k) == [b]
    ensures Block(left, right, k) == [Fuse(a, b)]
  {
    assert Product([a], [b]) == FuseEach(a, [b]) + Product([], [b]);
    assert FuseEach(a, [b]) == [Fuse(a, b)];
  }

  lemma FuseSingleVisits(als: Table, nutr: Table, resp: Table, k: Key, a: Row, n: Row, s: Row)
    requires RowsWith(als, k) == [a] && RowsWith(nutr, k) == [n] && RowsWith(resp, k) == [s]
    ensures RowsWith(Merge3(als, nutr, resp), k) == [Row(k.patient, k.date, a.cells + n.cells + s.cells)]
  {
    var m := OuterJoin(als, nutr);
    BlockOfSingletons(als, nutr, k, a, n);
    assert RowsWith(m, k) == [Fuse(a, n)];
    BlockOfSingletons(m, resp, k, Fuse(a, n), s);
    assert a in RowsWith(als, k);
  }
}
