/** A Python `dict[str, str]`: entries with distinct keys, in insertion order. */
module OrderedDict {
  import opened Utf8

  datatype Entry = Entry(key: str, value: str)
  type dict = seq<Entry>

  ghost predicate IsDict(d: dict) {
    forall i, j :: 0 <= i < j < |d| ==> d[i].key != d[j].key
  }

  ghost predicate HasKey(d: dict, k: str) {
    exists i :: 0 <= i < |d| && d[i].key == k
  }

  /** `d[k] = v`: an existing key keeps its place, a new one goes to the end. */
  function Set(d: dict, k: str, v: str): (r: dict)
  {
    if d == [] then [Entry(k, v)]
    else if d[0].key == k then [Entry(k, v)] + d[1..]
    else [d[0]] + Set(d[1..], k, v)
  }

  /** `d.update(e)` */
  function Update(d: dict, e: dict): dict
    decreases |e|
  {
    if e == [] then d else Update(Set(d, e[0].key, e[0].value), e[1..])
  }

  /** The value under k, or the empty string. */
  function Get(d: dict, k: str): str {
    if d == [] then [] else if d[0].key == k then d[0].value else Get(d[1..], k)
  }

  lemma HasKeyCons(e: dict, k: str)
    requires e != []
    ensures HasKey(e, k) <==> e[0].key == k || HasKey(e[1..], k)
  {
    if HasKey(e[1..], k) {
      var i :| 0 <= i < |e[1..]| && e[1..][i].key == k;
      assert e[i + 1].key == k;
    }
    if HasKey(e, k) && e[0].key != k {
      var i :| 0 <= i < |e| && e[i].key == k;
      assert e[1..][i - 1].key == k;
    }
  }

  lemma SetSteps(d: dict, k: str, v: str)
    requires d != []
    ensures Set(d, k, v) == if d[0].key == k then d[0 := Entry(k, v)] else [d[0]] + Set(d[1..], k, v)
  {
  }

  /** What an assignment does to the entries: one is replaced in place, or one is appended. */
  lemma {:induction false} SetShape(d: dict, k: str, v: str)
    ensures HasKey(d, k) ==> exists i :: 0 <= i < |d| && d[i].key == k && Set(d, k, v) == d[i := Entry(k, v)]
    ensures !HasKey(d, k) ==> Set(d, k, v) == d + [Entry(k, v)]
  {
    if d == [] {
    } else {
      hide Set, HasKey;
      var rest := d[1..];
      SetSteps(d, k, v);
      HasKeyCons(d, k);
      SetShape(rest, k, v);
      if d[0].key != k {
        assert d == [d[0]] + rest;
        if HasKey(rest, k) {
          var i :| 0 <= i < |rest| && rest[i].key == k && Set(rest, k, v) == rest[i := Entry(k, v)];
          assert d[i + 1].key == k && [d[0]] + rest[i := Entry(k, v)] == d[i + 1 := Entry(k, v)];
        } else {
          assert [d[0]] + (rest + [Entry(k, v)]) == d + [Entry(k, v)];
        }
      }
    }
  }

  lemma SetKeepsDict(d: dict, k: str, v: str)
    requires IsDict(d)
    ensures IsDict(Set(d, k, v))
  {
    SetShape(d, k, v);
    if !HasKey(d, k) {
      assert forall i :: 0 <= i < |d| ==> d[i].key != k;
    }
  }

  lemma {:induction false} UpdateKeepsDict(d: dict, e: dict)
    requires IsDict(d)
    ensures IsDict(Update(d, e))
    decreases |e|
  {
    if e == [] {
    } else {
      SetKeepsDict(d, e[0].key, e[0].value);
      UpdateKeepsDict(Set(d, e[0].key, e[0].value), e[1..]);
    }
  }

  /** Updating with the entries of a dict that share no key with d appends them. */
  lemma {:induction false} UpdateFresh(d: dict, e: dict)
    requires IsDict(d + e)
    ensures Update(d, e) == d + e
    decreases |e|
  {
    if e == [] {
      assert d + e == d;
    } else {
      var x := e[0];
      SetShape(d, x.key, x.value);
      assert !HasKey(d, x.key) by {
        forall i | 0 <= i < |d| ensures d[i].key != x.key {
          assert (d + e)[i] == d[i] && (d + e)[|d|] == x;
        }
      }
      assert Set(d, x.key, x.value) + e[1..] == d + e by { assert x == Entry(x.key, x.value); }
      UpdateFresh(Set(d, x.key, x.value), e[1..]);
    }
  }

  /** Rebuilding a dict from its own entries gives it back. */
  lemma UpdateEmpty(e: dict)
    requires IsDict(e)
    ensures Update([], e) == e
  {
    assert [] + e == e;
    UpdateFresh([], e);
  }

  /** A later assignment to a key that is already present may be made first: it fixes the place, and
      assignments to other keys do not see it. */
  lemma {:induction false} SetTwice(d: dict, k: str, v: str, w: str)
    ensures Set(Set(d, k, v), k, w) == Set(d, k, w)
  {
    if d != [] && d[0].key != k {
      SetTwice(d[1..], k, v, w);
      assert Set(d, k, v)[1..] == Set(d[1..], k, v);
    } else {
      assert Set(d, k, v)[1..] == Set(d, k, w)[1..];
    }
  }

  lemma {:induction false} SetHasKey(d: dict, k: str, v: str, l: str)
    requires HasKey(d, l) || k == l
    ensures HasKey(Set(d, k, v), l)
  {
    SetShape(d, k, v);
    if HasKey(d, l) {
      var i :| 0 <= i < |d| && d[i].key == l;
      assert Set(d, k, v)[i].key == l;
    } else if !HasKey(d, k) {
      assert Set(d, k, v)[|d|].key == l;
    }
  }

  lemma {:induction false} SetCommutes(d: dict, k: str, v: str, l: str, w: str)
    requires k != l && HasKey(d, k)
    ensures Set(Set(d, k, v), l, w) == Set(Set(d, l, w), k, v)
  {
    if d[0].key == k {
      assert Set(d, k, v) == [Entry(k, v)] + d[1..];
      assert ([Entry(k, v)] + d[1..])[1..] == d[1..];
      assert Set(d, l, w)[1..] == Set(d[1..], l, w);
    } else {
      var i :| 0 <= i < |d| && d[i].key == k;
      assert d[1..][i - 1].key == k;
      if d[0].key == l {
        assert Set(d, l, w)[1..] == d[1..] && Set(d, k, v)[1..] == Set(d[1..], k, v);
      } else {
        SetCommutes(d[1..], k, v, l, w);
        assert Set(d, l, w)[1..] == Set(d[1..], l, w) && Set(d, k, v)[1..] == Set(d[1..], k, v);
      }
    }
  }

  /** Assigning to a key that e already assigns to has the same effect before e as after it,
      as long as e itself ends up with that value. */
  lemma {:induction false} UpdatePresent(d: dict, e: dict, k: str, v: str)
    requires HasKey(d, k) && !HasKey(e, k)
    ensures Set(Update(d, e), k, v) == Update(Set(d, k, v), e)
    decreases |e|
  {
    if e == [] {
    } else {
      var x := e[0];
      assert x.key != k;
      assert !HasKey(e[1..], k) by {
        forall i | 0 <= i < |e[1..]| ensures e[1..][i].key != k { assert e[1..][i] == e[i + 1]; }
      }
      SetHasKey(d, x.key, x.value, k);
      SetCommutes(d, k, v, x.key, x.value);
      UpdatePresent(Set(d, x.key, x.value), e[1..], k, v);
    }
  }

  /** One assignment after an update equals an update by the assigned dict. */
  lemma {:induction false} UpdateSet(d: dict, e: dict, k: str, v: str)
    requires IsDict(e)
    ensures Update(d, Set(e, k, v)) == Set(Update(d, e), k, v)
    decreases |e|
  {
    if e == [] {
    } else {
      var x := e[0];
      var d' := Set(d, x.key, x.value);
      if x.key == k {
        SetHasKey(d, k, x.value, k);
        assert !HasKey(e[1..], k) by {
          forall i | 0 <= i < |e[1..]| ensures e[1..][i].key != k { assert e[1..][i] == e[i + 1]; }
        }
        UpdatePresent(d', e[1..], k, v);
        SetTwice(d, k, x.value, v);
        assert Set(e, k, v)[1..] == e[1..];
      } else {
        UpdateSet(d', e[1..], k, v);
        assert Set(e, k, v)[1..] == Set(e[1..], k, v);
      }
    }
  }

  /** Key-by-key update is associative, order of entries included. */
  lemma {:induction false} UpdateAssociative(d: dict, e: dict, f: dict)
    requires IsDict(e)
    ensures Update(d, Update(e, f)) == Update(Update(d, e), f)
    decreases |f|
  {
    if f == [] {
    } else {
      var x := f[0];
      SetKeepsDict(e, x.key, x.value);
      UpdateAssociative(d, Set(e, x.key, x.value), f[1..]);
      UpdateSet(d, e, x.key, x.value);
    }
  }

  lemma {:induction false} GetSet(d: dict, k: str, v: str, l: str)
    ensures Get(Set(d, k, v), l) == if k == l then v else Get(d, l)
  {
    if d != [] && d[0].key != k {
      GetSet(d[1..], k, v, l);
      assert Set(d, k, v)[1..] == Set(d[1..], k, v);
    } else if d != [] {
      assert Set(d, k, v)[1..] == d[1..];
    } else {
      assert [Entry(k, v)][1..] == [];
    }
  }

  /** Lookup after an update: the updating dict wins where it has the key. */
  lemma {:induction false} GetUpdate(d: dict, e: dict, k: str)
    requires IsDict(e)
    ensures Get(Update(d, e), k) == if HasKey(e, k) then Get(e, k) else Get(d, k)
    decreases |e|
  {
    if e == [] {
    } else {
      var x := e[0];
      GetUpdate(Set(d, x.key, x.value), e[1..], k);
      GetSet(d, x.key, x.value, k);
      HasKeyCons(e, k);
      if x.key == k {
        forall i | 0 <= i < |e[1..]| ensures e[1..][i].key != k { assert e[1..][i] == e[i + 1]; }
      }
    }
  }
}
