/**
 * Python's `dict` as far as the ribbon code uses it: an insertion-ordered association list.
 * Assigning to a present key replaces its value where it stands; assigning to a new key
 * appends it; `d.update(e)` assigns the entries of `e` one after another.
 */
module OrderedDict {
  import opened Wrappers

  type Dict = seq<(string, string)>

  function Keys(d: seq<(string, string)>): set<string> {
    if |d| == 0 then {} else {d[0].0} + Keys(d[1..])
  }

  predicate NoDupKeys(d: seq<(string, string)>) {
    |d| == 0 || (d[0].0 !in Keys(d[1..]) && NoDupKeys(d[1..]))
  }

  /** `d.get(k)`: the value of the first entry for `k`. */
  function Get(d: seq<(string, string)>, k: string): (r: Option<string>)
    ensures r.Some? <==> k in Keys(d)
    ensures r.Some? ==> (k, r.value) in d
  {
    if |d| == 0 then None else if d[0].0 == k then Some(d[0].1) else Get(d[1..], k)
  }

  /** `d[k] = v`. */
  function Put(d: Dict, k: string, v: string): (r: Dict)
    ensures Keys(r) == Keys(d) + {k}
    ensures Get(r, k) == Some(v)
    ensures forall k' :: k' != k ==> Get(r, k') == Get(d, k')
    ensures NoDupKeys(d) ==> NoDupKeys(r)
    ensures k !in Keys(d) ==> r == d + [(k, v)]
    ensures k in Keys(d) ==> |r| == |d| && forall i :: 0 <= i < |d| ==> r[i].0 == d[i].0
  {
    if |d| == 0 then [(k, v)]
    else if d[0].0 == k then [(k, v)] + d[1..]
    else [d[0]] + Put(d[1..], k, v)
  }

  /** `for k, v in l: d[k] = v`; when `l` is itself a dict this is `d.update(l)`. */
  function PutAll(d: Dict, l: seq<(string, string)>): (r: Dict)
    ensures Keys(r) == Keys(d) + Keys(l)
    ensures NoDupKeys(d) ==> NoDupKeys(r)
    decreases |l|
  {
    if |l| == 0 then d else PutAll(Put(d, l[0].0, l[0].1), l[1..])
  }

  /** The dict built by assigning the entries of `l` in order to an empty dict. */
  function FromLog(l: seq<(string, string)>): (r: Dict)
    ensures Keys(r) == Keys(l)
    ensures NoDupKeys(r)
  {
    PutAll([], l)
  }

  lemma KeysAppend(a: seq<(string, string)>, b: seq<(string, string)>)
    ensures Keys(a + b) == Keys(a) + Keys(b)
  {
    if |a| > 0 {
      assert (a + b)[0] == a[0];
      assert (a + b)[1..] == a[1..] + b;
      KeysAppend(a[1..], b);
    } else {
      assert a + b == b;
    }
  }

  /** Two duplicate-free lists with no key in common join into a duplicate-free list. */
  lemma {:induction false} NoDupKeysAppend(a: seq<(string, string)>, b: seq<(string, string)>)
    requires NoDupKeys(a) && NoDupKeys(b) && Keys(a) !! Keys(b)
    ensures NoDupKeys(a + b)
    decreases |a|
  {
    if |a| > 0 {
      assert (a + b)[1..] == a[1..] + b;
      KeysAppend(a[1..], b);
      NoDupKeysAppend(a[1..], b);
    } else {
      assert a + b == b;
    }
  }

  lemma InKeys(d: seq<(string, string)>, e: (string, string))
    requires e in d
    ensures e.0 in Keys(d)
  {
    if d[0] != e {
      assert e in d[1..];
      InKeys(d[1..], e);
    }
  }

  lemma KeysMembership(d: seq<(string, string)>, k: string)
    ensures k in Keys(d) <==> exists i :: 0 <= i < |d| && d[i].0 == k
  {
    if |d| > 0 {
      KeysMembership(d[1..], k);
      if k in Keys(d[1..]) {
        var i :| 0 <= i < |d[1..]| && d[1..][i].0 == k;
        assert d[i + 1].0 == k;
      }
      forall i | 1 <= i < |d| && d[i].0 == k ensures k in Keys(d[1..]) {
        assert d[1..][i - 1].0 == k;
      }
    }
  }

  /** Assigning a log in two halves is assigning it at once. */
  lemma {:induction false} PutAllAppend(d: Dict, a: seq<(string, string)>, b: seq<(string, string)>)
    ensures PutAll(d, a + b) == PutAll(PutAll(d, a), b)
    decreases |a|
  {
    if |a| > 0 {
      assert (a + b)[0] == a[0];
      assert (a + b)[1..] == a[1..] + b;
      PutAllAppend(Put(d, a[0].0, a[0].1), a[1..], b);
    } else {
      assert a + b == b;
    }
  }

  /** A second assignment to a key wipes out the first. */
  lemma {:induction false} PutOverwrite(d: Dict, k: string, v1: string, v2: string)
    ensures Put(Put(d, k, v1), k, v2) == Put(d, k, v2)
  {
    if |d| > 0 && d[0].0 != k {
      PutOverwrite(d[1..], k, v1, v2);
      assert Put(d, k, v1)[1..] == Put(d[1..], k, v1);
    }
  }

  /** Re-assigning a key that is already present commutes with any other assignment. */
  lemma {:induction false} PutCommute(d: Dict, k: string, v: string, k2: string, v2: string)
    requires k in Keys(d)
    requires k != k2
    ensures Put(Put(d, k, v), k2, v2) == Put(Put(d, k2, v2), k, v)
  {
    if d[0].0 != k && d[0].0 != k2 {
      PutCommute(d[1..], k, v, k2, v2);
      assert Put(d, k, v)[1..] == Put(d[1..], k, v);
      assert Put(d, k2, v2)[1..] == Put(d[1..], k2, v2);
    } else if d[0].0 == k2 {
      assert Put(d, k, v)[1..] == Put(d[1..], k, v);
    } else {
      assert Put(d, k2, v2)[1..] == Put(d[1..], k2, v2);
    }
  }

  /** Re-assigning a present key can be moved in front of a log that does not mention it. */
  lemma {:induction false} PutPastLog(e: Dict, l: seq<(string, string)>, k: string, v: string)
    requires k in Keys(e)
    requires k !in Keys(l)
    ensures Put(PutAll(e, l), k, v) == PutAll(Put(e, k, v), l)
    decreases |l|
  {
    if |l| > 0 {
      var e1 := Put(e, l[0].0, l[0].1);
      PutPastLog(e1, l[1..], k, v);
      PutCommute(e, k, v, l[0].0, l[0].1);
    }
  }

  /** Updating with a dict that just received `k := v` is updating and then assigning `k := v`. */
  lemma {:induction false} PutAllOfPut(d: Dict, dd: Dict, k: string, v: string)
    requires NoDupKeys(dd)
    ensures PutAll(d, Put(dd, k, v)) == Put(PutAll(d, dd), k, v)
    decreases |dd|
  {
    if |dd| == 0 {
    } else if dd[0].0 == k {
      var x := dd[0];
      var rest := dd[1..];
      assert Put(dd, k, v) == [(k, v)] + rest;
      assert PutAll(d, [(k, v)] + rest) == PutAll(Put(d, k, v), rest);
      assert PutAll(d, dd) == PutAll(Put(d, k, x.1), rest);
      PutPastLog(Put(d, k, x.1), rest, k, v);
      PutOverwrite(d, k, x.1, v);
    } else {
      var x := dd[0];
      var rest := dd[1..];
      assert Put(dd, k, v) == [x] + Put(rest, k, v);
      assert PutAll(d, [x] + Put(rest, k, v)) == PutAll(Put(d, x.0, x.1), Put(rest, k, v));
      PutAllOfPut(Put(d, x.0, x.1), rest, k, v);
    }
  }

  /** `d.update(dd)` after `dd` has taken a log is `d` taking `dd` and then the log. */
  lemma {:induction false} UpdateNested(d: Dict, dd: Dict, l: seq<(string, string)>)
    requires NoDupKeys(dd)
    ensures PutAll(d, PutAll(dd, l)) == PutAll(PutAll(d, dd), l)
    decreases |l|
  {
    if |l| > 0 {
      var dd1 := Put(dd, l[0].0, l[0].1);
      UpdateNested(d, dd1, l[1..]);
      PutAllOfPut(d, dd, l[0].0, l[0].1);
    }
  }

  /** Updating with the dict built from a log is the same as assigning the log itself. */
  lemma UpdateFromLog(d: Dict, l: seq<(string, string)>)
    ensures PutAll(d, FromLog(l)) == PutAll(d, l)
  {
    UpdateNested(d, [], l);
  }

  /** A key whose every assignment in the log carries the same value ends up with that value. */
  lemma {:induction false} GetPutAll(d: Dict, l: seq<(string, string)>, k: string, v: string)
    requires (k, v) in l
    requires forall e :: e in l && e.0 == k ==> e.1 == v
    ensures Get(PutAll(d, l), k) == Some(v)
    decreases |l|
  {
    var d1 := Put(d, l[0].0, l[0].1);
    if (k, v) in l[1..] {
      GetPutAll(d1, l[1..], k, v);
    } else {
      assert l[0] == (k, v);
      GetUntouched(d1, l[1..], k);
    }
  }

  /** A key the log never assigns keeps its value. */
  lemma {:induction false} GetUntouched(d: Dict, l: seq<(string, string)>, k: string)
    requires forall e :: e in l ==> e.0 != k
    ensures Get(PutAll(d, l), k) == Get(d, k)
    decreases |l|
  {
    if |l| > 0 {
      assert l[0] in l;
      GetUntouched(Put(d, l[0].0, l[0].1), l[1..], k);
    }
  }

  /** Every entry of the result was either assigned by the log or was already there. */
  lemma {:induction false} PutAllSound(d: Dict, l: seq<(string, string)>, e: (string, string))
    requires NoDupKeys(d)
    requires e in PutAll(d, l)
    ensures e in l || e in d
    decreases |l|
  {
    if |l| > 0 {
      var d1 := Put(d, l[0].0, l[0].1);
      PutAllSound(d1, l[1..], e);
      if e in d1 && e !in l[1..] {
        PutSound(d, l[0].0, l[0].1, e);
      }
    }
  }

  /** Every entry of `d[k] = v` is `(k, v)` or an entry of `d`. */
  lemma {:induction false} PutSound(d: Dict, k: string, v: string, e: (string, string))
    requires e in Put(d, k, v)
    ensures e == (k, v) || e in d
  {
    if |d| > 0 && d[0].0 != k && e != d[0] {
      assert e in Put(d[1..], k, v);
      PutSound(d[1..], k, v, e);
    }
  }

  /** Assigning a log of fresh, distinct keys just appends it. */
  lemma {:induction false} PutAllFresh(d: Dict, l: seq<(string, string)>)
    requires NoDupKeys(l)
    requires Keys(d) !! Keys(l)
    ensures PutAll(d, l) == d + l
    decreases |l|
  {
    if |l| == 0 {
      assert d + l == d;
    } else {
      var x := l[0];
      FreshStep(d, l);
      PutAllFresh(d + [x], l[1..]);
      ConcatCons(d, l);
    }
  }

  lemma ConcatCons(d: Dict, l: seq<(string, string)>)
    requires |l| > 0
    ensures (d + [l[0]]) + l[1..] == d + l
  {
    assert [l[0]] + l[1..] == l;
  }

  lemma FreshStep(d: Dict, l: seq<(string, string)>)
    requires |l| > 0
    requires NoDupKeys(l)
    requires Keys(d) !! Keys(l)
    ensures PutAll(d, l) == PutAll(d + [l[0]], l[1..])
    ensures NoDupKeys(l[1..])
    ensures Keys(d + [l[0]]) !! Keys(l[1..])
  {
    var x := l[0];
    assert Keys(l) == {x.0} + Keys(l[1..]);
    KeysAppend(d, [x]);
    assert Keys([x]) == {x.0};
  }

  /** In a dict, an entry is present exactly when looking up its key yields its value. */
  lemma {:induction false} InDict(d: Dict, e: (string, string))
    requires NoDupKeys(d)
    ensures e in d <==> Get(d, e.0) == Some(e.1)
  {
    if |d| > 0 {
      InDict(d[1..], e);
      if e in d[1..] {
        InKeys(d[1..], e);
      }
    }
  }
}
