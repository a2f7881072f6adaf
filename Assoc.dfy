/** Ordered string-keyed tables: the model of a JavaScript `Map` and of a plain
    object's own string keys, both of which remember insertion order, and in
    both of which assigning to a key already present replaces its value in
    place. */
module Assoc {
  import opened Wrappers

  function Keys<V>(m: seq<(string, V)>): (ks: seq<string>)
    ensures |ks| == |m|
    ensures forall i :: 0 <= i < |m| ==> ks[i] == m[i].0
  {
    if m == [] then [] else [m[0].0] + Keys(m[1..])
  }

  predicate Distinct<T(==)>(s: seq<T>)
  {
    forall i, j :: 0 <= i < j < |s| ==> s[i] != s[j]
  }

  /** `m.get(k)`: the value of the first entry with key `k`. */
  function Get<V>(m: seq<(string, V)>, k: string): Option<V>
  {
    if m == [] then None
    else if m[0].0 == k then Some(m[0].1)
    else Get(m[1..], k)
  }

  /** `m.set(k, v)` and `obj[k] = v`. */
  function Put<V>(m: seq<(string, V)>, k: string, v: V): seq<(string, V)>
  {
    if m == [] then [(k, v)]
    else if m[0].0 == k then [(k, v)] + m[1..]
    else [m[0]] + Put(m[1..], k, v)
  }

  /** `a` is `b` with some elements left out. */
  predicate IsSubseq<T(==)>(a: seq<T>, b: seq<T>)
  {
    if a == [] then true
    else if b == [] then false
    else if a[0] == b[0] then IsSubseq(a[1..], b[1..])
    else IsSubseq(a, b[1..])
  }

  /** A key is found exactly when it is one of the keys. */
  lemma {:induction false} GetPresent<V>(m: seq<(string, V)>, k: string)
    ensures Get(m, k).Some? <==> k in Keys(m)
  {
    if m != [] {
      GetPresent(m[1..], k);
      assert Keys(m) == [m[0].0] + Keys(m[1..]);
    }
  }

  /** With distinct keys, a key finds the value of its own entry. */
  lemma {:induction false} GetAt<V>(m: seq<(string, V)>, i: nat)
    requires Distinct(Keys(m)) && i < |m|
    ensures Get(m, m[i].0) == Some(m[i].1)
  {
    if i > 0 {
      assert Keys(m)[0] != Keys(m)[i];
      assert Keys(m)[1..] == Keys(m[1..]);
      GetAt(m[1..], i - 1);
    }
  }

  /** After `set(k, v)`, `get(k)` is `v` and every other key is unchanged. */
  lemma {:induction false} PutGet<V>(m: seq<(string, V)>, k: string, v: V, k': string)
    ensures Get(Put(m, k, v), k') == if k' == k then Some(v) else Get(m, k')
  {
    if m != [] && m[0].0 != k {
      PutGet(m[1..], k, v, k');
    }
  }

  /** `set` keeps the position of a key already present and appends a new one. */
  lemma {:induction false} PutKeys<V>(m: seq<(string, V)>, k: string, v: V)
    ensures Keys(Put(m, k, v)) == if k in Keys(m) then Keys(m) else Keys(m) + [k]
  {
    if m != [] && m[0].0 != k {
      PutKeys(m[1..], k, v);
      assert k in Keys(m) <==> k in Keys(m[1..]);
    }
  }

  lemma PutDistinct<V>(m: seq<(string, V)>, k: string, v: V)
    requires Distinct(Keys(m))
    ensures Distinct(Keys(Put(m, k, v)))
  {
    PutKeys(m, k, v);
  }

  /** The present entries of a list of optional entries, in order. */
  function Present<V>(e: seq<(string, Option<V>)>): seq<(string, V)>
  {
    if e == [] then []
    else if e[0].1.Some? then [(e[0].0, e[0].1.value)] + Present(e[1..])
    else Present(e[1..])
  }

  function Flatten<V>(o: Option<Option<V>>): Option<V>
  {
    if o.Some? then o.value else None
  }

  /** The keys kept are a selection of the keys offered, in the same order. */
  lemma {:induction false} PresentKeys<V>(e: seq<(string, Option<V>)>)
    ensures IsSubseq(Keys(Present(e)), Keys(e))
    ensures forall i :: 0 <= i < |Present(e)| ==> Present(e)[i].0 in Keys(e)
  {
    if e != [] {
      PresentKeys(e[1..]);
      assert Keys(e)[1..] == Keys(e[1..]);
      if e[0].1.Some? {
        assert Keys(Present(e))[1..] == Keys(Present(e[1..]));
      } else {
        SubseqTail(Keys(Present(e)), Keys(e));
      }
    }
  }

  lemma SubseqTail<T>(a: seq<T>, b: seq<T>)
    requires b != [] && IsSubseq(a, b[1..])
    ensures IsSubseq(a, b)
    decreases |b|, 0
  {
    if a != [] && a[0] == b[0] {
      SubseqDrop(a, b[1..]);
    }
  }

  lemma SubseqDrop<T>(a: seq<T>, b: seq<T>)
    requires a != [] && IsSubseq(a, b)
    ensures IsSubseq(a[1..], b)
    decreases |b|, 1
  {
    if a[0] != b[0] {
      SubseqDrop(a, b[1..]);
    }
    SubseqTail(a[1..], b);
  }

  /** The present entries hold exactly what the offered entries hold. */
  lemma {:induction false} PresentGet<V>(e: seq<(string, Option<V>)>, k: string)
    requires Distinct(Keys(e))
    ensures Get(Present(e), k) == Flatten(Get(e, k))
  {
    if e != [] {
      assert Keys(e) == [e[0].0] + Keys(e[1..]);
      PresentGet(e[1..], k);
      if e[0].1.None? && e[0].0 == k {
        PresentMissing(e[1..], k);
      }
    }
  }

  lemma {:induction false} PresentMissing<V>(e: seq<(string, Option<V>)>, k: string)
    ensures Get(Present(e), k).None? || k in Keys(e)
    ensures Distinct([k] + Keys(e)) ==> Get(Present(e), k) == None
  {
    PresentKeys(e);
    GetPresent(Present(e), k);
    if k in Keys(Present(e)) {
      var i :| 0 <= i < |Present(e)| && Present(e)[i].0 == k;
      assert k in Keys(e);
      var j :| 0 <= j < |Keys(e)| && Keys(e)[j] == k;
      assert ([k] + Keys(e))[0] == ([k] + Keys(e))[j + 1];
    }
  }

  /** Distinct offered keys stay distinct. */
  lemma {:induction false} PresentDistinct<V>(e: seq<(string, Option<V>)>)
    requires Distinct(Keys(e))
    ensures Distinct(Keys(Present(e)))
  {
    if e != [] {
      var k, rest := e[0].0, Keys(e[1..]);
      assert Keys(e) == [k] + rest;
      assert k !in rest by {
        forall t | 0 <= t < |rest| ensures rest[t] != k {
          assert Keys(e)[0] != Keys(e)[t + 1];
        }
      }
      assert Distinct(rest) by {
        forall i, j | 0 <= i < j < |rest| ensures rest[i] != rest[j] {
          assert rest[i] == Keys(e)[i + 1] && rest[j] == Keys(e)[j + 1];
        }
      }
      PresentDistinct(e[1..]);
      PresentKeys(e[1..]);
      if e[0].1.Some? {
        var tail := Keys(Present(e[1..]));
        assert Keys(Present(e)) == [k] + tail;
        DistinctCons(k, tail);
      }
    }
  }

  lemma DistinctCons<T>(x: T, s: seq<T>)
    requires Distinct(s) && x !in s
    ensures Distinct([x] + s)
  {
    forall i, j | 0 <= i < j < |[x] + s| ensures ([x] + s)[i] != ([x] + s)[j] {
      if i > 0 {
        assert ([x] + s)[i] == s[i - 1];
      }
    }
  }

  /** With distinct keys, each offered key holds what was offered for it. */
  lemma PresentGetAt<V>(e: seq<(string, Option<V>)>, i: nat)
    requires Distinct(Keys(e)) && i < |e|
    ensures Get(Present(e), e[i].0) == e[i].1
  {
    GetAt(e, i);
    PresentGet(e, e[i].0);
  }

  lemma {:induction false} PresentConcat<V>(a: seq<(string, Option<V>)>, b: seq<(string, Option<V>)>)
    ensures Present(a + b) == Present(a) + Present(b)
  {
    if a != [] {
      assert (a + b)[1..] == a[1..] + b;
      PresentConcat(a[1..], b);
    } else {
      assert a + b == b;
    }
  }

  lemma {:induction false} PresentNone<V>(e: seq<(string, Option<V>)>)
    requires forall i :: 0 <= i < |e| ==> e[i].1.None?
    ensures Present(e) == []
  {
    if e != [] {
      PresentNone(e[1..]);
    }
  }

  /** Looking a key up in a table extended at the end. */
  lemma {:induction false} GetSnoc<V>(init: seq<(string, V)>, last: (string, V), k: string)
    requires Distinct(Keys(init + [last]))
    ensures Get(init + [last], k) == if k in Keys(init) then Get(init, k) else if k == last.0 then Some(last.1) else None
  {
    var es := init + [last];
    GetPresent(init, k);
    if init != [] {
      assert es[1..] == init[1..] + [last];
      assert Keys(es)[1..] == Keys(es[1..]);
      assert Keys(init) == [init[0].0] + Keys(init[1..]);
      GetSnoc(init[1..], last, k);
      assert Keys(es)[|init|] == last.0;
      assert Keys(es)[0] == init[0].0;
    }
  }

  lemma KeysSnoc<V>(init: seq<(string, V)>, last: (string, V))
    ensures Keys(init + [last]) == Keys(init) + [last.0]
  {
  }

  /** A sequence extended at the end is distinct exactly when its front is
      and the new element is not in it. */
  lemma DistinctSnoc<T>(s: seq<T>, x: T)
    ensures Distinct(s + [x]) <==> Distinct(s) && x !in s
  {
    if Distinct(s) && x !in s {
      forall i, j | 0 <= i < j < |s + [x]| ensures (s + [x])[i] != (s + [x])[j] {
        if j == |s| {
          assert s[i] != x;
        }
      }
    }
    if Distinct(s + [x]) {
      forall i, j | 0 <= i < j < |s| ensures s[i] != s[j] {
        assert (s + [x])[i] != (s + [x])[j];
      }
      forall i | 0 <= i < |s| ensures s[i] != x {
        assert (s + [x])[i] != (s + [x])[|s|];
      }
    }
  }

  /** Offering one more entry under a fresh key: a present value is
      appended, an absent one changes nothing. */
  lemma PresentSnoc<V>(e: seq<(string, Option<V>)>, x: (string, Option<V>))
    requires x.0 !in Keys(e)
    ensures Present(e + [x]) == if x.1.Some? then Put(Present(e), x.0, x.1.value) else Present(e)
  {
    var before := Present(e);
    PresentConcat(e, [x]);
    assert [x][1..] == [];
    PresentKeys(e);
    assert x.0 !in Keys(before) by {
      forall t | 0 <= t < |before| ensures Keys(before)[t] != x.0 {
        assert before[t].0 in Keys(e);
      }
    }
    if x.1.Some? {
      PutNew(before, x.0, x.1.value);
    }
  }

  /** Assigning a new key appends it. */
  lemma {:induction false} PutNew<V>(m: seq<(string, V)>, k: string, v: V)
    requires k !in Keys(m)
    ensures Put(m, k, v) == m + [(k, v)]
  {
    if m != [] {
      assert Keys(m) == [m[0].0] + Keys(m[1..]);
      PutNew(m[1..], k, v);
    }
  }

  /** Present first and last entries are kept at the ends. */
  lemma PresentEnds<V>(e: seq<(string, Option<V>)>)
    requires |e| >= 2 && e[0].1.Some? && e[|e| - 1].1.Some?
    ensures |Present(e)| >= 2
    ensures Present(e)[0] == (e[0].0, e[0].1.value)
    ensures Present(e)[|Present(e)| - 1] == (e[|e| - 1].0, e[|e| - 1].1.value)
  {
    PresentLast(e[1..]);
  }

  lemma {:induction false} PresentLast<V>(e: seq<(string, Option<V>)>)
    requires |e| >= 1 && e[|e| - 1].1.Some?
    ensures |Present(e)| >= 1
    ensures Present(e)[|Present(e)| - 1] == (e[|e| - 1].0, e[|e| - 1].1.value)
  {
    if |e| > 1 {
      PresentLast(e[1..]);
    }
  }


  /** A value found for a key is the value of an entry with that key. */
  lemma {:induction false} GetMember<V>(m: seq<(string, V)>, k: string)
    ensures Get(m, k).Some? ==> (k, Get(m, k).value) in m
  {
    if m != [] && m[0].0 != k {
      GetMember(m[1..], k);
    }
  }
}
