/**
 * A plain JavaScript object whose key order matters (the `links` objects):
 * its own properties as (key, value) pairs in enumeration order. Assigning
 * to a key that exists keeps its position; a new key goes last.
 */
module JsObject {
  import opened Wrappers

  const ProtoKey: string := "__proto__"

  /**
   * The names a fresh `{}` inherits from Object.prototype. Reading one of
   * them from an object that does not own it gives a function or an
   * object, never a falsy value.
   */
  const InheritedNames: set<string> := {
    "constructor", "hasOwnProperty", "isPrototypeOf", "propertyIsEnumerable",
    "toLocaleString", "toString", "valueOf", "__proto__",
    "__defineGetter__", "__defineSetter__", "__lookupGetter__", "__lookupSetter__"
  }

  function Keys<V>(o: seq<(string, V)>): (ks: seq<string>)
    ensures |ks| == |o|
    ensures forall i :: 0 <= i < |o| ==> ks[i] == o[i].0
  {
    if o == [] then [] else [o[0].0] + Keys(o[1..])
  }

  /** No key appears twice: what every real object satisfies. */
  predicate DistinctKeys<V>(o: seq<(string, V)>) {
    forall i, j :: 0 <= i < j < |o| ==> o[i].0 != o[j].0
  }

  /** The own property `k`, if there is one. */
  function Own<V>(o: seq<(string, V)>, k: string): (r: Option<V>)
    ensures r.None? <==> k !in Keys(o)
    ensures r.Some? ==> exists i :: 0 <= i < |o| && o[i] == (k, r.value)
  {
    if o == [] then None
    else if o[0].0 == k then Some(o[0].1)
    else Own(o[1..], k)
  }

  /**
   * Creates or overwrites the own data property `k`: an existing key keeps
   * its place and takes the new value, a new key is appended.
   */
  function SetOwn<V>(o: seq<(string, V)>, k: string, v: V): (r: seq<(string, V)>)
    ensures k in Keys(o) ==> Keys(r) == Keys(o)
    ensures k !in Keys(o) ==> r == o + [(k, v)]
    ensures forall p :: p in r ==> p in o || p == (k, v)
    ensures Own(r, k) == Some(v)
    ensures forall k' :: k' != k ==> Own(r, k') == Own(o, k')
    ensures DistinctKeys(o) ==> DistinctKeys(r)
  {
    PutKeys(o, k, v);
    PutPairs(o, k, v);
    PutOwn(o, k, v);
    PutDistinct(o, k, v);
    Put(o, k, v)
  }

  /** The definition of `SetOwn`: the first pair with key `k` replaced, or a new pair last. */
  function Put<V>(o: seq<(string, V)>, k: string, v: V): seq<(string, V)> {
    if o == [] then [(k, v)]
    else if o[0].0 == k then [(k, v)] + o[1..]
    else [o[0]] + Put(o[1..], k, v)
  }

  /** Putting a sequence's head back in front of its tail and a suffix rebuilds it with the suffix. */
  lemma HeadTailAppend<T>(a: seq<T>, x: seq<T>)
    requires a != []
    ensures [a[0]] + (a[1..] + x) == a + x
  {
    assert a == [a[0]] + a[1..];
  }

  lemma KeysCons<V>(p: (string, V), o: seq<(string, V)>)
    ensures Keys([p] + o) == [p.0] + Keys(o)
  {
    assert ([p] + o)[1..] == o;
  }

  lemma {:induction false} PutKeys<V>(o: seq<(string, V)>, k: string, v: V)
    ensures k in Keys(o) ==> Keys(Put(o, k, v)) == Keys(o)
    ensures k !in Keys(o) ==> Put(o, k, v) == o + [(k, v)]
    decreases |o|
  {
    if o != [] {
      KeysCons(o[0], o[1..]);
      assert o == [o[0]] + o[1..];
      if o[0].0 == k {
        KeysCons((k, v), o[1..]);
      } else {
        assert k in Keys(o) <==> k in Keys(o[1..]);
        PutKeys(o[1..], k, v);
        assert Put(o, k, v) == [o[0]] + Put(o[1..], k, v);
        KeysCons(o[0], Put(o[1..], k, v));
        HeadTailAppend(o, [(k, v)]);
      }
    }
  }

  lemma {:induction false} PutPairs<V>(o: seq<(string, V)>, k: string, v: V)
    ensures forall p :: p in Put(o, k, v) ==> p in o || p == (k, v)
    decreases |o|
  {
    if o != [] && o[0].0 != k {
      PutPairs(o[1..], k, v);
      forall p | p in Put(o, k, v) ensures p in o || p == (k, v) {
        if p != o[0] {
          assert p in Put(o[1..], k, v);
        }
      }
    } else if o != [] {
      forall p | p in Put(o, k, v) ensures p in o || p == (k, v) {
        if p != (k, v) {
          assert p in o[1..];
        }
      }
    }
  }

  lemma {:induction false} PutOwn<V>(o: seq<(string, V)>, k: string, v: V)
    ensures Own(Put(o, k, v), k) == Some(v)
    ensures forall k' :: k' != k ==> Own(Put(o, k, v), k') == Own(o, k')
    decreases |o|
  {
    if o != [] {
      var r := Put(o, k, v);
      if o[0].0 == k {
        assert r[1..] == o[1..];
      } else {
        PutOwn(o[1..], k, v);
        assert r[1..] == Put(o[1..], k, v);
      }
    }
  }

  lemma {:induction false} PutDistinct<V>(o: seq<(string, V)>, k: string, v: V)
    ensures DistinctKeys(o) ==> DistinctKeys(Put(o, k, v))
    decreases |o|
  {
    if o != [] && DistinctKeys(o) {
      DistinctTail(o);
      if o[0].0 == k {
        DistinctCons((k, v), o[1..]);
      } else {
        PutDistinct(o[1..], k, v);
        PutOwn(o[1..], k, v);
        assert Own(Put(o[1..], k, v), o[0].0) == Own(o[1..], o[0].0);
        DistinctCons(o[0], Put(o[1..], k, v));
      }
    }
  }

  /** The tail of an object without repeated keys has none either, nor the head's key. */
  lemma DistinctTail<V>(o: seq<(string, V)>)
    requires o != [] && DistinctKeys(o)
    ensures DistinctKeys(o[1..]) && o[0].0 !in Keys(o[1..])
  {
    var t := o[1..];
    forall i | 0 <= i < |t| ensures Keys(t)[i] != o[0].0 {
      assert t[i] == o[i + 1];
    }
  }

  /** A pair whose key is new may go in front. */
  lemma DistinctCons<V>(p: (string, V), rest: seq<(string, V)>)
    requires DistinctKeys(rest) && p.0 !in Keys(rest)
    ensures DistinctKeys([p] + rest)
  {
    var o := [p] + rest;
    forall i, j | 0 <= i < j < |o| ensures o[i].0 != o[j].0 {
      assert o[j] == rest[j - 1];
      if i == 0 {
        assert Keys(rest)[j - 1] == rest[j - 1].0;
      } else {
        assert o[i] == rest[i - 1];
      }
    }
  }

  /**
   * `o[k] = v` with a primitive `v`: assigning a primitive to `__proto__`
   * leaves the object as it was; any other key becomes an own property.
   */
  function Assign<V>(o: seq<(string, V)>, k: string, v: V): (r: seq<(string, V)>)
    ensures k == ProtoKey ==> r == o
    ensures k != ProtoKey ==> r == SetOwn(o, k, v)
  {
    if k == ProtoKey then o else SetOwn(o, k, v)
  }
}
