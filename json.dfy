/**
 * Parsed JSON as the converter sees it: scalar values, and objects as
 * ordered association lists, because JavaScript objects remember the order
 * in which their string keys were first assigned and both the spreadsheet
 * columns and the municipality rows follow that order.
 */
module Json {

  datatype Option<T> = None | Some(value: T)

  /** Every failure of the converter is a plain error carrying a message. */
  datatype Result<T> = Success(value: T) | Failure(error: string)

  /**
   * A scalar found in a day record. A number is kept as the text JavaScript
   * prints for it (String(n)): the converter only copies numbers and
   * interpolates them into strings, it never computes with them.
   */
  datatype Value = Str(s: string) | Num(text: string) | Null | Undefined

  /** A JavaScript object with string keys: its properties in insertion order. */
  type Assoc<V> = seq<(string, V)>

  /** A day record (one municipality, one forecast day). */
  type Record = Assoc<Value>

  predicate Distinct<T(==)>(s: seq<T>) {
    forall i, j :: 0 <= i < j < |s| ==> s[i] != s[j]
  }

  /** A repetition-free sequence with one more element: its front repeats nothing and lacks the last. */
  lemma DistinctSplit<T>(front: seq<T>, x: T)
    requires Distinct(front + [x])
    ensures Distinct(front) && x !in front
  {
    var s := front + [x];
    forall i | 0 <= i < |front| ensures front[i] != x {
      assert s[i] == front[i] && s[|front|] == x;
    }
    forall i, j | 0 <= i < j < |front| ensures front[i] != front[j] {
      assert s[i] == front[i] && s[j] == front[j];
    }
  }

  /** Appending a value a sequence lacks keeps it free of repetitions. */
  lemma DistinctAppend<T>(s: seq<T>, x: T)
    requires Distinct(s) && x !in s
    ensures Distinct(s + [x])
  {
  }

  /** `Object.keys(a)`: the keys in insertion order. */
  function Keys<V>(a: Assoc<V>): (ks: seq<string>)
    ensures |ks| == |a|
    ensures forall i :: 0 <= i < |a| ==> ks[i] == a[i].0
  {
    if a == [] then [] else [a[0].0] + Keys(a[1..])
  }

  /** Property lookup `a[k]`: the value stored under `k`, if any. */
  function Get<V>(a: Assoc<V>, k: string): (r: Option<V>)
    ensures r.Some? <==> k in Keys(a)
  {
    if a == [] then None
    else if a[0].0 == k then Some(a[0].1)
    else Get(a[1..], k)
  }

  /** `rec[k]` in a day record: a missing property reads as `undefined`. */
  function ValueAt(rec: Record, k: string): Value {
    match Get(rec, k)
    case Some(v) => v
    case None => Undefined
  }

  /**
   * Property assignment `a[k] = v`: an existing key keeps its position and
   * takes the new value, a new key goes to the end.
   */
  function Put<V>(a: Assoc<V>, k: string, v: V): (r: Assoc<V>)
    ensures Keys(r) == if k in Keys(a) then Keys(a) else Keys(a) + [k]
    ensures Get(r, k) == Some(v)
    ensures forall k' :: k' != k ==> Get(r, k') == Get(a, k')
  {
    if a == [] then [(k, v)]
    else if a[0].0 == k then [(k, v)] + a[1..]
    else [a[0]] + Put(a[1..], k, v)
  }

  /** Assignment never repeats a key. */
  lemma PutKeepsDistinct<V>(a: Assoc<V>, k: string, v: V)
    requires Distinct(Keys(a))
    ensures Distinct(Keys(Put(a, k, v)))
  {
    if k !in Keys(a) {
      DistinctAppend(Keys(a), k);
    }
  }

  /** The keys of an object extended by one property. */
  lemma KeysAppend<V>(a: Assoc<V>, e: (string, V))
    ensures Keys(a + [e]) == Keys(a) + [e.0]
  {
    assert |Keys(a + [e])| == |Keys(a) + [e.0]|;
    forall i | 0 <= i < |a| + 1 ensures Keys(a + [e])[i] == (Keys(a) + [e.0])[i] {
    }
  }

  /** The keys of two objects' properties, one after the other. */
  lemma KeysConcat<V>(a: Assoc<V>, b: Assoc<V>)
    ensures Keys(a + b) == Keys(a) + Keys(b)
  {
    assert |Keys(a + b)| == |Keys(a) + Keys(b)|;
    forall i | 0 <= i < |a| + |b| ensures Keys(a + b)[i] == (Keys(a) + Keys(b))[i] {
      if i >= |a| {
        assert (a + b)[i] == b[i - |a|];
      }
    }
  }

  /** Lookup in the properties of `a` followed by those of `b`: `a` wins. */
  lemma {:induction false} GetConcat<V>(a: Assoc<V>, b: Assoc<V>, k: string)
    ensures Get(a + b, k) == if k in Keys(a) then Get(a, k) else Get(b, k)
  {
    if a != [] {
      assert (a + b)[1..] == a[1..] + b;
      GetConcat(a[1..], b, k);
      assert Keys(a) == [a[0].0] + Keys(a[1..]);
    } else {
      assert a + b == b;
    }
  }

  /** The parts of a sequence free of repetitions are free of them, and share nothing. */
  lemma DistinctConcat<T>(a: seq<T>, b: seq<T>)
    requires Distinct(a + b)
    ensures Distinct(a) && Distinct(b) && forall x :: x in a ==> x !in b
  {
    forall i, j | 0 <= i < j < |b| ensures b[i] != b[j] {
      assert (a + b)[|a| + i] == b[i] && (a + b)[|a| + j] == b[j];
    }
    forall i, j | 0 <= i < |a| && 0 <= j < |b| ensures a[i] != b[j] {
      assert (a + b)[i] == a[i] && (a + b)[|a| + j] == b[j];
    }
    forall i, j | 0 <= i < j < |a| ensures a[i] != a[j] {
      assert (a + b)[i] == a[i] && (a + b)[j] == a[j];
    }
  }

  /** Lookup in an object extended by one property: earlier properties win. */
  lemma {:induction false} GetAppend<V>(a: Assoc<V>, e: (string, V), k: string)
    ensures Get(a + [e], k) == if k in Keys(a) then Get(a, k) else if k == e.0 then Some(e.1) else None
  {
    if a != [] {
      assert (a + [e])[1..] == a[1..] + [e];
      GetAppend(a[1..], e, k);
      assert Keys(a) == [a[0].0] + Keys(a[1..]);
    }
  }
}
