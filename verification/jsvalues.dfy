/** The JavaScript values the library reads and writes: configuration
    objects, their property lookup, `Object.assign`, the loose comparison
    `x != false`, and the string conversion `setAttribute` applies. */
module JsValues {
  import opened Results

  /** A value of the configuration: a boolean, a string, or a plain object.
      Numbers, `null`, arrays and functions are not part of this model. */
  datatype Value =
    | Bool(b: bool)
    | Text(s: string)
    | Obj(props: seq<Prop>)

  /** One own enumerable property. An object's properties are listed in the
      order `Object.keys` returns them. */
  datatype Prop = Prop(key: string, value: Value)

  predicate HasKey(ps: seq<Prop>, k: string) {
    exists i | 0 <= i < |ps| :: ps[i].key == k
  }

  /** A JavaScript object never holds the same key twice. */
  predicate DistinctKeys(ps: seq<Prop>) {
    forall i, j | 0 <= i < j < |ps| :: ps[i].key != ps[j].key
  }

  /** A key is held by the first property or by the rest. */
  lemma HasKeyTail(ps: seq<Prop>, k: string)
    requires |ps| > 0
    ensures HasKey(ps, k) <==> ps[0].key == k || HasKey(ps[1..], k)
  {
    if HasKey(ps, k) && ps[0].key != k {
      var i :| 0 <= i < |ps| && ps[i].key == k;
      assert ps[1..][i - 1].key == k;
    }
    if HasKey(ps[1..], k) {
      var i :| 0 <= i < |ps[1..]| && ps[1..][i].key == k;
      assert ps[i + 1].key == k;
    }
  }

  /** `obj[k]` for an own property: `undefined` when absent. */
  function Get(ps: seq<Prop>, k: string): (r: Option<Value>)
    ensures r.Some? <==> HasKey(ps, k)
    ensures r.Some? ==> Prop(k, r.value) in ps
    decreases |ps|
  {
    if |ps| == 0 then None
    else if ps[0].key == k then Some(ps[0].value)
    else
      HasKeyTail(ps, k);
      Get(ps[1..], k)
  }

  /** Looking past the first property. */
  lemma GetCons(p: Prop, t: seq<Prop>, k: string)
    ensures Get([p] + t, k) == if p.key == k then Some(p.value) else Get(t, k)
  {
    assert ([p] + t)[1..] == t;
  }

  /** `obj[k] = v`: an existing key keeps its place and takes the new value,
      a new key goes to the end, and every other property stays as it was. */
  function Put(ps: seq<Prop>, k: string, v: Value): (r: seq<Prop>)
    ensures |r| == if HasKey(ps, k) then |ps| else |ps| + 1
    ensures forall i | 0 <= i < |ps| :: r[i].key == ps[i].key
    ensures forall i | 0 <= i < |ps| && ps[i].key != k :: r[i] == ps[i]
    ensures |r| > |ps| ==> r[|ps|] == Prop(k, v)
    ensures Prop(k, v) in r
    decreases |ps|
  {
    if |ps| == 0 then [Prop(k, v)]
    else if ps[0].key == k then
      assert HasKey(ps, k) by { assert ps[0].key == k; }
      [Prop(k, v)] + ps[1..]
    else
      var rest := Put(ps[1..], k, v);
      var r := [ps[0]] + rest;
      HasKeyTail(ps, k);
      assert forall i | 1 <= i < |ps| :: r[i] == rest[i - 1] && ps[i] == ps[1..][i - 1];
      r
  }

  /** After `obj[k] = v`, `k` reads `v` and every other key reads as before. */
  lemma {:induction false} PutReads(ps: seq<Prop>, k: string, v: Value)
    ensures Get(Put(ps, k, v), k) == Some(v)
    ensures forall k' | k' != k :: Get(Put(ps, k, v), k') == Get(ps, k')
    decreases |ps|
  {
    var r := Put(ps, k, v);
    if |ps| == 0 {
      forall k' | k' != k
        ensures Get(r, k') == Get(ps, k')
      {
        GetCons(Prop(k, v), [], k');
      }
    } else {
      assert ps == [ps[0]] + ps[1..];
      if ps[0].key == k {
        forall k' | k' != k
          ensures Get(r, k') == Get(ps, k')
        {
          GetCons(Prop(k, v), ps[1..], k');
          GetCons(ps[0], ps[1..], k');
        }
      } else {
        PutReads(ps[1..], k, v);
        var rest := Put(ps[1..], k, v);
        assert r == [ps[0]] + rest;
        GetCons(ps[0], rest, k);
        forall k' | k' != k
          ensures Get(r, k') == Get(ps, k')
        {
          GetCons(ps[0], rest, k');
          GetCons(ps[0], ps[1..], k');
        }
      }
    }
  }

  /** Writing one property keeps an object free of repeated keys. */
  lemma PutDistinct(ps: seq<Prop>, k: string, v: Value)
    requires DistinctKeys(ps)
    ensures DistinctKeys(Put(ps, k, v))
  {
    var r := Put(ps, k, v);
    forall i, j | 0 <= i < j < |r|
      ensures r[i].key != r[j].key
    {
      if j < |ps| {
        assert r[i].key == ps[i].key && r[j].key == ps[j].key;
      } else {
        assert |r| == |ps| + 1 && !HasKey(ps, k);
        assert r[j] == Prop(k, v);
        assert r[i].key == ps[i].key;
      }
    }
  }

  /** `Object.assign(target, source)`: every property of `source`, in order,
      is written into `target`. Keys of `target` keep their places; a key
      `source` does not hold keeps its value. */
  function Assign(target: seq<Prop>, source: seq<Prop>): (r: seq<Prop>)
    ensures |target| <= |r| <= |target| + |source|
    ensures forall i | 0 <= i < |target| :: r[i].key == target[i].key
    ensures forall k :: !HasKey(source, k) ==> Get(r, k) == Get(target, k)
    decreases |source|
  {
    if |source| == 0 then target
    else
      var next := Put(target, source[0].key, source[0].value);
      var r := Assign(next, source[1..]);
      PutReads(target, source[0].key, source[0].value);
      forall k | !HasKey(source, k)
        ensures Get(r, k) == Get(target, k)
      {
        assert source[0].key != k;
        forall i | 0 <= i < |source[1..]|
          ensures source[1..][i].key != k
        {
          assert source[1..][i] == source[i + 1];
        }
      }
      r
  }

  /** The merged object is again free of repeated keys. */
  lemma {:induction false} AssignDistinct(target: seq<Prop>, source: seq<Prop>)
    requires DistinctKeys(target)
    ensures DistinctKeys(Assign(target, source))
    decreases |source|
  {
    if |source| > 0 {
      PutDistinct(target, source[0].key, source[0].value);
      AssignDistinct(Put(target, source[0].key, source[0].value), source[1..]);
    }
  }

  /** When `source` is a JavaScript object (no key twice), each of its keys
      ends up with `source`'s value: the source wins every shared key. */
  lemma {:induction false} AssignSourceWins(target: seq<Prop>, source: seq<Prop>, k: string)
    requires DistinctKeys(source)
    requires HasKey(source, k)
    ensures Get(Assign(target, source), k) == Get(source, k)
    decreases |source|
  {
    var next := Put(target, source[0].key, source[0].value);
    PutReads(target, source[0].key, source[0].value);
    if source[0].key == k {
      forall i | 0 <= i < |source[1..]|
        ensures source[1..][i].key != k
      {
        assert source[1..][i] == source[i + 1];
      }
    } else {
      var i :| 0 <= i < |source| && source[i].key == k;
      assert source[1..][i - 1].key == k;
      assert Get(source, k) == Get(source[1..], k);
      AssignSourceWins(next, source[1..], k);
    }
  }

  /** `v != false` under JavaScript's loose equality: `undefined` and every
      plain object differ from `false`, a boolean differs exactly when it is
      `true`, and a string differs unless it converts to the number 0.
      String-to-number conversion is floating-point parsing, which this model
      leaves to the caller as `textIsZero`. */
  function LooseNotFalse(v: Option<Value>, textIsZero: string -> bool): (r: bool)
    ensures !r <==> v == Some(Bool(false)) || (v.Some? && v.value.Text? && textIsZero(v.value.s))
  {
    match v
    case None => true
    case Some(Bool(b)) => b
    case Some(Text(s)) => !textIsZero(s)
    case Some(Obj(_)) => true
  }

  /** The string `setAttribute` stores for a value (`String(v)`). */
  function AttributeText(v: Option<Value>): (r: string)
    ensures v.None? ==> r == "undefined"
    ensures v.Some? && v.value.Bool? ==> r == (if v.value.b then "true" else "false")
    ensures v.Some? && v.value.Text? ==> r == v.value.s
    ensures v.Some? && v.value.Obj? ==> r == "[object Object]"
  {
    match v
    case None => "undefined"
    case Some(Bool(b)) => if b then "true" else "false"
    case Some(Text(s)) => s
    case Some(Obj(_)) => "[object Object]"
  }

  /** `v[Object.keys(v)[0]]`: the value under the first key, `undefined`
      when there is none. A boolean has no own keys; a string's first key is
      `"0"`, holding its first character. */
  function FirstValue(v: Value): (r: Option<Value>)
    ensures v.Obj? && |v.props| > 0 ==> r == Some(v.props[0].value)
    ensures v.Obj? && |v.props| == 0 ==> r == None
    ensures v.Bool? ==> r == None
    ensures v.Text? && |v.s| > 0 ==> r == Some(Text([v.s[0]]))
    ensures v.Text? && |v.s| == 0 ==> r == None
  {
    match v
    case Bool(_) => None
    case Text(s) => if |s| > 0 then Some(Text([s[0]])) else None
    case Obj(ps) => if |ps| > 0 then Some(ps[0].value) else None
  }

  /** `typeof v == 'boolean'`. */
  predicate IsBoolean(v: Option<Value>) {
    v.Some? && v.value.Bool?
  }
}
