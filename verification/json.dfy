/** The document type shared by the browser side and the Python side.
    A mapping is an insertion-ordered list of entries with unique keys:
    assigning to an existing key overwrites the value in place and keeps
    its position, assigning to a new key appends it, which is how both
    JavaScript objects (with non-numeric keys) and Python dicts behave.
    `JTuple` is the Python tuple that node outputs are wrapped in. */
module Json {
  import opened Wrappers
  import opened Text

  datatype JVal =
    | JStr(str: string)
    | JNull
    | JArr(items: seq<JVal>)
    | JObj(fields: seq<(string, JVal)>)
    | JTuple(elems: seq<JVal>)

  type Fields = seq<(string, JVal)>

  // ---------------------------------------------------------------------
  // Ordered maps with string keys
  // ---------------------------------------------------------------------

  /** The value stored under `k`, if any. */
  function Get<V>(fs: seq<(string, V)>, k: string): Option<V> {
    if |fs| == 0 then None
    else if fs[0].0 == k then Some(fs[0].1)
    else Get(fs[1..], k)
  }

  /** A lookup finds a value exactly when some entry carries the key. */
  lemma {:induction false} GetSome<V>(fs: seq<(string, V)>, k: string)
    ensures Get(fs, k).Some? <==> exists i :: 0 <= i < |fs| && fs[i].0 == k
    decreases |fs|
  {
    if |fs| > 0 && fs[0].0 == k {
      assert fs[0].0 == k;
    } else if |fs| > 0 {
      GetSome(fs[1..], k);
      if i :| 0 <= i < |fs| && fs[i].0 == k {
        assert fs[1..][i - 1].0 == k;
      }
      if j :| 0 <= j < |fs| - 1 && fs[1..][j].0 == k {
        assert fs[j + 1].0 == k;
      }
    }
  }

  predicate HasKey<V>(fs: seq<(string, V)>, k: string) {
    Get(fs, k).Some?
  }

  function KeysOf<V>(fs: seq<(string, V)>): (r: seq<string>)
    ensures |r| == |fs|
    ensures forall i :: 0 <= i < |fs| ==> r[i] == fs[i].0
  {
    if |fs| == 0 then [] else [fs[0].0] + KeysOf(fs[1..])
  }

  /** No key occurs twice: the first entry's key is absent from the rest,
      and the rest has unique keys. */
  predicate UniqueKeys<V>(fs: seq<(string, V)>)
    decreases |fs|
  {
    |fs| == 0 || (!HasKey(fs[1..], fs[0].0) && UniqueKeys(fs[1..]))
  }

  /** The recursive definition agrees with the pairwise one: no two
      entries share a key. */
  lemma {:induction false} UniqueKeysPairwise<V>(fs: seq<(string, V)>)
    ensures UniqueKeys(fs) <==> forall i, j :: 0 <= i < j < |fs| ==> fs[i].0 != fs[j].0
    decreases |fs|
  {
    if |fs| > 0 {
      UniqueKeysPairwise(fs[1..]);
      GetSome(fs[1..], fs[0].0);
      assert forall i :: 0 <= i < |fs| - 1 ==> fs[1..][i] == fs[i + 1];
    }
  }

  /** `obj[k] = v`: overwrite in place when `k` is present, append otherwise. */
  function SetKey<V>(fs: seq<(string, V)>, k: string, v: V): (r: seq<(string, V)>)
    ensures Get(r, k) == Some(v)
    ensures forall k' :: k' != k ==> Get(r, k') == Get(fs, k')
    ensures HasKey(fs, k) ==> |r| == |fs| && KeysOf(r) == KeysOf(fs)
    ensures !HasKey(fs, k) ==> r == fs + [(k, v)]
    ensures UniqueKeys(fs) ==> UniqueKeys(r)
  {
    if |fs| == 0 then [(k, v)]
    else if fs[0].0 == k then
      assert ([(k, v)] + fs[1..])[1..] == fs[1..];
      [(k, v)] + fs[1..]
    else
      var rest := SetKey(fs[1..], k, v);
      assert [fs[0]] + fs[1..] == fs;
      ConsGet(fs[0], fs[1..], rest, k, v);
      ConsKeys(fs[0], fs[1..], rest);
      ConsUnique(fs[0], rest);
      [fs[0]] + rest
  }

  /** Lookups through a shared head entry that does not carry `k`. */
  lemma ConsGet<V>(x: (string, V), tail: seq<(string, V)>, rest: seq<(string, V)>, k: string, v: V)
    requires x.0 != k
    requires Get(rest, k) == Some(v)
    requires forall k' :: k' != k ==> Get(rest, k') == Get(tail, k')
    ensures Get([x] + rest, k) == Some(v)
    ensures forall k' :: k' != k ==> Get([x] + rest, k') == Get([x] + tail, k')
    ensures HasKey([x] + tail, k) == HasKey(tail, k)
  {
    assert ([x] + rest)[1..] == rest;
    assert ([x] + tail)[1..] == tail;
  }

  /** A shared head entry keeps equal key lists equal and appends
      commute with it. */
  lemma ConsKeys<V>(x: (string, V), tail: seq<(string, V)>, rest: seq<(string, V)>)
    ensures KeysOf(rest) == KeysOf(tail) ==> KeysOf([x] + rest) == KeysOf([x] + tail)
    ensures forall e :: rest == tail + [e] ==> [x] + rest == ([x] + tail) + [e]
  {
    assert ([x] + rest)[1..] == rest;
    assert ([x] + tail)[1..] == tail;
  }

  /** Prepending an entry whose key is new keeps keys unique. */
  lemma ConsUnique<V>(x: (string, V), rest: seq<(string, V)>)
    ensures UniqueKeys(rest) && !HasKey(rest, x.0) ==> UniqueKeys([x] + rest)
  {
    assert ([x] + rest)[1..] == rest;
  }

  /** `{ ...a, ...b }`: the entries of `b` assigned one by one onto `a`. */
  function Merge<V>(a: seq<(string, V)>, b: seq<(string, V)>): (r: seq<(string, V)>)
    ensures forall k :: !HasKey(b, k) ==> Get(r, k) == Get(a, k)
    ensures UniqueKeys(a) ==> UniqueKeys(r)
    decreases |b|
  {
    if |b| == 0 then a else Merge(SetKey(a, b[0].0, b[0].1), b[1..])
  }

  /** A key of `b` takes `b`'s value; every other key keeps `a`'s. */
  lemma {:induction false} MergeGet<V>(a: seq<(string, V)>, b: seq<(string, V)>, k: string)
    requires UniqueKeys(b)
    ensures Get(Merge(a, b), k) == if HasKey(b, k) then Get(b, k) else Get(a, k)
    decreases |b|
  {
    if |b| > 0 {
      MergeGet(SetKey(a, b[0].0, b[0].1), b[1..], k);
      if b[0].0 == k {
        assert !HasKey(b[1..], k) by {
          GetSome(b[1..], k);
          forall i | 0 <= i < |b[1..]| ensures b[1..][i].0 != k {
            assert b[1..][i] == b[i + 1];
          }
        }
      }
    }
  }

  /** The entries of `es` assigned one by one onto an empty mapping (a
      loop of `result[k] = v`). */
  function Assign<V>(es: seq<(string, V)>): (r: seq<(string, V)>)
    ensures UniqueKeys(r)
    decreases |es|
  {
    if |es| == 0 then [] else SetKey(Assign(es[..|es| - 1]), es[|es| - 1].0, es[|es| - 1].1)
  }

  /** Assigning one more entry is one more `SetKey`. */
  lemma AssignSnoc<V>(es: seq<(string, V)>, e: (string, V))
    ensures Assign(es + [e]) == SetKey(Assign(es), e.0, e.1)
  {
    assert (es + [e])[..|es|] == es;
  }

  /** The value of the last entry keyed `k`. */
  function LastWith<V>(es: seq<(string, V)>, k: string): Option<V>
    decreases |es|
  {
    if |es| == 0 then None
    else if es[|es| - 1].0 == k then Some(es[|es| - 1].1)
    else LastWith(es[..|es| - 1], k)
  }

  /** The last entry decides when it carries the key; otherwise the
      earlier entries do. */
  lemma LastWithSnoc<V>(es: seq<(string, V)>, e: (string, V), k: string)
    ensures LastWith(es + [e], k) == if e.0 == k then Some(e.1) else LastWith(es, k)
  {
    assert (es + [e])[..|es|] == es;
  }

  /** `s` without repeats, keeping first occurrences in their order. */
  function Dedup(s: seq<string>): seq<string>
    decreases |s|
  {
    if |s| == 0 then []
    else
      var d := Dedup(s[..|s| - 1]);
      if s[|s| - 1] in d then d else d + [s[|s| - 1]]
  }

  lemma KeysOfHasKey<V>(fs: seq<(string, V)>, k: string)
    ensures k in KeysOf(fs) <==> HasKey(fs, k)
  {
    if k in KeysOf(fs) {
      var i :| 0 <= i < |fs| && KeysOf(fs)[i] == k;
      assert fs[i].0 == k;
    }
  }

  /** Assigning entries in order keeps, for each key, the last value given
      to it, and lists the keys in the order they first appeared. */
  lemma {:induction false} AssignSpec<V>(es: seq<(string, V)>)
    ensures forall k :: Get(Assign(es), k) == LastWith(es, k)
    ensures KeysOf(Assign(es)) == Dedup(KeysOf(es))
    decreases |es|
  {
    if |es| > 0 {
      var n := |es| - 1;
      AssignSpec(es[..n]);
      var acc := Assign(es[..n]);
      assert KeysOf(es)[..n] == KeysOf(es[..n]);
      KeysOfHasKey(acc, es[n].0);
    }
  }

  // ---------------------------------------------------------------------
  // Truthiness and conversions
  // ---------------------------------------------------------------------

  /** JavaScript truthiness of a JSON value: only `""` and `null` are falsy. */
  predicate JsTruthy(v: JVal) {
    match v
    case JStr(s) => s != ""
    case JNull => false
    case _ => true
  }

  /** JavaScript truthiness where `None` is `undefined`. */
  predicate JsTruthyOpt(o: Option<JVal>) {
    o.Some? && JsTruthy(o.value)
  }

  /** `x == null` in JavaScript: `null` or `undefined`. */
  predicate IsNullish(o: Option<JVal>) {
    o.None? || o.value == JNull
  }

  /** `a ?? b`. */
  function Coalesce(a: Option<JVal>, b: JVal): (r: JVal)
    ensures IsNullish(a) ==> r == b
    ensures !IsNullish(a) ==> r == a.value
  {
    if IsNullish(a) then b else a.value
  }

  /** Python truthiness: `None`, `""` and empty containers are falsy. */
  predicate PyTruthy(v: JVal) {
    match v
    case JStr(s) => s != ""
    case JNull => false
    case JArr(items) => |items| > 0
    case JObj(fs) => |fs| > 0
    case JTuple(es) => |es| > 0
  }

  /** JavaScript `String(v)`, used when a value becomes an object key or
      is passed to `String(...)`. Arrays join their elements with `,`,
      rendering `null` elements as the empty string. */
  function JsString(v: JVal): string
    decreases v, 1
  {
    match v
    case JStr(s) => s
    case JNull => "null"
    case JObj(_) => "[object Object]"
    case JArr(items) => JoinElements(items)
    case JTuple(es) => JoinElements(es)
  }

  function JoinElements(items: seq<JVal>): string
    decreases items, 0
  {
    if |items| == 0 then ""
    else
      var head := if items[0] == JNull then "" else JsString(items[0]);
      if |items| == 1 then head else head + "," + JoinElements(items[1..])
  }

  /** Every mapping inside `v`, at any depth, has unique keys. */
  predicate WellFormed(v: JVal)
    decreases v, 1
  {
    match v
    case JStr(_) => true
    case JNull => true
    case JArr(items) => AllWellFormed(items)
    case JTuple(es) => AllWellFormed(es)
    case JObj(fs) => UniqueKeys(fs) && FieldsWellFormed(fs)
  }

  predicate AllWellFormed(items: seq<JVal>)
    decreases items, 0
  {
    |items| == 0 || (WellFormed(items[0]) && AllWellFormed(items[1..]))
  }

  predicate FieldsWellFormed(fs: Fields)
    decreases fs, 0
  {
    if |fs| == 0 then true
    else
      var e := fs[0];
      assert e in fs && e.1 < e;
      WellFormed(e.1) && FieldsWellFormed(fs[1..])
  }
}
