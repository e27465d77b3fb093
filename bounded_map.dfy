/** The observable contract of the storage, with no cache at all: a plain
    dictionary holding at most `capacity` keys. This is the reference the
    cached storage is proved to behave like. */
module BoundedMap {
  import opened Outcomes

  /** A call on the public interface. */
  datatype Op<K, V> = StoreOp(key: K, value: V) | LoadOp(key: K) | RemoveOp(key: K) | ContainsOp(key: K)

  /** What the caller sees back: `store` returns nothing, `load` and
      `remove` a value, `contains` a flag; any of the first three may throw. */
  datatype Reply<V> = Stored | Value(value: V) | Present(answer: bool) | Failed(error: Error)

  /** One call on the bounded dictionary. */
  function Apply<K(==), V>(capacity: nat, m: map<K, V>, op: Op<K, V>): (r: (Reply<V>, map<K, V>))
    requires |m| <= capacity
    ensures |r.1| <= capacity
    ensures r.0.Failed? ==> r.1 == m
  {
    match op
    case StoreOp(k, v) =>
      if k in m || |m| < capacity then
        assert k !in m ==> |m[k := v]| == |m| + 1;
        (Stored, m[k := v])
      else (Failed(OutOfRange), m)
    case LoadOp(k) => if k in m then (Value(m[k]), m) else (Failed(OutOfRange), m)
    case RemoveOp(k) => if k in m then (Value(m[k]), m - {k}) else (Failed(OutOfRange), m)
    case ContainsOp(k) => (Present(k in m), m)
  }

  /** A sequence of calls: the replies in order, and the final contents. */
  function Run<K(==), V>(capacity: nat, m: map<K, V>, ops: seq<Op<K, V>>): (r: (seq<Reply<V>>, map<K, V>))
    requires |m| <= capacity
    ensures |r.0| == |ops| && |r.1| <= capacity
    decreases |ops|
  {
    if ops == [] then ([], m)
    else
      var (a, m') := Apply(capacity, m, ops[0]);
      var (rest, m'') := Run(capacity, m', ops[1..]);
      ([a] + rest, m'')
  }
}
