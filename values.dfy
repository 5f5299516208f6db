/**
 * The value model: one case per wire shape, the length limits under which the
 * encoder accepts a value, and the equivalence `Equiv` under which the
 * encoder's output is determined.
 */
module Values {
  import opened Bytes

  /** A MessagePack value. `Float` and `Double` carry their IEEE-754 bit
      patterns, `String` carries its UTF-8 bytes, and `Map` carries its entries
      in the order the dictionary yields them. */
  datatype Value =
    | Nil
    | Bool(flag: bool)
    | Int(signed: int64)
    | UInt(unsigned: uint64)
    | Float(bits32: uint32)
    | Double(bits64: uint64)
    | String(utf8: seq<byte>)
    | Binary(data: seq<byte>)
    | Array(items: seq<Value>)
    | Map(pairs: seq<(Value, Value)>)
    | Extended(extType: int8, payload: seq<byte>)

  /** The largest count `UInt32(count)` can hold. */
  const MaxCount: nat := 0xffff_ffff

  /** The encoder's length limits: every string, binary, extended payload and
      array holds at most 0xffff_ffff elements, and every map fewer than that,
      at every depth. Beyond them the encoder traps. */
  predicate Packable(v: Value)
    decreases v
  {
    match v
    case String(s) => |s| <= MaxCount
    case Binary(d) => |d| <= MaxCount
    case Extended(_, d) => |d| <= MaxCount
    case Array(items) =>
      && |items| <= MaxCount
      && forall i | 0 <= i < |items| :: Packable(items[i])
    case Map(pairs) =>
      && |pairs| < MaxCount
      && forall i | 0 <= i < |pairs| :: Packable(pairs[i].0) && Packable(pairs[i].1)
    case _ => true
  }

  /** Every non-negative `Int` rewritten as the `UInt` of the same number, at
      every depth; everything else unchanged. */
  function Normalize(v: Value): (r: Value)
    decreases v
  {
    match v
    case Int(n) => if n >= 0 then UInt(n as uint64) else v
    case Array(items) => Array(NormalizeEach(items))
    case Map(pairs) => Map(NormalizePairs(pairs))
    case _ => v
  }

  function NormalizeEach(items: seq<Value>): (r: seq<Value>)
    ensures |r| == |items|
    decreases items
  {
    if items == [] then [] else [Normalize(items[0])] + NormalizeEach(items[1..])
  }

  function NormalizePairs(pairs: seq<(Value, Value)>): (r: seq<(Value, Value)>)
    ensures |r| == |pairs|
    decreases pairs
  {
    if pairs == [] then []
    else
      assert pairs[0] in pairs;
      assert pairs[0].0 < pairs[0] && pairs[0].1 < pairs[0];
      [(Normalize(pairs[0].0), Normalize(pairs[0].1))] + NormalizePairs(pairs[1..])
  }

  /** `.Int(n)` and `.UInt(n)` are the same value when n >= 0, as in the
      library's equality; otherwise values are compared structurally, map
      entries included in their iteration order. That makes `Equiv` stricter
      than the library's equality on maps, which ignores entry order: two
      equal dictionaries that iterate in different orders are not `Equiv`,
      and they pack to different bytes. */
  predicate Equiv(a: Value, b: Value)
  {
    Normalize(a) == Normalize(b)
  }

  /** Element i of NormalizeEach is Normalize of element i. */
  lemma {:induction false} NormalizeEachAt(items: seq<Value>, i: nat)
    requires i < |items|
    ensures NormalizeEach(items)[i] == Normalize(items[i])
    decreases items
  {
    if i > 0 {
      NormalizeEachAt(items[1..], i - 1);
    }
  }

  /** Entry i of NormalizePairs is the normalized entry i. */
  lemma {:induction false} NormalizePairsAt(pairs: seq<(Value, Value)>, i: nat)
    requires i < |pairs|
    ensures NormalizePairs(pairs)[i] == (Normalize(pairs[i].0), Normalize(pairs[i].1))
    decreases pairs
  {
    if i > 0 {
      NormalizePairsAt(pairs[1..], i - 1);
    }
  }

  /** Equivalence case by case: an `Int` and a `UInt` are equivalent exactly
      when they hold the same number; arrays and maps are equivalent exactly
      when they have the same length and are equivalent element by element
      (entry by entry, key and value, in order); otherwise values of
      different cases are never equivalent, and values of the same scalar
      case are equivalent exactly when they are equal. */
  lemma EquivCases(a: Value, b: Value)
    ensures a.Int? && b.UInt? ==> (Equiv(a, b) <==> a.signed as int == b.unsigned as int)
    ensures a.Int? && b.Int? ==> (Equiv(a, b) <==> a == b)
    ensures a.UInt? && b.UInt? ==> (Equiv(a, b) <==> a == b)
    ensures a.Array? && b.Array? ==>
      (Equiv(a, b) <==>
        |a.items| == |b.items| &&
        forall i | 0 <= i < |a.items| :: Equiv(a.items[i], b.items[i]))
    ensures a.Map? && b.Map? ==>
      (Equiv(a, b) <==>
        |a.pairs| == |b.pairs| &&
        forall i | 0 <= i < |a.pairs| ::
          Equiv(a.pairs[i].0, b.pairs[i].0) && Equiv(a.pairs[i].1, b.pairs[i].1))
    ensures !(a.Int? || a.UInt?) && !(a.Array? && b.Array?) && !(a.Map? && b.Map?) ==>
      (Equiv(a, b) <==> a == b)
  {
    if a.Array? && b.Array? {
      EquivArrays(a.items, b.items);
    }
    if a.Map? && b.Map? {
      EquivMaps(a.pairs, b.pairs);
    }
    if !(a.Int? || a.UInt?) && !(a.Array? && b.Array?) && !(a.Map? && b.Map?) && Equiv(a, b) {
      NormalizeInjectiveOff(a, b);
    }
  }

  /** Two arrays are equivalent exactly when they are equivalent element by
      element. */
  lemma EquivArrays(xs: seq<Value>, ys: seq<Value>)
    ensures Equiv(Array(xs), Array(ys)) <==>
      |xs| == |ys| && forall i | 0 <= i < |xs| :: Equiv(xs[i], ys[i])
  {
    forall i | 0 <= i < |xs| && |xs| == |ys|
      ensures NormalizeEach(xs)[i] == Normalize(xs[i]) && NormalizeEach(ys)[i] == Normalize(ys[i])
    {
      NormalizeEachAt(xs, i);
      NormalizeEachAt(ys, i);
    }
    if |xs| == |ys| && forall i | 0 <= i < |xs| :: Equiv(xs[i], ys[i]) {
      assert NormalizeEach(xs) == NormalizeEach(ys);
    }
  }

  /** Two maps are equivalent exactly when they are equivalent entry by
      entry, key and value, in order. */
  lemma EquivMaps(ps: seq<(Value, Value)>, qs: seq<(Value, Value)>)
    ensures Equiv(Map(ps), Map(qs)) <==>
      |ps| == |qs| &&
      forall i | 0 <= i < |ps| :: Equiv(ps[i].0, qs[i].0) && Equiv(ps[i].1, qs[i].1)
  {
    forall i | 0 <= i < |ps| && |ps| == |qs|
      ensures NormalizePairs(ps)[i] == (Normalize(ps[i].0), Normalize(ps[i].1))
      ensures NormalizePairs(qs)[i] == (Normalize(qs[i].0), Normalize(qs[i].1))
    {
      NormalizePairsAt(ps, i);
      NormalizePairsAt(qs, i);
    }
    if |ps| == |qs| && forall i | 0 <= i < |ps| :: Equiv(ps[i].0, qs[i].0) && Equiv(ps[i].1, qs[i].1) {
      assert NormalizePairs(ps) == NormalizePairs(qs);
    }
  }

  /** Outside the numeric cases and the containers, Normalize is the
      identity, so equivalence there is equality. */
  lemma NormalizeInjectiveOff(a: Value, b: Value)
    requires !(a.Int? || a.UInt?) && !(a.Array? && b.Array?) && !(a.Map? && b.Map?)
    requires Normalize(a) == Normalize(b)
    ensures a == b
  {
  }

  /** Normalizing twice is normalizing once: a normalized value is its own
      representative. */
  lemma {:induction false} NormalizeIdempotent(v: Value)
    ensures Normalize(Normalize(v)) == Normalize(v)
    decreases v
  {
    match v
    case Array(items) => NormalizeEachIdempotent(items);
    case Map(pairs) => NormalizePairsIdempotent(pairs);
    case _ =>
  }

  lemma {:induction false} NormalizeEachIdempotent(items: seq<Value>)
    ensures NormalizeEach(NormalizeEach(items)) == NormalizeEach(items)
    decreases items
  {
    if items != [] {
      NormalizeIdempotent(items[0]);
      NormalizeEachIdempotent(items[1..]);
      var n := NormalizeEach(items);
      assert n[0] == Normalize(items[0]) && n[1..] == NormalizeEach(items[1..]);
    }
  }

  lemma {:induction false} NormalizePairsIdempotent(pairs: seq<(Value, Value)>)
    ensures NormalizePairs(NormalizePairs(pairs)) == NormalizePairs(pairs)
    decreases pairs
  {
    if pairs != [] {
      assert pairs[0] in pairs;
      assert pairs[0].0 < pairs[0] && pairs[0].1 < pairs[0];
      NormalizeIdempotent(pairs[0].0);
      NormalizeIdempotent(pairs[0].1);
      NormalizePairsIdempotent(pairs[1..]);
      var n := NormalizePairs(pairs);
      assert n[0] == (Normalize(pairs[0].0), Normalize(pairs[0].1));
      assert n[1..] == NormalizePairs(pairs[1..]);
    }
  }

  /** A value and its normalized form are within the same length limits. */
  lemma {:induction false} NormalizePackable(v: Value)
    ensures Packable(Normalize(v)) <==> Packable(v)
    decreases v
  {
    match v
    case Array(items) =>
      forall i | 0 <= i < |items|
        ensures NormalizeEach(items)[i] == Normalize(items[i])
        ensures Packable(Normalize(items[i])) <==> Packable(items[i])
      {
        NormalizeEachAt(items, i);
        NormalizePackable(items[i]);
      }
    case Map(pairs) =>
      forall i | 0 <= i < |pairs|
        ensures NormalizePairs(pairs)[i] == (Normalize(pairs[i].0), Normalize(pairs[i].1))
        ensures Packable(Normalize(pairs[i].0)) <==> Packable(pairs[i].0)
        ensures Packable(Normalize(pairs[i].1)) <==> Packable(pairs[i].1)
      {
        NormalizePairsAt(pairs, i);
        assert pairs[i] in pairs;
        assert pairs[i].0 < pairs[i] && pairs[i].1 < pairs[i];
        NormalizePackable(pairs[i].0);
        NormalizePackable(pairs[i].1);
      }
    case _ =>
  }
}
