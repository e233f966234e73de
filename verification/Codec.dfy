/** A wire format as a writer and a reader that undo each other.

    The grammar of `crates/onelf-format/src/runtime_metadata.rs` is built from a
    few shapes: bounded strings, tagged length-prefixed records, counted lists
    and one-byte tags. Each shape here comes with both laws, given both laws of
    its parts, so a format put together from them satisfies them at any depth.
    A reader also threads the aggregate record budget.
 */
module Codec {
  import opened Bytes
  import opened Ordering

  const MAX_RECORDS := 4096

  datatype Got<+T> = Bad | Got(value: T, rest: seq<byte>, budget: nat)

  datatype Codec<!T(!new)> = Codec(
    put: T -> seq<byte>,
    get: (seq<byte>, nat) -> Got<T>,
    valid: T -> bool,
    count: T -> nat)

  /** What was put is got back, with what followed it and its records counted. */
  ghost predicate Reads<T(!new)>(c: Codec<T>) {
    forall v: T, rest: seq<byte>, n: nat ::
      c.valid(v) && |c.put(v)| < U32_LIMIT && n + c.count(v) <= MAX_RECORDS ==>
        c.get(c.put(v) + rest, n) == Got(v, rest, n + c.count(v))
  }

  /** What was got is what putting it writes: an accepted encoding is the only one. */
  ghost predicate Writes<T(!new)>(c: Codec<T>) {
    forall b: seq<byte>, n: nat :: n <= MAX_RECORDS && c.get(b, n).Got? ==> Undone(c, b, n, c.get(b, n))
  }

  ghost predicate Undone<T(!new)>(c: Codec<T>, b: seq<byte>, n: nat, g: Got<T>)
    requires g.Got?
  {
    && c.valid(g.value)
    && b == c.put(g.value) + g.rest
    && g.budget == n + c.count(g.value) <= MAX_RECORDS
  }

  ghost predicate Lawful<T(!new)>(c: Codec<T>) { Reads(c) && Writes(c) }

  ghost predicate AtLeast<T(!new)>(c: Codec<T>, min: nat) {
    forall v: T :: c.valid(v) ==> |c.put(v)| >= min
  }

  /** A length written in front is the length read in front. */
  lemma PrefixReads(k: nat, tail: seq<byte>)
    requires k < U32_LIMIT
    ensures FromLe((U32(k) + tail)[..4]) == k && (U32(k) + tail)[4..] == tail
  {
    assert (U32(k) + tail)[..4] == U32(k);
    U32Limit();
    FromLeOfLe(k, 4);
  }

  // ---- leaves ---------------------------------------------------------------------

  function GetText(max: nat, ok: seq<byte> -> bool, b: seq<byte>, n: nat): Got<seq<byte>> {
    if |b| < 4 then Bad else
    var k := FromLe(b[..4]);
    if k == 0 || k > max || 4 + k > |b| || !ok(b[4..4 + k]) then Bad
    else Got(b[4..4 + k], b[4 + k..], n)
  }

  /** A string of one to `max` bytes that `ok` accepts, after its length. */
  function Text(max: nat, ok: seq<byte> -> bool): Codec<seq<byte>> {
    Codec(
      s => U32(|s|) + s,
      (b: seq<byte>, n: nat) => GetText(max, ok, b, n),
      s => 0 < |s| <= max && ok(s),
      s => 0)
  }

  lemma TextReads(max: nat, ok: seq<byte> -> bool, s: seq<byte>, rest: seq<byte>, n: nat)
    requires 0 < |s| <= max && ok(s) && |s| < U32_LIMIT
    ensures GetText(max, ok, U32(|s|) + s + rest, n) == Got(s, rest, n)
  {
    var b := U32(|s|) + s + rest;
    assert b == U32(|s|) + (s + rest);
    PrefixReads(|s|, s + rest);
    assert b[4..4 + |s|] == s && b[4 + |s|..] == rest;
  }

  lemma TextWrites(max: nat, ok: seq<byte> -> bool, b: seq<byte>, n: nat)
    requires GetText(max, ok, b, n).Got?
    ensures var s := GetText(max, ok, b, n).value; 0 < |s| <= max && ok(s)
    ensures b == U32(|GetText(max, ok, b, n).value|) + GetText(max, ok, b, n).value + GetText(max, ok, b, n).rest
  {
    var k := FromLe(b[..4]);
    assert b == b[..4] + b[4..4 + k] + b[4 + k..];
    assert b[..4] == U32(k) by { LeOfFromLe(b[..4]); }
  }

  lemma TextLawful(max: nat, ok: seq<byte> -> bool)
    ensures Lawful(Text(max, ok)) && AtLeast(Text(max, ok), 5)
  {
    var c := Text(max, ok);
    forall s: seq<byte>, rest: seq<byte>, n: nat | c.valid(s) && |c.put(s)| < U32_LIMIT
      ensures c.get(c.put(s) + rest, n) == Got(s, rest, n)
    {
      TextReads(max, ok, s, rest, n);
    }
    forall b: seq<byte>, n: nat | n <= MAX_RECORDS && c.get(b, n).Got?
      ensures Undone(c, b, n, c.get(b, n))
    {
      TextWrites(max, ok, b, n);
    }
  }

  /** Exactly `width` bytes. */
  function Fixed(width: nat): Codec<seq<byte>> {
    Codec(s => s, (b: seq<byte>, n: nat) => if |b| < width then Bad
      else Got(b[..width], b[width..], n), s => |s| == width, s => 0)
  }

  lemma FixedReads(width: nat, s: seq<byte>, rest: seq<byte>, n: nat)
    requires |s| == width
    ensures Fixed(width).get(s + rest, n) == Got(s, rest, n)
  {
    assert (s + rest)[..width] == s && (s + rest)[width..] == rest;
  }

  lemma FixedWrites(width: nat, b: seq<byte>, n: nat)
    requires n <= MAX_RECORDS && Fixed(width).get(b, n).Got?
    ensures Undone(Fixed(width), b, n, Fixed(width).get(b, n))
  {
    assert b == b[..width] + b[width..];
  }

  lemma FixedLawful(width: nat)
    ensures Lawful(Fixed(width)) && AtLeast(Fixed(width), width)
  {
    var c := Fixed(width);
    assert Reads(c) by {
      forall s: seq<byte>, rest: seq<byte>, n: nat | c.valid(s)
        ensures c.get(c.put(s) + rest, n) == Got(s, rest, n)
      {
        FixedReads(width, s, rest, n);
      }
    }
    assert Writes(c) by {
      forall b: seq<byte>, n: nat | n <= MAX_RECORDS && c.get(b, n).Got?
        ensures Undone(c, b, n, c.get(b, n))
      {
        FixedWrites(width, b, n);
      }
    }
  }

  /** A value of a closed enumeration, as one byte. */
  function Enum<T(!new)>(tag: T -> byte, untag: byte -> Option<T>): Codec<T> {
    Codec(
      v => [tag(v)],
      (b: seq<byte>, n: nat) => if b == [] || untag(b[0]).None? then Bad else Got(untag(b[0]).value, b[1..], n),
      v => true,
      v => 0)
  }

  lemma EnumLawful<T(!new)>(tag: T -> byte, untag: byte -> Option<T>)
    requires forall v: T :: untag(tag(v)) == Some(v)
    requires forall b: byte :: untag(b).Some? ==> tag(untag(b).value) == b
    ensures Lawful(Enum(tag, untag)) && AtLeast(Enum(tag, untag), 1)
  {
    var c := Enum(tag, untag);
    forall v: T, rest: seq<byte>, n: nat
      ensures c.get(c.put(v) + rest, n) == Got(v, rest, n)
    {
      assert ([tag(v)] + rest)[1..] == rest;
    }
    forall b: seq<byte>, n: nat | n <= MAX_RECORDS && c.get(b, n).Got?
      ensures Undone(c, b, n, c.get(b, n))
    {
      assert b == [b[0]] + b[1..];
    }
  }

  // ---- combinations -----------------------------------------------------------------

  function Pair<A(!new), B(!new)>(a: Codec<A>, b: Codec<B>): Codec<(A, B)> {
    Codec(
      (v: (A, B)) => a.put(v.0) + b.put(v.1),
      (s: seq<byte>, n: nat) =>
        (match a.get(s, n)
         case Bad => Bad
         case Got(x, rest, m) =>
           match b.get(rest, m)
           case Bad => Bad
           case Got(y, tail, k) => Got((x, y), tail, k)),
      (v: (A, B)) => a.valid(v.0) && b.valid(v.1),
      (v: (A, B)) => (a.count(v.0) + b.count(v.1)) as nat)
  }

  lemma PairLength<A(!new), B(!new)>(a: Codec<A>, b: Codec<B>, minA: nat, minB: nat)
    requires AtLeast(a, minA) && AtLeast(b, minB)
    ensures AtLeast(Pair(a, b), minA + minB)
  {
    forall v: (A, B) | Pair(a, b).valid(v)
      ensures |Pair(a, b).put(v)| >= minA + minB
    {
      assert |a.put(v.0)| >= minA && |b.put(v.1)| >= minB;
    }
  }

  lemma PairLawful<A(!new), B(!new)>(a: Codec<A>, b: Codec<B>, minA: nat, minB: nat)
    requires Lawful(a) && Lawful(b) && AtLeast(a, minA) && AtLeast(b, minB)
    ensures Lawful(Pair(a, b)) && AtLeast(Pair(a, b), minA + minB)
  {
    var c := Pair(a, b);
    PairLength(a, b, minA, minB);
    forall v: (A, B), rest: seq<byte>, n: nat | c.valid(v) && |c.put(v)| < U32_LIMIT && n + c.count(v) <= MAX_RECORDS
      ensures c.get(c.put(v) + rest, n) == Got(v, rest, n + c.count(v))
    {
      assert c.put(v) + rest == a.put(v.0) + (b.put(v.1) + rest);
      assert a.get(a.put(v.0) + (b.put(v.1) + rest), n).Got?;
      assert b.get(b.put(v.1) + rest, n + a.count(v.0)).Got?;
    }
    forall s: seq<byte>, n: nat | n <= MAX_RECORDS && c.get(s, n).Got?
      ensures Undone(c, s, n, c.get(s, n))
    {
      var x := a.get(s, n);
      assert Undone(a, s, n, x);
      var y := b.get(x.rest, x.budget);
      assert Undone(b, x.rest, x.budget, y);
      assert s == a.put(x.value) + b.put(y.value) + y.rest;
    }
  }

  /** The same bytes read as another type. */
  function Iso<A(!new), B(!new)>(a: Codec<A>, make: A -> B, take: B -> A): Codec<B> {
    Codec(
      (v: B) => a.put(take(v)),
      (s: seq<byte>, n: nat) =>
        (match a.get(s, n)
         case Bad => Bad
         case Got(x, rest, m) => Got(make(x), rest, m)),
      (v: B) => a.valid(take(v)),
      (v: B) => a.count(take(v)))
  }

  lemma IsoLawful<A(!new), B(!new)>(a: Codec<A>, make: A -> B, take: B -> A, min: nat)
    requires Lawful(a) && AtLeast(a, min)
    requires forall x: A :: take(make(x)) == x
    requires forall y: B :: make(take(y)) == y
    ensures Lawful(Iso(a, make, take)) && AtLeast(Iso(a, make, take), min)
  {
    var c := Iso(a, make, take);
    forall v: B, rest: seq<byte>, n: nat | c.valid(v) && |c.put(v)| < U32_LIMIT && n + c.count(v) <= MAX_RECORDS
      ensures c.get(c.put(v) + rest, n) == Got(v, rest, n + c.count(v))
    {
      assert a.get(a.put(take(v)) + rest, n).Got?;
    }
    forall s: seq<byte>, n: nat | n <= MAX_RECORDS && c.get(s, n).Got?
      ensures Undone(c, s, n, c.get(s, n))
    {
      assert Undone(a, s, n, a.get(s, n));
    }
  }

  function GetRecord<T(!new)>(tag: byte, a: Codec<T>, b: seq<byte>, n: nat): Got<T> {
    if |b| < 4 then Bad else
    var k := FromLe(b[..4]);
    if k == 0 || 4 + k > |b| || b[4] != tag then Bad
    else match a.get(b[5..4 + k], n)
      case Bad => Bad
      case Got(v, rest, m) => if rest == [] then Got(v, b[4 + k..], m) else Bad
  }

  /** A body behind its length and its tag. Nothing may follow the body inside the record. */
  function Record<T(!new)>(tag: byte, a: Codec<T>): Codec<T> {
    Codec(
      v => U32(|a.put(v)| + 1) + [tag] + a.put(v),
      (b: seq<byte>, n: nat) => GetRecord(tag, a, b, n),
      v => a.valid(v),
      v => a.count(v))
  }

  lemma RecordReads<T(!new)>(tag: byte, a: Codec<T>, v: T, rest: seq<byte>, n: nat)
    requires Reads(a) && a.valid(v) && |a.put(v)| + 5 < U32_LIMIT && n + a.count(v) <= MAX_RECORDS
    ensures GetRecord(tag, a, U32(|a.put(v)| + 1) + [tag] + a.put(v) + rest, n) == Got(v, rest, n + a.count(v))
  {
    var k := |a.put(v)| + 1;
    var b := U32(k) + [tag] + a.put(v) + rest;
    assert FromLe(b[..4]) == k by {
      assert b == U32(k) + ([tag] + a.put(v) + rest);
      PrefixReads(k, [tag] + a.put(v) + rest);
    }
    assert b[5..4 + k] == a.put(v) && b[4 + k..] == rest;
    assert a.get(a.put(v), n) == Got(v, [], n + a.count(v)) by {
      assert a.put(v) + [] == a.put(v);
      assert a.get(a.put(v) + [], n).Got?;
    }
  }

  lemma RecordParts(b: seq<byte>, k: nat)
    requires 0 < k && 4 + k <= |b|
    ensures b == b[..4] + [b[4]] + b[5..4 + k] + b[4 + k..]
  {
  }

  lemma RecordWrites<T(!new)>(tag: byte, a: Codec<T>, b: seq<byte>, n: nat)
    requires Writes(a) && n <= MAX_RECORDS && Record(tag, a).get(b, n).Got?
    ensures Undone(Record(tag, a), b, n, Record(tag, a).get(b, n))
  {
    var k := FromLe(b[..4]);
    var body := b[5..4 + k];
    var g := a.get(body, n);
    assert body == a.put(g.value) by {
      assert Undone(a, body, n, g);
      assert a.put(g.value) + [] == a.put(g.value);
    }
    assert b[..4] == U32(k) by { LeOfFromLe(b[..4]); }
    RecordParts(b, k);
  }

  lemma RecordLength<T(!new)>(tag: byte, a: Codec<T>, min: nat)
    requires AtLeast(a, min)
    ensures AtLeast(Record(tag, a), min + 5)
  {
  }

  lemma RecordLawful<T(!new)>(tag: byte, a: Codec<T>, min: nat)
    requires Lawful(a) && AtLeast(a, min)
    ensures Lawful(Record(tag, a)) && AtLeast(Record(tag, a), min + 5)
  {
    var c := Record(tag, a);
    RecordLength(tag, a, min);
    assert Reads(c) by {
      forall v: T, rest: seq<byte>, n: nat | a.valid(v) && |c.put(v)| < U32_LIMIT && n + a.count(v) <= MAX_RECORDS
        ensures c.get(c.put(v) + rest, n) == Got(v, rest, n + a.count(v))
      {
        assert |c.put(v)| == |a.put(v)| + 5;
        RecordReads(tag, a, v, rest, n);
      }
    }
    assert Writes(c) by {
      forall b: seq<byte>, n: nat | n <= MAX_RECORDS && c.get(b, n).Got?
        ensures Undone(c, b, n, c.get(b, n))
      {
        RecordWrites(tag, a, b, n);
      }
    }
  }

  /** Zero, or one and a value that counts as a record of its own. */
  function Maybe<T(!new)>(a: Codec<T>): Codec<Option<T>> {
    Codec(
      (v: Option<T>) => if v.None? then [0] else [1] + a.put(v.value),
      (b: seq<byte>, n: nat) =>
        if b == [] then Bad
        else if b[0] == 0 then Got(None, b[1..], n)
        else if b[0] != 1 || n + 1 > MAX_RECORDS then Bad
        else match a.get(b[1..], n + 1)
          case Bad => Bad
          case Got(v, rest, m) => Got(Some(v), rest, m),
      (v: Option<T>) => v.Some? ==> a.valid(v.value),
      (v: Option<T>) => (if v.None? then 0 else 1 + a.count(v.value)) as nat)
  }

  lemma MaybeReads<T(!new)>(a: Codec<T>, v: Option<T>, rest: seq<byte>, n: nat)
    requires Reads(a) && (v.Some? ==> a.valid(v.value) && |a.put(v.value)| < U32_LIMIT)
    requires n + Maybe(a).count(v) <= MAX_RECORDS
    ensures Maybe(a).get(Maybe(a).put(v) + rest, n) == Got(v, rest, n + Maybe(a).count(v))
  {
    var b := Maybe(a).put(v) + rest;
    if v.Some? {
      assert b == [1] + (a.put(v.value) + rest);
      assert b[1..] == a.put(v.value) + rest;
      assert a.get(a.put(v.value) + rest, n + 1).Got?;
    } else {
      assert b == [0] + rest && b[1..] == rest;
    }
  }

  lemma MaybeWrites<T(!new)>(a: Codec<T>, b: seq<byte>, n: nat)
    requires Writes(a) && n <= MAX_RECORDS && Maybe(a).get(b, n).Got?
    ensures Undone(Maybe(a), b, n, Maybe(a).get(b, n))
  {
    assert b == [b[0]] + b[1..];
    if b[0] == 1 { assert Undone(a, b[1..], n + 1, a.get(b[1..], n + 1)); }
  }

  lemma MaybeLawful<T(!new)>(a: Codec<T>)
    requires Lawful(a)
    ensures Lawful(Maybe(a)) && AtLeast(Maybe(a), 1)
  {
    var c := Maybe(a);
    forall v: Option<T>, rest: seq<byte>, n: nat | c.valid(v) && |c.put(v)| < U32_LIMIT && n + c.count(v) <= MAX_RECORDS
      ensures c.get(c.put(v) + rest, n) == Got(v, rest, n + c.count(v))
    {
      MaybeReads(a, v, rest, n);
    }
    forall b: seq<byte>, n: nat | n <= MAX_RECORDS && c.get(b, n).Got?
      ensures Undone(c, b, n, c.get(b, n))
    {
      MaybeWrites(a, b, n);
    }
  }

  // ---- counted lists ------------------------------------------------------------------

  function PutAll<T(!new)>(a: Codec<T>, vs: seq<T>): seq<byte> {
    if vs == [] then [] else a.put(vs[0]) + PutAll(a, vs[1..])
  }

  function CountAll<T(!new)>(a: Codec<T>, vs: seq<T>): nat {
    if vs == [] then 0 else a.count(vs[0]) + CountAll(a, vs[1..])
  }

  predicate ValidAll<T(!new)>(a: Codec<T>, vs: seq<T>) {
    forall i :: 0 <= i < |vs| ==> a.valid(vs[i])
  }

  function GetAll<T(!new)>(a: Codec<T>, k: nat, b: seq<byte>, n: nat): Got<seq<T>> {
    if k == 0 then Got([], b, n)
    else match a.get(b, n)
      case Bad => Bad
      case Got(v, rest, m) =>
        match GetAll(a, k - 1, rest, m)
        case Bad => Bad
        case Got(vs, tail, j) => Got([v] + vs, tail, j)
  }

  function GetList<T(!new)>(min: nat, a: Codec<T>, b: seq<byte>, n: nat): Got<seq<T>>
    requires min > 0
  {
    if |b| < 4 then Bad else
    var k := FromLe(b[..4]);
    if n + k > MAX_RECORDS || k > (|b| - 4) / min then Bad else GetAll(a, k, b[4..], n + k)
  }

  /** A count, against the budget and against the bytes that are left, and that many values. */
  function List<T(!new)>(min: nat, a: Codec<T>): Codec<seq<T>>
    requires min > 0
  {
    Codec(
      (vs: seq<T>) => U32(|vs|) + PutAll(a, vs),
      (b: seq<byte>, n: nat) => GetList(min, a, b, n),
      (vs: seq<T>) => ValidAll(a, vs),
      (vs: seq<T>) => |vs| + CountAll(a, vs))
  }

  lemma {:induction false} GetAllReads<T(!new)>(a: Codec<T>, vs: seq<T>, rest: seq<byte>, n: nat)
    requires Reads(a) && ValidAll(a, vs) && |PutAll(a, vs)| < U32_LIMIT && n + CountAll(a, vs) <= MAX_RECORDS
    ensures GetAll(a, |vs|, PutAll(a, vs) + rest, n) == Got(vs, rest, n + CountAll(a, vs))
  {
    if vs != [] {
      var tail := PutAll(a, vs[1..]) + rest;
      assert PutAll(a, vs) + rest == a.put(vs[0]) + tail;
      assert a.get(a.put(vs[0]) + tail, n) == Got(vs[0], tail, n + a.count(vs[0]));
      GetAllReads(a, vs[1..], rest, n + a.count(vs[0]));
      assert vs == [vs[0]] + vs[1..];
    }
  }

  lemma {:induction false} GetAllWrites<T(!new)>(a: Codec<T>, k: nat, b: seq<byte>, n: nat)
    requires Writes(a) && n <= MAX_RECORDS && GetAll(a, k, b, n).Got?
    ensures
      var g := GetAll(a, k, b, n);
      |g.value| == k && ValidAll(a, g.value) && b == PutAll(a, g.value) + g.rest
      && g.budget == n + CountAll(a, g.value) <= MAX_RECORDS
  {
    if k > 0 {
      var h := a.get(b, n);
      assert Undone(a, b, n, h);
      GetAllWrites(a, k - 1, h.rest, h.budget);
      var g := GetAll(a, k, b, n);
      assert g.value[1..] == GetAll(a, k - 1, h.rest, h.budget).value;
      assert b == a.put(h.value) + PutAll(a, g.value[1..]) + g.rest;
    }
  }

  lemma {:induction false} PutAllLength<T(!new)>(a: Codec<T>, vs: seq<T>, min: nat)
    requires AtLeast(a, min) && ValidAll(a, vs)
    ensures |PutAll(a, vs)| >= |vs| * min
  {
    if vs != [] {
      PutAllLength(a, vs[1..], min);
      assert |vs| * min == (|vs| - 1) * min + min;
    }
  }

  lemma MulAtLeast(a: nat, b: nat, m: nat)
    requires a >= b
    ensures a * m >= b * m
  {
  }

  lemma FitsBytes(k: nat, min: nat, bytes: nat)
    requires min > 0 && k * min <= bytes
    ensures k <= bytes / min
  {
    if k <= bytes / min {
    } else {
      MulAtLeast(k, bytes / min + 1, min);
    }
  }

  /** As many values as were put fit into the bytes they were put in. */
  lemma ListFits<T(!new)>(min: nat, a: Codec<T>, vs: seq<T>, rest: seq<byte>)
    requires min > 0 && AtLeast(a, min) && ValidAll(a, vs)
    ensures |vs| <= |PutAll(a, vs) + rest| / min
  {
    PutAllLength(a, vs, min);
    FitsBytes(|vs|, min, |PutAll(a, vs) + rest|);
  }

  lemma ListGet<T(!new)>(min: nat, a: Codec<T>, b: seq<byte>, n: nat, k: nat)
    requires min > 0 && |b| >= 4 && k == FromLe(b[..4]) && n + k <= MAX_RECORDS && k <= (|b| - 4) / min
    ensures GetList(min, a, b, n) == GetAll(a, k, b[4..], n + k)
  {
  }

  lemma ListReads<T(!new)>(min: nat, a: Codec<T>, vs: seq<T>, rest: seq<byte>, n: nat)
    requires min > 0 && Reads(a) && AtLeast(a, min) && ValidAll(a, vs)
    requires |PutAll(a, vs)| + 4 < U32_LIMIT && n + |vs| + CountAll(a, vs) <= MAX_RECORDS
    ensures GetList(min, a, U32(|vs|) + PutAll(a, vs) + rest, n) == Got(vs, rest, n + |vs| + CountAll(a, vs))
  {
    var body := PutAll(a, vs) + rest;
    var b := U32(|vs|) + body;
    assert U32(|vs|) + PutAll(a, vs) + rest == b;
    assert GetList(min, a, b, n) == GetAll(a, |vs|, body, n + |vs|) by {
      PrefixReads(|vs|, body);
      ListFits(min, a, vs, rest);
      ListGet(min, a, b, n, |vs|);
    }
    GetAllReads(a, vs, rest, n + |vs|);
  }

  lemma ListWrites<T(!new)>(min: nat, a: Codec<T>, b: seq<byte>, n: nat)
    requires min > 0 && Writes(a) && n <= MAX_RECORDS && List(min, a).get(b, n).Got?
    ensures Undone(List(min, a), b, n, List(min, a).get(b, n))
  {
    var k := FromLe(b[..4]);
    var g := GetAll(a, k, b[4..], n + k);
    assert List(min, a).get(b, n) == g;
    GetAllWrites(a, k, b[4..], n + k);
    assert b == U32(|g.value|) + PutAll(a, g.value) + g.rest by {
      LeOfFromLe(b[..4]);
      assert b == b[..4] + b[4..];
    }
  }

  lemma ListLawful<T(!new)>(min: nat, a: Codec<T>)
    requires min > 0 && Lawful(a) && AtLeast(a, min)
    ensures Lawful(List(min, a)) && AtLeast(List(min, a), 4)
  {
    var c := List(min, a);
    forall vs: seq<T>, rest: seq<byte>, n: nat | c.valid(vs) && |c.put(vs)| < U32_LIMIT &&
      n + c.count(vs) <= MAX_RECORDS
      ensures c.get(c.put(vs) + rest, n) == Got(vs, rest, n + c.count(vs))
    {
      ListReads(min, a, vs, rest, n);
    }
    forall b: seq<byte>, n: nat | n <= MAX_RECORDS && c.get(b, n).Got?
      ensures Undone(c, b, n, c.get(b, n))
    {
      ListWrites(min, a, b, n);
    }
  }

  lemma {:induction false} CountAllZero<T(!new)>(a: Codec<T>, vs: seq<T>)
    requires forall v: T :: a.count(v) == 0
    ensures CountAll(a, vs) == 0
  {
    if vs != [] { CountAllZero(a, vs[1..]); }
  }

  lemma {:induction false} CountAllInsert<T(!new)>(a: Codec<T>, less: (T, T) -> bool, x: T, vs: seq<T>)
    ensures CountAll(a, Insert(less, x, vs)) == a.count(x) + CountAll(a, vs)
  {
    if vs != [] && less(vs[0], x) {
      CountAllInsert(a, less, x, vs[1..]);
    }
  }

  /** Sorting a list changes the number of its records no more than its length. */
  lemma {:induction false} CountAllSort<T(!new)>(a: Codec<T>, less: (T, T) -> bool, vs: seq<T>)
    ensures CountAll(a, Sort(less, vs)) == CountAll(a, vs)
  {
    if vs != [] {
      CountAllSort(a, less, vs[1..]);
      CountAllInsert(a, less, vs[0], Sort(less, vs[1..]));
    }
  }

  // ---- counting through the shapes ------------------------------------------------------

  lemma PairCount<A(!new), B(!new)>(a: Codec<A>, b: Codec<B>, x: A, y: B)
    ensures Pair(a, b).count((x, y)) == a.count(x) + b.count(y)
  {
  }

  lemma RecordCount<A(!new), B(!new)>(tag: byte, a: Codec<A>, make: A -> B, take: B -> A, v: B)
    ensures Record(tag, Iso(a, make, take)).count(v) == a.count(take(v))
  {
  }

  lemma IsoCount<A(!new), B(!new)>(a: Codec<A>, make: A -> B, take: B -> A, v: B)
    ensures Iso(a, make, take).count(v) == a.count(take(v))
    ensures Iso(a, make, take).valid(v) == a.valid(take(v))
  {
  }

  lemma RecordValid<A(!new), B(!new)>(tag: byte, a: Codec<A>, make: A -> B, take: B -> A, v: B)
    ensures Record(tag, Iso(a, make, take)).valid(v) == a.valid(take(v))
  {
  }

  lemma PairValid<A(!new), B(!new)>(a: Codec<A>, b: Codec<B>, x: A, y: B)
    ensures Pair(a, b).valid((x, y)) == (a.valid(x) && b.valid(y))
  {
  }

  // ---- formats without records, of any length -----------------------------------------------

  /** What was put is got back, however long it is. */
  ghost predicate ReadsAll<T(!new)>(c: Codec<T>) {
    forall v: T, rest: seq<byte>, n: nat :: c.valid(v) ==> c.get(c.put(v) + rest, n) == Got(v, rest, n)
  }

  ghost predicate Uncounted<T(!new)>(c: Codec<T>) { forall v: T :: c.count(v) == 0 }

  /** The laws of a format that the record budget does not concern. */
  ghost predicate Exact<T(!new)>(c: Codec<T>) { ReadsAll(c) && Writes(c) && Uncounted(c) }

  /** A little-endian number of `width` bytes. */
  function Number(width: nat): Codec<nat> {
    Codec(
      (v: nat) => Le(v, width),
      (b: seq<byte>, n: nat) => if |b| < width then Bad else Got(FromLe(b[..width]), b[width..], n),
      (v: nat) => v < Limit(width),
      (v: nat) => 0 as nat)
  }

  lemma NumberExact(width: nat)
    ensures Exact(Number(width))
  {
    var c := Number(width);
    assert ReadsAll(c) by {
      forall v: nat, rest: seq<byte>, n: nat | c.valid(v) ensures c.get(c.put(v) + rest, n) == Got(v, rest, n) {
        NumberReads(width, v, rest);
      }
    }
    assert Writes(c) by {
      forall b: seq<byte>, n: nat | n <= MAX_RECORDS && c.get(b, n).Got? ensures Undone(c, b, n, c.get(b, n)) {
        LeOfFromLe(b[..width]);
        assert b == b[..width] + b[width..];
      }
    }
  }

  lemma NumberReads(width: nat, v: nat, rest: seq<byte>)
    requires v < Limit(width)
    ensures (Le(v, width) + rest)[..width] == Le(v, width) && (Le(v, width) + rest)[width..] == rest
    ensures FromLe(Le(v, width)) == v
  {
    FromLeOfLe(v, width);
  }

  lemma FixedExact(width: nat)
    ensures Exact(Fixed(width))
  {
    FixedLawful(width);
    forall s: seq<byte>, rest: seq<byte>, n: nat | Fixed(width).valid(s)
      ensures Fixed(width).get(Fixed(width).put(s) + rest, n) == Got(s, rest, n)
    {
      FixedReads(width, s, rest, n);
    }
  }

  lemma EnumExact<T(!new)>(tag: T -> byte, untag: byte -> Option<T>)
    requires forall v: T :: untag(tag(v)) == Some(v)
    requires forall b: byte :: untag(b).Some? ==> tag(untag(b).value) == b
    ensures Exact(Enum(tag, untag))
  {
    var c := Enum(tag, untag);
    EnumLawful(tag, untag);
    forall v: T, rest: seq<byte>, n: nat ensures c.get(c.put(v) + rest, n) == Got(v, rest, n) {
      assert ([tag(v)] + rest)[1..] == rest;
    }
  }

  lemma PairWrites<A(!new), B(!new)>(a: Codec<A>, b: Codec<B>)
    requires Writes(a) && Writes(b)
    ensures Writes(Pair(a, b))
  {
    var c := Pair(a, b);
    forall s: seq<byte>, n: nat | n <= MAX_RECORDS && c.get(s, n).Got?
      ensures Undone(c, s, n, c.get(s, n))
    {
      var x := a.get(s, n);
      assert Undone(a, s, n, x);
      var y := b.get(x.rest, x.budget);
      assert Undone(b, x.rest, x.budget, y);
      assert s == a.put(x.value) + b.put(y.value) + y.rest;
    }
  }

  lemma PairExact<A(!new), B(!new)>(a: Codec<A>, b: Codec<B>)
    requires Exact(a) && Exact(b)
    ensures Exact(Pair(a, b))
  {
    var c := Pair(a, b);
    PairWrites(a, b);
    forall v: (A, B) ensures c.count(v) == 0 { PairCount(a, b, v.0, v.1); }
    forall v: (A, B), rest: seq<byte>, n: nat | c.valid(v) ensures c.get(c.put(v) + rest, n) == Got(v, rest, n) {
      assert c.put(v) + rest == a.put(v.0) + (b.put(v.1) + rest);
      assert a.get(a.put(v.0) + (b.put(v.1) + rest), n).Got?;
    }
  }

  lemma IsoExact<A(!new), B(!new)>(a: Codec<A>, make: A -> B, take: B -> A)
    requires Exact(a)
    requires forall x: A :: take(make(x)) == x
    requires forall y: B :: make(take(y)) == y
    ensures Exact(Iso(a, make, take))
  {
    var c := Iso(a, make, take);
    forall s: seq<byte>, n: nat | n <= MAX_RECORDS && c.get(s, n).Got? ensures Undone(c, s, n, c.get(s, n)) {
      assert Undone(a, s, n, a.get(s, n));
    }
    forall v: B, rest: seq<byte>, n: nat | c.valid(v) ensures c.get(c.put(v) + rest, n) == Got(v, rest, n) {
      assert a.get(a.put(take(v)) + rest, n).Got?;
    }
  }

  lemma {:induction false} GetAllExact<T(!new)>(a: Codec<T>, vs: seq<T>, rest: seq<byte>, n: nat)
    requires ReadsAll(a) && ValidAll(a, vs)
    ensures GetAll(a, |vs|, PutAll(a, vs) + rest, n) == Got(vs, rest, n)
  {
    if vs != [] {
      var tail := PutAll(a, vs[1..]) + rest;
      assert PutAll(a, vs) + rest == a.put(vs[0]) + tail;
      assert a.get(a.put(vs[0]) + tail, n) == Got(vs[0], tail, n);
      GetAllExact(a, vs[1..], rest, n);
      assert vs == [vs[0]] + vs[1..];
    }
  }

  // ---- what is put -------------------------------------------------------------------------------

  lemma PairPut<A(!new), B(!new)>(a: Codec<A>, b: Codec<B>, x: A, y: B)
    ensures Pair(a, b).put((x, y)) == a.put(x) + b.put(y)
  {
  }

  lemma IsoPut<A(!new), B(!new)>(a: Codec<A>, make: A -> B, take: B -> A, v: B)
    ensures Iso(a, make, take).put(v) == a.put(take(v))
  {
  }
}
