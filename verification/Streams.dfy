/** The writer, the reader and the record budget of the bounded transports, as the
    objects the original updates. Every method is stated against the codec it serves:
    a write appends what `put` writes and fails exactly when the file would grow past
    its bound, and a read takes off the front what `get` takes.
 */
module Streams {
  import opened Bytes
  import opened Codec
  import opened Transport

  // ---- writing ----------------------------------------------------------------------

  /** `after` is `before` with `chunk`, or the chunk would have passed the file bound. */
  predicate Wrote(o: Outcome, before: seq<byte>, after: seq<byte>, chunk: seq<byte>) {
    && (o.Pass? <==> |before| + |chunk| <= MAX_BYTES)
    && (o.Pass? ==> after == before + chunk)
  }

  class Writer {
    var bytes: seq<byte>

    constructor (magic: seq<byte>, records: nat)
      requires |magic| == 4 && records <= MAX_RECORDS
      ensures bytes == Header(magic, 0, records)
    {
      bytes := [];
      new;
      var o := Append(magic);
      o := Append([1, 0]);
      o := Append([0, 0]);
      o := Count(0);
      o := Count(records);
    }

    method Append(chunk: seq<byte>) returns (o: Outcome)
      modifies this
      ensures Wrote(o, old(bytes), bytes, chunk)
    {
      if |bytes| + |chunk| > MAX_BYTES { return Fail; }
      bytes := bytes + chunk;
      return Pass;
    }

    method Byte(value: byte) returns (o: Outcome)
      modifies this
      ensures Wrote(o, old(bytes), bytes, [value])
    {
      o := Append([value]);
    }

    method Count(count: nat) returns (o: Outcome)
      modifies this
      ensures count < U32_LIMIT ==> Wrote(o, old(bytes), bytes, U32(count))
      ensures count >= U32_LIMIT ==> o.Fail?
    {
      if count >= U32_LIMIT { return Fail; }
      o := Append(U32(count));
    }

    method Text(value: seq<byte>) returns (o: Outcome)
      modifies this
      ensures Wrote(o, old(bytes), bytes, U32(|value|) + value)
    {
      o := Count(|value|);
      if o.Pass? { o := Append(value); }
    }

    /** Leaves four bytes for the length of a record and writes its tag. */
    method StartRecord(tag: byte) returns (o: Outcome, start: nat)
      modifies this
      ensures start == |old(bytes)| && Wrote(o, old(bytes), bytes, U32(0) + [tag])
    {
      start := |bytes|;
      :- Count(0);
      o := Byte(tag);
    }

    /** Puts the length of everything since `start` where the record began. */
    method EndRecord(start: nat)
      requires start + 4 <= |bytes|
      modifies this
      ensures bytes == old(bytes)[..start] + U32(|old(bytes)| - start - 4) + old(bytes)[start + 4..]
    {
      bytes := bytes[..start] + U32(|bytes| - start - 4) + bytes[start + 4..];
    }

    method Finish() returns (file: seq<byte>)
      requires |bytes| >= HEADER_BYTES
      ensures file == bytes[..8] + U32(|bytes| - HEADER_BYTES) + bytes[12..]
    {
      file := bytes[..8] + U32(|bytes| - HEADER_BYTES) + bytes[12..];
    }
  }

  /** A record filled in and closed is the record its codec puts. */
  lemma Closed<T(!new)>(tag: byte, c: Codec<T>, v: T, before: seq<byte>, open: seq<byte>, start: nat)
    requires start == |before| && open == before + (U32(0) + [tag]) + c.put(v)
    ensures open[..start] + U32(|open| - start - 4) + open[start + 4..] == before + Record(tag, c).put(v)
  {
    assert open[..start] == before;
    assert open[start + 4..] == [tag] + c.put(v);
  }

  /** The header of a finished file declares what follows it. */
  lemma Finished(magic: seq<byte>, records: nat, body: seq<byte>, written: seq<byte>)
    requires |magic| == 4 && written == Header(magic, 0, records) + body
    ensures written[..8] + U32(|written| - HEADER_BYTES) + written[12..] == Header(magic, |body|, records) + body
  {
    var h := magic + [1, 0] + [0, 0];
    assert written == h + U32(0) + (U32(records) + body);
    assert written[..8] == h;
    assert written[12..] == U32(records) + body;
  }

  lemma {:induction false} PutAllSplit<T(!new)>(a: Codec<T>, vs: seq<T>, i: nat)
    requires i <= |vs|
    ensures PutAll(a, vs) == PutAll(a, vs[..i]) + PutAll(a, vs[i..])
  {
    if i == 0 {
      assert vs[..0] == [] && vs[0..] == vs;
    } else {
      PutAllSplit(a, vs[1..], i - 1);
      assert vs[..i][1..] == vs[1..][..i - 1] && vs[i..] == vs[1..][i - 1..];
    }
  }

  /** One more element. */
  lemma PutNext<T(!new)>(a: Codec<T>, vs: seq<T>, i: nat)
    requires i < |vs|
    ensures PutAll(a, vs[..i + 1]) == PutAll(a, vs[..i]) + a.put(vs[i])
    ensures |PutAll(a, vs[..i + 1])| <= |PutAll(a, vs)|
  {
    PutAllSplit(a, vs[..i + 1], i);
    assert vs[..i + 1][..i] == vs[..i] && vs[..i + 1][i..] == [vs[i]];
    assert PutAll(a, [vs[i]]) == a.put(vs[i]) by { assert [vs[i]][1..] == []; }
    PutAllSplit(a, vs, i + 1);
  }

  // ---- reading -----------------------------------------------------------------------

  class Budget {
    var used: nat

    constructor ()
      ensures used == 0
    {
      used := 0;
    }

    method Add(count: nat) returns (o: Outcome)
      modifies this
      ensures o.Pass? <==> old(used) + count <= MAX_RECORDS
      ensures o.Pass? ==> used == old(used) + count
    {
      if used + count > MAX_RECORDS { return Fail; }
      used := used + count;
      return Pass;
    }
  }

  class Reader {
    const bytes: seq<byte>
    var offset: nat

    predicate Valid()
      reads this
    {
      offset <= |bytes|
    }

    function Rest(): seq<byte>
      reads this
      requires Valid()
    {
      bytes[offset..]
    }

    constructor (bytes: seq<byte>)
      ensures Valid() && this.bytes == bytes && offset == 0 && Rest() == bytes
    {
      this.bytes, offset := bytes, 0;
    }

    method Take(count: nat) returns (value: Option<seq<byte>>)
      requires Valid()
      modifies this
      ensures Valid()
      ensures value.Some? <==> count <= |old(Rest())|
      ensures value.Some? ==> value.value == old(Rest())[..count] && Rest() == old(Rest())[count..]
      ensures value.Some? ==> offset == old(offset) + count
    {
      if offset + count > |bytes| { return None; }
      value := Some(bytes[offset..offset + count]);
      offset := offset + count;
    }

    method Byte() returns (value: Option<byte>)
      requires Valid()
      modifies this
      ensures Valid()
      ensures value.Some? <==> old(Rest()) != []
      ensures value.Some? ==> value.value == old(Rest())[0] && Rest() == old(Rest())[1..]
    {
      var b :- Take(1);
      return Some(b[0]);
    }

    method Number() returns (value: Option<nat>)
      requires Valid()
      modifies this
      ensures Valid()
      ensures value.Some? <==> 4 <= |old(Rest())|
      ensures value.Some? ==> value.value == FromLe(old(Rest())[..4]) && Rest() == old(Rest())[4..]
      ensures value.Some? ==> offset == old(offset) + 4
    {
      var b :- Take(4);
      return Some(FromLe(b));
    }

    /** A count that the budget and the bytes that are left allow. */
    method Count(minimum: nat, budget: Budget) returns (count: Option<nat>)
      requires Valid() && minimum > 0
      modifies this, budget
      ensures Valid()
      ensures count.Some? <==>
        && 4 <= |old(Rest())|
        && old(budget.used) + FromLe(old(Rest())[..4]) <= MAX_RECORDS
        && FromLe(old(Rest())[..4]) <= (|old(Rest())| - 4) / minimum
      ensures count.Some? ==>
        && count.value == FromLe(old(Rest())[..4]) && Rest() == old(Rest())[4..]
        && budget.used == old(budget.used) + count.value
    {
      var n :- Number();
      var o := budget.Add(n);
      if o.Fail? || n > (|bytes| - offset) / minimum { return None; }
      return Some(n);
    }

    /** A string of one to `maximum` bytes. */
    method Text(maximum: nat) returns (text: Option<seq<byte>>)
      requires Valid()
      modifies this
      ensures Valid()
      ensures text.Some? <==> GetText(maximum, Utf8, old(Rest()), 0).Got?
      ensures text.Some? ==> GetText(maximum, Utf8, old(Rest()), 0) == Got(text.value, Rest(), 0)
    {
      var count :- Number();
      if count == 0 || count > maximum { return None; }
      var s :- Take(count);
      assert old(Rest())[4..][..count] == old(Rest())[4..4 + count];
      assert old(Rest())[4..][count..] == old(Rest())[4 + count..];
      if !Utf8(s) { return None; }
      return Some(s);
    }

    /** A reader of the body of a record. */
    method Record(tag: byte) returns (record: Option<Reader>)
      requires Valid()
      modifies this
      ensures Valid()
      ensures record.Some? <==> Framed(tag, old(Rest()))
      ensures record.Some? ==>
        && fresh(record.value) && record.value.Valid()
        && record.value.Rest() == Body(old(Rest())) && Rest() == After(old(Rest()))
    {
      var count :- Number();
      if count == 0 { return None; }
      var b :- Take(count);
      var r := new Reader(b);
      var t := r.Byte();
      if t != Some(tag) { return None; }
      return Some(r);
    }

    predicate Finished()
      requires Valid()
      reads this
      ensures Finished() <==> Rest() == []
    {
      offset == |bytes|
    }
  }

  // ---- what a record frames ------------------------------------------------------------

  predicate Framed(tag: byte, b: seq<byte>) {
    |b| >= 4 && 0 < FromLe(b[..4]) <= |b| - 4 && b[4] == tag
  }

  function Body(b: seq<byte>): seq<byte>
    requires |b| >= 4 && 0 < FromLe(b[..4]) <= |b| - 4
  {
    b[5..4 + FromLe(b[..4])]
  }

  function After(b: seq<byte>): seq<byte>
    requires |b| >= 4 && 0 < FromLe(b[..4]) <= |b| - 4
  {
    b[4 + FromLe(b[..4])..]
  }

  /** What reading a record comes to, given what reading its body comes to. */
  lemma RecordRead<T(!new)>(tag: byte, c: Codec<T>, b: seq<byte>, n: nat)
    ensures !Framed(tag, b) ==> Record(tag, c).get(b, n).Bad?
    ensures Framed(tag, b) ==>
      Record(tag, c).get(b, n) ==
        match c.get(Body(b), n)
        case Bad => Bad
        case Got(v, rest, m) => if rest == [] then Got(v, After(b), m) else Bad
  {
  }

  /** A method's results are what a codec's reader gives. */
  ghost predicate Agrees<T>(v: Option<T>, rest: seq<byte>, used: nat, g: Got<T>) {
    match g
    case Bad => v.None?
    case Got(x, r, m) => v == Some(x) && rest == r && used == m
  }

  function Then<T>(done: seq<T>, g: Got<seq<T>>): Got<seq<T>> {
    match g
    case Bad => Bad
    case Got(vs, rest, m) => Got(done + vs, rest, m)
  }

  /** One turn of a loop that reads `k` more values. */
  lemma Turn<T(!new)>(a: Codec<T>, k: nat, done: seq<T>, b: seq<byte>, n: nat)
    requires k > 0
    ensures match a.get(b, n)
      case Bad => Then(done, GetAll(a, k, b, n)) == Bad
      case Got(v, rest, m) => Then(done, GetAll(a, k, b, n)) == Then(done + [v], GetAll(a, k - 1, rest, m))
  {
    match a.get(b, n)
    case Bad =>
    case Got(v, rest, m) =>
      match GetAll(a, k - 1, rest, m)
      case Bad =>
      case Got(vs, tail, j) => assert done + ([v] + vs) == done + [v] + vs;
  }

  lemma Begin<T>(g: Got<seq<T>>)
    ensures Then([], g) == g
  {
    if g.Got? { assert [] + g.value == g.value; }
  }

  lemma Stop<T(!new)>(a: Codec<T>, done: seq<T>, b: seq<byte>, n: nat)
    ensures Then(done, GetAll(a, 0, b, n)) == Got(done, b, n)
  {
    assert done + [] == done;
  }

  // ---- reading through the shapes --------------------------------------------------------

  lemma PairGet<A(!new), B(!new)>(a: Codec<A>, b: Codec<B>, s: seq<byte>, n: nat)
    ensures Pair(a, b).get(s, n) ==
      match a.get(s, n)
      case Bad => Bad
      case Got(x, rest, m) =>
        match b.get(rest, m)
        case Bad => Bad
        case Got(y, tail, k) => Got((x, y), tail, k)
  {
  }

  lemma IsoGet<A(!new), B(!new)>(a: Codec<A>, make: A -> B, take: B -> A, s: seq<byte>, n: nat)
    ensures Iso(a, make, take).get(s, n) ==
      match a.get(s, n)
      case Bad => Bad
      case Got(x, rest, m) => Got(make(x), rest, m)
  {
  }

  /** A string read as text and then checked is the string its codec reads. */
  lemma TextGet(maximum: nat, ok: seq<byte> -> bool, b: seq<byte>, n: nat)
    requires forall s: seq<byte> :: ok(s) ==> Utf8(s)
    ensures Text(maximum, ok).get(b, n) ==
      match GetText(maximum, Utf8, b, 0)
      case Bad => Bad
      case Got(s, rest, _) => if ok(s) then Got(s, rest, n) else Bad
  {
  }

  lemma ListRead<T(!new)>(min: nat, a: Codec<T>, b: seq<byte>, n: nat)
    requires min > 0
    ensures List(min, a).get(b, n) ==
      if |b| >= 4 && n + FromLe(b[..4]) <= MAX_RECORDS && FromLe(b[..4]) <= (|b| - 4) / min
      then GetAll(a, FromLe(b[..4]), b[4..], n + FromLe(b[..4]))
      else Bad
  {
  }

  // ---- writing through the shapes --------------------------------------------------------

  lemma RecordPut<T(!new)>(tag: byte, a: Codec<T>, v: T)
    ensures |Record(tag, a).put(v)| == 5 + |a.put(v)|
  {
  }

  /** Two writes in a row are one, and the second fails when both together are too long. */
  lemma WroteBoth(o: Outcome, before: seq<byte>, mid: seq<byte>, after: seq<byte>, first: seq<byte>, second: seq<byte>)
    requires mid == before + first && Wrote(o, mid, after, second)
    ensures Wrote(o, before, after, first + second)
  {
    assert before + first + second == before + (first + second);
  }

  /** A list is being written and `i` of its elements are. */
  ghost predicate Writing<T(!new)>(c: Codec<T>, vs: seq<T>, before: seq<byte>, now: seq<byte>, i: nat) {
    i <= |vs| && now == before + (U32(|vs|) + PutAll(c, vs[..i])) && |now| <= MAX_BYTES
  }

  lemma WritingBegins<T(!new)>(min: nat, c: Codec<T>, vs: seq<T>, o: Outcome, before: seq<byte>, now: seq<byte>)
    requires min > 0 && Wrote(o, before, now, U32(|vs|))
    ensures o.Pass? ==> Writing(c, vs, before, now, 0)
    ensures o.Fail? ==> Wrote(Fail, before, now, List(min, c).put(vs))
  {
    assert U32(|vs|) + PutAll(c, vs[..0]) == U32(|vs|);
  }

  lemma WritingGoesOn<T(!new)>(min: nat, c: Codec<T>, vs: seq<T>, o: Outcome, before: seq<byte>, now: seq<byte>,
                        next: seq<byte>, i: nat)
    requires min > 0 && i < |vs| && Writing(c, vs, before, now, i) && Wrote(o, now, next, c.put(vs[i]))
    ensures o.Pass? ==> Writing(c, vs, before, next, i + 1)
    ensures o.Fail? ==> Wrote(Fail, before, next, List(min, c).put(vs))
  {
    PutNext(c, vs, i);
    assert before + (U32(|vs|) + PutAll(c, vs[..i])) + c.put(vs[i])
      == before + (U32(|vs|) + (PutAll(c, vs[..i]) + c.put(vs[i])));
  }

  lemma WritingEnds<T(!new)>(min: nat, c: Codec<T>, vs: seq<T>, before: seq<byte>, now: seq<byte>)
    requires min > 0 && Writing(c, vs, before, now, |vs|)
    ensures Wrote(Pass, before, now, List(min, c).put(vs))
  {
    assert vs[..|vs|] == vs;
  }

  /** The last field of a record decides whether the record was written. */
  lemma RecordFilled<T(!new)>(tag: byte, c: Codec<T>, v: T, o: Outcome, before: seq<byte>, framed: seq<byte>,
                       filled: seq<byte>)
    requires Wrote(Pass, before, framed, U32(0) + [tag]) && Wrote(o, framed, filled, c.put(v))
    ensures o.Fail? ==> Wrote(Fail, before, filled, Record(tag, c).put(v))
    ensures o.Pass? ==>
      && |before| + 4 <= |filled|
      && Wrote(Pass, before, filled[..|before|] + U32(|filled| - |before| - 4) + filled[|before| + 4..],
          Record(tag, c).put(v))
  {
    RecordPut(tag, c, v);
    if o.Pass? { Closed(tag, c, v, before, filled, |before|); }
  }

  lemma RecordNotOpened<T(!new)>(tag: byte, c: Codec<T>, v: T, before: seq<byte>, framed: seq<byte>)
    requires Wrote(Fail, before, framed, U32(0) + [tag])
    ensures Wrote(Fail, before, framed, Record(tag, c).put(v))
  {
    RecordPut(tag, c, v);
  }
}
