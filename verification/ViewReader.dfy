/** The cursor of `crates/onelf-payloads/src/rtenv.rs`, and reading a record with it. */
module ViewReader {
  import opened Bytes
  import opened ViewRecord
  import EnvRecord

  datatype Result<+T> = Ok(value: T) | Err(why: Reject) {
    predicate IsFailure() { Err? }

    function PropagateFailure<U>(): Result<U>
      requires Err?
    {
      Err(why)
    }

    function Extract(): T
      requires Ok?
    {
      value
    }
  }

  /** That a read came out as the format says: the same refusal, or the same value with the same rest to come. */
  ghost predicate As<T>(r: Result<T>, rest: seq<byte>, read: Read<T>) {
    match read
    case Refused(why) => r == Err(why)
    case Got(value, tail) => r == Ok(value) && rest == tail
  }

  lemma {:induction false} LongerIsLarger(s: seq<byte>, k: nat)
    requires EnvRecord.Digits(s) && k <= |s|
    ensures EnvRecord.FromDecimal(s[..k]) <= EnvRecord.FromDecimal(s)
  {
    if k == |s| {
      assert s[..k] == s;
    } else {
      LongerIsLarger(s[..|s| - 1], k);
      assert s[..|s| - 1][..k] == s[..k];
    }
  }

  lemma {:induction false} RunIsWhole(s: seq<byte>, k: nat)
    requires k <= |s| && EnvRecord.Digits(s[..k]) && (k < |s| ==> !EnvRecord.Digit(s[k]))
    ensures EnvRecord.DigitRun(s) == k
  {
    EnvRecord.DigitRunOf(s[..k], s[k..]);
    assert s[..k] + s[k..] == s;
  }

  lemma {:induction false} RunGoesOn(s: seq<byte>, k: nat)
    requires k <= |s| && EnvRecord.Digits(s[..k])
    ensures EnvRecord.DigitRun(s) >= k
  {
    if k > 0 {
      assert s[..k][0] == s[0] && s[1..][..k - 1] == s[..k][1..];
      RunGoesOn(s[1..], k - 1);
    }
  }

  lemma RunIsAtLeast(s: seq<byte>, k: nat)
    requires k <= |s| && EnvRecord.Digits(s[..k])
    ensures EnvRecord.FromDecimal(s[..EnvRecord.DigitRun(s)]) >= EnvRecord.FromDecimal(s[..k])
  {
    var d := EnvRecord.DigitRun(s);
    RunGoesOn(s, k);
    LongerIsLarger(s[..d], k);
    assert s[..d][..k] == s[..k];
  }

  lemma OneDigitMore(s: seq<byte>, k: nat)
    requires k < |s| && EnvRecord.Digits(s[..k]) && EnvRecord.Digit(s[k])
    ensures EnvRecord.Digits(s[..k + 1])
    ensures EnvRecord.FromDecimal(s[..k + 1]) == EnvRecord.FromDecimal(s[..k]) * 10 + (s[k] - 0x30)
  {
    assert s[..k + 1][..k] == s[..k];
  }

  class Cursor {
    const buf: seq<byte>
    var pos: nat

    constructor (buf: seq<byte>, pos: nat)
      ensures this.buf == buf && this.pos == pos
    {
      this.buf, this.pos := buf, pos;
    }

    ghost predicate Valid()
      reads this
    {
      pos <= |buf|
    }

    ghost function Rest(): seq<byte>
      reads this
      requires Valid()
    {
      buf[pos..]
    }

    method Peek() returns (b: Option<byte>)
      requires Valid()
      ensures b == if Rest() == [] then None else Some(Rest()[0])
    {
      b := if pos < |buf| then Some(buf[pos]) else None;
    }

    method Bump() returns (b: Option<byte>)
      requires Valid()
      modifies this`pos
      ensures Valid()
      ensures if old(Rest()) == [] then b == None && Rest() == []
        else b == Some(old(Rest())[0]) && Rest() == old(Rest())[1..]
    {
      b := Peek();
      if b.Some? { pos := pos + 1; }
    }

    method Take(want: byte) returns (r: Result<byte>)
      requires Valid()
      modifies this`pos
      ensures Valid() && As(r, Rest(), ViewRecord.Take(old(Rest()), want))
    {
      var b := Bump();
      r := if b == Some(want) then Ok(want) else Err(Truncated);
    }

    method Number(cap: nat, missing: Reject, over: Reject) returns (r: Result<nat>)
      requires Valid()
      modifies this`pos
      ensures Valid() && As(r, Rest(), ReadNumber(old(Rest()), cap, missing, over))
    {
      hide EnvRecord.DigitRun, EnvRecord.Digits;
      ghost var s := Rest();
      ghost var start := pos;
      var n, digits := 0, 0;
      NoDigits(s);
      while pos < |buf| && EnvRecord.Digit(buf[pos])
        invariant start <= pos <= |buf| && digits == pos - start
        invariant EnvRecord.Digits(s[..digits]) && n == EnvRecord.FromDecimal(s[..digits]) <= cap
        decreases |buf| - pos
      {
        OneDigitMore(s, digits);
        n := n * 10 + (buf[pos] - 0x30);
        if n > cap {
          RunIsAtLeast(s, digits + 1);
          return Err(over);
        }
        pos := pos + 1;
        digits := digits + 1;
      }
      RunIsWhole(s, digits);
      r := if digits == 0 then Err(missing) else Ok(n);
    }

    method Name() returns (r: Result<seq<byte>>)
      requires Valid()
      modifies this`pos
      ensures Valid()
      ensures match ReadName(old(Rest()))
        case Refused(why) => r == Err(why)
        case Got(name, tail) => r == Ok(name) && Rest() == [EQUALS] + tail
    {
      ghost var s := Rest();
      var start := pos;
      while pos < |buf| && buf[pos] != EQUALS && buf[pos] != 0
        invariant start <= pos <= |buf| && forall i :: 0 <= i < pos - start ==> s[i] != EQUALS && s[i] != 0
        decreases |buf| - pos
      {
        pos := pos + 1;
      }
      EndIsHere(s, pos - start);
      if pos == |buf| { return Err(Truncated); }
      if buf[pos] == 0 { return Err(BadName); }
      var bytes := buf[start..pos];
      assert bytes == s[..pos - start];
      assert Rest() == [EQUALS] + s[pos - start + 1..];
      r := if bytes == [] || |bytes| > MAX_NAME_BYTES then Err(BadName) else Ok(bytes);
    }

    method Value() returns (r: Result<seq<byte>>)
      requires Valid()
      modifies this`pos
      ensures Valid() && As(r, Rest(), ReadValue(old(Rest())))
    {
      hide ReadNumber;
      var len := Number(MAX_VALUE_BYTES, Truncated, ValueCap);
      if len.Err? { return Err(len.why); }
      var colon := Take(COLON);
      if colon.Err? { return Err(colon.why); }
      if len.value > |buf| - pos { return Err(BadLength); }
      var bytes := buf[pos..pos + len.value];
      assert bytes == Rest()[..len.value];
      if 0 in bytes { return Err(NulInValue); }
      pos := pos + len.value;
      r := Ok(bytes);
    }

    method Applied() returns (r: Result<bool>)
      requires Valid()
      modifies this`pos
      ensures Valid() && As(r, Rest(), ReadApplied(old(Rest())))
    {
      var b := Bump();
      r := if b == Some(0x2B) then Ok(true) else if b == Some(0x2D) then Ok(false) else Err(BadApplied);
    }

    method Policy() returns (r: Result<Policy>)
      requires Valid()
      modifies this`pos
      ensures Valid() && As(r, Rest(), ReadPolicy(old(Rest())))
    {
      var b := Bump();
      r := if b == Some(0x2E) then Ok(Preserve) else if b == Some(0x21) then Ok(Replace) else Err(BadPolicy);
    }

    method End() returns (r: Result<byte>)
      requires Valid()
      modifies this`pos
      ensures Valid() && As(r, Rest(), ReadEnd(old(Rest())))
    {
      r := Take(SEMICOLON);
      if r.Err? { return; }
      var b := Peek();
      if b == Some(NEWLINE) { pos := pos + 1; }
    }

    method Entry() returns (r: Result<Entry>)
      requires Valid()
      modifies this`pos
      ensures Valid() && As(r, Rest(), ReadEntry(old(Rest())))
    {
      hide ReadName, ReadPolicy, ReadValue, ReadApplied, ReadEnd;
      var name := Name();
      if name.Err? { return Err(name.why); }
      ghost var t := Rest();
      pos := pos + 1;
      assert Rest() == t[1..];
      var policy := Policy();
      if policy.Err? { return Err(policy.why); }
      var value := Value();
      if value.Err? { return Err(value.why); }
      var leftSet := Applied();
      if leftSet.Err? { return Err(leftSet.why); }
      var end := End();
      if end.Err? { return Err(end.why); }
      r := Ok(ViewRecord.Entry(name.value, value.value, policy.value, leftSet.value));
    }

    method Scalar(tag: byte) returns (r: Result<Option<seq<byte>>>)
      requires Valid()
      modifies this`pos
      ensures Valid() && As(r, Rest(), ReadScalar(tag, old(Rest())))
    {
      hide ReadValue, ReadEnd;
      var b := Peek();
      if b != Some(tag) { return Ok(None); }
      ghost var s := Rest();
      pos := pos + 1;
      assert Rest() == s[1..];
      var bytes := Value();
      if bytes.Err? { return Err(bytes.why); }
      var end := End();
      if end.Err? { return Err(end.why); }
      r := Ok(Some(bytes.value));
    }
  }

  lemma NoDigits(s: seq<byte>)
    ensures EnvRecord.Digits(s[..0]) && EnvRecord.FromDecimal(s[..0]) == 0
  {
  }

  lemma {:induction false} EndIsHere(s: seq<byte>, n: nat)
    requires n <= |s| && (n < |s| ==> s[n] == EQUALS || s[n] == 0)
    requires forall i :: 0 <= i < n ==> s[i] != EQUALS && s[i] != 0
    ensures NameEnd(s) == n
  {
    if n > 0 { EndIsHere(s[1..], n - 1); }
  }

  // ---- a decoded record --------------------------------------------------------------------

  datatype Decoded = Decoded(buf: seq<byte>, start: nat, count: nat, roots: Option<seq<byte>>, host: Option<seq<byte>>)

  /** A decoded record remembers where its entries are, not the entries. */
  ghost predicate Holds(d: Decoded, r: Record) {
    && d.start <= |d.buf| && ReadEntries(d.count, d.buf[d.start..]).Got?
    && ReadEntries(d.count, d.buf[d.start..]).value == r.entries && d.roots == r.roots && d.host == r.host
  }

  method CheckEntries(cursor: Cursor, count: nat) returns (r: Result<nat>)
    requires cursor.Valid()
    modifies cursor`pos
    ensures cursor.Valid()
    ensures match ReadEntries(count, old(cursor.Rest()))
      case Refused(why) => r == Err(why)
      case Got(_, tail) => r == Ok(count) && cursor.Rest() == tail
  {
    hide ReadEntry;
    ghost var s := cursor.Rest();
    ghost var read: seq<Entry> := [];
    AfterNothing(ReadEntries(count, s));
    hide After, ReadEntries;
    for i := 0 to count
      invariant cursor.Valid()
      invariant ReadEntries(count, s) == After(read, ReadEntries(count - i, cursor.Rest()))
    {
      ghost var before := cursor.Rest();
      EntryAfter(read, count - i, before);
      var e := cursor.Entry();
      if e.Err? { return Err(e.why); }
      read := read + [e.value];
    }
    AfterAll(read, cursor.Rest());
    r := Ok(count);
  }

  lemma AfterAll(read: seq<Entry>, s: seq<byte>)
    ensures After(read, ReadEntries(0, s)) == Got(read, s)
  {
    assert read + [] == read;
  }

  ghost function After(read: seq<Entry>, r: Read<seq<Entry>>): Read<seq<Entry>> {
    match r
    case Refused(why) => Refused(why)
    case Got(es, rest) => Got(read + es, rest)
  }

  lemma AfterNothing(r: Read<seq<Entry>>)
    ensures After([], r) == r
  {
    if r.Got? { assert [] + r.value == r.value; }
  }

  lemma EntryAfter(read: seq<Entry>, k: nat, s: seq<byte>)
    requires k > 0
    ensures match ReadEntry(s)
      case Refused(why) => After(read, ReadEntries(k, s)) == Refused(why)
      case Got(e, t) => After(read, ReadEntries(k, s)) == After(read + [e], ReadEntries(k - 1, t))
  {
    hide ReadEntry, ValidEntries, ValidEntry;
    match ReadEntry(s)
    case Refused(_) =>
    case Got(e, t) => Longer(read, e, ReadEntries(k - 1, t));
  }

  lemma Longer(read: seq<Entry>, e: Entry, rest: Read<seq<Entry>>)
    ensures match rest
      case Refused(why) => After(read + [e], rest) == Refused(why)
      case Got(es, t) => After(read, Got([e] + es, t)) == After(read + [e], rest)
  {
    if rest.Got? { assert read + ([e] + rest.value) == read + [e] + rest.value; }
  }

  /** `Decoded::parse`. */
  method ParseRecord(buf: seq<byte>) returns (r: Result<Decoded>)
    ensures match Parse(buf)
      case Refused(why) => r == Err(why)
      case Got(record, _) => r.Ok? && r.value.buf == buf && r.value.count == |record.entries| && Holds(r.value, record)
  {
    hide ReadNumber, ReadEntries, ReadScalar, HeaderText, Valid;
    if !StartsWith(buf, HeaderText()) { return Err(BadHeader); }
    var cursor := new Cursor(buf, |HeaderText()|);
    var count := cursor.Number(MAX_ENTRIES, BadCount, BadCount);
    if count.Err? { return Err(count.why); }
    var newline := cursor.Take(NEWLINE);
    if newline.Err? { return Err(newline.why); }
    var start := cursor.pos;
    assert ReadHeader(buf) == Got(count.value, buf[start..]);
    hide ReadHeader;
    var entries := CheckEntries(cursor, count.value);
    if entries.Err? { return Err(entries.why); }
    var roots := cursor.Scalar(ROOTS_TAG);
    if roots.Err? { return Err(roots.why); }
    var host := cursor.Scalar(HOST_TAG);
    if host.Err? { return Err(host.why); }
    if cursor.pos != |buf| { return Err(Trailing); }
    r := Ok(Decoded(buf, start, count.value, roots.value, host.value));
  }

  /** `entries`: reading the entries of a decoded record again never fails, and yields them all. */
  method Entries(d: Decoded, ghost r: Record) returns (es: seq<Entry>)
    requires Holds(d, r)
    ensures es == r.entries && |es| == d.count
  {
    hide ReadEntry;
    es := [];
    var cursor := new Cursor(d.buf, d.start);
    ghost var s := cursor.Rest();
    AfterNothing(ReadEntries(d.count, s));
    hide After, ReadEntries;
    for i := 0 to d.count
      invariant cursor.Valid() && cursor.buf == d.buf && fresh(cursor)
      invariant ReadEntries(d.count, s) == After(es, ReadEntries(d.count - i, cursor.Rest()))
    {
      EntryAfter(es, d.count - i, cursor.Rest());
      var e := cursor.Entry();
      if e.Ok? { es := es + [e.value]; }
    }
    AfterAll(es, cursor.Rest());
  }
}
