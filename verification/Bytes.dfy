/** Bytes, little-endian integers and the byte order of strings. */
module Bytes {

  type byte = x: int | 0 <= x < 256

  datatype Option<+T> = None | Some(value: T) {
    predicate IsFailure() { None? }

    function PropagateFailure<U>(): Option<U>
      requires None?
    {
      None
    }

    function Extract(): T
      requires Some?
    {
      value
    }
  }

  datatype Outcome = Pass | Fail {
    predicate IsFailure() { Fail? }

    function PropagateFailure(): Outcome
      requires Fail?
    {
      Fail
    }
  }

  /** The bytes of an ASCII literal. */
  function Ascii(s: string): seq<byte> {
    seq(|s|, i requires 0 <= i < |s| => s[i] as int % 256)
  }

  /** `n` in `width` little-endian bytes, wrapping as a cast to that width does. */
  function Le(n: nat, width: nat): (r: seq<byte>)
    ensures |r| == width
  {
    if width == 0 then [] else [n % 256] + Le(n / 256, width - 1)
  }

  function FromLe(b: seq<byte>): nat {
    if b == [] then 0 else b[0] as int + 256 * FromLe(b[1..])
  }

  /** One more than the largest value of `width` bytes. */
  function Limit(width: nat): nat { if width == 0 then 1 else 256 * Limit(width - 1) }

  const U32_LIMIT := 0x1_0000_0000

  function U32(n: nat): (r: seq<byte>)
    ensures |r| == 4
  {
    Le(n, 4)
  }

  lemma {:induction false} FromLeOfLe(n: nat, width: nat)
    requires n < Limit(width)
    ensures FromLe(Le(n, width)) == n
  {
    if width > 0 {
      FromLeOfLe(n / 256, width - 1);
      assert Le(n, width)[1..] == Le(n / 256, width - 1);
    }
  }

  lemma {:induction false} LeOfFromLe(b: seq<byte>)
    ensures FromLe(b) < Limit(|b|) && Le(FromLe(b), |b|) == b
  {
    if b != [] {
      LeOfFromLe(b[1..]);
      var n := FromLe(b);
      assert n % 256 == b[0] && n / 256 == FromLe(b[1..]);
    }
  }

  lemma U32Limit()
    ensures Limit(4) == U32_LIMIT
  {
    assert Limit(2) == 0x1_0000;
  }

  /** Well-formed UTF-8, section 4 of RFC 3629. */
  predicate Utf8(s: seq<byte>)
    decreases |s|
  {
    s == [] || (0 < Width(s[0]) <= |s| && Character(s[..Width(s[0])]) && Utf8(s[Width(s[0])..]))
  }

  /** The bytes of a character that starts with `lead`, or 0. */
  function Width(lead: byte): nat {
    if lead < 0x80 then 1
    else if 0xC2 <= lead <= 0xDF then 2
    else if 0xE0 <= lead <= 0xEF then 3
    else if 0xF0 <= lead <= 0xF4 then 4
    else 0
  }

  /** Continuation bytes, without overlong forms, surrogates or values past U+10FFFF. */
  predicate Character(c: seq<byte>)
    requires c != []
  {
    && (forall i :: 1 <= i < |c| ==> Tail(c[i]))
    && (|c| > 1 ==>
          && (c[0] == 0xE0 ==> c[1] >= 0xA0) && (c[0] == 0xED ==> c[1] <= 0x9F)
          && (c[0] == 0xF0 ==> c[1] >= 0x90) && (c[0] == 0xF4 ==> c[1] <= 0x8F))
  }

  predicate Tail(b: byte) { 0x80 <= b <= 0xBF }

  lemma {:induction false} AsciiIsUtf8(s: seq<byte>)
    requires forall i :: 0 <= i < |s| ==> s[i] < 0x80
    ensures Utf8(s)
  {
    if s != [] { AsciiIsUtf8(s[1..]); }
  }

  predicate StartsWith(s: seq<byte>, prefix: seq<byte>) {
    |prefix| <= |s| && s[..|prefix|] == prefix
  }

  /** The order of Rust's `str`, `[u8]` and byte arrays: by the first byte that differs. */
  predicate Before(a: seq<byte>, b: seq<byte>) {
    b != [] && (a == [] || a[0] < b[0] || (a[0] == b[0] && Before(a[1..], b[1..])))
  }

  /** The two are alike up to `k`, where the first ends, or has the smaller byte. */
  predicate DifferAt(a: seq<byte>, b: seq<byte>, k: nat) {
    k < |b| && k <= |a| && a[..k] == b[..k] && (k < |a| ==> a[k] < b[k])
  }

  lemma DifferFirst(a: seq<byte>, b: seq<byte>, k: nat)
    requires DifferAt(a, b, k)
    ensures k > 0 ==> a[0] == b[0]
  {
    if k > 0 { assert a[..k][0] == b[..k][0]; }
  }

  lemma {:induction false} BeforeMeans(a: seq<byte>, b: seq<byte>)
    ensures Before(a, b) <==> exists k: nat :: DifferAt(a, b, k)
  {
    if a == [] || b == [] {
      if b != [] { assert DifferAt(a, b, 0); }
    } else if a[0] != b[0] {
      if a[0] < b[0] { assert DifferAt(a, b, 0); }
      forall k: nat | DifferAt(a, b, k) ensures k == 0 { DifferFirst(a, b, k); }
    } else {
      BeforeMeans(a[1..], b[1..]);
      if Before(a, b) {
        var k: nat :| DifferAt(a[1..], b[1..], k);
        assert a[..k + 1] == [a[0]] + a[1..][..k] && b[..k + 1] == [b[0]] + b[1..][..k];
        assert DifferAt(a, b, k + 1);
      }
      if k: nat :| DifferAt(a, b, k) {
        assert k > 0;
        assert a[1..][..k - 1] == a[..k][1..] && b[1..][..k - 1] == b[..k][1..];
        assert DifferAt(a[1..], b[1..], k - 1);
      }
    }
  }

  lemma {:induction false} BeforeIsTotal(a: seq<byte>, b: seq<byte>)
    ensures a == b || Before(a, b) || Before(b, a)
    ensures !(Before(a, b) && (a == b || Before(b, a)))
  {
    if a != [] && b != [] {
      BeforeIsTotal(a[1..], b[1..]);
      assert a == [a[0]] + a[1..] && b == [b[0]] + b[1..];
    }
  }

  lemma {:induction false} BeforeIsTransitive(a: seq<byte>, b: seq<byte>, c: seq<byte>)
    requires Before(a, b) && Before(b, c)
    ensures Before(a, c)
  {
    if a != [] && a[0] == b[0] && b[0] == c[0] { BeforeIsTransitive(a[1..], b[1..], c[1..]); }
  }

  predicate IsLeast(name: seq<byte>, s: set<seq<byte>>) { forall m :: m in s && m != name ==> Before(name, m) }

  lemma LeastIsBefore(name: seq<byte>, s: set<seq<byte>>)
    requires IsLeast(name, s)
    ensures forall m :: m in s && m != name ==> Before(name, m)
  {
  }

  lemma {:induction false} LeastExists(s: set<seq<byte>>)
    requires s != {}
    ensures exists n :: n in s && IsLeast(n, s)
    decreases |s|
  {
    var x :| x in s;
    if s == {x} {
      assert IsLeast(x, s);
    } else {
      LeastExists(s - {x});
      var y :| y in s - {x} && IsLeast(y, s - {x});
      BeforeIsTotal(x, y);
      if Before(x, y) {
        forall m | m in s && m != x ensures Before(x, m) {
          if m != y { BeforeIsTransitive(x, y, m); }
        }
        assert IsLeast(x, s);
      } else {
        assert IsLeast(y, s);
      }
    }
  }
}
