/** The 16-byte header shared by the three bounded transports. */
module Transport {
  import opened Bytes
  import opened Codec

  const HEADER_BYTES := 16
  const MAX_BYTES := 1024 * 1024

  function Header(magic: seq<byte>, payload: nat, records: nat): seq<byte> {
    magic + [1, 0] + [0, 0] + U32(payload) + U32(records)
  }

  /** A complete file, unless it is too long. */
  function Wrap(magic: seq<byte>, body: seq<byte>, records: nat): Option<seq<byte>> {
    if HEADER_BYTES + |body| > MAX_BYTES then None else Some(Header(magic, |body|, records) + body)
  }

  /** The body of a complete file and the record count its header declares. */
  function Unwrap(magic: seq<byte>, b: seq<byte>): Option<(seq<byte>, nat)> {
    if |b| > MAX_BYTES || |b| < HEADER_BYTES then None
    else if b[..4] != magic || b[4..6] != [1, 0] || b[6..8] != [0, 0] then None
    else if FromLe(b[12..16]) > MAX_RECORDS || FromLe(b[8..12]) != |b| - HEADER_BYTES then None
    else Some((b[HEADER_BYTES..], FromLe(b[12..16])))
  }

  lemma HeaderFields(magic: seq<byte>, payload: nat, records: nat, body: seq<byte>)
    requires |magic| == 4
    ensures
      var b := Header(magic, payload, records) + body;
      && |b| == HEADER_BYTES + |body|
      && b[..4] == magic && b[4..6] == [1, 0] && b[6..8] == [0, 0]
      && b[8..12] == U32(payload) && b[12..16] == U32(records) && b[16..] == body
  {
  }

  lemma UnwrapWrap(magic: seq<byte>, body: seq<byte>, records: nat)
    requires |magic| == 4 && Wrap(magic, body, records).Some? && records <= MAX_RECORDS
    ensures Unwrap(magic, Wrap(magic, body, records).value) == Some((body, records))
  {
    HeaderFields(magic, |body|, records, body);
    U32Limit();
    FromLeOfLe(|body|, 4);
    FromLeOfLe(records, 4);
  }

  lemma HeaderParts(b: seq<byte>)
    requires |b| >= HEADER_BYTES
    ensures b == b[..4] + b[4..6] + b[6..8] + b[8..12] + b[12..16] + b[16..]
  {
  }

  lemma WrapUnwrap(magic: seq<byte>, b: seq<byte>)
    requires Unwrap(magic, b).Some?
    ensures Wrap(magic, Unwrap(magic, b).value.0, Unwrap(magic, b).value.1) == Some(b)
  {
    HeaderParts(b);
    LeOfFromLe(b[8..12]);
    LeOfFromLe(b[12..16]);
  }

  // ---- files around one value ---------------------------------------------------------

  function Encoded<T(!new)>(magic: seq<byte>, c: Codec<T>, v: T): Option<seq<byte>> {
    Wrap(magic, c.put(v), c.count(v))
  }

  /** The value of a file: nothing may follow it, and the header must declare its record count. */
  function Decoded<T(!new)>(magic: seq<byte>, c: Codec<T>, b: seq<byte>): Option<T> {
    match Unwrap(magic, b)
    case None => None
    case Some((body, records)) =>
      match c.get(body, 0)
      case Bad => None
      case Got(v, rest, budget) => if rest == [] && budget == records then Some(v) else None
  }

  lemma DecodedEncoded<T(!new)>(magic: seq<byte>, c: Codec<T>, v: T)
    requires |magic| == 4 && Reads(c) && c.valid(v) && c.count(v) <= MAX_RECORDS && Encoded(magic, c, v).Some?
    ensures Decoded(magic, c, Encoded(magic, c, v).value) == Some(v)
  {
    UnwrapWrap(magic, c.put(v), c.count(v));
    assert c.put(v) + [] == c.put(v);
    assert c.get(c.put(v) + [], 0) == Got(v, [], c.count(v));
  }

  lemma EncodedDecoded<T(!new)>(magic: seq<byte>, c: Codec<T>, b: seq<byte>)
    requires Writes(c) && Decoded(magic, c, b).Some?
    ensures var v := Decoded(magic, c, b).value;
      c.valid(v) && c.count(v) <= MAX_RECORDS && Encoded(magic, c, v) == Some(b)
  {
    WrapUnwrap(magic, b);
    var body := Unwrap(magic, b).value.0;
    var g := c.get(body, 0);
    assert Undone(c, body, 0, g);
    assert c.put(g.value) + [] == c.put(g.value);
  }
}
