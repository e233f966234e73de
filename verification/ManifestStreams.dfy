/** The loops of `crates/onelf-format/src/manifest.rs` over a writer and a cursor, and their
    agreement with the format of `ManifestCodec`.
 */
module ManifestStreams {
  import opened Bytes
  import opened Codec
  import opened ManifestCodec

  class Cursor {
    var rest: seq<byte>

    constructor (data: seq<byte>)
      ensures rest == data
    {
      rest := data;
    }

    /** One `read_from`. */
    method Read<T(!new)>(item: Codec<T>) returns (v: Option<T>)
      modifies this
      ensures match item.get(old(rest), 0)
        case Bad => v == None
        case Got(value, tail, _) => v == Some(value) && rest == tail
    {
      match item.get(rest, 0)
      case Bad => return None;
      case Got(value, tail, _) =>
        rest := tail;
        return Some(value);
    }

    /** A counted loop of reads, that stops at the first error. */
    method ReadMany<T(!new)>(item: Codec<T>, count: nat) returns (vs: Option<seq<T>>)
      requires Exact(item)
      modifies this
      ensures match GetAll(item, count, old(rest), 0)
        case Bad => vs == None
        case Got(values, tail, _) => vs == Some(values) && rest == tail
    {
      var done: seq<T> := [];
      After(done, GetAll(item, count, rest, 0));
      for i := 0 to count
        invariant GetAll(item, count, old(rest), 0) == Behind(done, GetAll(item, count - i, rest, 0))
      {
        ghost var before, seen := rest, done;
        UncountedGet(item, before);
        var v := Read(item);
        if v.None? { return None; }
        done := done + [v.value];
        OneFurther(item, count - i, before, seen);
      }
      assert GetAll(item, 0, rest, 0) == Got([], rest, 0) && done + [] == done;
      vs := Some(done);
    }
  }

  function Behind<T>(done: seq<T>, g: Got<seq<T>>): Got<seq<T>> {
    match g
    case Bad => Bad
    case Got(vs, rest, n) => Got(done + vs, rest, n)
  }

  lemma After<T>(done: seq<T>, g: Got<seq<T>>)
    requires done == []
    ensures Behind(done, g) == g
  {
    if g.Got? { assert done + g.value == g.value; }
  }

  lemma UncountedGet<T(!new)>(item: Codec<T>, b: seq<byte>)
    requires Exact(item)
    ensures item.get(b, 0).Got? ==> item.get(b, 0).budget == 0
  {
    if item.get(b, 0).Got? { assert Undone(item, b, 0, item.get(b, 0)); }
  }

  lemma OneFurther<T(!new)>(item: Codec<T>, k: nat, b: seq<byte>, done: seq<T>)
    requires k > 0 && item.get(b, 0).Got? && item.get(b, 0).budget == 0
    ensures var g := item.get(b, 0);
      Behind(done, GetAll(item, k, b, 0)) == Behind(done + [g.value], GetAll(item, k - 1, g.rest, 0))
  {
    var g := item.get(b, 0);
    var rest := GetAll(item, k - 1, g.rest, 0);
    if rest.Got? { assert done + ([g.value] + rest.value) == done + [g.value] + rest.value; }
  }

  // ---- writing -------------------------------------------------------------------------------

  /** A loop of `write_to`. */
  method WriteMany<T(!new)>(out: seq<byte>, item: Codec<T>, vs: seq<T>) returns (written: seq<byte>)
    ensures written == out + PutAll(item, vs)
  {
    written := out;
    assert vs[0..] == vs;
    for i := 0 to |vs|
      invariant written + PutAll(item, vs[i..]) == out + PutAll(item, vs)
    {
      assert vs[i..][1..] == vs[i + 1..];
      assert written + (item.put(vs[i]) + PutAll(item, vs[i + 1..]))
        == written + item.put(vs[i]) + PutAll(item, vs[i + 1..]);
      written := written + item.put(vs[i]);
    }
    assert written + [] == written;
  }

  method Write(m: Manifest) returns (bytes: seq<byte>)
    ensures bytes == Serialize(m)
  {
    hide PointCodec, EntryCodec, Number, PutHeader, PutAll;
    bytes := PutHeader(m.header.(version := MANIFEST_VERSION));
    bytes := WriteMany(bytes, PointCodec(), m.entrypoints);
    bytes := WriteMany(bytes, EntryCodec(MANIFEST_VERSION), m.entries);
    bytes := WriteMany(bytes, Number(4), m.libDirs);
    bytes := bytes + m.strings;
  }

  // ---- validating -----------------------------------------------------------------------------

  predicate EntriesValid(m: Manifest, n: nat)
    requires n <= |m.entries|
  {
    forall i :: 0 <= i < n ==> ValidEntry(m, i)
  }

  method ValidateEntries(m: Manifest) returns (ok: bool)
    ensures ok <==> EntriesValid(m, |m.entries|)
  {
    for i := 0 to |m.entries|
      invariant EntriesValid(m, i)
    {
      var e := m.entries[i];
      if e.parent != TOP {
        if e.parent >= |m.entries| || e.parent >= i || !m.entries[e.parent].kind.Dir? {
          assert !ValidEntry(m, i);
          return false;
        }
      }
      if e.name > |m.strings| || e.symlink > |m.strings| {
        assert !ValidEntry(m, i);
        return false;
      }
    }
    ok := true;
  }

  method Validate(m: Manifest) returns (ok: bool)
    ensures ok <==> Valid(m)
  {
    hide GetString, SafeDir, ValidEntry;
    var entries := ValidateEntries(m);
    if !entries { return false; }
    for i := 0 to |m.entrypoints|
      invariant forall k :: 0 <= k < i ==>
        m.entrypoints[k].target < |m.entries| && m.entrypoints[k].name <= |m.strings| &&
          m.entrypoints[k].args <= |m.strings|
    {
      var p := m.entrypoints[i];
      if p.target >= |m.entries| || p.name > |m.strings| || p.args > |m.strings| { return false; }
    }
    if m.entrypoints != [] && m.header.defaultEntrypoint >= |m.entrypoints| { return false; }
    for i := 0 to |m.libDirs|
      invariant forall k :: 0 <= k < i ==> m.libDirs[k] <= |m.strings| && SafeDir(GetString(m.strings, m.libDirs[k]))
    {
      assert m.libDirs[i] in m.libDirs;
      if m.libDirs[i] > |m.strings| { return false; }
      if !SafeDir(GetString(m.strings, m.libDirs[i])) { return false; }
    }
    ok := m.header.name <= |m.strings|;
  }

  // ---- reading --------------------------------------------------------------------------------

  method ReadBody(cursor: Cursor, h: Header) returns (m: Option<Manifest>)
    modifies cursor
    ensures m == GetBody(h, old(cursor.rest))
  {
    PointExact();
    EntryExact(h.version);
    NumberExact(4);
    hide PointCodec, EntryCodec, Number, GetAll, Exact;
    ghost var b := cursor.rest;
    var points := cursor.ReadMany(PointCodec(), h.entrypoints);
    if points.None? { return None; }
    ListIsRead(PointCodec(), h.entrypoints, b);
    ghost var b1 := cursor.rest;
    var entries := cursor.ReadMany(EntryCodec(h.version), h.entries);
    if entries.None? { return None; }
    ListIsRead(EntryCodec(h.version), h.entries, b1);
    var dirs := cursor.ReadMany(Number(4), h.libDirs);
    if dirs.None? { return None; }
    if h.strings > |cursor.rest| { return None; }
    m := Some(Manifest(h, points.value, entries.value, dirs.value, cursor.rest[..h.strings]));
  }

  /** `deserialize`. */
  method Read(data: seq<byte>) returns (m: Option<Manifest>)
    ensures m == Deserialize(data)
  {
    hide GetHeader, GetBody, Valid;
    var header := GetHeader(data);
    if header.Bad? { return None; }
    var h := header.value;
    if h.version == 0 || h.version > MANIFEST_VERSION { return None; }
    var cursor := new Cursor(header.rest);
    var body := ReadBody(cursor, h);
    if body.None? { return None; }
    var ok := Validate(body.value);
    m := if ok then body else None;
  }
}
