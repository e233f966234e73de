/** The builder of a manifest's string table, from `crates/onelf-format/src/manifest.rs`: the
    offset that adding a string gives keeps reading that string back, whatever is added later.
 */
module StringTable {
  import opened Bytes
  import opened ManifestCodec

  datatype Table = Table(data: seq<byte>, index: map<seq<byte>, nat>)

  const EMPTY := Table([], map[])

  /** What adding a string makes of a table: offsets are 32 bits wide. */
  function Added(t: Table, s: seq<byte>): Table {
    if s in t.index then t else Table(t.data + s + [0], t.index[s := |t.data| % U32_LIMIT])
  }

  function AddedAll(t: Table, strings: seq<seq<byte>>): Table
    decreases |strings|
  {
    if strings == [] then t else AddedAll(Added(t, strings[0]), strings[1..])
  }

  /** `s` and its terminator stand at a position of the data. */
  predicate StandsAt(data: seq<byte>, s: seq<byte>, at: nat) {
    at + |s| < |data| && data[at..at + |s|] == s && data[at + |s|] == 0
  }

  ghost predicate WellFormed(t: Table) {
    forall s :: s in t.index ==> exists at: nat :: at % U32_LIMIT == t.index[s] && StandsAt(t.data, s, at)
  }

  lemma StillStands(data: seq<byte>, more: seq<byte>, s: seq<byte>, at: nat)
    requires StandsAt(data, s, at)
    ensures StandsAt(data + more, s, at)
  {
    assert (data + more)[at..at + |s|] == data[at..at + |s|];
  }

  lemma AddedKeeps(t: Table, s: seq<byte>)
    requires WellFormed(t)
    ensures WellFormed(Added(t, s)) && t.data <= Added(t, s).data
    ensures s in Added(t, s).index && forall x :: x in t.index ==>
      x in Added(t, s).index && Added(t, s).index[x] == t.index[x]
  {
    var u := Added(t, s);
    if s !in t.index {
      assert t.data + s + [0] == t.data + (s + [0]);
      forall x | x in u.index ensures exists at: nat :: at % U32_LIMIT == u.index[x] && StandsAt(u.data, x, at) {
        if x == s {
          assert StandsAt(u.data, s, |t.data|);
        } else {
          var at: nat :| at % U32_LIMIT == t.index[x] && StandsAt(t.data, x, at);
          StillStands(t.data, s + [0], x, at);
        }
      }
    }
  }

  lemma {:induction false} AddedAllKeeps(t: Table, strings: seq<seq<byte>>)
    requires WellFormed(t)
    ensures var u := AddedAll(t, strings);
      && WellFormed(u) && t.data <= u.data
      && (forall x :: x in t.index ==> x in u.index && u.index[x] == t.index[x])
      && forall i :: 0 <= i < |strings| ==> strings[i] in u.index
    decreases |strings|
  {
    if strings != [] {
      AddedKeeps(t, strings[0]);
      AddedAllKeeps(Added(t, strings[0]), strings[1..]);
      hide WellFormed, Added;
      assert forall i :: 0 < i < |strings| ==> strings[i] == strings[1..][i - 1];
    }
  }

  // ---- reading back ------------------------------------------------------------------------

  lemma {:induction false} TerminatorIsFirst(s: seq<byte>, n: nat)
    requires n < |s| && s[n] == 0 && forall i :: 0 <= i < n ==> s[i] != 0
    ensures TerminatorAt(s) == n
  {
    if n > 0 { TerminatorIsFirst(s[1..], n - 1); }
  }

  lemma NoNulInsideACharacter(s: seq<byte>, n: nat)
    requires 0 < n <= |s| && Character(s[..n])
    ensures forall k :: 1 <= k < n ==> s[k] != 0
  {
    forall k | 1 <= k < n ensures s[k] != 0 { assert Tail(s[..n][k]); }
  }

  lemma {:induction false} Utf8BeforeNul(s: seq<byte>, n: nat)
    requires Utf8(s) && n <= |s| && (n < |s| ==> s[n] == 0)
    ensures Utf8(s[..n])
    decreases n
  {
    if n == |s| {
      assert s[..n] == s;
    } else if n > 0 {
      var w := Width(s[0]);
      NoNulInsideACharacter(s, w);
      assert s[w..][..n - w] == s[..n][w..] && s[..n][..w] == s[..w];
      Utf8BeforeNul(s[w..], n - w);
    }
  }

  lemma SameTerminator(data: seq<byte>, s: seq<byte>, at: nat)
    requires StandsAt(data, s, at)
    ensures var n := TerminatorAt(s); TerminatorAt(data[at..]) == n && data[at..][..n] == s[..n]
  {
    var n := TerminatorAt(s);
    var tail := data[at..];
    forall i | 0 <= i < |s| ensures tail[i] == s[i] { assert tail[i] == data[at..at + |s|][i]; }
    assert tail[|s|] == data[at + |s|] == 0;
    TerminatorIsFirst(tail, n);
  }

  /** What is read at an offset where a string stands: the string up to its first NUL. */
  lemma ReadWhereItStands(data: seq<byte>, s: seq<byte>, at: nat)
    requires StandsAt(data, s, at) && Utf8(s)
    ensures GetString(data, at) == s[..TerminatorAt(s)]
  {
    SameTerminator(data, s, at);
    Utf8BeforeNul(s, TerminatorAt(s));
    hide Utf8, TerminatorAt;
  }

  // ---- which offsets read back ---------------------------------------------------------------

  /** The bytes from an offset to the next NUL, or to the end. */
  function RunAt(data: seq<byte>, offset: nat): seq<byte>
    requires offset <= |data|
  {
    data[offset..][..TerminatorAt(data[offset..])]
  }

  /** Every string that was added has been followed by its NUL. */
  predicate Ended(data: seq<byte>) { data == [] || data[|data| - 1] == 0 }

  lemma RunThatStands(data: seq<byte>, s: seq<byte>, offset: nat)
    requires Ended(data) && offset < |data| && 0 !in s
    ensures RunAt(data, offset) == s <==> StandsAt(data, s, offset)
  {
    var tail := data[offset..];
    var n := TerminatorAt(tail);
    assert tail[|tail| - 1] == 0 && n < |tail|;
    if StandsAt(data, s, offset) {
      assert tail[..|s|] == s && tail[|s|] == 0;
      assert forall i :: 0 <= i < |s| ==> tail[i] == s[i] != 0;
      TerminatorIsFirst(tail, |s|);
    }
    if RunAt(data, offset) == s {
      assert data[offset..offset + |s|] == tail[..n];
    }
  }

  /** A NUL-free string is read at an offset exactly where it stands there, or where it is empty and what
      stands there is no text. */
  lemma ReadsExactly(data: seq<byte>, s: seq<byte>, offset: nat)
    requires Ended(data) && offset < |data| && Utf8(s) && 0 !in s
    ensures GetString(data, offset) == s <==> StandsAt(data, s, offset) || (s == [] && !Utf8(RunAt(data, offset)))
  {
    RunThatStands(data, s, offset);
    hide StandsAt;
  }

  lemma {:induction false} DataIsEnded(t: Table, strings: seq<seq<byte>>)
    requires Ended(t.data)
    ensures Ended(AddedAll(t, strings).data)
    decreases |strings|
  {
    if strings != [] { DataIsEnded(Added(t, strings[0]), strings[1..]); }
  }

  lemma FirstStands(t: Table, s: seq<byte>)
    requires s !in t.index
    ensures var u := Added(t, s);
      u.index[s] == |t.data| % U32_LIMIT && StandsAt(u.data, s, |t.data|) && Ended(u.data)
  {
  }

  lemma StandsInLonger(data: seq<byte>, longer: seq<byte>, s: seq<byte>, at: nat)
    requires data <= longer && StandsAt(data, s, at)
    ensures StandsAt(longer, s, at)
  {
    hide StandsAt;
    assert longer == data + longer[|data|..];
    StillStands(data, longer[|data|..], s, at);
  }

  lemma StandsFromThenOn(t: Table, s: seq<byte>, after: seq<seq<byte>>)
    requires WellFormed(t) && Ended(t.data) && s !in t.index
    ensures var u := AddedAll(Added(t, s), after);
      && s in u.index && u.index[s] == |t.data| % U32_LIMIT
      && StandsAt(u.data, s, |t.data|) && Ended(u.data)
  {
    var v := Added(t, s);
    AddedKeeps(t, s);
    AddedAllKeeps(v, after);
    FirstStands(t, s);
    hide WellFormed, Added, AddedAll, Ended, StandsAt;
    DataIsEnded(v, after);
    var u := AddedAll(v, after);
    StandsInLonger(v.data, u.data, s, |t.data|);
  }

  lemma OffsetWraps(at: nat)
    ensures at % U32_LIMIT <= at && (at % U32_LIMIT == at <==> at < U32_LIMIT)
  {
  }

  /** A packer's whole run: where a string is added for the first time, its offset is its place exactly if
      the table is then below 4 GiB, and whatever is added later it then reads the string back, up to its
      first NUL. From 4 GiB on, it reads a NUL-free string back exactly if that happens to stand at the
      wrapped offset, or is empty and no text stands there. */
  lemma EveryOffsetReadsBack(before: seq<seq<byte>>, s: seq<byte>, after: seq<seq<byte>>)
    requires Utf8(s) && s !in AddedAll(EMPTY, before).index
    ensures
      var at := |AddedAll(EMPTY, before).data|;
      var t := AddedAll(Added(AddedAll(EMPTY, before), s), after);
      && s in t.index && StandsAt(t.data, s, at) && t.index[s] < |t.data|
      && (t.index[s] == at <==> at < U32_LIMIT)
      && (at < U32_LIMIT ==> GetString(t.data, t.index[s]) == s[..TerminatorAt(s)])
      && (at < U32_LIMIT && 0 !in s ==> GetString(t.data, t.index[s]) == s)
      && (0 !in s ==>
            (GetString(t.data, t.index[s]) == s
             <==> StandsAt(t.data, s, t.index[s]) || (s == [] && !Utf8(RunAt(t.data, t.index[s])))))
  {
    var first := AddedAll(EMPTY, before);
    var at := |first.data|;
    AddedAllKeeps(EMPTY, before);
    DataIsEnded(EMPTY, before);
    StandsFromThenOn(first, s, after);
    OffsetWraps(at);
    hide WellFormed, Added, AddedAll, GetString, Utf8, Ended, RunAt;
    var t := AddedAll(Added(first, s), after);
    PlaceIsInside(t.data, s, at);
    if at < U32_LIMIT { ReadWhereItStands(t.data, s, at); }
    if 0 !in s {
      ReadsExactly(t.data, s, t.index[s]);
      WholeUpToNul(s);
    }
  }

  lemma PlaceIsInside(data: seq<byte>, s: seq<byte>, at: nat)
    requires StandsAt(data, s, at)
    ensures at < |data|
  {
  }

  lemma WholeUpToNul(s: seq<byte>)
    ensures s[..TerminatorAt(s)] == s <==> 0 !in s
  {
    var n := TerminatorAt(s);
    if n == |s| { assert s[..n] == s; } else { assert s[n] == 0; }
  }

  /** A string that stands where its offset says is read back from there, exactly if it has no NUL. */
  lemma ReadsBack(t: Table, s: seq<byte>)
    requires s in t.index && StandsAt(t.data, s, t.index[s]) && Utf8(s)
    ensures GetString(t.data, t.index[s]) == s[..TerminatorAt(s)]
    ensures GetString(t.data, t.index[s]) == s <==> 0 !in s
  {
    hide GetString, Utf8, StandsAt;
    ReadWhereItStands(t.data, s, t.index[s]);
    WholeUpToNul(s);
  }

  /** So strings without NULs that stand where their offsets say share an offset only if they are the same. */
  lemma OffsetsAreDistinct(t: Table, a: seq<byte>, b: seq<byte>)
    requires a in t.index && StandsAt(t.data, a, t.index[a]) && Utf8(a) && 0 !in a
    requires b in t.index && StandsAt(t.data, b, t.index[b]) && Utf8(b) && 0 !in b
    ensures t.index[a] == t.index[b] ==> a == b
  {
    hide GetString, Utf8, StandsAt;
    ReadsBack(t, a);
    ReadsBack(t, b);
  }

  /** 4 GiB less two bytes of text. */
  function Filler(): (s: seq<byte>)
    ensures |s| == U32_LIMIT - 2 && forall i :: 0 <= i < |s| ==> s[i] == 0x61
  {
    seq(U32_LIMIT - 2, _ => 0x61)
  }

  /** A run in which the offset wraps: a packer that adds the empty string and then enough to fill 4 GiB gives
      the next string the offset of the empty one, and reads that instead. */
  lemma OffsetsMayWrap(s: seq<byte>)
    requires s != [] && s != Filler()
    ensures Utf8(Filler()) && 0 !in Filler()
    ensures var t := AddedAll(EMPTY, [[], Filler(), s]);
      && [] in t.index && s in t.index && t.index[[]] == t.index[s] == 0 && GetString(t.data, 0) == []
  {
    var f := Filler();
    AsciiIsUtf8(f);
    hide Utf8, Filler;
    var t1 := Added(EMPTY, []);
    var t2 := Added(t1, f);
    var t3 := Added(t2, s);
    assert t1 == Table([0], map[[] := 0]);
    assert |t2.data| == U32_LIMIT && t2.data[0] == 0 && t2.index[[]] == 0;
    assert t3.index[s] == 0 && t3.index[[]] == 0 && t3.data[0] == 0;
    assert t3.data[0..][0] == 0;
    ThreeAdded([], f, s);
  }

  lemma ThreeAdded(a: seq<byte>, b: seq<byte>, c: seq<byte>)
    ensures AddedAll(EMPTY, [a, b, c]) == Added(Added(Added(EMPTY, a), b), c)
  {
    hide Added;
    assert [a, b, c][1..] == [b, c] && [b, c][1..] == [c] && [c][1..] == [];
    assert AddedAll(Added(Added(EMPTY, a), b), [c]) == AddedAll(Added(Added(Added(EMPTY, a), b), c), []);
  }

  // ---- the builder -------------------------------------------------------------------------

  class StringTableBuilder {
    var data: seq<byte>
    var index: map<seq<byte>, nat>

    function State(): Table
      reads this
    {
      Table(data, index)
    }

    constructor ()
      ensures State() == EMPTY
    {
      data, index := [], map[];
    }

    /** `add`. */
    method Add(s: seq<byte>) returns (offset: nat)
      modifies this
      ensures State() == Added(old(State()), s)
      ensures s in index && offset == index[s]
    {
      if s in index { return index[s]; }
      offset := |data| % U32_LIMIT;
      data := data + s;
      data := data + [0];
      index := index[s := offset];
    }
  }
}
