/** Patching the lines of a desktop file twice: `patch_desktop_file` of
    `crates/onelf-format/src/desktop.rs`, as what it does to a list of lines.
 */
module DesktopPatch {
  import opened Bytes
  import opened DesktopQuoting
  import opened DesktopCommand
  import opened DesktopLines

  type Lines = seq<string>

  function Patched(p: Launch, g: Group, lines: Lines): (r: Lines)
    ensures |r| == |lines|
    decreases |lines|
  {
    if lines == [] then []
    else [PatchedLine(p, Next(g, lines[0]), lines[0])] + Patched(p, Next(g, lines[0]), lines[1..])
  }

  /** Whether the entry's own group has a line of a key. */
  predicate Seen(key: string, g: Group, lines: Lines)
    decreases |lines|
  {
    lines != [] && (Holds(key, Next(g, lines[0]), lines[0]) || Seen(key, Next(g, lines[0]), lines[1..]))
  }

  predicate Holds(key: string, g: Group, line: string) { g.Main? && !IsHeader(line) && HasPrefix(line, key) }

  /** The first line that is the entry's header once trimmed at both ends. */
  function HeaderAt(lines: Lines): (h: nat)
    ensures h <= |lines| && (h < |lines| ==> Trim(lines[h]) == EntryHeader())
    ensures forall i :: 0 <= i < h ==> Trim(lines[i]) != EntryHeader()
  {
    if lines == [] || Trim(lines[0]) == EntryHeader() then 0 else 1 + HeaderAt(lines[1..])
  }

  function InsertAt(lines: Lines): (at: nat)
    ensures at <= |lines|
  {
    if HeaderAt(lines) < |lines| then HeaderAt(lines) + 1 else |lines|
  }

  function MissingExec(p: Launch, lines: Lines): Lines {
    if Seen(ExecKey(), Other, lines) then [] else [ExecLine(p, "")]
  }

  function MissingTry(p: Launch, lines: Lines): Lines {
    if Seen(TryKey(), Other, lines) then [] else [TryLine(p)]
  }

  function Missing(p: Launch, lines: Lines): Lines { MissingExec(p, lines) + MissingTry(p, lines) }

  /** All the lines of the patched file. */
  function Whole(p: Launch, lines: Lines): Lines {
    var done := Patched(p, Other, lines);
    done[..InsertAt(done)] + Missing(p, lines) + done[InsertAt(done)..]
  }

  // ---- parts of files ----------------------------------------------------------------------

  lemma FirstOfTwo(a: Lines, b: Lines)
    requires a != []
    ensures a + b != [] && (a + b)[0] == a[0] && (a + b)[1..] == a[1..] + b
  {
  }

  lemma {:induction false} FinalOfTwo(g: Group, a: Lines, b: Lines)
    ensures Final(g, a + b) == Final(Final(g, a), b)
    decreases |a|
  {
    hide Next;
    if a == [] {
      assert a + b == b;
    } else {
      FirstOfTwo(a, b);
      FinalOfTwo(Next(g, a[0]), a[1..], b);
    }
  }

  lemma {:induction false} SeenInTwo(key: string, g: Group, a: Lines, b: Lines)
    ensures Seen(key, g, a + b) <==> Seen(key, g, a) || Seen(key, Final(g, a), b)
    decreases |a|
  {
    hide Next, Holds;
    if a == [] {
      assert a + b == b;
    } else {
      FirstOfTwo(a, b);
      SeenInTwo(key, Next(g, a[0]), a[1..], b);
    }
  }

  lemma {:induction false} PatchedInTwo(p: Launch, g: Group, a: Lines, b: Lines)
    ensures Patched(p, g, a + b) == Patched(p, g, a) + Patched(p, Final(g, a), b)
    decreases |a|
  {
    hide Next, PatchedLine;
    if a == [] {
      assert a + b == b;
      assert [] + Patched(p, g, b) == Patched(p, g, b);
    } else {
      var next := Next(g, a[0]);
      FirstOfTwo(a, b);
      PatchedInTwo(p, next, a[1..], b);
      Regrouped([PatchedLine(p, next, a[0])], Patched(p, next, a[1..]), Patched(p, Final(next, a[1..]), b));
    }
  }

  lemma Regrouped(a: Lines, b: Lines, c: Lines)
    ensures a + (b + c) == a + b + c
  {
  }

  lemma InTwoParts(p: Launch, key: string, g: Group, a: Lines, b: Lines)
    ensures Patched(p, g, a + b) == Patched(p, g, a) + Patched(p, Final(g, a), b)
    ensures Final(g, a + b) == Final(Final(g, a), b)
    ensures Seen(key, g, a + b) <==> Seen(key, g, a) || Seen(key, Final(g, a), b)
  {
    hide Patched, Final, Seen;
    FinalOfTwo(g, a, b);
    SeenInTwo(key, g, a, b);
    PatchedInTwo(p, g, a, b);
  }

  lemma {:induction false} HeaderInFirstPart(a: Lines, b: Lines)
    requires HeaderAt(a) < |a|
    ensures HeaderAt(a + b) == HeaderAt(a)
  {
    assert (a + b)[0] == a[0] && (a + b)[1..] == a[1..] + b;
    hide Trim, EntryHeader;
    if Trim(a[0]) != EntryHeader() { HeaderInFirstPart(a[1..], b); }
  }

  predicate Alike(a: Lines, b: Lines) { |a| == |b| && forall i :: 0 <= i < |a| ==> SameKind(a[i], b[i]) }

  lemma {:induction false} PatchedIsAlike(p: Launch, g: Group, lines: Lines)
    ensures Alike(lines, Patched(p, g, lines))
    decreases |lines|
  {
    if lines != [] {
      hide PatchedLine, SameKind, Next;
      PatchedLineIsAlike(p, Next(g, lines[0]), lines[0]);
      PatchedIsAlike(p, Next(g, lines[0]), lines[1..]);
      AlikeFromParts(lines, Patched(p, g, lines));
    }
  }

  lemma AlikeFromParts(a: Lines, b: Lines)
    requires a != [] && b != [] && SameKind(a[0], b[0]) && Alike(a[1..], b[1..])
    ensures Alike(a, b)
  {
    hide SameKind;
    forall i | 0 <= i < |a| ensures SameKind(a[i], b[i]) {
      if i > 0 { assert a[1..][i - 1] == a[i] && b[1..][i - 1] == b[i]; }
    }
  }

  lemma RestIsAlike(a: Lines, b: Lines)
    requires Alike(a, b) && a != []
    ensures SameKind(a[0], b[0]) && Alike(a[1..], b[1..])
  {
    hide SameKind;
    forall i | 0 <= i < |a| - 1 ensures SameKind(a[1..][i], b[1..][i]) { assert SameKind(a[i + 1], b[i + 1]); }
  }

  lemma SameNext(g: Group, a: string, b: string, key: string)
    requires SameKind(a, b) && key in {ExecKey(), TryKey()}
    ensures Next(g, a) == Next(g, b) && (Holds(key, Next(g, a), a) <==> Holds(key, Next(g, b), b))
  {
    hide IsHeader, Trim, EntryHeader, HasPrefix, ExecKey, TryKey, IconKey, GroupOf;
  }

  /** Files whose lines are alike have the same groups, keys and header. */
  lemma {:induction false} AlikeFiles(key: string, g: Group, a: Lines, b: Lines)
    requires Alike(a, b) && key in {ExecKey(), TryKey()}
    ensures Final(g, a) == Final(g, b) && Seen(key, g, a) == Seen(key, g, b) && HeaderAt(a) == HeaderAt(b)
    decreases |a|
  {
    if a != [] {
      hide Next, Holds, IsHeader, Trim, EntryHeader, HasPrefix, ExecKey, TryKey, IconKey;
      RestIsAlike(a, b);
      SameNext(g, a[0], b[0], key);
      hide Alike;
      AlikeFiles(key, Next(g, a[0]), a[1..], b[1..]);
    }
  }

  predicate Compatible(a: Launch, b: Launch) { Launchable(a.path, a.entrypoint) && (a.icon.Some? ==> b.icon.Some?) }

  lemma {:induction false} LastPatchWinsOnLines(a: Launch, b: Launch, g: Group, lines: Lines)
    requires Compatible(a, b)
    ensures Patched(b, g, Patched(a, g, lines)) == Patched(b, g, lines)
    decreases |lines|
  {
    if lines != [] {
      var next := Next(g, lines[0]);
      var once := PatchedLine(a, next, lines[0]);
      assert Patched(a, g, lines) == [once] + Patched(a, next, lines[1..]);
      PatchedLineIsAlike(a, next, lines[0]);
      SameNext(g, lines[0], once, ExecKey());
      LastPatchWinsOnALine(a, b, next, lines[0]);
      hide PatchedLine, SameKind, Next, ExecKey;
      LastPatchWinsOnLines(a, b, next, lines[1..]);
      assert Patched(a, g, lines)[1..] == Patched(a, next, lines[1..]);
    }
  }

  // ---- where the keys go -------------------------------------------------------------------

  /** The first header of the entry has no blanks after it. */
  predicate CleanHeader(lines: Lines) {
    HeaderAt(lines) < |lines| && TrimStart(lines[HeaderAt(lines)]) == EntryHeader()
  }

  predicate BothSeen(lines: Lines) { Seen(ExecKey(), Other, lines) && Seen(TryKey(), Other, lines) }

  lemma HeaderIsHeader()
    ensures forall line :: TrimStart(line) == EntryHeader() ==> IsHeader(line) && GroupOf(line) == Main
    ensures TrimEnd(EntryHeader()) == EntryHeader() && EntryHeader() != ""
  {
    assert EntryHeader()[0] == '[' && EndsWith(EntryHeader(), ']');
    assert !Space('[') && !Space(']');
  }

  lemma {:induction false} FinalAtHeader(g: Group, lines: Lines, h: nat)
    requires h < |lines| && TrimStart(lines[h]) == EntryHeader()
    ensures Final(g, lines[..h + 1]) == Main
    decreases h
  {
    HeaderIsHeader();
    hide IsHeader, GroupOf, TrimStart, EntryHeader;
    var a := lines[..h + 1];
    assert a[0] == lines[0] && a[1..] == lines[1..][..h];
    if h > 0 {
      assert lines[1..][h - 1] == lines[h];
      FinalAtHeader(Next(g, a[0]), lines[1..], h - 1);
    }
  }

  /** Without a header that is taken for one, nothing is in the entry's group. */
  lemma {:induction false} NeverMain(key: string, g: Group, lines: Lines)
    requires !g.Main? && forall i :: 0 <= i < |lines| ==> TrimStart(lines[i]) != EntryHeader()
    ensures !Final(g, lines).Main? && !Seen(key, g, lines)
    decreases |lines|
  {
    if lines != [] {
      assert !Next(g, lines[0]).Main?;
      hide IsHeader, GroupOf, TrimStart, EntryHeader, Next;
      assert forall i :: 0 <= i < |lines[1..]| ==> lines[1..][i] == lines[i + 1];
      NeverMain(key, Next(g, lines[0]), lines[1..]);
    }
  }

  lemma InsertsAfter(p: Launch, lines: Lines)
    ensures var a, b := lines[..InsertAt(lines)], lines[InsertAt(lines)..];
      && Whole(p, lines) == Patched(p, Other, a) + Missing(p, lines) + Patched(p, Final(Other, a), b)
      && lines == a + b
  {
    var at := InsertAt(lines);
    var a, b := lines[..at], lines[at..];
    var done := Patched(p, Other, lines);
    PatchedIsAlike(p, Other, lines);
    AlikeFiles(ExecKey(), Other, lines, done);
    assert lines == a + b;
    InTwoParts(p, ExecKey(), Other, a, b);
    hide Patched, Final, Seen, HeaderAt, Missing, Alike;
    assert done[..at] == Patched(p, Other, a) && done[at..] == Patched(p, Final(Other, a), b);
  }

  // ---- the inserted lines ----------------------------------------------------------------------

  lemma KeyLine(g: Group, line: string, key: string)
    requires key in {ExecKey(), TryKey()} && HasPrefix(line, key)
    ensures Next(g, line) == g && !IsHeader(line)
    ensures HasPrefix(line, ExecKey()) <==> key == ExecKey()
    ensures HasPrefix(line, TryKey()) <==> key == TryKey()
  {
    assert ExecKey()[0] != TryKey()[0];
    KeysAreNotHeaders(line);
    OneKeyOnly(line);
    hide IsHeader, Trim, EntryHeader, HasPrefix, ExecKey, TryKey, IconKey;
  }

  lemma NewLines(p: Launch)
    ensures HasPrefix(ExecLine(p, ""), ExecKey()) && HasPrefix(TryLine(p), TryKey())
  {
    hide ExecKey, TryKey, HasPrefix, ExecCommand, StringValue;
    Begins(ExecKey(), ExecCommand(p.path, p.entrypoint) + "");
    Begins(TryKey(), StringValue(p.path));
  }

  lemma NewLinesAgain(a: Launch, b: Launch)
    requires Launchable(a.path, a.entrypoint)
    ensures PatchedLine(b, Main, ExecLine(a, "")) == ExecLine(b, "")
    ensures PatchedLine(b, Main, TryLine(a)) == TryLine(b)
  {
    NewLines(a);
    KeyLine(Main, ExecLine(a, ""), ExecKey());
    KeyLine(Main, TryLine(a), TryKey());
    ExecLineKeepsTail(a, "");
    hide IsHeader, HasPrefix, ExecKey, TryKey, IconKey, ExecLine, TryLine, TailOf, Launchable;
  }

  lemma OneLine(p: Launch, key: string, g: Group, line: string)
    requires Next(g, line) == g
    ensures Patched(p, g, [line]) == [PatchedLine(p, g, line)] && Final(g, [line]) == g
    ensures Seen(key, g, [line]) <==> Holds(key, g, line)
  {
    assert [line][1..] == [];
  }

  lemma MissingKeys(a: Launch, b: Launch, key: string, g: Group, lines: Lines)
    requires Launchable(a.path, a.entrypoint) && key in {ExecKey(), TryKey()}
    ensures Final(g, Missing(a, lines)) == g
    ensures Seen(key, g, Missing(a, lines)) <==> g.Main? && !Seen(key, Other, lines)
    ensures g.Main? ==> Patched(b, g, Missing(a, lines)) == Missing(b, lines)
  {
    NewLines(a);
    NewLinesAgain(a, b);
    KeyLine(g, ExecLine(a, ""), ExecKey());
    KeyLine(g, TryLine(a), TryKey());
    OneLine(b, key, g, ExecLine(a, ""));
    OneLine(b, key, g, TryLine(a));
    InTwoParts(b, key, g, MissingExec(a, lines), MissingTry(a, lines));
    assert Patched(b, g, []) == [] && !Seen(key, g, []) && Final(g, []) == g;
    hide Patched, PatchedLine, Final, Next, IsHeader, HasPrefix, ExecKey, TryKey, ExecLine, TryLine, Seen, Launchable;
  }

  /** The keys of a file after a pass. */
  lemma KeysAfterwards(p: Launch, key: string, lines: Lines)
    requires Launchable(p.path, p.entrypoint) && key in {ExecKey(), TryKey()}
    ensures var g := Final(Other, lines[..InsertAt(lines)]);
      Seen(key, Other, Whole(p, lines)) <==> Seen(key, Other, lines) || g.Main?
  {
    var a, b := lines[..InsertAt(lines)], lines[InsertAt(lines)..];
    var g := Final(Other, a);
    InsertsAfter(p, lines);
    MissingKeys(p, p, key, g, lines);
    PatchedIsAlike(p, Other, a);
    PatchedIsAlike(p, g, b);
    AlikeFiles(key, Other, a, Patched(p, Other, a));
    AlikeFiles(key, g, b, Patched(p, g, b));
    InTwoParts(p, key, Other, a, b);
    InTwoParts(p, key, Other, Patched(p, Other, a), Missing(p, lines));
    InTwoParts(p, key, Other, Patched(p, Other, a) + Missing(p, lines), Patched(p, g, b));
    hide Patched, Seen, Final, Missing, Whole, InsertAt, ExecKey, TryKey, Alike, Launchable;
  }

  lemma TrimmedBothEnds(line: string)
    requires Trim(line) != EntryHeader()
    ensures TrimStart(line) != EntryHeader()
  {
    HeaderIsHeader();
  }

  lemma UncleanHeader(lines: Lines, h: nat)
    requires h < |lines| && TrimStart(lines[h]) != EntryHeader()
    requires forall i :: 0 <= i < h ==> Trim(lines[i]) != EntryHeader()
    ensures !Final(Other, lines[..h + 1]).Main?
  {
    var a := lines[..h + 1];
    hide TrimStart, Trim, EntryHeader, Final;
    forall i | 0 <= i < |a| ensures TrimStart(a[i]) != EntryHeader() {
      assert a[i] == lines[i];
      if i < h { TrimmedBothEnds(lines[i]); }
    }
    NeverMain(ExecKey(), Other, a);
  }

  lemma CleanMeansMain(lines: Lines)
    requires HeaderAt(lines) < |lines|
    ensures Final(Other, lines[..InsertAt(lines)]).Main? <==> CleanHeader(lines)
  {
    var h := HeaderAt(lines);
    assert InsertAt(lines) == h + 1;
    hide TrimStart, Trim, EntryHeader, IsHeader, GroupOf, Final, HeaderAt, InsertAt;
    if TrimStart(lines[h]) == EntryHeader() {
      FinalAtHeader(Other, lines, h);
    } else {
      UncleanHeader(lines, h);
    }
  }

  lemma NoHeaderMeansNothing(key: string, lines: Lines)
    requires HeaderAt(lines) == |lines|
    ensures !Final(Other, lines[..InsertAt(lines)]).Main? && !Seen(key, Other, lines)
  {
    assert lines[..|lines|] == lines;
    hide TrimStart, Trim, EntryHeader;
    forall i | 0 <= i < |lines| ensures TrimStart(lines[i]) != EntryHeader() { TrimmedBothEnds(lines[i]); }
    NeverMain(key, Other, lines);
  }

  /** A pass adds the keys for good, exactly if the first header is clean; otherwise what is missing stays missing. */
  lemma KeysAreAdded(p: Launch, key: string, lines: Lines)
    requires Launchable(p.path, p.entrypoint) && key in {ExecKey(), TryKey()}
    ensures Seen(key, Other, Whole(p, lines)) <==> Seen(key, Other, lines) || CleanHeader(lines)
  {
    KeysAfterwards(p, key, lines);
    if HeaderAt(lines) < |lines| { CleanMeansMain(lines); } else { NoHeaderMeansNothing(key, lines); }
  }

  lemma WholeWhenSeen(p: Launch, lines: Lines)
    requires BothSeen(lines)
    ensures Whole(p, lines) == Patched(p, Other, lines)
  {
    hide Patched, Seen, InsertAt;
    var done := Patched(p, Other, lines);
    assert Missing(p, lines) == [];
    assert done[..InsertAt(done)] + [] + done[InsertAt(done)..] == done;
  }

  /** Where a pass is complete, a later one takes over from it. */
  lemma LastPatchWinsOnFiles(a: Launch, b: Launch, lines: Lines)
    requires Compatible(a, b) && (CleanHeader(lines) || BothSeen(lines))
    ensures BothSeen(Whole(a, lines)) && Whole(b, Whole(a, lines)) == Whole(b, lines)
  {
    KeysAreAdded(a, ExecKey(), lines);
    KeysAreAdded(a, TryKey(), lines);
    WholeWhenSeen(b, Whole(a, lines));
    if BothSeen(lines) {
      WholeWhenSeen(a, lines);
      WholeWhenSeen(b, lines);
      LastPatchWinsOnLines(a, b, Other, lines);
    } else {
      LastPatchWinsAtHeader(a, b, lines);
    }
  }

  lemma LastPatchWinsAtHeader(a: Launch, b: Launch, lines: Lines)
    requires Compatible(a, b) && CleanHeader(lines)
    ensures Patched(b, Other, Whole(a, lines)) == Whole(b, lines)
  {
    var top, rest := lines[..InsertAt(lines)], lines[InsertAt(lines)..];
    CleanMeansMain(lines);
    InsertsAfter(a, lines);
    InsertsAfter(b, lines);
    var top1, new1, rest1 := Patched(a, Other, top), Missing(a, lines), Patched(a, Main, rest);
    PatchedIsAlike(a, Other, top);
    AlikeFiles(ExecKey(), Other, top, top1);
    MissingKeys(a, b, ExecKey(), Main, lines);
    InTwoParts(b, ExecKey(), Other, top1 + new1, rest1);
    InTwoParts(b, ExecKey(), Other, top1, new1);
    LastPatchWinsOnLines(a, b, Other, top);
    LastPatchWinsOnLines(a, b, Main, rest);
    hide Patched, Seen, Final, Missing, Whole, InsertAt, ExecKey, Alike, CleanHeader;
  }

  lemma BlankKey(p: Launch, key: string, lines: Lines)
    requires key in {ExecKey(), TryKey()}
    ensures Seen(key, Other, lines + [""]) == Seen(key, Other, lines)
    ensures Patched(p, Other, lines + [""]) == Patched(p, Other, lines) + [""]
  {
    var g := Final(Other, lines);
    BlankLine(p, g);
    InTwoParts(p, key, Other, lines, [""]);
    hide Next, Holds, PatchedLine, ExecKey, TryKey;
    OneLine(p, key, g, "");
  }

  lemma BlankInsert(p: Launch, lines: Lines)
    requires HeaderAt(lines) < |lines|
    ensures var done := Patched(p, Other, lines);
      InsertAt(done + [""]) == InsertAt(done) <= |done|
  {
    var done := Patched(p, Other, lines);
    PatchedIsAlike(p, Other, lines);
    AlikeFiles(ExecKey(), Other, lines, done);
    HeaderInFirstPart(done, [""]);
    hide HeaderAt, Patched, Alike;
  }

  lemma BlankHeader(lines: Lines)
    requires HeaderAt(lines) < |lines|
    ensures CleanHeader(lines + [""]) == CleanHeader(lines)
  {
    HeaderInFirstPart(lines, [""]);
    hide HeaderAt, TrimStart, EntryHeader;
    assert (lines + [""])[HeaderAt(lines)] == lines[HeaderAt(lines)];
  }

  /** A blank last line stays one. */
  lemma BlankAtTheEnd(p: Launch, lines: Lines)
    requires HeaderAt(lines) < |lines|
    ensures Whole(p, lines + [""]) == Whole(p, lines) + [""]
    ensures CleanHeader(lines + [""]) == CleanHeader(lines) && BothSeen(lines + [""]) == BothSeen(lines)
  {
    BlankHeader(lines);
    BlankInsert(p, lines);
    BlankKey(p, ExecKey(), lines);
    BlankKey(p, TryKey(), lines);
    hide Patched, Seen, InsertAt, CleanHeader, ExecKey, TryKey, ExecLine, TryLine;
    var done := Patched(p, Other, lines);
    Spliced(done, [""], InsertAt(done), Missing(p, lines));
  }

  lemma Spliced(done: Lines, more: Lines, at: nat, middle: Lines)
    requires at <= |done|
    ensures (done + more)[..at] + middle + (done + more)[at..] == done[..at] + middle + done[at..] + more
  {
    assert (done + more)[..at] == done[..at] && (done + more)[at..] == done[at..] + more;
  }

  lemma BlankLine(p: Launch, g: Group)
    ensures Next(g, "") == g && PatchedLine(p, g, "") == ""
    ensures !Holds(ExecKey(), g, "") && !Holds(TryKey(), g, "")
  {
  }
}
