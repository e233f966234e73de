/** What a reader of runtime rules may rely on in whatever file it accepts: `crates/onelf-format/src/rules.rs`
    behind the decoder of `crates/onelf-format/src/runtime_metadata.rs`.
 */
module RuleSafety {
  import opened Bytes
  import opened Codec
  import opened Rules
  import opened RuntimeMetadata
  import Transport

  /** A variable in plain characters that neither the loader nor the runtime itself reads. */
  predicate Harmless(v: seq<byte>) {
    && 1 <= |v| <= 128
    && (forall i :: 0 <= i < |v| ==>
          0x41 <= v[i] <= 0x5A || 0x61 <= v[i] <= 0x7A || v[i] == 0x5F || (i > 0 && 0x30 <= v[i] <= 0x39))
    && !(Ascii("LD_") <= v) && !(Ascii("ONELF_") <= v)
    && v !in {Ascii("GCONV_PATH"), Ascii("GLIBC_TUNABLES"), Ascii("LOCPATH")}
  }

  /** A path that stays below whatever it is joined to. */
  predicate StaysBelow(path: seq<byte>) {
    && 1 <= |path| <= 4096 && path[0] != 0x2F
    && (forall i :: 0 <= i < |path| ==> path[i] >= 0x20 && path[i] !in {0x5C, 0x7F})
    && (forall i :: 0 <= i < |Split(path)| ==> Split(path)[i] !in {[], Ascii("."), Ascii("..")})
  }

  lemma DotsAre()
    ensures Ascii(".") == [0x2E] && Ascii("..") == [0x2E, 0x2E]
  {
  }

  lemma NormalPathStaysBelow(path: seq<byte>)
    requires |path| <= MAX_PATH_BYTES && NormalPath(path)
    ensures StaysBelow(path)
  {
    NormalFormIsConfined(path);
    DotsAre();
    hide Split, Keep, Join, Utf8;
  }

  lemma VariableIsHarmless(v: seq<byte>)
    requires |v| <= MAX_ID_BYTES && EnvironmentName(v) && !RuntimeOwned(v)
    ensures Harmless(v)
  {
    assert v != Ascii("LOCPATH") by { LocaleIsOwned(); hide RuntimeOwned; }
    hide RuntimeOwned;
  }

  lemma LocaleIsOwned()
    ensures RuntimeOwned(Ascii("LOCPATH"))
  {
  }

  lemma ListValid<T(!new)>(min: nat, a: Codec<T>, vs: seq<T>)
    requires min > 0 && List(min, a).valid(vs)
    ensures forall i :: 0 <= i < |vs| ==> a.valid(vs[i])
  {
  }

  lemma CandidateValid(c: Candidate)
    requires CandidateCodec().valid(c)
    ensures |c.path| <= MAX_PATH_BYTES && NormalPath(c.path)
  {
    var fields := Pair(Enum(BaseTag, BaseOf), PathTextCodec());
    RecordValid(4, fields, MakeCandidate, TakeCandidate, c);
    PairValid(Enum(BaseTag, BaseOf), PathTextCodec(), c.base, c.path);
    hide NormalPath, Pair, Enum, Record, Iso;
  }

  lemma VariableValid(v: seq<byte>)
    requires VariableCodec().valid(v)
    ensures |v| <= MAX_ID_BYTES && EnvironmentName(v)
  {
    hide EnvironmentName;
  }

  lemma GroupListsValid(g: Group)
    requires GroupCodec().valid(g)
    ensures List(11, CandidateCodec()).valid(g.candidates) && List(5, VariableCodec()).valid(g.variables)
  {
    var t := TakeGroup(g);
    var tags := Pair(Enum(KindTag, KindOf), GroupTagsCodec());
    var inner := Pair(Enum(InheritanceTag, InheritanceOf), GroupListsCodec());
    RecordValid(3, Pair(IdCodec(), tags), MakeGroup, TakeGroup, g);
    PairValid(IdCodec(), tags, t.0, t.1);
    PairValid(Enum(KindTag, KindOf), GroupTagsCodec(), t.1.0, t.1.1);
    PairValid(Enum(SelectionTag, SelectionOf), inner, t.1.1.0, t.1.1.1);
    PairValid(Enum(InheritanceTag, InheritanceOf), GroupListsCodec(), t.1.1.1.0, t.1.1.1.1);
    PairValid(List(11, CandidateCodec()), List(5, VariableCodec()), g.candidates, g.variables);
    hide CandidateCodec, VariableCodec, List, Pair, Record, Iso, Enum, IdCodec;
  }

  lemma RuleGroupsValid(r: Rule)
    requires RuleCodec().valid(r)
    ensures List(5, GroupCodec()).valid(r.paths)
  {
    var fields := Pair(Maybe(PinCodec(2)), RuleListsCodec());
    RecordValid(1, Pair(IdCodec(), fields), MakeRule, TakeRule, r);
    PairValid(IdCodec(), fields, r.id, (r.binding, (r.paths, r.hooks)));
    PairValid(Maybe(PinCodec(2)), RuleListsCodec(), r.binding, (r.paths, r.hooks));
    PairValid(List(5, GroupCodec()), List(6, HookCodec()), r.paths, r.hooks);
    hide GroupCodec, HookCodec, PinCodec, List, Pair, Record, Iso, Maybe, IdCodec;
  }

  predicate SafeGroup(g: Group) {
    && g.variables != [] && (forall i :: 0 <= i < |g.variables| ==> Harmless(g.variables[i]))
    && g.candidates != [] && (forall i :: 0 <= i < |g.candidates| ==> StaysBelow(g.candidates[i].path))
  }

  lemma GroupIsSafe(g: Group)
    requires GroupCodec().valid(g) && ValidGroup(g)
    ensures SafeGroup(g)
  {
    GroupListsValid(g);
    hide GroupCodec, CandidateCodec, VariableCodec, Harmless, StaysBelow, RuntimeOwned, EnvironmentName, NormalPath;
    ListValid(11, CandidateCodec(), g.candidates);
    ListValid(5, VariableCodec(), g.variables);
    hide List;
    forall i | 0 <= i < |g.variables| ensures Harmless(g.variables[i]) {
      assert g.variables[i] in g.variables;
      VariableValid(g.variables[i]);
      VariableIsHarmless(g.variables[i]);
    }
    forall i | 0 <= i < |g.candidates| ensures StaysBelow(g.candidates[i].path) {
      CandidateValid(g.candidates[i]);
      NormalPathStaysBelow(g.candidates[i].path);
    }
  }

  lemma RuleIsSafe(r: Rule)
    requires RuleCodec().valid(r) && ValidRule(r)
    ensures forall j :: 0 <= j < |r.paths| ==> SafeGroup(r.paths[j])
  {
    RuleGroupsValid(r);
    hide RuleCodec, GroupCodec, ValidGroup;
    ListValid(5, GroupCodec(), r.paths);
    hide List;
    forall j | 0 <= j < |r.paths| ensures SafeGroup(r.paths[j]) {
      assert r.paths[j] in r.paths;
      GroupIsSafe(r.paths[j]);
    }
  }

  /** Whatever file is accepted: it is at most 1 MiB and has at most 4096 records, no two of its rules are for the
      same identity and pin, and every group sets harmless variables to what lies below its base. */
  lemma AcceptedRulesAreSafe(b: seq<byte>)
    requires DecodeRules(b).Some?
    ensures var rules := DecodeRules(b).value;
      && |b| <= 0x10_0000 && Records(rules) <= 4096
      && (forall i, j :: 0 <= i < j < |rules| ==> rules[i].id != rules[j].id || rules[i].binding != rules[j].binding)
      && (forall i, j :: 0 <= i < |rules| && 0 <= j < |rules[i].paths| ==> SafeGroup(rules[i].paths[j]))
  {
    var rules := DecodeRules(b).value;
    EncodeOfDecodeRules(b);
    assert |b| <= Transport.MAX_BYTES by { hide RulesCodec, ValidRules, ValidAll, TypedRules; }
    assert ValidRules(rules);
    hide SafeGroup, RuleCodec, ValidRule, DecodeRules, EncodeRules, Records;
    forall i | 0 <= i < |rules| ensures forall j :: 0 <= j < |rules[i].paths| ==> SafeGroup(rules[i].paths[j]) {
      assert rules[i] in rules;
      RuleIsSafe(rules[i]);
    }
  }
}
