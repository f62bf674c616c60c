/** The replacement table `REPL`, the answers typed at the rule prompt, and
    the value-level meaning of `get_new_filename`: apply every rule once, and
    while the name is still unresolved take one more rule and apply the whole
    table again to the already substituted name. */
module Rules {
  import opened Alphabet
  import opened Substitute

  datatype Option<+T> = None | Some(value: T)

  /** One answer to the two prompts of `enter_rule`: the string to be
      replaced and the string to replace it with, already decoded. */
  datatype Entry = Entry(orig: string, repl: string)

  /** The replacement table. `repl` is the dictionary; `keys` lists its keys
      in the order the rules are applied, which is the order in which each
      key was first entered (overwriting a rule keeps its place). */
  datatype Table = Table(keys: seq<string>, repl: map<string, string>) {

    ghost predicate Valid() {
      && (forall i, j :: 0 <= i < j < |keys| ==> keys[i] != keys[j])
      && (forall k :: k in repl <==> k in keys)
      && (forall k :: k in keys ==> |k| > 0)
    }

    /** `REPL[orig] = repl`. */
    function Store(orig: string, rep: string): (r: Table)
      requires Valid() && |orig| > 0
      ensures r.Valid()
      ensures orig in r.repl && r.repl[orig] == rep
      ensures forall k :: k != orig ==> (k in r.repl <==> k in repl)
      ensures forall k :: k != orig && k in repl ==> r.repl[k] == repl[k]
      ensures Grows(this, r)
    {
      if orig in repl then Table(keys, repl[orig := rep])
      else Table(keys + [orig], repl[orig := rep])
    }

    /** One pass of `for orig, repl in REPL.items(): name = name.replace(orig, repl)`. */
    function Apply(name: string): string
      requires Valid()
    {
      ApplyAll(keys, repl, name)
    }

    /** Every rule's original contains a character outside the alphabet. */
    predicate OnlyForbiddenKeys() {
      forall k :: k in keys ==> !Resolved(k)
    }
  }

  const EMPTY: Table := Table([], map[])

  /** The table only grows: no key is removed and the application order of
      the old keys is kept. */
  ghost predicate Grows(t: Table, t': Table) {
    && t.keys <= t'.keys
    && t.repl.Keys <= t'.repl.Keys
  }

  /** Applies the rules named by `keys`, first to last, each as a literal replacement. */
  function ApplyAll(keys: seq<string>, repl: map<string, string>, s: string): string
    requires forall k :: k in keys ==> k in repl && |k| > 0
  {
    if keys == [] then s
    else
      var k := keys[|keys| - 1];
      Replace(ApplyAll(keys[..|keys| - 1], repl, s), k, repl[k])
  }

  /** A pass in which no rule's original occurs changes nothing. */
  lemma {:induction false} ApplyAllAbsent(keys: seq<string>, repl: map<string, string>, s: string)
    requires forall k :: k in keys ==> k in repl && |k| > 0
    requires forall k :: k in keys ==> !Occurs(s, k)
    ensures ApplyAll(keys, repl, s) == s
  {
    if keys != [] {
      var k := keys[|keys| - 1];
      ApplyAllAbsent(keys[..|keys| - 1], repl, s);
      ReplaceAbsent(s, k, repl[k]);
    }
  }

  /** Every character a pass produces comes from the name or from the
      replacement of a rule that was applied. */
  lemma {:induction false} ApplyAllChars(keys: seq<string>, repl: map<string, string>, s: string)
    requires forall k :: k in keys ==> k in repl && |k| > 0
    ensures forall c :: c in ApplyAll(keys, repl, s) ==>
      c in s || exists k :: k in keys && c in repl[k]
  {
    if keys != [] {
      var k := keys[|keys| - 1];
      var front := keys[..|keys| - 1];
      ApplyAllChars(front, repl, s);
      ReplaceChars(ApplyAll(front, repl, s), k, repl[k]);
      forall c | c in ApplyAll(keys, repl, s)
        ensures c in s || exists k' :: k' in keys && c in repl[k']
      {
        if c !in s && c !in repl[k] {
          assert c in ApplyAll(front, repl, s);
          var k' :| k' in front && c in repl[k'];
          assert k' in keys;
        }
      }
    }
  }

  /** A rule whose original holds a forbidden character cannot occur in a resolved name. */
  lemma ForbiddenKeyAbsent(s: string, k: string)
    requires Resolved(s) && !Resolved(k)
    ensures !Occurs(s, k)
  {
    var j :| 0 <= j < |k| && !Permitted(k[j]);
    forall i | 0 <= i <= |s| ensures !OccursAt(s, k, i) {
      if i + |k| <= |s| {
        assert s[i..i + |k|][j] == s[i + j];
      }
    }
  }

  /** When every rule's original holds a forbidden character, a pass leaves
      an already resolved name alone. */
  lemma ApplyFixesResolved(t: Table, s: string)
    requires t.Valid() && t.OnlyForbiddenKeys() && Resolved(s)
    ensures t.Apply(s) == s
  {
    forall k | k in t.keys ensures !Occurs(s, k) {
      ForbiddenKeyAbsent(s, k);
    }
    ApplyAllAbsent(t.keys, t.repl, s);
  }

  /** The index of the first answer with a non-empty original: `enter_rule`
      rejects an empty original ("Empty replacement string") and asks again. */
  function NextRule(input: seq<Entry>): (r: Option<nat>)
    ensures r.Some? ==> r.value < |input| && |input[r.value].orig| > 0
    ensures r.Some? ==> forall j :: 0 <= j < r.value ==> input[j].orig == []
    ensures r.None? ==> forall j :: 0 <= j < |input| ==> input[j].orig == []
  {
    if input == [] then None
    else if |input[0].orig| > 0 then Some(0)
    else match NextRule(input[1..])
      case None => None
      case Some(i) => Some(i + 1)
  }

  /** What `get_new_filename` leaves behind: the name it returns (None when
      the answers ran out, where the prompt's end of input aborts the run),
      the table and the answers not yet read. */
  datatype Outcome = Outcome(name: Option<string>, table: Table, input: seq<Entry>)

  /** `rest` is what remains of `input` after some answers were read from the front. */
  ghost predicate Suffix(rest: seq<Entry>, input: seq<Entry>) {
    |rest| <= |input| && rest == input[|input| - |rest|..]
  }

  lemma SuffixTrans(a: seq<Entry>, b: seq<Entry>, c: seq<Entry>)
    requires Suffix(a, b) && Suffix(b, c)
    ensures Suffix(a, c)
  {
    assert c[|c| - |b|..][|b| - |a|..] == c[|c| - |a|..];
  }

  /** The `while not resolved(...)` loop, starting from the substituted name `u`. */
  function Resolve(t: Table, input: seq<Entry>, u: string): (r: Outcome)
    requires t.Valid()
    ensures r.table.Valid() && Grows(t, r.table)
    decreases |input|
  {
    if Resolved(u) then Outcome(Some(u), t, input)
    else match NextRule(input)
      case None => Outcome(None, t, [])
      case Some(i) =>
        var t' := t.Store(input[i].orig, input[i].repl);
        Resolve(t', input[i + 1..], t'.Apply(u))
  }

  /** The loop reads answers only from the front: what is left is a suffix
      of what there was. */
  lemma {:induction false} ResolveReadsFromFront(t: Table, input: seq<Entry>, u: string)
    requires t.Valid()
    ensures Suffix(Resolve(t, input, u).input, input)
    decreases |input|
  {
    if !Resolved(u) && NextRule(input).Some? {
      var i := NextRule(input).value;
      var t' := t.Store(input[i].orig, input[i].repl);
      ResolveAsksOnce(t, input, u, t', input[i + 1..]);
      ResolveReadsFromFront(t', input[i + 1..], t'.Apply(u));
      assert Suffix(input[i + 1..], input);
      SuffixTrans(Resolve(t', input[i + 1..], t'.Apply(u)).input, input[i + 1..], input);
    }
  }

  /** `get_new_filename`: a first pass with the current table, then the loop. */
  function NewFilename(t: Table, input: seq<Entry>, name: string): Outcome
    requires t.Valid()
  {
    Resolve(t, input, t.Apply(name))
  }

  /** One turn of the `get_new_filename` loop, as the resolution sees it. */
  lemma ResolveAsksOnce(t: Table, input: seq<Entry>, u: string, t': Table, rest: seq<Entry>)
    requires t.Valid() && !Resolved(u) && NextRule(input).Some?
    requires var i := NextRule(input).value;
      t' == t.Store(input[i].orig, input[i].repl) && rest == input[i + 1..]
    ensures t'.Valid() && Resolve(t, input, u) == Resolve(t', rest, t'.Apply(u))
  {
  }

  /** The `get_new_filename` loop when the answers run out. */
  lemma ResolveGivesUp(t: Table, input: seq<Entry>, u: string)
    requires t.Valid() && !Resolved(u) && NextRule(input).None?
    ensures Resolve(t, input, u) == Outcome(None, t, [])
  {
  }

  /** The `get_new_filename` loop once the name is resolved. */
  lemma ResolveDone(t: Table, input: seq<Entry>, u: string)
    requires t.Valid() && Resolved(u)
    ensures Resolve(t, input, u) == Outcome(Some(u), t, input)
  {
  }

  /** A name that is returned is resolved: that is the loop's exit condition. */
  lemma {:induction false} ResolveSound(t: Table, input: seq<Entry>, u: string)
    requires t.Valid()
    ensures Resolve(t, input, u).name.Some? ==> Resolved(Resolve(t, input, u).name.value)
    decreases |input|
  {
    if !Resolved(u) {
      match NextRule(input)
      case None =>
      case Some(i) =>
        var t' := t.Store(input[i].orig, input[i].repl);
        ResolveAsksOnce(t, input, u, t', input[i + 1..]);
        ResolveSound(t', input[i + 1..], t'.Apply(u));
    }
  }

  /** No name comes back only when every remaining answer was read and none
      of them gave a rule. */
  lemma {:induction false} ResolveFailsOnlyAtEnd(t: Table, input: seq<Entry>, u: string)
    requires t.Valid()
    ensures Resolve(t, input, u).name.None? ==> Resolve(t, input, u).input == []
    ensures Resolve(t, input, u).name.None? ==> !Resolved(u)
    decreases |input|
  {
    if !Resolved(u) {
      match NextRule(input)
      case None =>
      case Some(i) =>
        var t' := t.Store(input[i].orig, input[i].repl);
        ResolveAsksOnce(t, input, u, t', input[i + 1..]);
        ResolveFailsOnlyAtEnd(t', input[i + 1..], t'.Apply(u));
    }
  }

  /** If the first pass already resolves the name, no rule is asked for:
      the table and the answers are untouched. */
  lemma NoRequestWhenFirstPassResolves(t: Table, input: seq<Entry>, name: string)
    requires t.Valid() && Resolved(t.Apply(name))
    ensures NewFilename(t, input, name) == Outcome(Some(t.Apply(name)), t, input)
  {
  }

  /** Re-resolving a resolved name is a no-op, provided every rule's original
      holds a forbidden character (a rule rewriting permitted text breaks this). */
  lemma ResolvedIsFixedPoint(t: Table, input: seq<Entry>, name: string)
    requires t.Valid() && t.OnlyForbiddenKeys() && Resolved(name)
    ensures NewFilename(t, input, name) == Outcome(Some(name), t, input)
  {
    ApplyFixesResolved(t, name);
  }

  /** Without the proviso above a resolved name can still change: the rule
      "a" -> "b" rewrites the resolved name "a". */
  lemma PermittedRuleRewritesResolvedName(t: Table)
    requires t == Table(["a"], map["a" := "b"])
    ensures t == EMPTY.Store("a", "b") && Resolved("a")
    ensures NewFilename(t, [], "a") == Outcome(Some("b"), t, [])
  {
    PermittedRulePass(t);
    ResolveDone(t, [], "b");
  }

  lemma PermittedRulePass(t: Table)
    requires t == Table(["a"], map["a" := "b"])
    ensures t == EMPTY.Store("a", "b") && t.Valid() && t.Apply("a") == "b"
  {
    assert t.keys[..0] == [];
    assert Replace("a", "a", "b") == "b";
  }

  /** The scenario of a name with two accented letters: the answers "é" -> "e"
      and "ï" -> "i" are asked for one after the other, and each later pass
      works on the already substituted name. The proof is split into one
      small lemma per step, with the concrete tables passed as parameters,
      because evaluating the whole scenario in one lemma is too costly for
      the solver. */
  lemma TwoRulesScenario(answers: seq<Entry>, name: string, t1: Table, t2: Table)
    requires answers == [Entry("é", "e"), Entry("ï", "i")] && name == "naïvé"
    requires t1 == Table(["é"], map["é" := "e"])
    requires t2 == Table(["é", "ï"], map["é" := "e", "ï" := "i"])
    ensures NewFilename(EMPTY, answers, name) == Outcome(Some("naive"), t2, [])
  {
    ScenarioPasses(t1, t2);
    ScenarioFirstRule(t1);
    ScenarioSecondRule(t1, t2);
    ScenarioResolved(t2, "naive");
  }

  lemma ScenarioFirstRule(t1: Table)
    requires t1 == EMPTY.Store("é", "e") && t1.Apply("naïvé") == "naïve"
    ensures NewFilename(EMPTY, [Entry("é", "e"), Entry("ï", "i")], "naïvé")
      == Resolve(t1, [Entry("ï", "i")], "naïve")
  {
    var in0 := [Entry("é", "e"), Entry("ï", "i")];
    assert EMPTY.Apply("naïvé") == "naïvé";
    assert "naïvé"[2] == 'ï' && !Permitted('ï');
    assert NextRule(in0) == Some(0);
    assert in0[1..] == [Entry("ï", "i")];
    ResolveAsksOnce(EMPTY, in0, "naïvé", t1, in0[1..]);
  }

  lemma ScenarioSecondRule(t1: Table, t2: Table)
    requires t1.Valid() && t2 == t1.Store("ï", "i") && t2.Apply("naïve") == "naive"
    ensures Resolve(t1, [Entry("ï", "i")], "naïve") == Resolve(t2, [], "naive")
  {
    var in1 := [Entry("ï", "i")];
    assert "naïve"[2] == 'ï' && !Permitted('ï');
    assert NextRule(in1) == Some(0);
    assert in1[1..] == [];
    ResolveAsksOnce(t1, in1, "naïve", t2, []);
  }

  lemma ScenarioResolved(t2: Table, u: string)
    requires t2.Valid() && u == "naive"
    ensures Resolve(t2, [], u) == Outcome(Some(u), t2, [])
  {
    assert Resolved(u);
  }

  lemma ScenarioPasses(t1: Table, t2: Table)
    requires t1 == Table(["é"], map["é" := "e"])
    requires t2 == Table(["é", "ï"], map["é" := "e", "ï" := "i"])
    ensures EMPTY.Store("é", "e") == t1 && t1.Valid() && t1.Store("ï", "i") == t2
    ensures t1.Apply("naïvé") == "naïve" && t2.Apply("naïve") == "naive"
  {
    ScenarioStores(t1, t2);
    ScenarioFirstPass(t1);
    ScenarioSecondPass(t2);
  }

  lemma ScenarioStores(t1: Table, t2: Table)
    requires t1 == Table(["é"], map["é" := "e"])
    requires t2 == Table(["é", "ï"], map["é" := "e", "ï" := "i"])
    ensures EMPTY.Store("é", "e") == t1 && t1.Valid() && t1.Store("ï", "i") == t2
  {
    ScenarioFirstStore(t1);
    ScenarioSecondStore(t1, t2);
  }

  lemma ScenarioFirstStore(t1: Table)
    requires t1 == Table(["é"], map["é" := "e"])
    ensures EMPTY.Store("é", "e") == t1 && t1.Valid()
  {
  }

  lemma ScenarioSecondStore(t1: Table, t2: Table)
    requires t1 == Table(["é"], map["é" := "e"]) && t1.Valid()
    requires t2 == Table(["é", "ï"], map["é" := "e", "ï" := "i"])
    ensures t1.Store("ï", "i") == t2
  {
    assert "ï" !in t1.repl;
  }

  lemma ScenarioFirstPass(t1: Table)
    requires t1 == Table(["é"], map["é" := "e"])
    ensures t1.Valid() && t1.Apply("naïvé") == "naïve"
  {
    assert t1.keys[..0] == [];
    assert Replace("naïvé", "é", "e") == "naïve";
  }

  lemma ScenarioSecondPass(t2: Table)
    requires t2 == Table(["é", "ï"], map["é" := "e", "ï" := "i"])
    ensures t2.Valid() && t2.Apply("naïve") == "naive"
  {
    assert t2.keys[..1] == ["é"] && t2.keys[..0] == [];
    ScenarioSecondReplacements();
    assert ApplyAll(t2.keys[..1], t2.repl, "naïve") == Replace(ApplyAll(t2.keys[..0], t2.repl, "naïve"), "é", "e");
  }

  lemma ScenarioSecondReplacements()
    ensures Replace("naïve", "é", "e") == "naïve"
    ensures Replace("naïve", "ï", "i") == "naive"
  {
    assert Replace("e", "é", "e") == "e";
    assert Replace("ve", "é", "e") == "ve";
    assert Replace("ïve", "é", "e") == "ïve";
    assert Replace("aïve", "é", "e") == "aïve";
    assert Replace("e", "ï", "i") == "e";
    assert Replace("ve", "ï", "i") == "ve";
    assert Replace("ïve", "ï", "i") == "ive";
    assert Replace("aïve", "ï", "i") == "aive";
  }
}
