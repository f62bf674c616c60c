/** The value-level meaning of `fix_non_ascii_name`: a depth-first walk that
    descends into real directories, renames regular files and symbolic links
    whose computed name differs, and skips everything else. The current
    directory is carried as an explicit path instead of being changed. */
module Tree {
  import opened Alphabet
  import opened Rules

  /** A filesystem entry, as the walk tells the kinds apart. */
  datatype Node =
    | Dir(name: string, children: seq<Node>)  // a directory that is not a symbolic link
    | File(name: string)                      // a regular file
    | Link(name: string)                      // a symbolic link, wherever it points
    | Other(name: string)                     // a device, socket, pipe, ...

  /** `glob('*')` does not list names that start with a dot. */
  predicate Hidden(name: string) {
    |name| > 0 && name[0] == '.'
  }

  /** A rename in directory `dir` (the directory names leading to it from
      where the walk started): `from` becomes `to`. */
  datatype Move = Move(dir: seq<string>, from: string, to: string)

  /** An entry the walk reaches: its directory and its name. */
  datatype Place = Place(dir: seq<string>, name: string)

  /** What a walk leaves behind: the moves it logged, the renames it
      performed, the rule table, the answers not yet read, and whether it ran
      to the end (false when the answers ran out, which aborts the run). */
  datatype Walked = Walked(log: seq<Move>, renames: seq<Move>, table: Table, input: seq<Entry>, ok: bool)

  /** The table is still valid and has only grown. */
  ghost predicate Follows(t: Table, t': Table) {
    t'.Valid() && Grows(t, t')
  }


  /** Moves and renames made so far, followed by a walk over the rest. */
  function Then(log: seq<Move>, renames: seq<Move>, w: Walked): Walked {
    Walked(log + w.log, renames + w.renames, w.table, w.input, w.ok)
  }

  lemma ThenAssoc(log: seq<Move>, renames: seq<Move>, l: seq<Move>, r: seq<Move>, w: Walked)
    ensures Then(log, renames, Then(l, r, w)) == Then(log + l, renames + r, w)
  {
    assert log + (l + w.log) == (log + l) + w.log;
    assert renames + (r + w.renames) == (renames + r) + w.renames;
  }

  /** The file and link entries a walk from `node` in `dir` reaches. */
  function Leaves(node: Node, dir: seq<string>): set<Place>
    decreases node, 1
  {
    match node
    case Dir(name, children) => LeavesAll(children, dir + [name])
    case File(name) => {Place(dir, name)}
    case Link(name) => {Place(dir, name)}
    case Other(_) => {}
  }

  function LeavesAll(nodes: seq<Node>, dir: seq<string>): set<Place>
    decreases nodes, 0
  {
    if nodes == [] then {}
    else if Hidden(nodes[0].name) then LeavesAll(nodes[1..], dir)
    else Leaves(nodes[0], dir) + LeavesAll(nodes[1..], dir)
  }

  /** A file or link entry: compute its new name and rename it when it differs,
      unless this is a dry run. */
  function Rename(t: Table, input: seq<Entry>, dir: seq<string>, name: string, dryRun: bool): (r: Walked)
    requires t.Valid()
    ensures Follows(t, r.table)
    ensures r.renames == if dryRun then [] else r.log
    ensures var o := NewFilename(t, input, name);
      && (r.ok <==> o.name.Some?)
      && (r.ok ==> (r.log == [] <==> o.name.value == name))
      && (r.log != [] ==> o.name.Some? && r.log == [Move(dir, name, o.name.value)])
  {
    Decide(NewFilename(t, input, name), dir, name, dryRun)
  }

  /** The decision once the new name `o.name` is known: log and perform the
      move when it differs from `name`, only log it in a dry run. */
  function Decide(o: Outcome, dir: seq<string>, name: string, dryRun: bool): (r: Walked)
    ensures r.table == o.table && r.input == o.input
    ensures r.renames == if dryRun then [] else r.log
    ensures r.ok <==> o.name.Some?
    ensures r.ok ==> (r.log == [] <==> o.name.value == name)
    ensures r.log != [] ==> o.name.Some? && r.log == [Move(dir, name, o.name.value)]
  {
    match o.name
    case None => Walked([], [], o.table, o.input, false)
    case Some(n) =>
      if n == name then Walked([], [], o.table, o.input, true)
      else
        var m := Move(dir, name, n);
        Walked([m], if dryRun then [] else [m], o.table, o.input, true)
  }

  /** `fix_non_ascii_name(name)` run in directory `dir`. */
  function Visit(t: Table, input: seq<Entry>, node: Node, dir: seq<string>, dryRun: bool): (r: Walked)
    requires t.Valid()
    ensures Follows(t, r.table)
    ensures r.renames == if dryRun then [] else r.log
    decreases node, 1
  {
    match node
    case Dir(name, children) => VisitAll(t, input, children, dir + [name], dryRun)
    case File(name) => Rename(t, input, dir, name, dryRun)
    case Link(name) => Rename(t, input, dir, name, dryRun)
    case Other(_) => Walked([], [], t, input, true)
  }

  /** The loop over a directory's listing, stopping at the first entry whose
      walk was aborted. */
  function VisitAll(t: Table, input: seq<Entry>, nodes: seq<Node>, dir: seq<string>, dryRun: bool): (r: Walked)
    requires t.Valid()
    ensures Follows(t, r.table)
    ensures r.renames == if dryRun then [] else r.log
    decreases nodes, 0
  {
    if nodes == [] then Walked([], [], t, input, true)
    else if Hidden(nodes[0].name) then VisitAll(t, input, nodes[1..], dir, dryRun)
    else
      var w := Visit(t, input, nodes[0], dir, dryRun);
      if !w.ok then w
      else
        var rest := VisitAll(w.table, w.input, nodes[1..], dir, dryRun);
        Then(w.log, w.renames, rest)
  }

  /** One step of the loop over a listing: a hidden entry is skipped, and
      a visible one is visited before the rest unless its walk was aborted. */
  lemma VisitAllStep(t: Table, input: seq<Entry>, nodes: seq<Node>, dir: seq<string>, dryRun: bool)
    requires t.Valid() && nodes != []
    ensures Hidden(nodes[0].name) ==>
      VisitAll(t, input, nodes, dir, dryRun) == VisitAll(t, input, nodes[1..], dir, dryRun)
    ensures !Hidden(nodes[0].name) ==>
      var w := Visit(t, input, nodes[0], dir, dryRun);
      VisitAll(t, input, nodes, dir, dryRun) ==
        if !w.ok then w else Then(w.log, w.renames, VisitAll(w.table, w.input, nodes[1..], dir, dryRun))
  {
  }

  /** The same step, once the walk `w` of the first, listed entry is known. */
  lemma VisitAllEntry(t: Table, input: seq<Entry>, nodes: seq<Node>, dir: seq<string>, dryRun: bool, w: Walked)
    requires t.Valid() && nodes != [] && !Hidden(nodes[0].name)
    requires w == Visit(t, input, nodes[0], dir, dryRun)
    ensures w.table.Valid()
    ensures VisitAll(t, input, nodes, dir, dryRun)
      == if w.ok then Then(w.log, w.renames, VisitAll(w.table, w.input, nodes[1..], dir, dryRun)) else w
  {
  }

  /** The loop over a listing handles its entries in order and stops at the
      first aborted one: walking `nodes + more` is walking `nodes` and then,
      only if that was not aborted, walking `more` from where it left off. */
  lemma {:induction false} VisitAllAppend(t: Table, input: seq<Entry>, nodes: seq<Node>, more: seq<Node>, dir: seq<string>, dryRun: bool)
    requires t.Valid()
    ensures var w := VisitAll(t, input, nodes, dir, dryRun);
      VisitAll(t, input, nodes + more, dir, dryRun)
        == if w.ok then Then(w.log, w.renames, VisitAll(w.table, w.input, more, dir, dryRun)) else w
    decreases nodes
  {
    if nodes == [] {
      assert nodes + more == more;
      var x := VisitAll(t, input, more, dir, dryRun);
      assert [] + x.log == x.log && [] + x.renames == x.renames;
    } else {
      assert (nodes + more)[0] == nodes[0] && (nodes + more)[1..] == nodes[1..] + more;
      VisitAllStep(t, input, nodes, dir, dryRun);
      VisitAllStep(t, input, nodes + more, dir, dryRun);
      if Hidden(nodes[0].name) {
        VisitAllAppend(t, input, nodes[1..], more, dir, dryRun);
      } else {
        var v := Visit(t, input, nodes[0], dir, dryRun);
        if v.ok {
          VisitAllAppend(v.table, v.input, nodes[1..], more, dir, dryRun);
          var w' := VisitAll(v.table, v.input, nodes[1..], dir, dryRun);
          if w'.ok {
            ThenAssoc(v.log, v.renames, w'.log, w'.renames, VisitAll(w'.table, w'.input, more, dir, dryRun));
          }
        }
      }
    }
  }

  /** The rename decision follows the computed name and not the test of the
      alphabet: a resolved name that a stored rule rewrites is moved, as
      with the rule "a" -> "b" and the file "a". */
  lemma RewrittenResolvedNameIsMoved(t: Table, dir: seq<string>)
    requires t == Table(["a"], map["a" := "b"])
    ensures Resolved("a")
    ensures Rename(t, [], dir, "a", false).log == [Move(dir, "a", "b")]
  {
    PermittedRuleRewritesResolvedName(t);
  }

  /** Every logged move renames a file or link entry the walk reaches, to a
      different and resolved name; directories and other entries are never moved. */
  lemma {:induction false} VisitSound(t: Table, input: seq<Entry>, node: Node, dir: seq<string>, dryRun: bool)
    requires t.Valid()
    ensures forall m :: m in Visit(t, input, node, dir, dryRun).log ==>
      Place(m.dir, m.from) in Leaves(node, dir) && m.from != m.to && Resolved(m.to)
    decreases node, 1
  {
    match node
    case Dir(name, children) => VisitAllSound(t, input, children, dir + [name], dryRun);
    case File(name) => RenameSound(t, input, dir, name, dryRun);
    case Link(name) => RenameSound(t, input, dir, name, dryRun);
    case Other(_) =>
  }

  lemma RenameSound(t: Table, input: seq<Entry>, dir: seq<string>, name: string, dryRun: bool)
    requires t.Valid()
    ensures forall m :: m in Rename(t, input, dir, name, dryRun).log ==>
      m.dir == dir && m.from == name && m.from != m.to && Resolved(m.to)
  {
    ResolveSound(t, input, t.Apply(name));
  }

  lemma {:induction false} VisitAllSound(t: Table, input: seq<Entry>, nodes: seq<Node>, dir: seq<string>, dryRun: bool)
    requires t.Valid()
    ensures forall m :: m in VisitAll(t, input, nodes, dir, dryRun).log ==>
      Place(m.dir, m.from) in LeavesAll(nodes, dir) && m.from != m.to && Resolved(m.to)
    decreases nodes, 0
  {
    if nodes != [] {
      if Hidden(nodes[0].name) {
        VisitAllSound(t, input, nodes[1..], dir, dryRun);
      } else {
        var w := Visit(t, input, nodes[0], dir, dryRun);
        VisitSound(t, input, nodes[0], dir, dryRun);
        if w.ok {
          VisitAllSound(w.table, w.input, nodes[1..], dir, dryRun);
        }
      }
    }
  }

  /** A walk that runs to the end renames every file or link entry it reaches
      whose name is not resolved. */
  lemma {:induction false} VisitComplete(t: Table, input: seq<Entry>, node: Node, dir: seq<string>, dryRun: bool)
    requires t.Valid()
    ensures var r := Visit(t, input, node, dir, dryRun);
      r.ok ==> forall p :: p in Leaves(node, dir) && !Resolved(p.name) ==>
        exists m :: m in r.log && m.dir == p.dir && m.from == p.name
    decreases node, 1
  {
    match node
    case Dir(name, children) => VisitAllComplete(t, input, children, dir + [name], dryRun);
    case File(name) => RenameComplete(t, input, dir, name, dryRun);
    case Link(name) => RenameComplete(t, input, dir, name, dryRun);
    case Other(_) =>
  }

  lemma RenameComplete(t: Table, input: seq<Entry>, dir: seq<string>, name: string, dryRun: bool)
    requires t.Valid()
    ensures var r := Rename(t, input, dir, name, dryRun);
      r.ok && !Resolved(name) ==> |r.log| == 1 && r.log[0].dir == dir && r.log[0].from == name
  {
    ResolveSound(t, input, t.Apply(name));
  }

  lemma {:induction false} VisitAllComplete(t: Table, input: seq<Entry>, nodes: seq<Node>, dir: seq<string>, dryRun: bool)
    requires t.Valid()
    ensures var r := VisitAll(t, input, nodes, dir, dryRun);
      r.ok ==> forall p :: p in LeavesAll(nodes, dir) && !Resolved(p.name) ==>
        exists m :: m in r.log && m.dir == p.dir && m.from == p.name
    decreases nodes, 0
  {
    if nodes != [] {
      if Hidden(nodes[0].name) {
        VisitAllComplete(t, input, nodes[1..], dir, dryRun);
      } else {
        var w := Visit(t, input, nodes[0], dir, dryRun);
        VisitComplete(t, input, nodes[0], dir, dryRun);
        if w.ok {
          VisitAllComplete(w.table, w.input, nodes[1..], dir, dryRun);
        }
      }
    }
  }

  /** The places a walk from a directory reaches all lie inside that directory. */
  lemma {:induction false} LeavesInside(node: Node, dir: seq<string>)
    ensures forall p :: p in Leaves(node, dir) ==> dir <= p.dir
    ensures node.Dir? ==> forall p :: p in Leaves(node, dir) ==> dir + [node.name] <= p.dir
    decreases node, 1
  {
    match node
    case Dir(name, children) =>
      LeavesAllInside(children, dir + [name]);
      forall p | p in Leaves(node, dir) ensures dir <= p.dir {
        assert (dir + [name])[..|dir|] == dir;
      }
    case File(_) =>
    case Link(_) =>
    case Other(_) =>
  }

  lemma {:induction false} LeavesAllInside(nodes: seq<Node>, dir: seq<string>)
    ensures forall p :: p in LeavesAll(nodes, dir) ==> dir <= p.dir
    decreases nodes, 0
  {
    if nodes != [] {
      LeavesAllInside(nodes[1..], dir);
      if !Hidden(nodes[0].name) {
        LeavesInside(nodes[0], dir);
      }
    }
  }

  /** A directory is never renamed: every move the walk of a directory logs
      is inside it, never of the directory's own entry. */
  lemma DirNeverRenamed(t: Table, input: seq<Entry>, node: Node, dir: seq<string>, dryRun: bool)
    requires t.Valid() && node.Dir?
    ensures forall m :: m in Visit(t, input, node, dir, dryRun).log ==> dir + [node.name] <= m.dir
    ensures Move(dir, node.name, node.name) !in Visit(t, input, node, dir, dryRun).log
    ensures forall to :: Move(dir, node.name, to) !in Visit(t, input, node, dir, dryRun).log
  {
    VisitSound(t, input, node, dir, dryRun);
    LeavesInside(node, dir);
  }

  /** A walk is aborted only after every answer has been read. */
  lemma {:induction false} VisitFailsOnlyAtEnd(t: Table, input: seq<Entry>, node: Node, dir: seq<string>, dryRun: bool)
    requires t.Valid()
    ensures !Visit(t, input, node, dir, dryRun).ok ==> Visit(t, input, node, dir, dryRun).input == []
    decreases node, 1
  {
    match node
    case Dir(name, children) => VisitAllFailsOnlyAtEnd(t, input, children, dir + [name], dryRun);
    case File(name) => RenameFailsOnlyAtEnd(t, input, dir, name, dryRun);
    case Link(name) => RenameFailsOnlyAtEnd(t, input, dir, name, dryRun);
    case Other(_) =>
  }

  lemma RenameFailsOnlyAtEnd(t: Table, input: seq<Entry>, dir: seq<string>, name: string, dryRun: bool)
    requires t.Valid()
    ensures !Rename(t, input, dir, name, dryRun).ok ==> Rename(t, input, dir, name, dryRun).input == []
  {
    ResolveFailsOnlyAtEnd(t, input, t.Apply(name));
  }

  lemma {:induction false} VisitAllFailsOnlyAtEnd(t: Table, input: seq<Entry>, nodes: seq<Node>, dir: seq<string>, dryRun: bool)
    requires t.Valid()
    ensures !VisitAll(t, input, nodes, dir, dryRun).ok ==> VisitAll(t, input, nodes, dir, dryRun).input == []
    decreases nodes, 0
  {
    if nodes != [] {
      if Hidden(nodes[0].name) {
        VisitAllFailsOnlyAtEnd(t, input, nodes[1..], dir, dryRun);
      } else {
        var w := Visit(t, input, nodes[0], dir, dryRun);
        VisitFailsOnlyAtEnd(t, input, nodes[0], dir, dryRun);
        if w.ok {
          VisitAllFailsOnlyAtEnd(w.table, w.input, nodes[1..], dir, dryRun);
        }
      }
    }
  }

  /** A walk reads the answers only from the front, in order. */
  lemma {:induction false} VisitReadsFromFront(t: Table, input: seq<Entry>, node: Node, dir: seq<string>, dryRun: bool)
    requires t.Valid()
    ensures Suffix(Visit(t, input, node, dir, dryRun).input, input)
    decreases node, 1
  {
    match node
    case Dir(name, children) => VisitAllReadsFromFront(t, input, children, dir + [name], dryRun);
    case File(name) => ResolveReadsFromFront(t, input, t.Apply(name));
    case Link(name) => ResolveReadsFromFront(t, input, t.Apply(name));
    case Other(_) =>
  }

  lemma {:induction false} VisitAllReadsFromFront(t: Table, input: seq<Entry>, nodes: seq<Node>, dir: seq<string>, dryRun: bool)
    requires t.Valid()
    ensures Suffix(VisitAll(t, input, nodes, dir, dryRun).input, input)
    decreases nodes, 0
  {
    if nodes != [] {
      if Hidden(nodes[0].name) {
        VisitAllReadsFromFront(t, input, nodes[1..], dir, dryRun);
      } else {
        var w := Visit(t, input, nodes[0], dir, dryRun);
        VisitReadsFromFront(t, input, nodes[0], dir, dryRun);
        if w.ok {
          VisitAllReadsFromFront(w.table, w.input, nodes[1..], dir, dryRun);
          SuffixTrans(VisitAll(w.table, w.input, nodes[1..], dir, dryRun).input, w.input, input);
        }
      }
    }
  }

  /** A dry run logs the same moves, asks for the same rules and ends in the
      same state as a live run; only the renames are not performed. */
  lemma {:induction false} DryRunLogsTheSame(t: Table, input: seq<Entry>, node: Node, dir: seq<string>)
    requires t.Valid()
    ensures var dry, live := Visit(t, input, node, dir, true), Visit(t, input, node, dir, false);
      && dry.log == live.log && dry.table == live.table && dry.input == live.input && dry.ok == live.ok
      && dry.renames == [] && live.renames == live.log
    decreases node, 1
  {
    match node
    case Dir(name, children) => DryRunLogsTheSameAll(t, input, children, dir + [name]);
    case File(name) => RenameDryRun(t, input, dir, name);
    case Link(name) => RenameDryRun(t, input, dir, name);
    case Other(_) =>
  }

  lemma RenameDryRun(t: Table, input: seq<Entry>, dir: seq<string>, name: string)
    requires t.Valid()
    ensures var dry, live := Rename(t, input, dir, name, true), Rename(t, input, dir, name, false);
      && dry.log == live.log && dry.table == live.table && dry.input == live.input && dry.ok == live.ok
  {
    var o := NewFilename(t, input, name);
    assert Rename(t, input, dir, name, true) == Decide(o, dir, name, true);
    assert Rename(t, input, dir, name, false) == Decide(o, dir, name, false);
  }

  lemma {:induction false} DryRunLogsTheSameAll(t: Table, input: seq<Entry>, nodes: seq<Node>, dir: seq<string>)
    requires t.Valid()
    ensures var dry, live := VisitAll(t, input, nodes, dir, true), VisitAll(t, input, nodes, dir, false);
      && dry.log == live.log && dry.table == live.table && dry.input == live.input && dry.ok == live.ok
    decreases nodes, 0
  {
    if nodes != [] {
      if Hidden(nodes[0].name) {
        DryRunLogsTheSameAll(t, input, nodes[1..], dir);
      } else {
        var w := Visit(t, input, nodes[0], dir, true);
        DryRunLogsTheSame(t, input, nodes[0], dir);
        if w.ok {
          DryRunLogsTheSameAll(w.table, w.input, nodes[1..], dir);
        }
      }
    }
  }

  /** Every file or link entry the walk reaches already has a resolved name. */
  ghost predicate Clean(node: Node, dir: seq<string>) {
    forall p :: p in Leaves(node, dir) ==> Resolved(p.name)
  }

  /** Walking a tree whose names are all resolved again moves nothing, asks
      for no rule and reads no answer, provided every rule's original holds a
      forbidden character. */
  lemma {:induction false} CleanTreeUnchanged(t: Table, input: seq<Entry>, node: Node, dir: seq<string>, dryRun: bool)
    requires t.Valid() && t.OnlyForbiddenKeys() && Clean(node, dir)
    ensures Visit(t, input, node, dir, dryRun) == Walked([], [], t, input, true)
    decreases node, 1
  {
    match node
    case Dir(name, children) => CleanTreeUnchangedAll(t, input, children, dir + [name], dryRun);
    case File(name) =>
      assert Place(dir, name) in Leaves(node, dir);
      ResolvedIsFixedPoint(t, input, name);
    case Link(name) =>
      assert Place(dir, name) in Leaves(node, dir);
      ResolvedIsFixedPoint(t, input, name);
    case Other(_) =>
  }

  lemma {:induction false} CleanTreeUnchangedAll(t: Table, input: seq<Entry>, nodes: seq<Node>, dir: seq<string>, dryRun: bool)
    requires t.Valid() && t.OnlyForbiddenKeys()
    requires forall p :: p in LeavesAll(nodes, dir) ==> Resolved(p.name)
    ensures VisitAll(t, input, nodes, dir, dryRun) == Walked([], [], t, input, true)
    decreases nodes, 0
  {
    if nodes != [] {
      CleanTreeUnchangedAll(t, input, nodes[1..], dir, dryRun);
      if !Hidden(nodes[0].name) {
        CleanTreeUnchanged(t, input, nodes[0], dir, dryRun);
      }
    }
  }
}
