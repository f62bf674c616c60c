/** The script's mutable state and its imperative procedures: the global
    replacement dictionary `REPL`, updated in place by `enter_rule`, the
    loops of `resolved` and `get_new_filename`, and the recursive walk of
    `fix_non_ascii_name`. The console the rules are typed at is the field
    `input`, the answers not yet read; the renames are returned as moves. */
module Engine {
  import opened Alphabet
  import opened Rules
  import opened Tree

  class Renamer {
    /** The keys of `REPL`, in the order the rules are applied. */
    var keys: seq<string>
    /** `REPL` itself. */
    var repl: map<string, string>
    /** The answers still to be typed at the rule prompt. */
    var input: seq<Entry>

    function Rules(): Table
      reads this
    {
      Table(keys, repl)
    }

    ghost predicate Valid()
      reads this
    {
      Rules().Valid()
    }

    /** The script starts with an empty table; `answers` is what will be typed. */
    constructor (answers: seq<Entry>)
      ensures Valid() && Rules() == EMPTY && input == answers
    {
      keys, repl, input := [], map[], answers;
    }

    /** `enter_rule`: read answer pairs until one has a non-empty original,
        then store that rule, inserting it or overwriting the old replacement.
        When the answers run out no rule is stored and `ok` is false. */
    method EnterRule() returns (ok: bool)
      requires Valid()
      modifies this
      ensures Valid()
      ensures ok <==> NextRule(old(input)).Some?
      ensures !ok ==> Rules() == old(Rules()) && input == []
      ensures ok ==>
        var i := NextRule(old(input)).value;
        && Rules() == old(Rules()).Store(old(input)[i].orig, old(input)[i].repl)
        && input == old(input)[i + 1..]
    {
      ghost var read := 0;
      while input != []
        invariant Valid() && Rules() == old(Rules())
        invariant 0 <= read <= |old(input)| && input == old(input)[read..]
        invariant forall j :: 0 <= j < read ==> old(input)[j].orig == []
        decreases |input|
      {
        var answer := input[0];
        input := input[1..];
        read := read + 1;
        if |answer.orig| > 0 {
          assert NextRule(old(input)) == Some(read - 1);
          if answer.orig !in repl {
            keys := keys + [answer.orig];
          }
          repl := repl[answer.orig := answer.repl];
          return true;
        }
        // "Empty replacement string": ask again
      }
      return false;
    }

    /** One pass of `for orig, repl in REPL.items(): name = name.replace(orig, repl)`. */
    method ApplyRules(name: string) returns (s: string)
      requires Valid()
      ensures s == Rules().Apply(name)
    {
      s := name;
      for i := 0 to |keys|
        invariant s == ApplyAll(keys[..i], repl, name)
      {
        assert keys[..i + 1][..i] == keys[..i];
        s := Substitute.Replace(s, keys[i], repl[keys[i]]);
      }
      assert keys[..|keys|] == keys;
    }

    /** `get_new_filename`: one pass with the current table; then, while the
        name is not resolved, ask for one more rule and apply the whole table
        again to the already substituted name. None when the answers ran out. */
    method GetNewFilename(name: string) returns (result: Option<string>)
      requires Valid()
      modifies this
      ensures Valid()
      ensures Outcome(result, Rules(), input) == NewFilename(old(Rules()), old(input), name)
    {
      ghost var goal := NewFilename(old(Rules()), old(input), name);
      var u := ApplyRules(name);
      var done := IsResolved(u);
      while !done
        invariant Valid()
        invariant done == Resolved(u)
        invariant Resolve(Rules(), input, u) == goal
        decreases |input|
      {
        ghost var before, answers, pending := Rules(), input, u;
        var ok := EnterRule();
        if !ok {
          ResolveGivesUp(before, answers, pending);
          return None;
        }
        ResolveAsksOnce(before, answers, pending, Rules(), input);
        u := ApplyRules(u);
        done := IsResolved(u);
      }
      ResolveDone(Rules(), input, u);
      return Some(u);
    }

    /** `fix_non_ascii_name` for `node` in directory `dir`: descend into a real
        directory and visit every listed entry, rename a file or link whose new
        name differs (only log it in a dry run), skip anything else. `log`
        holds the logged moves, `renames` the ones performed; `ok` is false
        when the answers ran out and the run was aborted. */
    method FixNonAsciiName(node: Node, dir: seq<string>, dryRun: bool)
      returns (log: seq<Move>, renames: seq<Move>, ok: bool)
      requires Valid()
      modifies this
      ensures Valid()
      ensures Walked(log, renames, Rules(), input, ok) == Visit(old(Rules()), old(input), node, dir, dryRun)
      decreases node, 1
    {
      match node {
        case Dir(name, children) =>
          log, renames, ok := VisitChildren(children, dir + [name], dryRun);
        case File(name) =>
          log, renames, ok := MoveIfChanged(dir, name, dryRun);
        case Link(name) =>
          log, renames, ok := MoveIfChanged(dir, name, dryRun);
        case Other(_) =>
          // "skipping"
          log, renames, ok := [], [], true;
      }
    }

    /** The directory branch of `fix_non_ascii_name`: the loop over the
        entries `glob('*')` lists (those whose names do not start with a dot),
        run inside directory `dir`. */
    method VisitChildren(children: seq<Node>, dir: seq<string>, dryRun: bool)
      returns (log: seq<Move>, renames: seq<Move>, ok: bool)
      requires Valid()
      modifies this
      ensures Valid()
      ensures Walked(log, renames, Rules(), input, ok) == VisitAll(old(Rules()), old(input), children, dir, dryRun)
      decreases children, 0
    {
      log, renames, ok := [], [], true;
      var i := 0;
      while i < |children|
        invariant 0 <= i <= |children|
        invariant Valid()
        invariant VisitAll(old(Rules()), old(input), children, dir, dryRun)
          == Then(log, renames, VisitAll(Rules(), input, children[i..], dir, dryRun))
        decreases |children| - i
      {
        var item := children[i];
        assert children[i..][0] == item && children[i..][1..] == children[i + 1..];
        if Hidden(item.name) {
          VisitAllStep(Rules(), input, children[i..], dir, dryRun);
        } else {
          ghost var before, answers, logged, renamed := Rules(), input, log, renames;
          var l, r, k := FixNonAsciiName(item, dir, dryRun);
          VisitAllEntry(before, answers, children[i..], dir, dryRun, Walked(l, r, Rules(), input, k));
          log, renames := log + l, renames + r;
          if !k {
            return log, renames, false;
          }
          ThenAssoc(logged, renamed, l, r, VisitAll(Rules(), input, children[i + 1..], dir, dryRun));
        }
        i := i + 1;
      }
    }

    /** The file-or-link branch of `fix_non_ascii_name`. */
    method MoveIfChanged(dir: seq<string>, name: string, dryRun: bool)
      returns (log: seq<Move>, renames: seq<Move>, ok: bool)
      requires Valid()
      modifies this
      ensures Valid()
      ensures Walked(log, renames, Rules(), input, ok) == Rename(old(Rules()), old(input), dir, name, dryRun)
    {
      var newName := GetNewFilename(name);
      match newName {
        case None =>
          log, renames, ok := [], [], false;
        case Some(n) =>
          log, renames, ok := [], [], true;
          if n != name {
            log := [Move(dir, name, n)];
            if !dryRun {
              renames := log;
            }
          }
      }
    }
  }
}
