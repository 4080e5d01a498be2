/**
 * The command-string mutator: the four kinds of textual edit applied to the
 * `command` string of a compile unit, their left fold, and the method that
 * runs the four edit loops of `main` in their fixed order.
 */
module CommandEdit {
  import opened Wrappers
  import opened Text

  /** The requested edits (the four repeatable command-line options). */
  datatype EditRequest = EditRequest(
    addInclude: seq<string>,
    deleteInclude: seq<string>,
    addArg: seq<string>,
    deleteArg: seq<string>)
  {
    predicate IsEmpty()
    {
      addInclude == [] && deleteInclude == [] && addArg == [] && deleteArg == []
    }
  }

  datatype EditKind = AddInclude | DeleteInclude | AddArg | DeleteArg

  datatype Edit = Edit(kind: EditKind, value: string)

  /** The anchor an include is inserted in front of. */
  const Anchor: string := "-I"

  /** The text an include edit inserts or deletes: ` -I<path>`. */
  function IncludeFlag(path: string): string
  {
    " -I" + path
  }

  /** The text an argument edit appends or deletes: ` -<arg>`. */
  function ArgFlag(arg: string): string
  {
    " -" + arg
  }

  /**
   * Add include: insert ` -I<path> ` at the first `-I`; without one, the
   * command is left as it is.
   */
  function InsertInclude(s: string, path: string): (r: string)
    ensures !Contains(s, Anchor) ==> r == s
    ensures Contains(s, Anchor) ==> |r| == |s| + |path| + 4
  {
    match Find(s, Anchor)
    case None => s
    case Some(i) => s[..i] + IncludeFlag(path) + " " + s[i..]
  }

  /** One edit applied to a command string. */
  function Apply(s: string, e: Edit): (r: string)
    ensures e.kind.AddArg? ==> |r| == |s| + |e.value| + 2 && r[..|s|] == s
    ensures e.kind.DeleteInclude? ==> |r| <= |s|
    ensures e.kind.DeleteArg? ==> |r| <= |s|
  {
    match e.kind
    case AddInclude => InsertInclude(s, e.value)
    case DeleteInclude => DeleteFirst(s, IncludeFlag(e.value))
    case AddArg => s + ArgFlag(e.value)
    case DeleteArg => DeleteFirst(s, ArgFlag(e.value))
  }

  /** Edits applied one after the other, each to the previous one's result. */
  function ApplyAll(s: string, es: seq<Edit>): string
    decreases |es|
  {
    if es == [] then s else Apply(ApplyAll(s, es[..|es| - 1]), es[|es| - 1])
  }

  /** The edits of one kind, one per requested value, in the order given. */
  function Edits(kind: EditKind, values: seq<string>): seq<Edit>
  {
    seq(|values|, k requires 0 <= k < |values| => Edit(kind, values[k]))
  }

  /** All requested edits in the order `main` applies them. */
  function Plan(req: EditRequest): seq<Edit>
  {
    Edits(AddInclude, req.addInclude) + Edits(DeleteInclude, req.deleteInclude)
    + Edits(AddArg, req.addArg) + Edits(DeleteArg, req.deleteArg)
  }

  /** The command string after every requested edit. */
  function EditedCommand(s: string, req: EditRequest): string
  {
    ApplyAll(s, Plan(req))
  }

  lemma {:induction false} ApplyAllSnoc(s: string, es: seq<Edit>, e: Edit)
    ensures ApplyAll(s, es + [e]) == Apply(ApplyAll(s, es), e)
  {
    assert (es + [e])[..|es|] == es;
  }

  lemma {:induction false} EditsSnoc(kind: EditKind, values: seq<string>, k: nat)
    requires k < |values|
    ensures Edits(kind, values[..k + 1]) == Edits(kind, values[..k]) + [Edit(kind, values[k])]
  {
  }

  lemma {:induction false} EditsCons(kind: EditKind, values: seq<string>)
    requires values != []
    ensures Edits(kind, values) == [Edit(kind, values[0])] + Edits(kind, values[1..])
  {
  }

  lemma {:induction false} EditsWhole(kind: EditKind, values: seq<string>)
    ensures Edits(kind, values[..|values|]) == Edits(kind, values)
  {
    assert values[..|values|] == values;
  }

  /** The text the add-include loop splices in is the include flag and a blank. */
  lemma {:induction false} InsertedFlag(before: string, path: string, after: string)
    ensures before + " -I" + path + " " + after == before + IncludeFlag(path) + " " + after
  {
    assert before + " -I" + path == before + IncludeFlag(path);
  }

  /** One more pass of a phase's loop is one more edit of its kind. */
  lemma {:induction false} PhaseStep(s: string, kind: EditKind, values: seq<string>, k: nat)
    requires k < |values|
    ensures ApplyAll(s, Edits(kind, values[..k + 1]))
         == Apply(ApplyAll(s, Edits(kind, values[..k])), Edit(kind, values[k]))
  {
    ApplyAllSnoc(s, Edits(kind, values[..k]), Edit(kind, values[k]));
    EditsSnoc(kind, values, k);
  }

  /** Running `a` and then `b` is running `a + b`. */
  lemma {:induction false} ApplyAllAppend(s: string, a: seq<Edit>, b: seq<Edit>)
    ensures ApplyAll(s, a + b) == ApplyAll(ApplyAll(s, a), b)
    decreases |b|
  {
    if b == [] {
      assert a + b == a;
    } else {
      var b' := b[..|b| - 1];
      assert (a + b)[..|a + b| - 1] == a + b';
      ApplyAllAppend(s, a, b');
    }
  }

  /**
   * The four phases run in the fixed order of `main`: all add-includes, then
   * all delete-includes, then all add-args, then all delete-args, each phase
   * working on the previous phase's output.
   */
  lemma {:induction false} PhaseOrder(s: string, req: EditRequest)
    ensures EditedCommand(s, req)
         == ApplyAll(ApplyAll(ApplyAll(ApplyAll(s,
              Edits(AddInclude, req.addInclude)),
              Edits(DeleteInclude, req.deleteInclude)),
              Edits(AddArg, req.addArg)),
              Edits(DeleteArg, req.deleteArg))
  {
    var e1, e2 := Edits(AddInclude, req.addInclude), Edits(DeleteInclude, req.deleteInclude);
    var e3, e4 := Edits(AddArg, req.addArg), Edits(DeleteArg, req.deleteArg);
    ApplyAllAppend(s, e1 + e2 + e3, e4);
    ApplyAllAppend(s, e1 + e2, e3);
    ApplyAllAppend(s, e1, e2);
  }

  /** An empty request leaves every command string as it is. */
  lemma {:induction false} EmptyRequestIdentity(s: string, req: EditRequest)
    requires req.IsEmpty()
    ensures EditedCommand(s, req) == s
  {
    assert Plan(req) == [];
  }

  // The four loops of `main`, each updating the command string in place:
  // `insert_str` at the first `-I`, `replace_range` over the first match,
  // `push_str` at the end.

  /** The loop that inserts every requested include path in turn. */
  method AddIncludes(command: string, paths: seq<string>) returns (r: string)
    ensures r == ApplyAll(command, Edits(AddInclude, paths))
  {
    r := command;
    for k := 0 to |paths|
      invariant r == ApplyAll(command, Edits(AddInclude, paths[..k]))
    {
      PhaseStep(command, AddInclude, paths, k);
      match Find(r, "-I") {
        case Some(index) =>
          InsertedFlag(r[..index], paths[k], r[index..]);
          r := r[..index] + " -I" + paths[k] + " " + r[index..];
        case None =>
      }
    }
    EditsWhole(AddInclude, paths);
  }

  /** The loop that deletes the first occurrence of every requested include flag. */
  method DeleteIncludes(command: string, paths: seq<string>) returns (r: string)
    ensures r == ApplyAll(command, Edits(DeleteInclude, paths))
  {
    r := command;
    for k := 0 to |paths|
      invariant r == ApplyAll(command, Edits(DeleteInclude, paths[..k]))
    {
      PhaseStep(command, DeleteInclude, paths, k);
      var target := " -I" + paths[k];
      match Find(r, target) {
        case Some(start) =>
          r := r[..start] + r[start + |target|..];
        case None =>
      }
    }
    EditsWhole(DeleteInclude, paths);
  }

  /** The loop that appends every requested argument flag. */
  method AddArgs(command: string, args: seq<string>) returns (r: string)
    ensures r == ApplyAll(command, Edits(AddArg, args))
  {
    r := command;
    for k := 0 to |args|
      invariant r == ApplyAll(command, Edits(AddArg, args[..k]))
    {
      PhaseStep(command, AddArg, args, k);
      r := r + " -" + args[k];
    }
    EditsWhole(AddArg, args);
  }

  /** The loop that deletes the first occurrence of every requested argument flag. */
  method DeleteArgs(command: string, args: seq<string>) returns (r: string)
    ensures r == ApplyAll(command, Edits(DeleteArg, args))
  {
    r := command;
    for k := 0 to |args|
      invariant r == ApplyAll(command, Edits(DeleteArg, args[..k]))
    {
      PhaseStep(command, DeleteArg, args, k);
      var target := " -" + args[k];
      match Find(r, target) {
        case Some(start) =>
          r := r[..start] + r[start + |target|..];
        case None =>
      }
    }
    EditsWhole(DeleteArg, args);
  }

  /** The four edit loops, run in the order the tool runs them. */
  method EditCommand(command: string, req: EditRequest) returns (r: string)
    ensures r == EditedCommand(command, req)
  {
    r := AddIncludes(command, req.addInclude);
    r := DeleteIncludes(r, req.deleteInclude);
    r := AddArgs(r, req.addArg);
    r := DeleteArgs(r, req.deleteArg);
    PhaseOrder(command, req);
  }
}
