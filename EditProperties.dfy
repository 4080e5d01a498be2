/**
 * What the four edit kinds do to a command string, stated against the
 * leftmost-match characterisation of `Text` rather than against `Find`.
 */
module EditProperties {
  import opened Wrappers
  import opened Text
  import opened CommandEdit

  /** `-I` starts at `j` exactly when those two characters are there. */
  lemma {:induction false} AnchorAt(s: string, j: nat)
    ensures MatchesAt(s, Anchor, j) <==> j + 2 <= |s| && s[j] == '-' && s[j + 1] == 'I'
  {
    if j + 2 <= |s| && s[j] == '-' && s[j + 1] == 'I' {
      assert s[j..j + 2] == [s[j], s[j + 1]];
    }
  }

  /**
   * Add include at the first `-I`, offset `i`: the result is
   * `s[..i] + " -I" + path + " " + s[i..]`, and the first `-I` of the result
   * is the inserted one, at `i + 1`.
   */
  lemma {:induction false} InsertIncludeAt(s: string, path: string, i: nat)
    requires IsFirstMatch(s, Anchor, i)
    ensures InsertInclude(s, path) == s[..i] + " -I" + path + " " + s[i..]
    ensures IsFirstMatch(InsertInclude(s, path), Anchor, i + 1)
  {
    FirstMatchUnique(s, Anchor, Find(s, Anchor).value, i);
    assert s[..i] + s[i..] == s;
    FlagStartsBlankAnchor(path);
    AnchorAfterBlanksSplit(s[..i], IncludeFlag(path), " ", s[i..], 1);
    InsertedFlag(s[..i], path, s[i..]);
  }

  /** The spliced text ` -I<path> ` is a blank followed by `-I`. */
  lemma {:induction false} FlagStartsBlankAnchor(path: string)
    ensures var f := IncludeFlag(path) + " ";
      |f| >= 3 && f[0] == ' ' && f[1] == '-' && f[2] == 'I'
  {
  }

  function Spaces(n: nat): (r: string)
  {
    seq(n, _ => ' ')
  }

  /** The flags `-I<p> ` for the given paths, the last path first. */
  function StackedIncludes(paths: seq<string>): string
  {
    if paths == [] then "" else StackedIncludes(paths[1..]) + "-I" + paths[0] + " "
  }

  lemma {:induction false} ApplyAllCons(s: string, e: Edit, es: seq<Edit>)
    ensures ApplyAll(s, [e] + es) == ApplyAll(Apply(s, e), es)
  {
    ApplyAllAppend(s, [e], es);
    assert [e][..0] == [];
  }

  /**
   * Successive add-includes each anchor on the previous insertion: with the
   * first `-I` of `x + y` at `|x|`, adding `p1, ..., pn` yields `x`, then `n`
   * spaces, then `-Ipn -I... -Ip1 `, then `y` — later paths land first.
   */
  lemma {:induction false} AddIncludesStack(x: string, y: string, paths: seq<string>)
    requires IsFirstMatch(x + y, Anchor, |x|)
    ensures ApplyAll(x + y, Edits(AddInclude, paths))
         == x + Spaces(|paths|) + StackedIncludes(paths) + y
    decreases |paths|
  {
    if paths == [] {
      assert Edits(AddInclude, paths) == [];
    } else {
      var x', y' := x + " ", "-I" + paths[0] + " " + y;
      AddIncludeStep(x, y, paths[0]);
      AddIncludesStack(x', y', paths[1..]);
      StackCombine(x, y, paths);
    }
  }

  /** The inductive step of `AddIncludesStack`, once the first insertion and the rest are known. */
  lemma {:induction false} StackCombine(x: string, y: string, paths: seq<string>)
    requires paths != []
    requires InsertInclude(x + y, paths[0]) == (x + " ") + ("-I" + paths[0] + " " + y)
    requires ApplyAll((x + " ") + ("-I" + paths[0] + " " + y), Edits(AddInclude, paths[1..]))
          == (x + " ") + Spaces(|paths| - 1) + StackedIncludes(paths[1..]) + ("-I" + paths[0] + " " + y)
    ensures ApplyAll(x + y, Edits(AddInclude, paths))
         == x + Spaces(|paths|) + StackedIncludes(paths) + y
  {
    AddIncludesCons(x + y, paths);
    StackRegroup(x, y, paths);
  }

  /** After `n` add-includes the first `-I` has moved `n` places right: to the last inserted flag. */
  lemma {:induction false} AddIncludesAnchor(x: string, y: string, paths: seq<string>)
    requires IsFirstMatch(x + y, Anchor, |x|)
    ensures IsFirstMatch(ApplyAll(x + y, Edits(AddInclude, paths)), Anchor, |x| + |paths|)
  {
    AddIncludesStack(x, y, paths);
    StackAnchor(x, y, paths);
  }

  /** In `x + n spaces + stacked flags + y` the first `-I` is that of the first stacked flag. */
  lemma {:induction false} StackAnchor(x: string, y: string, paths: seq<string>)
    requires IsFirstMatch(x + y, Anchor, |x|)
    ensures IsFirstMatch(x + Spaces(|paths|) + StackedIncludes(paths) + y, Anchor, |x| + |paths|)
  {
    var n := |paths|;
    if n == 0 {
      assert Spaces(n) == [] && StackedIncludes(paths) == [];
      assert x + Spaces(n) + StackedIncludes(paths) + y == x + y by {
        assert x + Spaces(n) == x;
      }
    } else {
      BlanksThenStack(paths);
      AnchorAfterBlanksSplit(x, Spaces(n), StackedIncludes(paths), y, n);
    }
  }

  lemma {:induction false} AnchorAfterBlanksSplit(x: string, a: string, b: string, y: string, n: nat)
    requires IsFirstMatch(x + y, Anchor, |x|)
    requires 0 < n && n + 2 <= |a + b| && (a + b)[n] == '-' && (a + b)[n + 1] == 'I'
    requires forall k :: 0 <= k < n ==> (a + b)[k] == ' '
    ensures IsFirstMatch(x + a + b + y, Anchor, |x| + n)
  {
    assert x + a + b == x + (a + b);
    AnchorAfterBlanks(x, a + b, y, n);
  }

  /** The blanks left by `n` insertions are followed by the `-I` of the last one. */
  lemma {:induction false} BlanksThenStack(paths: seq<string>)
    requires paths != []
    ensures var mid := Spaces(|paths|) + StackedIncludes(paths);
      |mid| >= |paths| + 2 && mid[|paths|] == '-' && mid[|paths| + 1] == 'I' &&
      forall k :: 0 <= k < |paths| ==> mid[k] == ' '
  {
    StackedStartsWithAnchor(paths);
    var mid := Spaces(|paths|) + StackedIncludes(paths);
    assert mid[|paths|] == StackedIncludes(paths)[0];
    assert mid[|paths| + 1] == StackedIncludes(paths)[1];
  }

  /** Blanks put in front of a `-I` at the first anchor leave no earlier anchor. */
  lemma {:induction false} AnchorAfterBlanks(x: string, mid: string, y: string, n: nat)
    requires IsFirstMatch(x + y, Anchor, |x|)
    requires 0 < n && n + 2 <= |mid| && mid[n] == '-' && mid[n + 1] == 'I'
    requires forall k :: 0 <= k < n ==> mid[k] == ' '
    ensures IsFirstMatch(x + mid + y, Anchor, |x| + n)
  {
    var r := x + mid + y;
    assert r[|x| + n] == mid[n] && r[|x| + n + 1] == mid[n + 1];
    AnchorAt(r, |x| + n);
    forall j: nat | j < |x| + n
      ensures !MatchesAt(r, Anchor, j)
    {
      AnchorAt(r, j);
      if j + 1 < |x| {
        AnchorAt(x + y, j);
        assert r[j] == (x + y)[j] && r[j + 1] == (x + y)[j + 1];
      } else if j < |x| {
        assert r[j + 1] == mid[0];
      } else {
        assert r[j] == mid[j - |x|];
      }
    }
  }

  /** Each stacked flag starts with `-I`, so a non-empty stack does. */
  lemma {:induction false} StackedStartsWithAnchor(paths: seq<string>)
    requires paths != []
    ensures |StackedIncludes(paths)| >= 2
    ensures StackedIncludes(paths)[0] == '-' && StackedIncludes(paths)[1] == 'I'
    decreases |paths|
  {
    if |paths| > 1 {
      StackedStartsWithAnchor(paths[1..]);
    }
  }

  lemma {:induction false} AddIncludesCons(s: string, paths: seq<string>)
    requires paths != []
    ensures ApplyAll(s, Edits(AddInclude, paths))
         == ApplyAll(InsertInclude(s, paths[0]), Edits(AddInclude, paths[1..]))
  {
    EditsCons(AddInclude, paths);
    ApplyAllCons(s, Edit(AddInclude, paths[0]), Edits(AddInclude, paths[1..]));
  }

  lemma {:induction false} StackRegroup(x: string, y: string, paths: seq<string>)
    requires paths != []
    ensures (x + " ") + Spaces(|paths| - 1) + StackedIncludes(paths[1..]) + ("-I" + paths[0] + " " + y)
         == x + Spaces(|paths|) + StackedIncludes(paths) + y
  {
    var sp, st, flag := Spaces(|paths| - 1), StackedIncludes(paths[1..]), "-I" + paths[0] + " ";
    assert ((x + " ") + sp + st) + (flag + y) == x + (" " + sp) + (st + flag) + y;
    SpacesCons(|paths| - 1);
    StackedSnoc(paths);
  }

  lemma {:induction false} SpacesCons(n: nat)
    ensures Spaces(n + 1) == " " + Spaces(n)
  {
    assert forall k :: 0 <= k < n + 1 ==> (" " + Spaces(n))[k] == ' ';
  }

  lemma {:induction false} StackedSnoc(paths: seq<string>)
    requires paths != []
    ensures StackedIncludes(paths) == StackedIncludes(paths[1..]) + ("-I" + paths[0] + " ")
  {
  }

  /** One add-include, with the text cut at the first `-I`. */
  lemma {:induction false} AddIncludeStep(x: string, y: string, p: string)
    requires IsFirstMatch(x + y, Anchor, |x|)
    ensures InsertInclude(x + y, p) == (x + " ") + ("-I" + p + " " + y)
    ensures IsFirstMatch((x + " ") + ("-I" + p + " " + y), Anchor, |x + " "|)
  {
    var s := x + y;
    InsertIncludeAt(s, p, |x|);
    assert s[..|x|] == x && s[|x|..] == y;
    assert s[..|x|] + " -I" + p + " " + s[|x|..] == (x + " ") + ("-I" + p + " " + y) by {
      assert x + " -I" == (x + " ") + "-I";
    }
  }

  /** Without any `-I` in the command, every add-include is a no-op. */
  lemma {:induction false} AddIncludesNoAnchor(s: string, paths: seq<string>)
    requires !Contains(s, Anchor)
    ensures ApplyAll(s, Edits(AddInclude, paths)) == s
    decreases |paths|
  {
    if paths == [] {
      assert Edits(AddInclude, paths) == [];
    } else {
      EditsCons(AddInclude, paths);
      ApplyAllCons(s, Edit(AddInclude, paths[0]), Edits(AddInclude, paths[1..]));
      AddIncludesNoAnchor(s, paths[1..]);
    }
  }

  /**
   * Delete include `p` with ` -I<p>` first occurring at `k`: exactly that
   * occurrence is cut, and re-inserting it at `k` gives back `s`.
   */
  lemma {:induction false} DeleteIncludeAt(s: string, path: string, k: nat)
    requires IsFirstMatch(s, " -I" + path, k)
    ensures Apply(s, Edit(DeleteInclude, path)) == s[..k] + s[k + |path| + 3..]
    ensures |Apply(s, Edit(DeleteInclude, path))| == |s| - |path| - 3
    ensures var r := Apply(s, Edit(DeleteInclude, path)); r[..k] + IncludeFlag(path) + r[k..] == s
  {
    DeleteFirstAt(s, IncludeFlag(path), k);
  }

  /**
   * Delete arg `a` with ` -<a>` first occurring at `k`: exactly that
   * occurrence is cut, and re-inserting it at `k` gives back `s`.
   */
  lemma {:induction false} DeleteArgAt(s: string, arg: string, k: nat)
    requires IsFirstMatch(s, " -" + arg, k)
    ensures Apply(s, Edit(DeleteArg, arg)) == s[..k] + s[k + |arg| + 2..]
    ensures |Apply(s, Edit(DeleteArg, arg))| == |s| - |arg| - 2
    ensures var r := Apply(s, Edit(DeleteArg, arg)); r[..k] + ArgFlag(arg) + r[k..] == s
  {
    DeleteFirstAt(s, ArgFlag(arg), k);
  }

  /** The flags ` -<a>` for the given arguments, in the order given. */
  function ArgSuffix(args: seq<string>): string
  {
    if args == [] then "" else ArgFlag(args[0]) + ArgSuffix(args[1..])
  }

  /**
   * Add-args only append: the result is the old command followed by
   * ` -a1 -a2 ...` in request order, repeated values repeated.
   */
  lemma {:induction false} AddArgsAppend(s: string, args: seq<string>)
    ensures ApplyAll(s, Edits(AddArg, args)) == s + ArgSuffix(args)
    decreases |args|
  {
    if args == [] {
      assert Edits(AddArg, args) == [];
    } else {
      var s' := s + ArgFlag(args[0]);
      EditsCons(AddArg, args);
      ApplyAllCons(s, Edit(AddArg, args[0]), Edits(AddArg, args[1..]));
      assert Apply(s, Edit(AddArg, args[0])) == s';
      AddArgsAppend(s', args[1..]);
      assert ArgSuffix(args) == ArgFlag(args[0]) + ArgSuffix(args[1..]);
      assert s' + ArgSuffix(args[1..]) == s + ArgSuffix(args);
    }
  }

  /** A request made only of add-args appends their flags, in order, to the command. */
  lemma {:induction false} OnlyAddArgs(s: string, req: EditRequest)
    requires req.addInclude == [] && req.deleteInclude == [] && req.deleteArg == []
    ensures EditedCommand(s, req) == s + ArgSuffix(req.addArg)
  {
    PhaseOrder(s, req);
    assert Edits(AddInclude, req.addInclude) == [] && Edits(DeleteInclude, req.deleteInclude) == [];
    assert Edits(DeleteArg, req.deleteArg) == [];
    AddArgsAppend(s, req.addArg);
  }

  /**
   * Add-arg is not idempotent: running the same add-arg request twice, in
   * two separate runs, leaves every requested flag in the command twice.
   */
  lemma {:induction false} AddArgRunsAccumulate(s: string, req: EditRequest)
    requires req.addInclude == [] && req.deleteInclude == [] && req.deleteArg == []
    ensures EditedCommand(EditedCommand(s, req), req) == s + ArgSuffix(req.addArg) + ArgSuffix(req.addArg)
  {
    OnlyAddArgs(s, req);
    OnlyAddArgs(EditedCommand(s, req), req);
  }

  /** The text a delete edit looks for. */
  function Target(e: Edit): string
  {
    if e.kind.DeleteInclude? then IncludeFlag(e.value) else ArgFlag(e.value)
  }

  /**
   * Requesting the same deletion `n` times removes at most `n` copies of
   * its target: the command shrinks by a multiple `m <= n` of the target's
   * length.
   */
  lemma {:induction false} RepeatedDeletion(s: string, kind: EditKind, value: string, values: seq<string>)
    requires kind.DeleteInclude? || kind.DeleteArg?
    requires forall k :: 0 <= k < |values| ==> values[k] == value
    ensures exists m: nat :: m <= |values|
              && |ApplyAll(s, Edits(kind, values))| == |s| - m * |Target(Edit(kind, value))|
    decreases |values|
  {
    var t := Target(Edit(kind, value));
    if values == [] {
      assert Edits(kind, values) == [];
      assert |ApplyAll(s, Edits(kind, values))| == |s| - 0 * |t|;
    } else {
      var s' := Apply(s, Edit(kind, value));
      EditsCons(kind, values);
      ApplyAllCons(s, Edit(kind, value), Edits(kind, values[1..]));
      RepeatedDeletion(s', kind, value, values[1..]);
      var m: nat :| m <= |values| - 1 && |ApplyAll(s', Edits(kind, values[1..]))| == |s'| - m * |t|;
      if Contains(s, t) {
        assert |s'| == |s| - |t|;
        assert |ApplyAll(s, Edits(kind, values))| == |s| - (m + 1) * |t|;
      } else {
        assert s' == s;
        assert |ApplyAll(s, Edits(kind, values))| == |s| - m * |t|;
      }
    }
  }

  /** A deletion whose target never occurs leaves the command as it is. */
  lemma {:induction false} DeletionsAbsent(s: string, kind: EditKind, values: seq<string>)
    requires kind.DeleteInclude? || kind.DeleteArg?
    requires forall k :: 0 <= k < |values| ==> !Contains(s, Target(Edit(kind, values[k])))
    ensures ApplyAll(s, Edits(kind, values)) == s
    decreases |values|
  {
    if values == [] {
      assert Edits(kind, values) == [];
    } else {
      EditsCons(kind, values);
      ApplyAllCons(s, Edit(kind, values[0]), Edits(kind, values[1..]));
      DeletionsAbsent(s, kind, values[1..]);
    }
  }

  // Worked examples on the command `clang -c -Ifoo/bar file.c`, whose first
  // `-I` is at offset 9.

  lemma {:induction false} ExampleAnchor()
    ensures IsFirstMatch("clang -c -Ifoo/bar file.c", Anchor, 9)
  {
    var s := "clang -c -Ifoo/bar file.c";
    AnchorAt(s, 9);
    forall j: nat | j < 9
      ensures !MatchesAt(s, Anchor, j)
    {
      AnchorAt(s, j);
      assert j in {0, 1, 2, 3, 4, 5, 6, 7, 8};
    }
  }

  /** Add include `baz`: the inserted text lands after the separator, so two spaces precede it. */
  lemma {:induction false} ExampleAddInclude()
    ensures InsertInclude("clang -c -Ifoo/bar file.c", "baz") == "clang -c  -Ibaz -Ifoo/bar file.c"
  {
    var x, y := "clang -c ", "-Ifoo/bar file.c";
    assert x + y == "clang -c -Ifoo/bar file.c";
    ExampleAnchor();
    AddIncludeStep(x, y, "baz");
    ExampleAddIncludeText();
  }

  /** The example's result, spelled out as literal text. */
  lemma {:induction false} ExampleAddIncludeText()
    ensures ("clang -c " + " ") + ("-I" + "baz" + " " + "-Ifoo/bar file.c") == "clang -c  -Ibaz -Ifoo/bar file.c"
  {
  }

  lemma {:induction false} ExampleIncludeMatch()
    ensures IsFirstMatch("clang -c -Ifoo/bar file.c", " -Ifoo/bar", 8)
  {
    var s := "clang -c -Ifoo/bar file.c";
    var t := " -Ifoo/bar";
    assert s[8..18] == t;
    forall j: nat | j < 8
      ensures !MatchesAt(s, t, j)
    {
      assert j in {0, 1, 2, 3, 4, 5, 6, 7};
      assert s[j + 2] != 'I';
      if j + |t| <= |s| {
        assert s[j..j + |t|][2] == s[j + 2];
      }
    }
  }

  /** Delete include `foo/bar` cuts ` -Ifoo/bar`. */
  lemma {:induction false} ExampleDeleteInclude()
    ensures Apply("clang -c -Ifoo/bar file.c", Edit(DeleteInclude, "foo/bar")) == "clang -c file.c"
  {
    ExampleIncludeMatch();
    assert " -I" + "foo/bar" == " -Ifoo/bar" && |"foo/bar"| == 7;
    DeleteIncludeAt("clang -c -Ifoo/bar file.c", "foo/bar", 8);
    ExampleCut();
  }

  lemma {:induction false} ExampleCut()
    ensures "clang -c -Ifoo/bar file.c"[..8] + "clang -c -Ifoo/bar file.c"[18..] == "clang -c file.c"
  {
    var s := "clang -c -Ifoo/bar file.c";
    assert s[..8] == "clang -c";
    assert s[18..] == " file.c";
  }

  /** Matching is on substrings, not tokens: deleting include `foo` from `x -Ifoo/bar` leaves `x/bar`. */
  lemma {:induction false} ExampleSubstringMatch()
    ensures Apply("x -Ifoo/bar", Edit(DeleteInclude, "foo")) == "x/bar"
  {
    ExampleSubstringFirst();
    DeleteIncludeAt("x -Ifoo/bar", "foo", 1);
    ExampleSubstringCut();
  }

  lemma {:induction false} ExampleSubstringFirst()
    ensures IsFirstMatch("x -Ifoo/bar", " -I" + "foo", 1) && |"foo"| == 3
  {
    var s, t := "x -Ifoo/bar", " -I" + "foo";
    assert s[1..7] == t;
    assert !MatchesAt(s, t, 0) by {
      assert s[0] != t[0];
    }
  }

  lemma {:induction false} ExampleSubstringCut()
    ensures "x -Ifoo/bar"[..1] + "x -Ifoo/bar"[7..] == "x/bar"
  {
    var s := "x -Ifoo/bar";
    assert s[..1] == "x";
    assert s[7..] == "/bar";
  }

  /** Add include on a command without `-I` changes nothing. */
  lemma {:induction false} ExampleNoAnchor()
    ensures InsertInclude("clang -c file.c", "foo") == "clang -c file.c"
  {
    ExampleNoAnchorText();
  }

  lemma {:induction false} ExampleNoAnchorText()
    ensures !Contains("clang -c file.c", Anchor)
  {
    var s := "clang -c file.c";
    forall j: nat
      ensures !MatchesAt(s, Anchor, j)
    {
      AnchorAt(s, j);
      if j + 2 <= |s| {
        assert j in {0, 1, 2, 3, 4, 5, 6, 7, 8, 9, 10, 11, 12, 13};
      }
    }
  }

  /** Requesting the same argument twice appends it twice. */
  lemma {:induction false} ExampleAddArgTwice(s: string)
    ensures ApplyAll(s, Edits(AddArg, ["Wall", "Wall"])) == s + " -Wall -Wall"
  {
    AddArgsAppend(s, ["Wall", "Wall"]);
    assert ["Wall", "Wall"][1..] == ["Wall"];
    assert ["Wall"][1..] == [];
  }
}
