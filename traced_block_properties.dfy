/**
 * What the replacement body promises: the shape of the two records, where
 * prefixes and overrides come from, which values are logged, and the order of
 * the statements around the original body.
 */
module TracedBlockProperties {
  import opened Wrappers
  import opened Syntax
  import opened Args
  import opened ArgsProperties
  import opened Context
  import opened ArgIdents
  import opened TracedBlock

  // ---------------------------------------------------------------------------
  // The entry record
  // ---------------------------------------------------------------------------

  /** Each string of `ss` with `sep` in front. */
  function Prefixed(ss: seq<string>, sep: string): (r: seq<string>)
    ensures |r| == |ss|
  {
    seq(|ss|, i requires 0 <= i < |ss| => sep + ss[i])
  }

  /** Joining with a separator and putting one separator in front is the same as prefixing every part. */
  lemma PrefixedStep(ss: seq<string>, sep: string)
    requires ss != []
    ensures Concat(Prefixed(ss, sep)) == Concat(Prefixed(ss[..|ss| - 1], sep)) + (sep + ss[|ss| - 1])
  {
    var ps := Prefixed(ss, sep);
    assert ps[..|ps| - 1] == Prefixed(ss[..|ss| - 1], sep);
  }

  lemma RegroupSeparator(sep: string, j: string, last: string)
    ensures sep + (j + sep + last) == (sep + j) + (sep + last)
  {
  }

  lemma {:induction false} JoinPrefixed(ss: seq<string>, sep: string)
    ensures (if ss == [] then "" else sep + Join(ss, sep)) == Concat(Prefixed(ss, sep))
  {
    if ss != [] {
      PrefixedStep(ss, sep);
      var init := ss[..|ss| - 1];
      var last := ss[|ss| - 1];
      if |ss| == 1 {
        assert Prefixed(init, sep) == [];
      } else {
        JoinPrefixed(init, sep);
        var j := Join(init, sep);
        assert Join(ss, sep) == j + sep + last;
        RegroupSeparator(sep, j, last);
      }
    }
  }

  lemma LinesText(head: string, lines: seq<string>, empty: bool)
    requires empty <==> lines == []
    ensures head + (if empty then "" else LineSep) + Join(lines, LineSep) == head + Concat(Prefixed(lines, LineSep))
  {
    JoinPrefixed(lines, LineSep);
    var sep := if empty then "" else LineSep;
    var j := Join(lines, LineSep);
    assert head + sep + j == head + (sep + j);
  }

  /** The entry record: the collected entry label, the function name, then `"\n\t" + line` for each leaf in order. */
  lemma EntryFormatLines(chain: Chain, name: string, leaves: seq<Leaf>)
    ensures EntryFormat(chain, name, leaves)
         == ">>> " + Text(Collected(EnterPrefixes(chain))) + name
            + Concat(Prefixed(Lines(leaves, DirectFormats(chain), AnyPretty(chain)), LineSep))
  {
    var lines := Lines(leaves, DirectFormats(chain), AnyPretty(chain));
    var collected := Collected(EnterPrefixes(chain));
    LinesText(Enter(collected) + name, lines, leaves == []);
    LabelText(collected);
  }

  /** Pretty printing is on in a created chain exactly when an inherited or the local configuration asks for it. */
  lemma PrettyInContext(given: Chain, local: Option<Args>)
    ensures AnyPretty(CreateContext(given, local))
        <==> (exists i :: 0 <= i < |given| && given[i].args.pretty) || (local.Some? && local.value.pretty)
  {
    var c := CreateContext(given, local);
    if exists i :: 0 <= i < |given| && given[i].args.pretty {
      var i :| 0 <= i < |given| && given[i].args.pretty;
      assert c[i].args.pretty;
    }
    if local.Some? && local.value.pretty {
      assert c[|given|].args.pretty;
    }
  }

  /**
   * A visible name's entry line, for an item with configuration `local` nested in
   * `given`: the name, then the item's own override for it if there is one (never
   * an inherited override), else `{:#?}` when some enclosing or the item's own
   * configuration asks for pretty printing, else `{:?}`.
   */
  lemma NameLine(given: Chain, local: Option<Args>, name: string)
    ensures var c := CreateContext(given, local);
      LeafLine(Some(name), DirectFormats(c), AnyPretty(c))
      == if local.Some? && name in local.value.argsFormat then name + ": " + local.value.argsFormat[name]
         else if (exists i :: 0 <= i < |given| && given[i].args.pretty) || (local.Some? && local.value.pretty)
         then name + ": {:#?}"
         else name + ": {:?}"
  {
    OverridesAreLocal(given, local);
    PrettyInContext(given, local);
  }

  // ---------------------------------------------------------------------------
  // Where prefixes and overrides come from
  // ---------------------------------------------------------------------------

  /** Prefixes accumulate outer to inner: the item's own fragment follows every inherited one. */
  lemma EnterPrefixNests(given: Chain, local: Args)
    ensures Text(Collected(EnterPrefixes(CreateContext(given, Some(local)))))
         == Text(Collected(EnterPrefixes(given))) + Text(local.prefixEnter)
  {
    var c := CreateContext(given, Some(local));
    assert EnterPrefixes(c) == EnterPrefixes(given) + [local.prefixEnter];
    CollectedAppend(EnterPrefixes(given), local.prefixEnter);
  }

  /** The same for exit prefixes. */
  lemma ExitPrefixNests(given: Chain, local: Args)
    ensures Text(Collected(ExitPrefixes(CreateContext(given, Some(local)))))
         == Text(Collected(ExitPrefixes(given))) + Text(local.prefixExit)
  {
    var c := CreateContext(given, Some(local));
    assert ExitPrefixes(c) == ExitPrefixes(given) + [local.prefixExit];
    CollectedAppend(ExitPrefixes(given), local.prefixExit);
  }

  /** An impl with `prefix_enter = "A::"` and a method with `prefix_enter = "<method>::"` give the header `>>> A::<method>::f`. */
  lemma NestedPrefixExample(outer: Args, inner: Args)
    requires outer.prefixEnter == Prefix(Some("A::")) && inner.prefixEnter == Prefix(Some("<method>::"))
    ensures EntryFormat(CreateContext([Directly(outer)], Some(inner)), "f", []) == ">>> A::<method>::f"
  {
    var ctx := CreateContext([Directly(outer)], Some(inner));
    NestedPrefixText(outer, inner);
    EntryFormatLines(ctx, "f", []);
    assert Lines([], DirectFormats(ctx), AnyPretty(ctx)) == [];
    assert Concat(Prefixed([], LineSep)) == "";
  }

  /** The collected entry text of the example: the impl's fragment, then the method's. */
  lemma NestedPrefixText(outer: Args, inner: Args)
    requires outer.prefixEnter == Prefix(Some("A::")) && inner.prefixEnter == Prefix(Some("<method>::"))
    ensures Text(Collected(EnterPrefixes(CreateContext([Directly(outer)], Some(inner))))) == "A::<method>::"
  {
    EnterPrefixNests([Directly(outer)], inner);
    assert EnterPrefixes([Directly(outer)]) == [] + [outer.prefixEnter];
    CollectedAppend([], outer.prefixEnter);
    assert Fragments([]) == [];
  }

  /** Format overrides come only from the item's own configuration; inherited ones are ignored. */
  lemma OverridesAreLocal(given: Chain, local: Option<Args>)
    ensures DirectFormats(CreateContext(given, local)) == if local.Some? then Some(local.value.argsFormat) else None
  {
    var c := CreateContext(given, local);
    if local.Some? {
      var r := DirectFormats(c);
      assert c[|given|].Directly?;
      assert r.Some?;
    }
  }

  /** The exit record's `res` line uses the item's own `res` override, else the debug template. */
  lemma ExitFormatRes(given: Chain, local: Option<Args>, name: string)
    ensures var c := CreateContext(given, local);
      ExitFormat(c, name)
      == "<<< " + Text(Collected(ExitPrefixes(c))) + name + "\n\tres: "
         + if local.Some? && "res" in local.value.argsFormat then local.value.argsFormat["res"]
           else DefaultTemplate(AnyPretty(c))
  {
    var c := CreateContext(given, local);
    OverridesAreLocal(given, local);
    ExitFormatText(c, name);
  }

  /** The exit record: the exit label, the name, then the `res` line with its template. */
  lemma ExitFormatText(c: Chain, name: string)
    ensures var formats := DirectFormats(c);
      ExitFormat(c, name)
      == "<<< " + Text(Collected(ExitPrefixes(c))) + name + "\n\tres: "
         + if formats.Some? && "res" in formats.value then formats.value["res"] else DefaultTemplate(AnyPretty(c))
  {
    var formats := DirectFormats(c);
    var template := if formats.Some? && ReturnVar in formats.value then formats.value[ReturnVar]
                    else DefaultTemplate(AnyPretty(c));
    var t := Text(Collected(ExitPrefixes(c)));
    assert Exit(Collected(ExitPrefixes(c))) == "<<< " + t by {
      LabelText(Collected(ExitPrefixes(c)));
    }
    assert ExitFormat(c, name) == ("<<< " + t) + name + LineSep + ReturnVar + ": " + template;
    ResLine("<<< " + t + name, template);
  }

  lemma ResLine(head: string, template: string)
    ensures head + LineSep + ReturnVar + ": " + template == head + "\n\tres: " + template
  {
    assert LineSep + ReturnVar + ": " == "\n\tres: ";
    assert head + LineSep + ReturnVar + ": " == head + (LineSep + ReturnVar + ": ");
  }

  // ---------------------------------------------------------------------------
  // Logged values
  // ---------------------------------------------------------------------------

  /** The names of `names` that the chain does not exclude, in order. */
  ghost function Shown(chain: Chain, names: seq<string>): seq<string>
  {
    if names == [] then []
    else
      var last := names[|names| - 1];
      Shown(chain, names[..|names| - 1]) + (if DirectlyExcluded(chain, last) then [] else [last])
  }

  lemma {:induction false} VisibleMarks(chain: Chain, names: seq<string>)
    ensures Visible(Marks(chain, names)) == seq(|Shown(chain, names)|, i requires 0 <= i < |Shown(chain, names)| => Some(Shown(chain, names)[i]))
  {
    if names != [] {
      var init := names[..|names| - 1];
      VisibleMarks(chain, init);
      var m := Marks(chain, names);
      assert m[..|m| - 1] == Marks(chain, init);
    }
  }

  lemma {:induction false} VisibleAllSome(v: seq<Leaf>)
    requires forall i :: 0 <= i < |v| ==> v[i].Some?
    ensures Visible(v) == v
  {
    if v != [] {
      VisibleAllSome(v[..|v| - 1]);
    }
  }

  lemma {:induction false} VisibleDropsNone(v: seq<Leaf>, rd: seq<Leaf>)
    requires forall i :: 0 <= i < |v| ==> v[i].Some?
    requires forall i :: 0 <= i < |rd| ==> rd[i].None?
    ensures Visible(v + rd) == v
    decreases |rd|
  {
    if rd == [] {
      assert v + rd == v;
      VisibleAllSome(v);
    } else {
      var s := v + rd;
      assert s[..|s| - 1] == v + rd[..|rd| - 1];
      VisibleDropsNone(v, rd[..|rd| - 1]);
    }
  }

  /**
   * The entry log receives exactly the parameters the item's own filter lets
   * through, in declaration order (the `filter_map` after the sort).
   */
  lemma LoggedValuesAreShown(chain: Chain, names: seq<string>)
    ensures var sh := Shown(chain, names);
      LoggedValues(Arranged(Marks(chain, names))) == seq(|sh|, i requires 0 <= i < |sh| => ArgValue(sh[i]))
  {
    var xs := Marks(chain, names);
    ArrangedShape(xs);
    var v := Visible(xs);
    var allSome := forall i :: 0 <= i < |xs| ==> xs[i].Some?;
    VisibleDropsNone(v, if allSome then [] else [None]);
    VisibleMarks(chain, names);
  }

  // ---------------------------------------------------------------------------
  // The body plan
  // ---------------------------------------------------------------------------

  /** Number of pause statements in a statement list. */
  function PauseCount(stmts: seq<Stmt>): nat
  {
    if stmts == [] then 0
    else PauseCount(stmts[..|stmts| - 1]) + (if stmts[|stmts| - 1].PauseForInput? then 1 else 0)
  }

  lemma {:induction false} PauseCountAppend(a: seq<Stmt>, b: seq<Stmt>)
    ensures PauseCount(a + b) == PauseCount(a) + PauseCount(b)
    decreases |b|
  {
    if b == [] {
      assert a + b == a;
    } else {
      var init := b[..|b| - 1];
      PauseCountAppend(a, init);
      assert (a + b)[..|a + b| - 1] == a + init;
    }
  }

  /**
   * The wrapper: the entry log comes first, the original body is run exactly
   * once (after the entry log and any pause, before the exit log), the exit
   * log passes the result, the last statement returns it, and there are two
   * pauses when some configuration in the chain asks for `pause`, none otherwise.
   */
  lemma BodyPlan(chain: Chain, name: string, leaves: seq<Leaf>, original: Block)
    ensures var s := TracedBody(chain, name, leaves, original).stmts;
      var p := if exists i :: 0 <= i < |chain| && chain[i].args.pause then 1 else 0;
      && |s| == 4 + 2 * p
      && s[0] == LogTrace(EntryFormat(chain, name, leaves), LoggedValues(leaves))
      && s[1 + p] == BindClosureResult(original)
      && (forall i :: 0 <= i < |s| && s[i].BindClosureResult? ==> i == 1 + p)
      && s[2 + p] == LogTrace(ExitFormat(chain, name), [ResultValue])
      && (forall i :: 0 <= i < |s| && s[i].LogTrace? ==> i == 0 || i == 2 + p)
      && s[|s| - 1] == ReturnResult
      && PauseCount(s) == 2 * p
  {
    BodyPauses(chain, name, leaves, original);
    var e := LogTrace(EntryFormat(chain, name, leaves), LoggedValues(leaves));
    var x := LogTrace(ExitFormat(chain, name), [ResultValue]);
    PlanLayout(e, BindClosureResult(original), x, PauseStmts(chain));
  }

  /** Where each statement sits in entry, pauses, run, exit, pauses, result. */
  lemma PlanLayout(e: Stmt, b: Stmt, x: Stmt, ps: seq<Stmt>)
    requires e.LogTrace? && b.BindClosureResult? && x.LogTrace?
    requires ps == [] || ps == [PauseForInput]
    ensures var s := [e] + ps + [b, x] + ps + [ReturnResult];
      var p := |ps|;
      && |s| == 4 + 2 * p
      && s[0] == e && s[1 + p] == b && s[2 + p] == x && s[|s| - 1] == ReturnResult
      && (forall i :: 0 <= i < |s| && s[i].BindClosureResult? ==> i == 1 + p)
      && (forall i :: 0 <= i < |s| && s[i].LogTrace? ==> i == 0 || i == 2 + p)
  {
    var s := [e] + ps + [b, x] + ps + [ReturnResult];
    if ps == [] {
      assert s == [e, b, x, ReturnResult];
    } else {
      assert s == [e, PauseForInput, b, x, PauseForInput, ReturnResult];
    }
  }

  /** The body pauses once after each log record when any configuration asks for it, and never otherwise. */
  lemma BodyPauses(chain: Chain, name: string, leaves: seq<Leaf>, original: Block)
    ensures PauseCount(TracedBody(chain, name, leaves, original).stmts) == if AnyPause(chain) then 2 else 0
  {
    var ps := PauseStmts(chain);
    var entry := [LogTrace(EntryFormat(chain, name, leaves), LoggedValues(leaves))];
    var mid := [BindClosureResult(original), LogTrace(ExitFormat(chain, name), [ResultValue])];
    assert TracedBody(chain, name, leaves, original).stmts == entry + ps + mid + ps + [ReturnResult];
    PauseCountAppend(entry, ps);
    PauseCountAppend(entry + ps, mid);
    PauseCountAppend(entry + ps + mid, ps);
    PauseCountAppend(entry + ps + mid + ps, [ReturnResult]);
    assert PauseCount(entry) == 0 && PauseCount(mid) == 0 && PauseCount([ReturnResult]) == 0 by {
      assert entry[..0] == [] && mid[..1] == [mid[0]] && [mid[0]][..0] == [] && [ReturnResult][..0] == [];
    }
    if AnyPause(chain) {
      assert PauseCount(ps) == 1 by { assert ps[..0] == []; }
    }
  }

  // ---------------------------------------------------------------------------
  // An end-to-end example
  // ---------------------------------------------------------------------------

  function Param(n: string): FnArg
  {
    Captured(PatIdent(Ident(n, 0)))
  }

  lemma ExampleNames()
    ensures ArgNames([Param("a"), Param("b"), Param("c"), Param("d")]) == Some(["a", "b", "c", "d"])
  {
    var i1 := [Param("a")];
    var i2 := i1 + [Param("b")];
    var i3 := i2 + [Param("c")];
    var i4 := i3 + [Param("d")];
    assert i1[..0] == [] && ArgNames(i1) == Some([] + ["a"]) && [] + ["a"] == ["a"];
    assert i2[..1] == i1 && ArgNames(i2) == Some(["a"] + ["b"]) && ["a"] + ["b"] == ["a", "b"];
    assert i3[..2] == i2 && ArgNames(i3) == Some(["a", "b"] + ["c"]) && ["a", "b"] + ["c"] == ["a", "b", "c"];
    assert i4[..3] == i3 && ArgNames(i4) == Some(["a", "b", "c"] + ["d"]) && ["a", "b", "c"] + ["d"] == ["a", "b", "c", "d"];
    assert i4 == [Param("a"), Param("b"), Param("c"), Param("d")];
  }

  lemma ExampleArranged()
    ensures Arranged([Some("a"), None, None, Some("d")]) == [Some("a"), Some("d"), None]
  {
    var xs: seq<Leaf> := [Some("a"), None, None, Some("d")];
    ArrangedShape(xs);
    assert xs[1].None?;
    var x1: seq<Leaf> := [Some("a")];
    var x2 := x1 + [None];
    var x3 := x2 + [None];
    assert x1[..0] == [] && Visible(x1) == [Some("a")];
    assert x2[..1] == x1 && Visible(x2) == [Some("a")];
    assert x3[..2] == x2 && Visible(x3) == [Some("a")];
    assert xs == x3 + [Some("d")] && xs[..3] == x3;
    assert Visible(xs) == [Some("a"), Some("d")];
  }

  /** The parameters `a, b, c, d` under `disable(b, c)`: redacted in place, then moved behind the visible ones and collapsed. */
  lemma RedactionExampleLeaves(args: Args)
    requires args == Args(Prefix(None), Prefix(None), Disable({"b", "c"}), false, false, map[])
    ensures ArgLeaves([Directly(args)], [Param("a"), Param("b"), Param("c"), Param("d")]) == Some([Some("a"), None, None, Some("d")])
    ensures Arranged([Some("a"), None, None, Some("d")]) == [Some("a"), Some("d"), None]
  {
    var chain := [Directly(args)];
    ExampleNames();
    ExampleArranged();
    assert !DirectlyExcluded(chain, "a") && !DirectlyExcluded(chain, "d");
    assert DirectlyExcluded(chain, "b") by { assert chain[0].Directly? && Excludes(chain[0].args.filter, "b"); }
    assert DirectlyExcluded(chain, "c") by { assert chain[0].Directly? && Excludes(chain[0].args.filter, "c"); }
    assert Marks(chain, ["a", "b", "c", "d"]) == [Some("a"), None, None, Some("d")];
  }

  /**
   * `#[trace(disable(b, c))] fn f(a, b, c, d)` logs `a` and `d` and a single
   * `...` for the two redacted parameters, placed after every visible one.
   */
  lemma RedactionExample(args: Args, original: Block)
    requires args == Args(Prefix(None), Prefix(None), Disable({"b", "c"}), false, false, map[])
    ensures var sig := Signature(Ident("f", 0), [Param("a"), Param("b"), Param("c"), Param("d")]);
      var body := TracedBlockFor([Directly(args)], sig, original);
      && body.Some?
      && body.value.stmts[0] == LogTrace(">>> f\n\ta: {:?}\n\td: {:?}\n\t...", [ArgValue("a"), ArgValue("d")])
  {
    var chain := [Directly(args)];
    RedactionExampleLeaves(args);
    var leaves: seq<Leaf> := [Some("a"), Some("d"), None];
    assert leaves == [Some("a"), Some("d")] + [None];
    VisibleDropsNone([Some("a"), Some("d")], [None]);
    assert LoggedValues(leaves) == [ArgValue("a"), ArgValue("d")];
    assert EntryFormat(chain, "f", leaves) == ">>> f\n\ta: {:?}\n\td: {:?}\n\t..." by {
      EntryExampleText(chain, leaves);
    }
  }

  lemma EntryExampleText(chain: Chain, leaves: seq<Leaf>)
    requires chain == [Directly(Args(Prefix(None), Prefix(None), Disable({"b", "c"}), false, false, map[]))]
    requires leaves == [Some("a"), Some("d"), None]
    ensures EntryFormat(chain, "f", leaves) == ">>> f\n\ta: {:?}\n\td: {:?}\n\t..."
  {
    var lines := Lines(leaves, DirectFormats(chain), AnyPretty(chain));
    ExampleLines(chain, leaves);
    Join3("a: {:?}", "d: {:?}", "...", LineSep);
    ExampleEnter(chain);
    var j := Join(lines, LineSep);
    assert EntryFormat(chain, "f", leaves) == ">>> " + "f" + LineSep + j;
  }

  /** Joining three parts. */
  lemma Join3(x: string, y: string, z: string, sep: string)
    ensures Join([x, y, z], sep) == x + sep + y + sep + z
  {
    var ss := [x, y, z];
    assert ss[..2] == [x, y];
    assert ss[..2][..1] == [x];
    assert Join([x], sep) == x;
    assert Join([x, y], sep) == x + sep + y;
  }

  lemma ExampleLines(chain: Chain, leaves: seq<Leaf>)
    requires chain == [Directly(Args(Prefix(None), Prefix(None), Disable({"b", "c"}), false, false, map[]))]
    requires leaves == [Some("a"), Some("d"), None]
    ensures Lines(leaves, DirectFormats(chain), AnyPretty(chain)) == ["a: {:?}", "d: {:?}", "..."]
  {
    assert DirectFormats(chain) == Some(map[]);
    assert !AnyPretty(chain);
    assert DefaultTemplate(false) == "{:?}";
    assert LeafLine(Some("a"), Some(map[]), false) == "a: {:?}";
    assert LeafLine(Some("d"), Some(map[]), false) == "d: {:?}";
  }

  lemma ExampleEnter(chain: Chain)
    requires chain == [Directly(Args(Prefix(None), Prefix(None), Disable({"b", "c"}), false, false, map[]))]
    ensures Enter(Collected(EnterPrefixes(chain))) == ">>> "
  {
    var ps := EnterPrefixes(chain);
    assert ps == [Prefix(None)];
    assert ps[..0] == [];
  }
}
