/**
 * What the walk promises: which children are rewritten and which are left
 * alone, that the first error ends the walk, that a filter reaches only the
 * children of the item it is written on, that signatures never change, and
 * how a nested `#[trace]` attribute is read.
 */
module WalkerProperties {
  import opened Wrappers
  import opened Syntax
  import opened Diagnostics
  import opened Args
  import opened Context
  import opened ArgIdents
  import opened TracedBlock
  import opened Walker

  // ---------------------------------------------------------------------------
  // Module children
  // ---------------------------------------------------------------------------

  /** A child the module walk leaves as it is: not a fn, mod or impl, or a fn or mod its filter excludes. */
  ghost predicate Skipped(chain: Chain, child: Item)
  {
    !Processable(child) || NameFiltered(chain, child)
  }

  /** What one child becomes when it succeeds. */
  lemma ModChildValue(chain: Chain, child: Item)
    requires ModChild(chain, child).Success?
    ensures ModChild(chain, child).value == if Skipped(chain, child) then child else ProcessChild(chain, child).value
  {
  }

  /** A module's children succeed exactly when every child does. */
  lemma {:induction false} ModChildrenSucceeds(chain: Chain, items: seq<Item>)
    ensures ModChildren(chain, items).Success? <==> forall i :: 0 <= i < |items| ==> ModChild(chain, items[i]).Success?
  {
    if items != [] {
      var init := items[..|items| - 1];
      ModChildrenSucceeds(chain, init);
      assert forall i :: 0 <= i < |init| ==> init[i] == items[i];
    }
  }

  /** On success, child `i` of the result is what child `i` of the module becomes. */
  lemma {:induction false} ModChildrenOutputs(chain: Chain, items: seq<Item>)
    requires ModChildren(chain, items).Success?
    ensures |ModChildren(chain, items).value| == |items|
    ensures forall i :: 0 <= i < |items| ==>
      ModChild(chain, items[i]).Success? && ModChildren(chain, items).value[i] == ModChild(chain, items[i]).value
  {
    if items != [] {
      var init := items[..|items| - 1];
      ModChildrenOutputs(chain, init);
      var done := ModChildren(chain, init).value;
      assert ModChildren(chain, items).value == done + [ModChild(chain, items[|items| - 1]).value];
      assert forall i :: 0 <= i < |init| ==> init[i] == items[i];
    }
  }

  /**
   * A module's children succeed exactly when every child does; then each
   * skipped child is kept unchanged and every other child is replaced by its
   * processed form, in the same order.
   */
  lemma ModChildrenPointwise(chain: Chain, items: seq<Item>)
    ensures ModChildren(chain, items).Success? <==> forall i :: 0 <= i < |items| ==> ModChild(chain, items[i]).Success?
    ensures ModChildren(chain, items).Success? ==>
      var out := ModChildren(chain, items).value;
      && |out| == |items|
      && forall i :: 0 <= i < |items| ==>
           out[i] == if Skipped(chain, items[i]) then items[i] else ProcessChild(chain, items[i]).value
  {
    ModChildrenSucceeds(chain, items);
    if ModChildren(chain, items).Success? {
      ModChildrenOutputs(chain, items);
      forall i | 0 <= i < |items|
        ensures ModChild(chain, items[i]).value
             == if Skipped(chain, items[i]) then items[i] else ProcessChild(chain, items[i]).value
      {
        ModChildValue(chain, items[i]);
      }
    }
  }

  /** A failing module reports the errors of its first failing child, after every earlier child succeeded. */
  lemma {:induction false} ModChildrenFirstError(chain: Chain, items: seq<Item>)
    requires ModChildren(chain, items).Failure?
    ensures exists k :: (0 <= k < |items|
      && ModChild(chain, items[k]) == Failure(ModChildren(chain, items).error)
      && forall j :: 0 <= j < k ==> ModChild(chain, items[j]).Success?)
  {
    var init := items[..|items| - 1];
    if ModChildren(chain, init).Failure? {
      ModChildrenFirstError(chain, init);
      var k :| 0 <= k < |init| && ModChild(chain, init[k]) == Failure(ModChildren(chain, init).error)
               && forall j :: 0 <= j < k ==> ModChild(chain, init[j]).Success?;
      assert items[k] == init[k];
      assert forall j :: 0 <= j < k ==> items[j] == init[j];
    } else {
      FirstErrorIsLast(chain, items);
    }
  }

  /** When all but the last child succeed, a failing module fails with the last child's errors. */
  lemma FirstErrorIsLast(chain: Chain, items: seq<Item>)
    requires items != [] && ModChildren(chain, items[..|items| - 1]).Success?
    requires ModChildren(chain, items).Failure?
    ensures ModChild(chain, items[|items| - 1]) == Failure(ModChildren(chain, items).error)
    ensures forall j :: 0 <= j < |items| - 1 ==> ModChild(chain, items[j]).Success?
  {
    var init := items[..|items| - 1];
    ModChildrenSucceeds(chain, init);
    assert forall j :: 0 <= j < |init| ==> items[j] == init[j];
  }

  /**
   * A filter reaches only the children of the item it is written on: below a
   * module child with no `trace` attribute of its own, no child is excluded
   * by name, whatever the enclosing filters say.
   */
  lemma NestedModuleNotFiltered(chain: Chain, child: Item, grandchild: Item)
    requires child.ModItem? && forall j :: 0 <= j < |child.attrs| ==> child.attrs[j].path != MacroName
    ensures ProcessChild(chain, child) == TransformItemSpec(CreateContext(chain, None), child)
    ensures !NameFiltered(CreateContext(chain, None), grandchild)
  {
    var local := LocalAttrs(AttrsOf(child));
    assert local == Success(Local(child.attrs, None));
    match TransformItemSpec(CreateContext(chain, None), child) {
      case Failure(_) =>
      case Success(t) =>
        assert t.ModItem? && t.attrs == child.attrs;
        assert WithAttrs(t, child.attrs) == t;
    }
    match grandchild {
      case FnItem(_, _, sig, _) => ExclusionIsLocal(chain, None, sig.ident.name);
      case ModItem(_, _, ident, _) => ExclusionIsLocal(chain, None, ident.name);
      case _ =>
    }
  }

  // ---------------------------------------------------------------------------
  // Impl members
  // ---------------------------------------------------------------------------

  /** What one member becomes when it succeeds. */
  lemma ImplMemberValue(chain: Chain, m: ImplMember)
    requires ImplMemberResult(chain, m).Success?
    ensures !m.Method? || DirectlyExcluded(chain, m.sig.ident.name) ==> ImplMemberResult(chain, m).value == m
    ensures m.Method? && !DirectlyExcluded(chain, m.sig.ident.name) ==>
      var local := LocalAttrs(m.attrs).value;
      ImplMemberResult(chain, m).value
      == Method(local.rest, m.sig, TracedBlockFor(CreateContext(chain, local.args), m.sig, m.block).value)
  {
  }

  /** An impl block's members succeed exactly when every member does. */
  lemma {:induction false} ImplMembersSucceed(chain: Chain, ms: seq<ImplMember>)
    ensures ImplMembers(chain, ms).Success? <==> forall i :: 0 <= i < |ms| ==> ImplMemberResult(chain, ms[i]).Success?
  {
    if ms != [] {
      var init := ms[..|ms| - 1];
      ImplMembersSucceed(chain, init);
      assert forall i :: 0 <= i < |init| ==> init[i] == ms[i];
    }
  }

  /** On success, member `i` of the result is what member `i` of the impl block becomes. */
  lemma {:induction false} ImplMembersOutputs(chain: Chain, ms: seq<ImplMember>)
    requires ImplMembers(chain, ms).Success?
    ensures |ImplMembers(chain, ms).value| == |ms|
    ensures forall i :: 0 <= i < |ms| ==>
      ImplMemberResult(chain, ms[i]).Success? && ImplMembers(chain, ms).value[i] == ImplMemberResult(chain, ms[i]).value
  {
    if ms != [] {
      var init := ms[..|ms| - 1];
      ImplMembersOutputs(chain, init);
      var done := ImplMembers(chain, init).value;
      assert ImplMembers(chain, ms).value == done + [ImplMemberResult(chain, ms[|ms| - 1]).value];
      assert forall i :: 0 <= i < |init| ==> init[i] == ms[i];
    }
  }

  /**
   * An impl block's members succeed exactly when every member does; then a
   * method the impl's own filter excludes, and any member that is not a
   * method, is kept unchanged, and every other method gets the traced block
   * for its context and loses its `trace` attribute.
   */
  lemma ImplMembersPointwise(chain: Chain, ms: seq<ImplMember>)
    ensures ImplMembers(chain, ms).Success? <==> forall i :: 0 <= i < |ms| ==> ImplMemberResult(chain, ms[i]).Success?
    ensures ImplMembers(chain, ms).Success? ==>
      var out := ImplMembers(chain, ms).value;
      && |out| == |ms|
      && forall i :: 0 <= i < |ms| ==>
           (!ms[i].Method? || DirectlyExcluded(chain, ms[i].sig.ident.name) ==> out[i] == ms[i])
           && (ms[i].Method? && !DirectlyExcluded(chain, ms[i].sig.ident.name) ==>
                 var local := LocalAttrs(ms[i].attrs).value;
                 out[i] == Method(local.rest, ms[i].sig,
                                  TracedBlockFor(CreateContext(chain, local.args), ms[i].sig, ms[i].block).value))
  {
    ImplMembersSucceed(chain, ms);
    if ImplMembers(chain, ms).Success? {
      ImplMembersOutputs(chain, ms);
      forall i | 0 <= i < |ms|
        ensures ImplMemberResult(chain, ms[i]).Success?
      {
      }
      forall i | 0 <= i < |ms|
      {
        ImplMemberValue(chain, ms[i]);
      }
    }
  }

  // ---------------------------------------------------------------------------
  // Signatures are never changed
  // ---------------------------------------------------------------------------

  /** Two items with the same kinds, names and signatures everywhere (bodies and attributes may differ). */
  ghost predicate SameSignatures(a: Item, b: Item)
    decreases a
  {
    match a
    case FnItem(span, _, sig, _) => b.FnItem? && b.span == span && b.sig == sig
    case ModItem(span, _, ident, content) =>
      && b.ModItem? && b.span == span && b.ident == ident
      && (content.External? ==> b.content.External?)
      && (content.Inline? ==>
            && b.content.Inline? && |b.content.items| == |content.items|
            && forall i :: 0 <= i < |content.items| ==> SameSignatures(content.items[i], b.content.items[i]))
    case ImplItem(span, _, members) =>
      && b.ImplItem? && b.span == span && |b.members| == |members|
      && forall i :: 0 <= i < |members| ==> SameMemberSignature(members[i], b.members[i])
    case OtherItem(_) => b == a
  }

  ghost predicate SameMemberSignature(a: ImplMember, b: ImplMember)
  {
    match a
    case Method(_, sig, _) => b.Method? && b.sig == sig
    case OtherMember(_) => b == a
  }

  lemma {:induction false} SameSignaturesWithAttrs(a: Item, b: Item, attrs: seq<Attribute>)
    requires SameSignatures(a, b)
    ensures SameSignatures(a, WithAttrs(b, attrs))
  {
  }

  /** A successful walk changes bodies and attributes only: every item keeps its kind, name and signature. */
  lemma {:induction false} WalkKeepsSignatures(chain: Chain, item: Item)
    requires TransformItemSpec(chain, item).Success?
    ensures SameSignatures(item, TransformItemSpec(chain, item).value)
    decreases item, 1
  {
    match item
    case FnItem(_, _, _, _) =>
    case ModItem(_, _, _, content) =>
      ModChildrenKeepSignatures(chain, content.items);
    case ImplItem(_, _, members) =>
      ImplMembersPointwise(chain, members);
    case OtherItem(_) =>
  }

  lemma {:induction false} ModChildrenKeepSignatures(chain: Chain, items: seq<Item>)
    requires ModChildren(chain, items).Success?
    ensures |ModChildren(chain, items).value| == |items|
    ensures forall i :: 0 <= i < |items| ==> SameSignatures(items[i], ModChildren(chain, items).value[i])
    decreases items, 0
  {
    ModChildrenPointwise(chain, items);
    var out := ModChildren(chain, items).value;
    forall i | 0 <= i < |items|
      ensures SameSignatures(items[i], out[i])
    {
      ChildKeepsSignature(chain, items[i]);
    }
  }

  lemma {:induction false} ChildKeepsSignature(chain: Chain, child: Item)
    requires ModChild(chain, child).Success?
    ensures SameSignatures(child, ModChild(chain, child).value)
    decreases child, 3
  {
    if Skipped(chain, child) {
      SameSignaturesRefl(child);
    } else {
      var local := LocalAttrs(AttrsOf(child)).value;
      var ctx := CreateContext(chain, local.args);
      WalkKeepsSignatures(ctx, child);
      SameSignaturesWithAttrs(child, TransformItemSpec(ctx, child).value, local.rest);
    }
  }

  lemma {:induction false} SameSignaturesRefl(a: Item)
    ensures SameSignatures(a, a)
    decreases a
  {
    match a
    case ModItem(_, _, _, content) =>
      if content.Inline? {
        forall i | 0 <= i < |content.items|
          ensures SameSignatures(content.items[i], content.items[i])
        {
          SameSignaturesRefl(content.items[i]);
        }
      }
    case _ =>
  }

  // ---------------------------------------------------------------------------
  // Local attributes
  // ---------------------------------------------------------------------------

  /** The configuration a bare `#[trace]` stands for: no prefixes, no filter, no pause, no pretty printing, no overrides. */
  const DefaultArgs: Args := Args(Prefix(None), Prefix(None), NoFilter, DefaultPause, DefaultPretty, map[])

  lemma EmptyArgumentList()
    ensures ParseArgs([]) == Success(DefaultArgs)
  {
    assert Classified([]) == [];
    assert GroupAll([]) == NoGroups;
    ReportsEmptyIff(NoGroups);
  }

  /**
   * A nested bare `#[trace]` makes the source panic, while the evidently
   * intended reading gives the default configuration.
   */
  lemma BareNestedTrace(span: Span)
    ensures LocalArgsAsWritten(span, NoTokens) == Failure([Diagnostic(span, SubtractOverflow)])
    ensures LocalArgs(span, NoTokens) == Success(Some(DefaultArgs))
  {
    EmptyArgumentList();
  }

  /**
   * `extract_local_attrs` takes out exactly the first `trace` attribute and
   * keeps every other attribute in order; with no `trace` attribute the item
   * has no local configuration.
   */
  lemma LocalAttrsTakesFirst(attrs: seq<Attribute>)
    ensures (forall j :: 0 <= j < |attrs| ==> attrs[j].path != MacroName) ==> LocalAttrs(attrs) == Success(Local(attrs, None))
    ensures LocalAttrs(attrs).Success? && (exists j :: 0 <= j < |attrs| && attrs[j].path == MacroName) ==>
      var p := TracePosition(attrs).value;
      && attrs[p].path == MacroName
      && (forall j :: 0 <= j < p ==> attrs[j].path != MacroName)
      && LocalAttrs(attrs).value.rest == attrs[..p] + attrs[p + 1..]
      && LocalAttrs(attrs).value.args.Some?
  {
  }

  // ---------------------------------------------------------------------------
  // The entry point
  // ---------------------------------------------------------------------------

  /**
   * Arguments that do not parse reject the expansion with exactly their
   * errors; an item of an unsupported kind is rejected with one error at it.
   */
  lemma ExpandErrors(raw: seq<NestedMeta>, item: Item)
    ensures ParseArgs(raw).Failure? ==> Expand(raw, item) == Failure(ParseArgs(raw).error)
    ensures ParseArgs(raw).Success? && item.OtherItem? ==> Expand(raw, item) == Failure([Diagnostic(item.span, NotSupported)])
    ensures ParseArgs(raw).Success? && !item.OtherItem? && Expand(raw, item).Success? ==> SameSignatures(item, Expand(raw, item).value)
  {
    if ParseArgs(raw).Success? && !item.OtherItem? && Expand(raw, item).Success? {
      WalkKeepsSignatures([Directly(ParseArgs(raw).value)], item);
    }
  }
}
