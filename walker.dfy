/**
 * The scope walker (src/lib.rs: `trace`, `transform_item`, `transform_fn`,
 * `transform_mod`, `transform_impl`, `extract_local_attrs`).
 *
 * The source rewrites the item tree in place and returns `Result<(), errors>`;
 * since any error replaces the whole expansion by the error list, the
 * partially rewritten tree is never observed, and here each transformation
 * returns the rewritten item or the errors.  A panic of the macro
 * (`unimplemented!()`, an arithmetic overflow) becomes a diagnostic of its own.
 */
module Walker {
  import opened Wrappers
  import opened Syntax
  import opened Diagnostics
  import opened Args
  import opened Context
  import opened ArgIdents
  import opened TracedBlock

  const MacroName: string := "trace"

  // ---------------------------------------------------------------------------
  // Local attributes
  // ---------------------------------------------------------------------------

  /** An item's attributes with the first `trace` attribute taken out, and what it configured. */
  datatype Local = Local(rest: seq<Attribute>, args: Option<Args>)

  /** The index of the first attribute whose path starts with `trace`, if any. */
  function TracePosition(attrs: seq<Attribute>): (r: Option<nat>)
    ensures r.None? <==> forall j :: 0 <= j < |attrs| ==> attrs[j].path != MacroName
    ensures r.Some? ==> r.value < |attrs| && attrs[r.value].path == MacroName
                        && forall j :: 0 <= j < r.value ==> attrs[j].path != MacroName
  {
    if attrs == [] then None
    else if attrs[0].path == MacroName then Some(0)
    else
      var rest := TracePosition(attrs[1..]);
      assert forall j :: 1 <= j < |attrs| ==> attrs[j] == attrs[1..][j - 1];
      if rest.Some? then Some(rest.value + 1) else None
  }

  /**
   * The local configuration carried by the tokens of a nested `#[trace...]`,
   * as the source computes it: the token text with its first and last
   * characters cut off is re-parsed.  With no tokens at all the text is
   * empty, and computing its length minus one panics.
   */
  function LocalArgsAsWritten(span: Span, tokens: AttrTokens): Result<Option<Args>, seq<Diagnostic>>
  {
    match tokens
    case NoTokens => Failure([Diagnostic(span, SubtractOverflow)])
    case Malformed(sp) => Failure([Diagnostic(sp, AttrUnparsable)])
    case Tokens(raw) =>
      match ParseArgs(raw)
      case Failure(errs) => Failure(errs)
      case Success(a) => Success(Some(a))
  }

  /**
   * The local configuration with the evident intent: a bare nested `#[trace]`
   * means an empty argument list, exactly as a bare `#[trace]` does on the
   * item the macro is invoked on.
   */
  function LocalArgs(span: Span, tokens: AttrTokens): (r: Result<Option<Args>, seq<Diagnostic>>)
    ensures tokens.Tokens? ==> r == LocalArgsAsWritten(span, tokens)
    ensures tokens.Malformed? ==> r == LocalArgsAsWritten(span, tokens)
    ensures tokens.NoTokens? ==> r == LocalArgsAsWritten(span, Tokens([]))
  {
    match tokens
    case NoTokens => LocalArgsAsWritten(span, Tokens([]))
    case _ => LocalArgsAsWritten(span, tokens)
  }

  /** `extract_local_attrs`: take out the first `trace` attribute and parse what it says. */
  function LocalAttrs(attrs: seq<Attribute>): Result<Local, seq<Diagnostic>>
  {
    var pos := TracePosition(attrs);
    if pos.None? then Success(Local(attrs, None))
    else
      var attr := attrs[pos.value];
      match LocalArgs(attr.span, attr.tokens)
      case Failure(errs) => Failure(errs)
      case Success(a) => Success(Local(attrs[..pos.value] + attrs[pos.value + 1..], a))
  }

  /** `extract_local_attrs` with the parse done by `FromRawArgs`. */
  method ExtractLocalAttrs(attrs: seq<Attribute>) returns (r: Result<Local, seq<Diagnostic>>)
    ensures r == LocalAttrs(attrs)
  {
    if attrs == [] {
      return Success(Local(attrs, None));
    }
    var pos := TracePosition(attrs);
    if pos.None? {
      return Success(Local(attrs, None));
    }
    var attr := attrs[pos.value];
    var rest := attrs[..pos.value] + attrs[pos.value + 1..];
    match attr.tokens
    case Malformed(sp) =>
      r := Failure([Diagnostic(sp, AttrUnparsable)]);
    case NoTokens =>
      var parsed := FromRawArgs([]);
      r := if parsed.Failure? then Failure(parsed.error) else Success(Local(rest, Some(parsed.value)));
    case Tokens(raw) =>
      var parsed := FromRawArgs(raw);
      r := if parsed.Failure? then Failure(parsed.error) else Success(Local(rest, Some(parsed.value)));
  }

  // ---------------------------------------------------------------------------
  // Items
  // ---------------------------------------------------------------------------

  /** The kinds of module child the walker looks at. */
  predicate Processable(item: Item)
  {
    item.FnItem? || item.ModItem? || item.ImplItem?
  }

  function AttrsOf(item: Item): seq<Attribute>
  {
    match item
    case FnItem(_, attrs, _, _) => attrs
    case ModItem(_, attrs, _, _) => attrs
    case ImplItem(_, attrs, _) => attrs
    case OtherItem(_) => []
  }

  function WithAttrs(item: Item, attrs: seq<Attribute>): Item
  {
    match item
    case FnItem(span, _, sig, block) => FnItem(span, attrs, sig, block)
    case ModItem(span, _, ident, content) => ModItem(span, attrs, ident, content)
    case ImplItem(span, _, members) => ImplItem(span, attrs, members)
    case OtherItem(_) => item
  }

  /** A module child the walker leaves alone because the module's own filter excludes its name; impls are never filtered by name. */
  ghost predicate NameFiltered(chain: Chain, item: Item)
  {
    match item
    case FnItem(_, _, sig, _) => DirectlyExcluded(chain, sig.ident.name)
    case ModItem(_, _, ident, _) => DirectlyExcluded(chain, ident.name)
    case _ => false
  }

  /** `transform_item`: what becomes of `item` under `chain`. */
  ghost function TransformItemSpec(chain: Chain, item: Item): Result<Item, seq<Diagnostic>>
    decreases item, 1
  {
    match item
    case FnItem(span, attrs, sig, block) =>
      var b := TracedBlockFor(chain, sig, block);
      if b.None? then Failure([Diagnostic(span, Unimplemented)])
      else Success(FnItem(span, attrs, sig, b.value))
    case ModItem(span, attrs, ident, content) =>
      if content.External? then Failure([Diagnostic(span, Unimplemented)])
      else
        var children := ModChildren(chain, content.items);
        if children.Failure? then Failure(children.error)
        else Success(ModItem(span, attrs, ident, Inline(children.value)))
    case ImplItem(span, attrs, members) =>
      var ms := ImplMembers(chain, members);
      if ms.Failure? then Failure(ms.error) else Success(ImplItem(span, attrs, ms.value))
    case OtherItem(span) => Failure([Diagnostic(span, NotSupported)])
  }

  /**
   * One eligible, not filtered module child: its `trace` attribute is taken
   * out and it is transformed in the module's context extended by that
   * attribute.  (Transforming an item never reads the item's own attributes,
   * so taking the attribute out before or after is the same.)
   */
  ghost function ProcessChild(chain: Chain, child: Item): Result<Item, seq<Diagnostic>>
    decreases child, 2
  {
    match LocalAttrs(AttrsOf(child))
    case Failure(errs) => Failure(errs)
    case Success(local) =>
      match TransformItemSpec(CreateContext(chain, local.args), child)
      case Failure(errs) => Failure(errs)
      case Success(t) => Success(WithAttrs(t, local.rest))
  }

  /** One module child: kept when not eligible or filtered, else processed. */
  ghost function ModChild(chain: Chain, child: Item): Result<Item, seq<Diagnostic>>
    decreases child, 3
  {
    if !Processable(child) || NameFiltered(chain, child) then Success(child)
    else ProcessChild(chain, child)
  }

  /** The children of an inline module, in order; the first error ends the walk. */
  ghost function ModChildren(chain: Chain, items: seq<Item>): Result<seq<Item>, seq<Diagnostic>>
    decreases items, 0
  {
    if items == [] then Success([])
    else
      match ModChildren(chain, items[..|items| - 1])
      case Failure(errs) => Failure(errs)
      case Success(done) =>
        match ModChild(chain, items[|items| - 1])
        case Failure(errs) => Failure(errs)
        case Success(t) => Success(done + [t])
  }

  /** One member of an impl block. */
  ghost function ImplMemberResult(chain: Chain, m: ImplMember): Result<ImplMember, seq<Diagnostic>>
  {
    match m
    case OtherMember(_) => Success(m)
    case Method(attrs, sig, block) =>
      if DirectlyExcluded(chain, sig.ident.name) then Success(m)
      else
        match LocalAttrs(attrs)
        case Failure(errs) => Failure(errs)
        case Success(local) =>
          var b := TracedBlockFor(CreateContext(chain, local.args), sig, block);
          if b.None? then Failure([Diagnostic(sig.ident.span, Unimplemented)])
          else Success(Method(local.rest, sig, b.value))
  }

  /** The members of an impl block, in order; the first error ends the walk. */
  ghost function ImplMembers(chain: Chain, ms: seq<ImplMember>): Result<seq<ImplMember>, seq<Diagnostic>>
  {
    if ms == [] then Success([])
    else
      match ImplMembers(chain, ms[..|ms| - 1])
      case Failure(errs) => Failure(errs)
      case Success(done) =>
        match ImplMemberResult(chain, ms[|ms| - 1])
        case Failure(errs) => Failure(errs)
        case Success(t) => Success(done + [t])
  }

  /** `trace`: parse the invocation's arguments, then transform the item with them applied directly. */
  ghost function Expand(raw: seq<NestedMeta>, item: Item): Result<Item, seq<Diagnostic>>
  {
    match ParseArgs(raw)
    case Failure(errs) => Failure(errs)
    case Success(a) => TransformItemSpec([Directly(a)], item)
  }

  // ---------------------------------------------------------------------------
  // The walk, as the source performs it
  // ---------------------------------------------------------------------------

  /** Once a prefix of the children fails, the module fails with the same errors. */
  lemma {:induction false} ModChildrenAbort(chain: Chain, items: seq<Item>, k: nat)
    requires k <= |items| && ModChildren(chain, items[..k]).Failure?
    ensures ModChildren(chain, items) == ModChildren(chain, items[..k])
    decreases |items| - k
  {
    if k < |items| {
      assert items[..k + 1][..k] == items[..k];
      ModChildrenAbort(chain, items, k + 1);
    } else {
      assert items[..k] == items;
    }
  }

  /** Once a prefix of the members fails, the impl block fails with the same errors. */
  lemma {:induction false} ImplMembersAbort(chain: Chain, ms: seq<ImplMember>, k: nat)
    requires k <= |ms| && ImplMembers(chain, ms[..k]).Failure?
    ensures ImplMembers(chain, ms) == ImplMembers(chain, ms[..k])
    decreases |ms| - k
  {
    if k < |ms| {
      assert ms[..k + 1][..k] == ms[..k];
      ImplMembersAbort(chain, ms, k + 1);
    } else {
      assert ms[..k] == ms;
    }
  }

  /** `transform_item`: dispatch on the item kind; any other kind is not supported. */
  method TransformItem(chain: Chain, item: Item) returns (r: Result<Item, seq<Diagnostic>>)
    ensures r == TransformItemSpec(chain, item)
    decreases item, 1
  {
    match item
    case FnItem(_, _, _, _) => r := TransformFn(chain, item);
    case ModItem(_, _, _, _) => r := TransformMod(chain, item);
    case ImplItem(_, _, _) => r := TransformImpl(chain, item);
    case OtherItem(span) => r := Failure([Diagnostic(span, NotSupported)]);
  }

  /** `transform_fn`: replace the body by the traced block. */
  method TransformFn(chain: Chain, item: Item) returns (r: Result<Item, seq<Diagnostic>>)
    requires item.FnItem?
    ensures r == TransformItemSpec(chain, item)
    decreases item, 0
  {
    var block := ConstructTracedBlock(chain, item.sig, item.block);
    if block.None? {
      return Failure([Diagnostic(item.span, Unimplemented)]);
    }
    r := Success(item.(block := block.value));
  }

  /** One more child processed: its result is appended to those of the earlier children. */
  lemma ModChildrenStep(chain: Chain, children: seq<Item>, i: nat, done: seq<Item>, x: Item)
    requires i < |children| && ModChildren(chain, children[..i]) == Success(done)
    requires ModChild(chain, children[i]) == Success(x)
    ensures ModChildren(chain, children[..i + 1]) == Success(done + [x])
  {
    assert children[..i + 1][..i] == children[..i];
  }

  /** One more member processed: its result is appended to those of the earlier members. */
  lemma ImplMembersStep(chain: Chain, members: seq<ImplMember>, i: nat, done: seq<ImplMember>, x: ImplMember)
    requires i < |members| && ImplMembers(chain, members[..i]) == Success(done)
    requires ImplMemberResult(chain, members[i]) == Success(x)
    ensures ImplMembers(chain, members[..i + 1]) == Success(done + [x])
  {
    assert members[..i + 1][..i] == members[..i];
  }

  /** A child that fails after the earlier children succeeded fails the whole module with its errors. */
  lemma ModChildrenStop(chain: Chain, children: seq<Item>, i: nat, e: seq<Diagnostic>)
    requires i < |children| && ModChildren(chain, children[..i]).Success?
    requires ModChild(chain, children[i]) == Failure(e)
    ensures ModChildren(chain, children) == Failure(e)
  {
    assert children[..i + 1][..i] == children[..i];
    ModChildrenAbort(chain, children, i + 1);
  }

  /** A member that fails after the earlier members succeeded fails the whole impl block with its errors. */
  lemma ImplMembersStop(chain: Chain, members: seq<ImplMember>, i: nat, e: seq<Diagnostic>)
    requires i < |members| && ImplMembers(chain, members[..i]).Success?
    requires ImplMemberResult(chain, members[i]) == Failure(e)
    ensures ImplMembers(chain, members) == Failure(e)
  {
    assert members[..i + 1][..i] == members[..i];
    ImplMembersAbort(chain, members, i + 1);
  }

  /** Overwriting position `i` of a sequence that still agrees with the original from `i` on. */
  lemma UpdateAt<T>(s: seq<T>, orig: seq<T>, i: nat, x: T)
    requires i < |s| == |orig| && s[i..] == orig[i..]
    ensures |s[i := x]| == |orig| && s[i := x][i + 1..] == orig[i + 1..]
    ensures s[i := x][..i + 1] == s[..i] + [x]
  {
    assert s[i + 1..] == s[i..][1..];
  }

  /**
   * `transform_mod`: visit the eligible children in order, skip those the
   * module's own filter excludes by name, and rewrite the others in place.
   */
  method TransformMod(chain: Chain, item: Item) returns (r: Result<Item, seq<Diagnostic>>)
    requires item.ModItem?
    ensures r == TransformItemSpec(chain, item)
    decreases item, 0
  {
    if item.content.External? {
      return Failure([Diagnostic(item.span, Unimplemented)]);
    }
    ghost var children := item.content.items;
    var items := item.content.items;
    for i := 0 to |items|
      invariant |items| == |children|
      invariant items[i..] == children[i..]
      invariant ModChildren(chain, children[..i]) == Success(items[..i])
    {
      var child := items[i];
      assert child == items[i..][0] == children[i];
      var next := child;
      if Processable(child) {
        var skip := false;
        if child.FnItem? {
          skip := IsDirectlyExcluded(chain, child.sig.ident.name);
        } else if child.ModItem? {
          skip := IsDirectlyExcluded(chain, child.ident.name);
        }
        assert skip <==> NameFiltered(chain, child);
        if !skip {
          var local := ExtractLocalAttrs(AttrsOf(child));
          if local.Failure? {
            assert ModChild(chain, child) == Failure(local.error);
            ModChildrenStop(chain, children, i, local.error);
            return Failure(local.error);
          }
          var t := TransformItem(CreateContext(chain, local.value.args), child);
          if t.Failure? {
            assert ModChild(chain, child) == Failure(t.error);
            ModChildrenStop(chain, children, i, t.error);
            return Failure(t.error);
          }
          next := WithAttrs(t.value, local.value.rest);
        }
      }
      assert ModChild(chain, child) == Success(next);
      ModChildrenStep(chain, children, i, items[..i], next);
      UpdateAt(items, children, i, next);
      items := items[i := next];
    }
    assert children[..|children|] == children && items[..|items|] == items;
    r := Success(item.(content := Inline(items)));
  }

  /**
   * `transform_impl`: visit the methods in order, skip those the impl's own
   * filter excludes by name, and give the others a traced block built in the
   * impl's context extended by the method's own `trace` attribute.
   */
  method TransformImpl(chain: Chain, item: Item) returns (r: Result<Item, seq<Diagnostic>>)
    requires item.ImplItem?
    ensures r == TransformItemSpec(chain, item)
    decreases item, 0
  {
    ghost var members := item.members;
    var ms := item.members;
    for i := 0 to |ms|
      invariant |ms| == |members|
      invariant ms[i..] == members[i..]
      invariant ImplMembers(chain, members[..i]) == Success(ms[..i])
    {
      var m := ms[i];
      assert m == ms[i..][0] == members[i];
      var next := m;
      if m.Method? {
        var skip := IsDirectlyExcluded(chain, m.sig.ident.name);
        if !skip {
          var local := ExtractLocalAttrs(m.attrs);
          if local.Failure? {
            assert ImplMemberResult(chain, m) == Failure(local.error);
            ImplMembersStop(chain, members, i, local.error);
            return Failure(local.error);
          }
          var block := ConstructTracedBlock(CreateContext(chain, local.value.args), m.sig, m.block);
          if block.None? {
            assert ImplMemberResult(chain, m) == Failure([Diagnostic(m.sig.ident.span, Unimplemented)]);
            ImplMembersStop(chain, members, i, [Diagnostic(m.sig.ident.span, Unimplemented)]);
            return Failure([Diagnostic(m.sig.ident.span, Unimplemented)]);
          }
          next := Method(local.value.rest, m.sig, block.value);
        }
      }
      assert ImplMemberResult(chain, m) == Success(next);
      ImplMembersStep(chain, members, i, ms[..i], next);
      UpdateAt(ms, members, i, next);
      ms := ms[i := next];
    }
    assert members[..|members|] == members && ms[..|ms|] == ms;
    r := Success(item.(members := ms));
  }

  /** The `#[trace]` entry point: parse the arguments, then walk the item with them applied directly. */
  method Trace(raw: seq<NestedMeta>, item: Item) returns (r: Result<Item, seq<Diagnostic>>)
    ensures r == Expand(raw, item)
  {
    var parsed := FromRawArgs(raw);
    if parsed.Failure? {
      return Failure(parsed.error);
    }
    r := TransformItem([Directly(parsed.value)], item);
  }
}
