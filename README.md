# A verified model of the `#[trace]` attribute macro

`#[trace]` is a procedural attribute macro for Rust. Attached to a function,
an inline module or an `impl` block, it rewrites the body of every function
it reaches. The rewritten body logs the function's name and arguments on
entry, runs the original body in a closure, logs the returned value on exit,
and can pause for a line of standard input after each log line. The macro's
arguments configure this:

- `prefix_enter = ".."` and `prefix_exit = ".."` set the text printed before the name;
- `enable(a, b)` and `disable(a, b)` filter items and parameters by name;
- bare `pause` and `pretty` are flags;
- any other `name = "{fmt}"` overrides the formatting of one parameter (`res` means the return value).

Inside a module or impl, an item can carry its own nested `#[trace(..)]`. That
attribute is taken off the item, and its configuration is stacked on top of
the one inherited from the enclosing items.

The Dafny project models this expansion at the level of syntax trees:

| file | module | what it holds |
|---|---|---|
| `wrappers.dfy` | `Wrappers` | `Option` and `Result` |
| `syntax.dfy` | `Syntax` | the parts of the host syntax tree the macro inspects; the statements it generates |
| `diagnostics.dfy` | `Diagnostics` | every compile error and panic the macro can produce, as a kind plus a location |
| `args.dfy` | `Args` | argument parsing (`Args::from_raw_args`), prefixes and their concatenation, name filters |
| `args_properties.dfy` | `ArgsProperties` | what parsing accepts, rejects and reports |
| `context.dfy` | `Context` | `AttrApplication` (`Directly`/`Indirectly`), `demote`, `is_direct`, `create_context`, name exclusion |
| `arg_idents.dfy` | `ArgIdents` | `extract_arg_idents` / `process_pat`; the visible-first sort and the dedup of redacted names |
| `traced_block.dfy` | `TracedBlock` | `construct_traced_block`: the entry/exit format strings, the logged values, the generated body |
| `traced_block_properties.dfy` | `TracedBlockProperties` | nesting of prefixes, local overrides, the body's layout, worked examples |
| `walker.dfy` | `Walker` | `trace`, `transform_item`/`fn`/`mod`/`impl`, `extract_local_attrs` |
| `walker_properties.dfy` | `WalkerProperties` | what the walk does child by child, how errors abort it, what it never changes |

Each loop of the source is a Dafny method with a `for` loop. Its invariant ties
the state after `i` steps to a specification function of the first `i`
inputs, and its postcondition is equality with that function on the whole
input. These methods are `CollectPrefix`, `ListWords`, `FromRawArgs`,
`IsDirectlyExcluded`, `ProcessPat`, `ExtractArgIdents`, `TransformMod` and
`TransformImpl`. The last two rewrite the module's item list and the impl's
member list in place, one index at a time. The properties are then lemmas
about the specification functions.

Some of the code's behaviour is easy to misread. The model follows the code:

- The names listed in the argument log are sorted so that all visible names
  come first and every redacted name comes after them. The redacted names then
  collapse into a single `...`. For parameters `a, b, c, d` under
  `disable(b, c)`, the entry line is `a: {:?}`, `d: {:?}`, `...`
  (`TracedBlockProperties.RedactionExample`).
- The entry line carries one `>>> ` marker, followed by the concatenation of
  every enclosing `prefix_enter` (`TracedBlockProperties.NestedPrefixExample`).
- A module or impl stops at its first child that fails. It returns that
  child's errors only; errors of later children are not collected.
- Only the innermost, directly applied configuration decides which parameters
  are redacted and which format overrides apply. An enclosing module's
  `disable` list does not redact the parameters of functions nested in it.
- Inside a module, `enable`/`disable` select functions and sub-modules by
  name. `impl` blocks are never filtered by name.
- In a tuple pattern, only the elements before a `..` are logged.

## Model

| member | source | states |
|---|---|---|
| Args.CollectPrefix | src/args.rs:47-62 | collecting a list of prefixes yields exactly their texts concatenated in order, or no prefix when none has text |
| Args.ParseEntry | src/args.rs:83-251 | the per-argument parse agrees with the classification of one argument (`Classify`); every rejection carries at least one diagnostic, each about that argument alone |
| Args.ListWords | src/args.rs:160-207 | the `enable(..)`/`disable(..)` loop collects exactly the names of the bare-word entries, with one "not a word" diagnostic per other entry, in order |
| Args.FromRawArgs | src/args.rs:69-376 | the whole parse (classify, group, report duplicates and conflicts, assemble) equals the reference `ParseArgs` |
| Args.ReportsEmptyIff | src/args.rs:288-341 | no diagnostic is emitted exactly when no argument failed, no option appears twice, and `enable` and `disable` are not both given |
| Args.Assemble | src/args.rs:343-372 | the assembled configuration has no name filter exactly when neither `enable` nor `disable` was given |
| ArgsProperties.BareWordOnlyForFlags | src/args.rs:150-159 | a bare word is accepted exactly for `pause` and `pretty`, which become `true`; the other keywords report a shape error; any other name reports that a formatter needs a string |
| ArgsProperties.LiteralRejected | src/args.rs:247-250 | a bare literal argument is always rejected, at its own location |
| ArgsProperties.OtherNameIsFormatOverride | src/args.rs:229-238 | `name = "str"` with a non-keyword name is a format override of that name; with a non-string literal it is rejected at the literal; `res` is not a keyword |
| ArgsProperties.FilterListWordsOnly | src/args.rs:160-207 | `enable(..)`/`disable(..)` succeeds exactly when every entry is a bare word, and then carries exactly the set of those words |
| ArgsProperties.GroupFormatFirst | src/args.rs:272-281 | the first override given for a name is the one kept |
| ArgsProperties.GroupDuplicateFormatting | src/args.rs:272-281 | a name overridden n > 0 times files exactly n - 1 "duplicate formatting" diagnostics, one at each override after the first, in order |
| ArgsProperties.GroupErrorsEmpty | src/args.rs:263-285 | grouping files no error exactly when every argument parsed and no name is overridden twice |
| ArgsProperties.ParseArgsOkIff | src/args.rs:288-375 | parsing succeeds exactly when every argument parses, no option or override appears twice, and `enable` and `disable` are not both given |
| ArgsProperties.DuplicatesReportedPerOccurrence | src/args.rs:288-329 | an option given twice or more fails the parse, with one duplicate diagnostic per occurrence, in order, at that occurrence; an option given at most once gets none |
| ArgsProperties.DuplicateFormattingReported | src/args.rs:272-281 | a name given two or more format overrides fails the parse, with one "duplicate formatting" diagnostic at each override after the first, in order; a name overridden at most once gets none |
| ArgsProperties.ConflictReportedOnBothSides | src/args.rs:332-341 | `enable` and `disable` given once each fail the parse with exactly two conflict diagnostics, at the `enable` and at the `disable`; otherwise no conflict is reported |
| ArgsProperties.ReportsOfKind | src/args.rs:288-341 | duplicate and conflict diagnostics come only from their own checks, never from per-argument errors |
| ArgsProperties.ValueKept | src/args.rs:343-372 | on success, every accepted argument's value is the value of its option in the result |
| ArgsProperties.ParsedValues | src/args.rs:343-372 | on success: every argument parsed; each one's value is in the result; an absent option takes its default (no prefix, no filter, `pause`/`pretty` false); the override map has exactly the overridden names |
| ArgsProperties.CollectedNone | src/args.rs:47-62 | the collected prefix has no text exactly when none of the collected prefixes has text |
| ArgsProperties.CollectedAppend | src/args.rs:47-62 | collecting one more prefix appends its text to the collected text |
| ArgsProperties.EnterExitLabels | src/args.rs:30-62 | the entry label is `>>> ` and the exit label `<<< `, each followed by the texts of all collected prefixes in order (absent ones add nothing); one more prefix extends the label by its text; with no text the label is the bare marker |
| Context.Demote | src/lib.rs:484-490 | demotion always yields an indirect application with the same configuration, and leaves an indirect one unchanged |
| Context.IsDirect | src/lib.rs:492-498 | an application is direct exactly when demotion changes it |
| Context.CreateContext | src/lib.rs:381-388 | the new chain holds every inherited configuration, demoted and in order, plus the local one as the only direct entry, at the end, when there is one |
| Context.ContextDirectCount | src/lib.rs:381-388 | a created chain has exactly one direct entry when a local configuration was given, and none otherwise |
| Context.IsDirectlyExcluded | src/lib.rs:118-137 | the loop over the chain reports exclusion exactly when some direct entry's filter excludes the name |
| Context.ExclusionIsLocal | src/lib.rs:118-137 | under a created chain a name is excluded exactly when the local configuration exists and its own filter excludes it |
| Context.InheritedNeverExcludes | src/lib.rs:207-221 | with no local configuration, nothing is excluded, whatever the enclosing filters say |
| ArgIdents.ProcessPat | src/lib.rs:426-460 | the names a pattern binds, depth-first, each marked visible or redacted by the direct filter, are pushed after the existing leaves; an unsupported pattern panics |
| ArgIdents.ExtractArgIdents | src/lib.rs:462-475 | the extraction equals the marked names of the whole parameter list, or the panic when any input is unsupported |
| ArgIdents.PatNamesSupported | src/lib.rs:453-458 | a pattern's names are defined exactly when it is built only from names and tuples |
| ArgIdents.ArgNamesSupported | src/lib.rs:464-472 | a parameter list is handled exactly when every input is a receiver or a typed pattern of names and tuples |
| ArgIdents.ReceiverIgnored | src/lib.rs:466-467 | a `self` receiver contributes no name, wherever it stands |
| ArgIdents.TupleFlattening | src/lib.rs:453-457 | `(a, (b, c), .., rest)` yields a, b, c in that order, and the part after `..` is neither logged nor checked |
| ArgIdents.SortIsVisibleThenRedacted | src/lib.rs:275-279 | the stable sort puts the visible names first and the redacted ones after, each group in its original order |
| ArgIdents.SortPermutes | src/lib.rs:275-279 | the sort is a permutation of its input |
| ArgIdents.ArrangedShape | src/lib.rs:274-283 | after sort and dedup, the visible names come in declaration order, followed by one redaction marker exactly when some name was redacted |
| ArgIdents.ArrangedOrdered | src/lib.rs:274-283 | after sort and dedup, every visible name precedes every redaction marker, and at most one marker remains |
| TracedBlock.AnyPretty | src/lib.rs:287-291 | pretty printing is on exactly when some configuration in the chain asks for it |
| TracedBlock.AnyPause | src/lib.rs:358-366 | pausing is on exactly when some configuration in the chain asks for it |
| TracedBlock.DirectFormats | src/lib.rs:293-296 | the override map used is the one of the first direct entry, or none when there is no direct entry |
| TracedBlock.ConstructTracedBlock | src/lib.rs:268-379 | the constructed block is the reference traced block, or the panic when a parameter is unsupported |
| TracedBlockProperties.EntryFormatLines | src/lib.rs:310-333 | the entry format is `>>> `, the collected enter prefixes, the name, then one tab-indented line per listed parameter |
| TracedBlockProperties.NameLine | src/lib.rs:287-327 | for an item nested in enclosing configurations, a visible parameter's line is `name: ` plus the item's own override for it (never an inherited one), else `{:#?}` when an enclosing or the item's own configuration sets `pretty`, else `{:?}` |
| TracedBlockProperties.PrettyInContext | src/lib.rs:287-291 | under a created chain, pretty printing is on exactly when an enclosing or the item's own configuration sets `pretty` |
| TracedBlockProperties.EnterPrefixNests | src/lib.rs:298-308 | entering a nested item appends its own `prefix_enter` to the inherited prefix text |
| TracedBlockProperties.ExitPrefixNests | src/lib.rs:298-308 | leaving a nested item appends its own `prefix_exit` to the inherited prefix text |
| TracedBlockProperties.NestedPrefixExample | src/lib.rs:298-333 | a method with `prefix_enter = "<method>::"` inside an impl with `prefix_enter = "A::"` logs `>>> A::<method>::f` |
| TracedBlockProperties.OverridesAreLocal | src/lib.rs:293-296 | a nested item uses its own format overrides and never inherits those of an enclosing item |
| TracedBlockProperties.ExitFormatRes | src/lib.rs:340-356 | the exit format is `<<< `, the collected exit prefixes, the name, then `res: ` with the local `res` override or the default format |
| TracedBlockProperties.LoggedValuesAreShown | src/lib.rs:335-338 | the values passed to the entry log are exactly the non-redacted parameters, in declaration order |
| TracedBlockProperties.BodyPlan | src/lib.rs:358-378 | the body logs entry, optionally pauses, binds the closure around the original body, logs exit, optionally pauses, and yields the result |
| TracedBlockProperties.BodyPauses | src/lib.rs:358-378 | the body pauses twice when some configuration asks for it, and never otherwise |
| TracedBlockProperties.RedactionExample | src/lib.rs:268-356 | `f(a, b, c, d)` under `disable(b, c)` logs `a` and `d` only, with one `...` line after them |
| Walker.TracePosition | src/lib.rs:398-400 | the position found is that of the first `trace` attribute, or none when there is no such attribute |
| Walker.LocalArgs | src/lib.rs:405-415 | a nested attribute's arguments parse as the argument list they carry; a bare `#[trace]` counts as an empty list |
| Walker.ExtractLocalAttrs | src/lib.rs:390-420 | taking the first `trace` attribute off an item and parsing its arguments agrees with `LocalAttrs` |
| Walker.ModChildrenAbort | src/lib.rs:139-161 | once a prefix of a module's children fails, the whole module fails with those errors |
| Walker.ImplMembersAbort | src/lib.rs:223-224 | once a prefix of an impl's members fails, the whole impl fails with those errors |
| Walker.TransformItem | src/lib.rs:60-70 | dispatching on the item kind agrees with the reference transformation; unsupported kinds report "not supported" at the item |
| Walker.TransformFn | src/lib.rs:82-96 | a function's body is replaced by the traced block built under the current chain |
| Walker.TransformMod | src/lib.rs:98-195 | rewriting a module's items in place agrees with the reference: filtered or unprocessable children unchanged, others rewritten under their own context, first error aborts; a file module panics |
| Walker.TransformImpl | src/lib.rs:197-236 | rewriting an impl's members in place agrees with the reference: filtered methods and non-methods unchanged, other methods traced under their own context |
| Walker.Trace | src/lib.rs:23-58 | the macro's entry point agrees with the reference expansion: argument errors, else the transformation under the parsed configuration applied directly |
| WalkerProperties.ModChildrenPointwise | src/lib.rs:113-161 | a module's rewrite succeeds exactly when every child's does; then each child is either left as is (not processable, or filtered out by name) or replaced by its own transformation |
| WalkerProperties.ModChildrenFirstError | src/lib.rs:139-161 | a failing module reports the errors of its first failing child, all earlier children having succeeded |
| WalkerProperties.NestedModuleNotFiltered | src/lib.rs:118-161 | a sub-module with no `trace` attribute is walked under a chain with no direct entry, so none of its children is filtered by name |
| WalkerProperties.ImplMembersPointwise | src/lib.rs:203-233 | an impl's rewrite succeeds exactly when every member's does; excluded methods and non-methods are unchanged, other methods lose their `trace` attribute and get the traced block |
| WalkerProperties.WalkKeepsSignatures | src/lib.rs:60-236 | a successful walk keeps every item, in place, with the same kind, name and signature; only attributes and function bodies change |
| WalkerProperties.EmptyArgumentList | src/args.rs:343-372 | an empty argument list yields the default configuration |
| WalkerProperties.BareNestedTrace | src/lib.rs:409-410 | as written, a nested bare `#[trace]` makes the macro panic on the length subtraction; the corrected reading gives the default configuration |
| WalkerProperties.LocalAttrsTakesFirst | src/lib.rs:390-420 | without a `trace` attribute nothing changes; otherwise exactly the first one is removed and the other attributes keep their order |
| WalkerProperties.ExpandErrors | src/lib.rs:23-70 | argument errors are reported as they are; an unsupported item reports "not supported"; a successful expansion keeps the item's signatures |

## Left out

- Token streams, spans and re-parsing are abstract. Spans are plain numbers, and an attribute's tokens are either absent, a parsed argument list, or a parse error at a location. So `TokenStream::from_str(..).unwrap()` and the `syn` parse of the stripped text are one error kind (`AttrUnparsable`).
- The top-level parse steps that happen before the macro logic are not modelled. These are `parse_macro_input!` on the macro's arguments and the "expected one of: `fn`, `impl`, `mod`" error for input that is not an item at all. The model starts from a parsed argument list and a parsed item.
- The generated code is a list of statement markers (log, pause, closure binding, result), not Rust tokens. What it does at run time is outside the model: the logger, the stdin read, the closure's semantics.
- The `println!` debugging output in `transform_mod`, `transform_impl`, `construct_traced_block` and `extract_local_attrs` is not modelled. It has no effect on the expansion.
- Panics (`unimplemented!()` for `mod m;` and unsupported parameters, and the length underflow) are diagnostics instead of aborts. The `assert!` that a module has either content or a `;` holds by construction of `ModContent`.
- Walker: the walk returns the rewritten item in place of mutating the caller's tree. An error discards the whole expansion, so the partially mutated tree is never observable. Within a module or impl, the list of children is still rewritten in place, one index at a time.
- The `Deref` impl of `AttrApplication` (src/lib.rs:501-510) is plain field access, `.args` here.
- The `HashSet`/`HashMap` of names and overrides are Dafny `set`/`map`. Their iteration order never shows in the output.
- Walker.ExtractLocalAttrs: follows the corrected `Walker.LocalArgs`, not the as-written `Walker.LocalArgsAsWritten`. The bare nested `#[trace]` case is listed under Findings.
- Args.Assemble: its own contract states only the filter. The other fields are stated by `ArgsProperties.ParsedValues` and `ArgsProperties.ValueKept`.

## Findings

| source | as written | input that shows it | evidently intended | confidence | as-written member | corrected member |
|---|---|---|---|---|---|---|
| src/lib.rs:409-410 | the nested attribute's token text has its first and last characters cut off with `str.len() - 1` | an item inside a traced module carrying a bare `#[trace]`: the token text is empty, and `0 - 1` underflows, so the macro panics | a bare nested `#[trace]` means an empty argument list, as a bare `#[trace]` does on the outer item (default configuration) | not executed | Walker.LocalArgsAsWritten (shown by WalkerProperties.BareNestedTrace) | Walker.LocalArgs |
