/**
 * The replacement body of a traced function (src/lib.rs: `construct_traced_block`):
 * the entry and exit format strings and the statement plan that wraps the
 * original body.
 */
module TracedBlock {
  import opened Wrappers
  import opened Syntax
  import opened Args
  import opened Context
  import opened ArgIdents

  // ---------------------------------------------------------------------------
  // What the chain contributes
  // ---------------------------------------------------------------------------

  /** Whether any configuration in the chain, inherited or direct, asks for pretty printing. */
  function AnyPretty(chain: Chain): (b: bool)
    ensures b <==> exists i :: 0 <= i < |chain| && chain[i].args.pretty
  {
    if chain == [] then false
    else if chain[0].args.pretty then true
    else
      var rest := AnyPretty(chain[1..]);
      assert forall i :: 1 <= i < |chain| ==> chain[i] == chain[1..][i - 1];
      rest
  }

  /** Whether any configuration in the chain, inherited or direct, asks for a pause. */
  function AnyPause(chain: Chain): (b: bool)
    ensures b <==> exists i :: 0 <= i < |chain| && chain[i].args.pause
  {
    if chain == [] then false
    else if chain[0].args.pause then true
    else
      var rest := AnyPause(chain[1..]);
      assert forall i :: 1 <= i < |chain| ==> chain[i] == chain[1..][i - 1];
      rest
  }

  /** The format overrides of the first directly applied configuration in the chain, if there is one. */
  function DirectFormats(chain: Chain): (r: Option<map<string, string>>)
    ensures r.None? <==> forall i :: 0 <= i < |chain| ==> !chain[i].Directly?
    ensures r.Some? ==> exists i :: 0 <= i < |chain| && chain[i].Directly? && r.value == chain[i].args.argsFormat
                          && forall j :: 0 <= j < i ==> !chain[j].Directly?
  {
    if chain == [] then None
    else if IsDirect(chain[0]) then Some(chain[0].args.argsFormat)
    else
      var rest := DirectFormats(chain[1..]);
      assert forall i :: 1 <= i < |chain| ==> chain[i] == chain[1..][i - 1];
      if rest.Some? then
        ghost var k :| 0 <= k < |chain| - 1 && chain[1..][k].Directly? && rest.value == chain[1..][k].args.argsFormat
                       && forall j :: 0 <= j < k ==> !chain[1..][j].Directly?;
        assert chain[k + 1].Directly? && forall j :: 0 <= j < k + 1 ==> !chain[j].Directly?;
        rest
      else rest
  }

  /** The entry prefixes of the chain, in chain order. */
  function EnterPrefixes(chain: Chain): (ps: seq<Prefix>)
    ensures |ps| == |chain| && forall i :: 0 <= i < |chain| ==> ps[i] == chain[i].args.prefixEnter
  {
    seq(|chain|, i requires 0 <= i < |chain| => chain[i].args.prefixEnter)
  }

  /** The exit prefixes of the chain, in chain order. */
  function ExitPrefixes(chain: Chain): (ps: seq<Prefix>)
    ensures |ps| == |chain| && forall i :: 0 <= i < |chain| ==> ps[i] == chain[i].args.prefixExit
  {
    seq(|chain|, i requires 0 <= i < |chain| => chain[i].args.prefixExit)
  }

  // ---------------------------------------------------------------------------
  // Format strings
  // ---------------------------------------------------------------------------

  /** The debug template, `{:?}`, or `{:#?}` when pretty printing is on. */
  function DefaultTemplate(pretty: bool): string
  {
    "{:" + (if pretty then "#" else "") + "?}"
  }

  /** One line of the entry record: `...` for the redacted names, else `name: template`. */
  function LeafLine(leaf: Leaf, formats: Option<map<string, string>>, pretty: bool): string
  {
    match leaf
    case None => "..."
    case Some(name) =>
      if formats.Some? && name in formats.value then name + ": " + formats.value[name]
      else name + ": " + DefaultTemplate(pretty)
  }

  function Lines(leaves: seq<Leaf>, formats: Option<map<string, string>>, pretty: bool): (r: seq<string>)
    ensures |r| == |leaves|
  {
    seq(|leaves|, i requires 0 <= i < |leaves| => LeafLine(leaves[i], formats, pretty))
  }

  /** The strings of `ss` with `sep` between each two neighbours. */
  function Join(ss: seq<string>, sep: string): string
  {
    if |ss| == 0 then ""
    else if |ss| == 1 then ss[0]
    else Join(ss[..|ss| - 1], sep) + sep + ss[|ss| - 1]
  }

  const LineSep: string := "\n\t"
  const ReturnVar: string := "res"

  /** The entry format: prefixes, function name, then one tab-indented line per leaf. */
  function EntryFormat(chain: Chain, name: string, leaves: seq<Leaf>): string
  {
    var lines := Join(Lines(leaves, DirectFormats(chain), AnyPretty(chain)), LineSep);
    Enter(Collected(EnterPrefixes(chain))) + name + (if leaves == [] then "" else LineSep) + lines
  }

  /** The exit format: prefixes, function name, then the `res` line. */
  function ExitFormat(chain: Chain, name: string): string
  {
    var formats := DirectFormats(chain);
    var template := if formats.Some? && ReturnVar in formats.value then formats.value[ReturnVar]
                    else DefaultTemplate(AnyPretty(chain));
    Exit(Collected(ExitPrefixes(chain))) + name + LineSep + ReturnVar + ": " + template
  }

  /** The arguments of the entry log: the visible names (`filter_map`). */
  function LoggedValues(leaves: seq<Leaf>): (r: seq<LogValue>)
    ensures |r| == |Visible(leaves)|
  {
    var v := Visible(leaves);
    seq(|v|, i requires 0 <= i < |v| => ArgValue(v[i].value))
  }

  // ---------------------------------------------------------------------------
  // The body plan
  // ---------------------------------------------------------------------------

  function PauseStmts(chain: Chain): seq<Stmt>
  {
    if AnyPause(chain) then [PauseForInput] else []
  }

  /** Entry log, optional pause, the original body run once in a closure, exit log, optional pause, the result. */
  function TracedBody(chain: Chain, name: string, leaves: seq<Leaf>, original: Block): Block
  {
    Block([LogTrace(EntryFormat(chain, name, leaves), LoggedValues(leaves))]
          + PauseStmts(chain)
          + [BindClosureResult(original), LogTrace(ExitFormat(chain, name), [ResultValue])]
          + PauseStmts(chain)
          + [ReturnResult])
  }

  /** What `construct_traced_block` yields; `None` when the parameter list makes the macro panic. */
  ghost function TracedBlockFor(chain: Chain, sig: Signature, original: Block): Option<Block>
  {
    var leaves := ArgLeaves(chain, sig.inputs);
    if leaves.None? then None
    else Some(TracedBody(chain, sig.ident.name, Arranged(leaves.value), original))
  }

  /** `construct_traced_block`. */
  method ConstructTracedBlock(chain: Chain, sig: Signature, original: Block) returns (r: Option<Block>)
    ensures r == TracedBlockFor(chain, sig, original)
  {
    var extracted := ExtractArgIdents(chain, sig.inputs);
    if extracted.None? {
      return None;
    }
    var leaves := Arranged(extracted.value);
    var pretty := AnyPretty(chain);
    var formats := DirectFormats(chain);
    var enter := CollectPrefix(EnterPrefixes(chain));
    var exit := CollectPrefix(ExitPrefixes(chain));
    var lines := Join(Lines(leaves, formats, pretty), LineSep);
    var entering := Enter(enter) + sig.ident.name + (if leaves == [] then "" else LineSep) + lines;
    var template := if formats.Some? && ReturnVar in formats.value then formats.value[ReturnVar]
                    else DefaultTemplate(pretty);
    var exiting := Exit(exit) + sig.ident.name + LineSep + ReturnVar + ": " + template;
    var pause := if AnyPause(chain) then [PauseForInput] else [];
    r := Some(Block([LogTrace(entering, LoggedValues(leaves))] + pause
                    + [BindClosureResult(original), LogTrace(exiting, [ResultValue])] + pause
                    + [ReturnResult]));
  }
}
