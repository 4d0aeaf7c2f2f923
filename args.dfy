/**
 * The configuration of one `#[trace(...)]` attachment and its parser
 * (src/args.rs).
 */
module Args {
  import opened Wrappers
  import opened Syntax
  import opened Diagnostics

  // ---------------------------------------------------------------------------
  // Prefixes
  // ---------------------------------------------------------------------------

  /** A label fragment printed before the function name; `None` when not given. */
  datatype Prefix = Prefix(text: Option<string>)

  const DefaultEnter: string := ">>>"
  const DefaultExit: string := "<<<"

  /** The fragment's text, or the empty string when absent. */
  function Text(p: Prefix): string
  {
    if p.text.Some? then p.text.value else ""
  }

  /** The entry label: the entry marker, a space, then the fragment. */
  function Enter(p: Prefix): string
  {
    DefaultEnter + " " + Text(p)
  }

  /** The exit label: the exit marker, a space, then the fragment. */
  function Exit(p: Prefix): string
  {
    DefaultExit + " " + Text(p)
  }

  /** The present fragments of `ps`, in order. */
  function Fragments(ps: seq<Prefix>): (r: seq<string>)
    ensures |r| <= |ps|
  {
    if ps == [] then []
    else
      var last := ps[|ps| - 1];
      Fragments(ps[..|ps| - 1]) + (if last.text.Some? then [last.text.value] else [])
  }

  /** The strings of `ss` glued together in order, with nothing between them. */
  function Concat(ss: seq<string>): string
  {
    if ss == [] then "" else Concat(ss[..|ss| - 1]) + ss[|ss| - 1]
  }

  /** What collecting a sequence of prefixes into one prefix yields. */
  function Collected(ps: seq<Prefix>): Prefix
  {
    var segments := Fragments(ps);
    if segments == [] then Prefix(None) else Prefix(Some(Concat(segments)))
  }

  /** `FromIterator<&Prefix> for Prefix`: gather the present fragments, then join them. */
  method CollectPrefix(ps: seq<Prefix>) returns (r: Prefix)
    ensures r == Collected(ps)
  {
    var segments: seq<string> := [];
    for i := 0 to |ps|
      invariant segments == Fragments(ps[..i])
    {
      assert ps[..i + 1][..i] == ps[..i];
      if ps[i].text.Some? {
        segments := segments + [ps[i].text.value];
      }
    }
    assert ps[..|ps|] == ps;
    r := if segments == [] then Prefix(None) else Prefix(Some(Concat(segments)));
  }

  // ---------------------------------------------------------------------------
  // The configuration value
  // ---------------------------------------------------------------------------

  /** Which parameters (or items) a configuration lets through. */
  datatype Filter =
    | NoFilter
    | Enable(names: set<string>)
    | Disable(names: set<string>)

  /** True when `f` leaves `name` out: not listed by `enable`, or listed by `disable`. */
  predicate Excludes(f: Filter, name: string)
  {
    match f
    case NoFilter => false
    case Enable(names) => name !in names
    case Disable(names) => name in names
  }

  /** One parsed `#[trace(...)]` attachment. */
  datatype Args = Args(
    prefixEnter: Prefix,
    prefixExit: Prefix,
    filter: Filter,
    pause: bool,
    pretty: bool,
    argsFormat: map<string, string>)

  const DefaultPause: bool := false
  const DefaultPretty: bool := false

  // ---------------------------------------------------------------------------
  // Classifying one raw argument
  // ---------------------------------------------------------------------------

  /** One accepted raw argument, with the span of the whole argument. */
  datatype Arg =
    | PrefixEnterArg(span: Span, text: string)
    | PrefixExitArg(span: Span, text: string)
    | EnableArg(span: Span, names: set<string>)
    | DisableArg(span: Span, names: set<string>)
    | PauseArg(span: Span, flag: bool)
    | PrettyArg(span: Span, flag: bool)
    | FormatArg(span: Span, ident: Ident, format: string)

  /** The outcome of classifying one raw argument. */
  type Outcome = Result<Arg, seq<Diagnostic>>

  /** The keyword an accepted argument belongs to; `None` for a format override. */
  function KeyOfArg(a: Arg): Option<Key>
  {
    match a
    case PrefixEnterArg(_, _) => Some(PrefixEnterKey)
    case PrefixExitArg(_, _) => Some(PrefixExitKey)
    case EnableArg(_, _) => Some(EnableKey)
    case DisableArg(_, _) => Some(DisableKey)
    case PauseArg(_, _) => Some(PauseKey)
    case PrettyArg(_, _) => Some(PrettyKey)
    case FormatArg(_, _, _) => None
  }

  predicate IsWord(n: NestedMeta)
  {
    n.MetaItem? && n.meta.Word?
  }

  /** The names of the bare words among `ns`. */
  function WordsIn(ns: seq<NestedMeta>): set<string>
  {
    if ns == [] then {}
    else
      var last := ns[|ns| - 1];
      WordsIn(ns[..|ns| - 1]) + (if IsWord(last) then {last.meta.ident.name} else {})
  }

  /** One `NotWord` diagnostic for each entry of `ns` that is not a bare word, in order. */
  function NonWordErrors(key: Key, ns: seq<NestedMeta>): (r: seq<Diagnostic>)
    ensures forall d :: d in r ==> d.kind == NotWord(key)
  {
    if ns == [] then []
    else
      var last := ns[|ns| - 1];
      NonWordErrors(key, ns[..|ns| - 1])
      + (if IsWord(last) then [] else [Diagnostic(last.span, NotWord(key))])
  }

  /** Diagnostics that can come out of classifying a single raw argument. */
  predicate IsEntryError(d: Diagnostic)
  {
    !d.kind.DuplicateFormatting? && !d.kind.Duplicate? && !d.kind.Conflict?
  }

  /**
   * What the parser makes of one raw argument: the value it stands for,
   * or the shape errors it carries (src/args.rs:83-251).
   */
  function Classify(nm: NestedMeta): (r: Outcome)
    ensures r.Failure? ==> r.error != [] && forall d :: d in r.error ==> IsEntryError(d)
  {
    match nm
    case Literal(sp, _) => Failure([Diagnostic(sp, LiteralNotAllowed)])
    case MetaItem(sp, meta) =>
      var key := KeywordOf(meta.ident.name);
      var typeError :=
        [Diagnostic(meta.ident.span, if key.Some? then ShapeError(key.value) else FormatterNeedsString)];
      match meta
      case Word(_) =>
        if key == Some(PauseKey) then Success(PauseArg(sp, true))
        else if key == Some(PrettyKey) then Success(PrettyArg(sp, true))
        else Failure(typeError)
      case List(_, nested) =>
        if key == Some(EnableKey) || key == Some(DisableKey) then
          var errors := NonWordErrors(key.value, nested);
          if errors == [] then
            Success(if key == Some(EnableKey) then EnableArg(sp, WordsIn(nested))
                    else DisableArg(sp, WordsIn(nested)))
          else Failure(errors)
        else Failure(typeError)
      case NameValue(ident, lit) =>
        if key == Some(PrefixEnterKey) || key == Some(PrefixExitKey) then
          match lit
          case Str(_, s) =>
            Success(if key == Some(PrefixEnterKey) then PrefixEnterArg(sp, s) else PrefixExitArg(sp, s))
          case NonStr(lsp) => Failure([Diagnostic(lsp, LitNotString(key.value))])
        else if key.None? then
          match lit
          case Str(_, s) => Success(FormatArg(sp, ident, s))
          case NonStr(lsp) => Failure([Diagnostic(lsp, FormatterLitNotString)])
        else Failure(typeError)
  }

  /**
   * The per-argument step of `from_raw_args`. Only `enable(...)`/`disable(...)`
   * run a loop (`ListWords`); every other shape is decided by `Classify` alone.
   */
  method ParseEntry(nm: NestedMeta) returns (r: Outcome)
    ensures r == Classify(nm)
  {
    if nm.MetaItem? && nm.meta.List? && KeywordOf(nm.meta.ident.name) in {Some(EnableKey), Some(DisableKey)} {
      var key := KeywordOf(nm.meta.ident.name).value;
      var idents, errors := ListWords(key, nm.meta.nested);
      if errors == [] {
        r := Success(if key == EnableKey then EnableArg(nm.span, idents) else DisableArg(nm.span, idents));
      } else {
        r := Failure(errors);
      }
    } else {
      r := Classify(nm);
    }
  }

  /** The for-each loop over the entries of `enable(...)` / `disable(...)`: the words it collects and the entries it rejects. */
  method ListWords(key: Key, nested: seq<NestedMeta>) returns (idents: set<string>, errors: seq<Diagnostic>)
    ensures idents == WordsIn(nested) && errors == NonWordErrors(key, nested)
  {
    idents := {};
    errors := [];
    for i := 0 to |nested|
      invariant idents == WordsIn(nested[..i])
      invariant errors == NonWordErrors(key, nested[..i])
    {
      assert nested[..i + 1][..i] == nested[..i];
      match nested[i]
      case MetaItem(_, Word(word)) =>
        idents := idents + {word.name};
      case _ =>
        errors := errors + [Diagnostic(nested[i].span, NotWord(key))];
    }
    assert nested[..|nested|] == nested;
  }

  // ---------------------------------------------------------------------------
  // Grouping the classified arguments
  // ---------------------------------------------------------------------------

  /** The six per-option lists, the format map and the error list of `from_raw_args`. */
  datatype Groups = Groups(
    enters: seq<(Span, string)>,
    exits: seq<(Span, string)>,
    enables: seq<(Span, set<string>)>,
    disables: seq<(Span, set<string>)>,
    pauses: seq<(Span, bool)>,
    pretties: seq<(Span, bool)>,
    formats: map<string, string>,
    errors: seq<Diagnostic>)

  const NoGroups: Groups := Groups([], [], [], [], [], [], map[], [])

  /** Files one outcome: values into their option's list, errors into the error list. */
  function Group(g: Groups, o: Outcome): Groups
  {
    match o
    case Failure(es) => g.(errors := g.errors + es)
    case Success(arg) =>
      match arg
      case PrefixEnterArg(sp, s) => g.(enters := g.enters + [(sp, s)])
      case PrefixExitArg(sp, s) => g.(exits := g.exits + [(sp, s)])
      case EnableArg(sp, names) => g.(enables := g.enables + [(sp, names)])
      case DisableArg(sp, names) => g.(disables := g.disables + [(sp, names)])
      case PauseArg(sp, b) => g.(pauses := g.pauses + [(sp, b)])
      case PrettyArg(sp, b) => g.(pretties := g.pretties + [(sp, b)])
      case FormatArg(sp, ident, format) =>
        if ident.name !in g.formats then g.(formats := g.formats[ident.name := format])
        else g.(errors := g.errors + [Diagnostic(sp, DuplicateFormatting(ident.name))])
  }

  /** The groups after filing every outcome of `os`, left to right. */
  function GroupAll(os: seq<Outcome>): Groups
  {
    if os == [] then NoGroups else Group(GroupAll(os[..|os| - 1]), os[|os| - 1])
  }

  function Spans<T>(occ: seq<(Span, T)>): (r: seq<Span>)
    ensures |r| == |occ|
  {
    seq(|occ|, i requires 0 <= i < |occ| => occ[i].0)
  }

  /** Where option `k` occurred, as filed in `g`. */
  function OptionSpans(g: Groups, k: Key): seq<Span>
  {
    match k
    case PrefixEnterKey => Spans(g.enters)
    case PrefixExitKey => Spans(g.exits)
    case EnableKey => Spans(g.enables)
    case DisableKey => Spans(g.disables)
    case PauseKey => Spans(g.pauses)
    case PrettyKey => Spans(g.pretties)
  }

  /** The order in which `from_raw_args` checks the options for duplicates. */
  const AllKeys: seq<Key> := [PrefixEnterKey, PrefixExitKey, EnableKey, DisableKey, PauseKey, PrettyKey]

  /** One `Duplicate` diagnostic per occurrence when there are two or more occurrences. */
  function DuplicateReports(spans: seq<Span>, key: Key): (r: seq<Diagnostic>)
    ensures |r| == if |spans| >= 2 then |spans| else 0
  {
    if |spans| >= 2 then seq(|spans|, i requires 0 <= i < |spans| => Diagnostic(spans[i], Duplicate(key)))
    else []
  }

  /** The duplicate reports for the options `ks`, checked in that order. */
  function DuplicateReportsFor(g: Groups, ks: seq<Key>): seq<Diagnostic>
  {
    if ks == [] then []
    else DuplicateReportsFor(g, ks[..|ks| - 1]) + DuplicateReports(OptionSpans(g, ks[|ks| - 1]), ks[|ks| - 1])
  }

  /** The two diagnostics for an `enable` and a `disable` given together once each. */
  function ConflictReports(g: Groups): seq<Diagnostic>
  {
    if |g.enables| == 1 && |g.disables| == 1 then
      [Diagnostic(g.enables[0].0, Conflict), Diagnostic(g.disables[0].0, Conflict)]
    else []
  }

  /** Every diagnostic `from_raw_args` returns, in the order it reports them. */
  function Reports(g: Groups): seq<Diagnostic>
  {
    g.errors + DuplicateReportsFor(g, AllKeys) + ConflictReports(g)
  }

  lemma {:induction false} DuplicateReportsForEmpty(g: Groups, ks: seq<Key>)
    ensures DuplicateReportsFor(g, ks) == [] <==> forall i :: 0 <= i < |ks| ==> |OptionSpans(g, ks[i])| <= 1
  {
    if ks != [] {
      var init := ks[..|ks| - 1];
      DuplicateReportsForEmpty(g, init);
      assert forall i :: 0 <= i < |init| ==> init[i] == ks[i];
    }
  }

  /** No report at all means: nothing filed as an error, no option twice, and no conflict. */
  lemma ReportsEmptyIff(g: Groups)
    ensures Reports(g) == [] <==>
      && g.errors == []
      && (forall k :: |OptionSpans(g, k)| <= 1)
      && !(|g.enables| == 1 && |g.disables| == 1)
  {
    DuplicateReportsForEmpty(g, AllKeys);
    var few := forall k :: |OptionSpans(g, k)| <= 1;
    assert few <==> forall i :: 0 <= i < |AllKeys| ==> |OptionSpans(g, AllKeys[i])| <= 1 by {
      if forall i :: 0 <= i < |AllKeys| ==> |OptionSpans(g, AllKeys[i])| <= 1 {
        forall k ensures |OptionSpans(g, k)| <= 1 {
          match k
          case PrefixEnterKey => assert AllKeys[0] == k;
          case PrefixExitKey => assert AllKeys[1] == k;
          case EnableKey => assert AllKeys[2] == k;
          case DisableKey => assert AllKeys[3] == k;
          case PauseKey => assert AllKeys[4] == k;
          case PrettyKey => assert AllKeys[5] == k;
        }
      }
    }
  }

  /** The configuration of an error-free grouping: first value of each option, or its default. */
  function Assemble(g: Groups): (a: Args)
    requires Reports(g) == []
    ensures a.filter.NoFilter? <==> g.enables == [] && g.disables == []
  {
    ReportsEmptyIff(g);
    assert |OptionSpans(g, EnableKey)| <= 1 && |OptionSpans(g, DisableKey)| <= 1;
    var filter :=
      if g.enables != [] && g.disables != [] then assert false; NoFilter
      else if g.enables != [] then Enable(g.enables[0].1)
      else if g.disables != [] then Disable(g.disables[0].1)
      else NoFilter;
    Args(
      if g.enters != [] then Prefix(Some(g.enters[0].1)) else Prefix(None),
      if g.exits != [] then Prefix(Some(g.exits[0].1)) else Prefix(None),
      filter,
      if g.pauses != [] then g.pauses[0].1 else DefaultPause,
      if g.pretties != [] then g.pretties[0].1 else DefaultPretty,
      g.formats)
  }

  function Finish(g: Groups): Result<Args, seq<Diagnostic>>
  {
    if Reports(g) == [] then Success(Assemble(g)) else Failure(Reports(g))
  }

  function Classified(raw: seq<NestedMeta>): (os: seq<Outcome>)
    ensures |os| == |raw|
    ensures forall i :: 0 <= i < |raw| ==> os[i] == Classify(raw[i])
  {
    seq(|raw|, i requires 0 <= i < |raw| => Classify(raw[i]))
  }

  /** What `Args::from_raw_args` returns for the raw arguments `raw`. */
  function ParseArgs(raw: seq<NestedMeta>): Result<Args, seq<Diagnostic>>
  {
    Finish(GroupAll(Classified(raw)))
  }

  /** One step of the filing loop: filing `os[i]` into the groups of the first `i` outcomes. */
  lemma FiledStep(os: seq<Outcome>, i: nat, before: Groups, after: Groups)
    requires i < |os| && before == GroupAll(os[..i]) && after == Group(before, os[i])
    ensures after == GroupAll(os[..i + 1])
  {
    assert os[..i + 1][..i] == os[..i];
  }

  /** The loop body of `from_raw_args`: push a value onto its option's vector, or the errors onto the error vector. */
  method File(g: Groups, outcome: Outcome) returns (h: Groups)
    ensures h == Group(g, outcome)
  {
    h := g;
    match outcome {
      case Failure(es) =>
        h := h.(errors := h.errors + es);
      case Success(arg) =>
        match arg
        case PrefixEnterArg(sp, s) =>
          h := h.(enters := h.enters + [(sp, s)]);
        case PrefixExitArg(sp, s) =>
          h := h.(exits := h.exits + [(sp, s)]);
        case EnableArg(sp, names) =>
          h := h.(enables := h.enables + [(sp, names)]);
        case DisableArg(sp, names) =>
          h := h.(disables := h.disables + [(sp, names)]);
        case PauseArg(sp, b) =>
          h := h.(pauses := h.pauses + [(sp, b)]);
        case PrettyArg(sp, b) =>
          h := h.(pretties := h.pretties + [(sp, b)]);
        case FormatArg(sp, ident, format) =>
          if ident.name !in h.formats {
            h := h.(formats := h.formats[ident.name := format]);
          } else {
            h := h.(errors := h.errors + [Diagnostic(sp, DuplicateFormatting(ident.name))]);
          }
    }
  }

  /** `Args::from_raw_args`: classify and file every argument, then report and assemble. */
  method FromRawArgs(raw: seq<NestedMeta>) returns (r: Result<Args, seq<Diagnostic>>)
    ensures r == ParseArgs(raw)
  {
    // The six per-option vectors, the format map and the error vector, grouped in one record.
    var g := NoGroups;
    ghost var os := Classified(raw);
    for i := 0 to |raw|
      invariant g == GroupAll(os[..i])
    {
      ghost var before := g;
      var outcome := ParseEntry(raw[i]);
      g := File(g, outcome);
      FiledStep(os, i, before, g);
    }
    assert os[..|raw|] == os;
    r := Finish(g);
  }
}
