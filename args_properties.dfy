/**
 * What `Args::from_raw_args` promises (src/args.rs:69-376): which single
 * arguments it accepts, that it reports every error rather than the first,
 * one duplicate report per occurrence, the enable/disable conflict on both
 * sides, success exactly for clean input, and first-value assembly.
 */
module ArgsProperties {
  import opened Wrappers
  import opened Syntax
  import opened Diagnostics
  import opened Args

  // ---------------------------------------------------------------------------
  // Single arguments
  // ---------------------------------------------------------------------------

  /** A bare word is accepted only for `pause` and `pretty`, and then means `true`. */
  lemma BareWordOnlyForFlags(sp: Span, id: Ident)
    ensures Classify(MetaItem(sp, Word(id))).Success? <==> id.name == "pause" || id.name == "pretty"
    ensures id.name == "pause" ==> Classify(MetaItem(sp, Word(id))) == Success(PauseArg(sp, true))
    ensures id.name == "pretty" ==> Classify(MetaItem(sp, Word(id))) == Success(PrettyArg(sp, true))
    ensures id.name in {"prefix_enter", "prefix_exit", "enable", "disable"} ==>
      Classify(MetaItem(sp, Word(id))) == Failure([Diagnostic(id.span, ShapeError(KeywordOf(id.name).value))])
    ensures KeywordOf(id.name).None? ==>
      Classify(MetaItem(sp, Word(id))) == Failure([Diagnostic(id.span, FormatterNeedsString)])
  {
  }

  /** A literal at the top level is always rejected, with exactly one diagnostic. */
  lemma LiteralRejected(sp: Span, lit: Lit)
    ensures Classify(Literal(sp, lit)) == Failure([Diagnostic(sp, LiteralNotAllowed)])
  {
  }

  /** Any non-keyword name given a string becomes a format override keyed by that name. */
  lemma OtherNameIsFormatOverride(sp: Span, id: Ident, lsp: Span, s: string)
    requires KeywordOf(id.name).None?
    ensures Classify(MetaItem(sp, NameValue(id, Str(lsp, s)))) == Success(FormatArg(sp, id, s))
    ensures Classify(MetaItem(sp, NameValue(id, NonStr(lsp)))) == Failure([Diagnostic(lsp, FormatterLitNotString)])
    ensures KeywordOf("res").None? && KeywordOf("prefix").None?
  {
  }

  /** The entries of `ns` that are not bare words, in order. */
  function NonWords(ns: seq<NestedMeta>): seq<NestedMeta>
  {
    if ns == [] then []
    else NonWords(ns[..|ns| - 1]) + (if IsWord(ns[|ns| - 1]) then [] else [ns[|ns| - 1]])
  }

  lemma {:induction false} NonWordsEmpty(ns: seq<NestedMeta>)
    ensures NonWords(ns) == [] <==> forall i :: 0 <= i < |ns| ==> IsWord(ns[i])
  {
    if ns != [] {
      var init := ns[..|ns| - 1];
      NonWordsEmpty(init);
      assert forall i :: 0 <= i < |init| ==> init[i] == ns[i];
    }
  }

  lemma {:induction false} NonWordErrorsAt(key: Key, ns: seq<NestedMeta>)
    ensures |NonWordErrors(key, ns)| == |NonWords(ns)|
    ensures forall i :: 0 <= i < |NonWords(ns)| ==>
      NonWordErrors(key, ns)[i] == Diagnostic(NonWords(ns)[i].span, NotWord(key))
  {
    if ns != [] {
      NonWordErrorsAt(key, ns[..|ns| - 1]);
    }
  }

  lemma {:induction false} WordsInExactly(ns: seq<NestedMeta>)
    ensures WordsIn(ns) == set i | 0 <= i < |ns| && IsWord(ns[i]) :: ns[i].meta.ident.name
  {
    if ns != [] {
      var init := ns[..|ns| - 1];
      WordsInExactly(init);
      assert forall i :: 0 <= i < |init| ==> init[i] == ns[i];
    }
  }

  /**
   * `enable(...)`/`disable(...)` succeed exactly when every entry is a bare word,
   * and then carry the set of those words; otherwise each non-word entry gets its
   * own diagnostic, at that entry, in order.
   */
  lemma FilterListWordsOnly(sp: Span, id: Ident, nested: seq<NestedMeta>)
    requires id.name == "enable" || id.name == "disable"
    ensures var r := Classify(MetaItem(sp, List(id, nested)));
      && (r.Success? <==> forall i :: 0 <= i < |nested| ==> IsWord(nested[i]))
      && (r.Success? ==>
            var words := set i | 0 <= i < |nested| && IsWord(nested[i]) :: nested[i].meta.ident.name;
            r.value == if id.name == "enable" then EnableArg(sp, words) else DisableArg(sp, words))
      && (r.Failure? ==>
            && |r.error| == |NonWords(nested)|
            && forall i :: 0 <= i < |r.error| ==>
                 r.error[i] == Diagnostic(NonWords(nested)[i].span, NotWord(KeywordOf(id.name).value)))
  {
    var key := KeywordOf(id.name).value;
    NonWordsEmpty(nested);
    NonWordErrorsAt(key, nested);
    WordsInExactly(nested);
  }

  // ---------------------------------------------------------------------------
  // Bookkeeping over the classified arguments
  // ---------------------------------------------------------------------------

  predicate IsArgOf(o: Outcome, k: Key)
  {
    o.Success? && KeyOfArg(o.value) == Some(k)
  }

  /** The accepted arguments of keyword `k`, in order. */
  function Entries(os: seq<Outcome>, k: Key): seq<Arg>
  {
    if os == [] then []
    else
      var last := os[|os| - 1];
      Entries(os[..|os| - 1], k) + (if IsArgOf(last, k) then [last.value] else [])
  }

  /** Where the arguments of keyword `k` occur. */
  function Occurrences(os: seq<Outcome>, k: Key): (r: seq<Span>)
    ensures |r| == |Entries(os, k)|
  {
    SpansOf(Entries(os, k))
  }

  function SpansOf(args: seq<Arg>): (r: seq<Span>)
    ensures |r| == |args|
  {
    seq(|args|, i requires 0 <= i < |args| => args[i].span)
  }

  lemma {:induction false} EntriesAreArgs(os: seq<Outcome>, k: Key)
    ensures forall a :: a in Entries(os, k) ==> KeyOfArg(a) == Some(k)
    ensures forall i :: 0 <= i < |os| && IsArgOf(os[i], k) ==> os[i].value in Entries(os, k)
    ensures Entries(os, k) == [] <==> forall i :: 0 <= i < |os| ==> !IsArgOf(os[i], k)
  {
    if os != [] {
      var init := os[..|os| - 1];
      EntriesAreArgs(init, k);
      assert forall i :: 0 <= i < |init| ==> init[i] == os[i];
    }
  }

  /** The list `from_raw_args` keeps for keyword `k`, as arguments. */
  function Bucket(g: Groups, k: Key): seq<Arg>
  {
    match k
    case PrefixEnterKey => seq(|g.enters|, i requires 0 <= i < |g.enters| => PrefixEnterArg(g.enters[i].0, g.enters[i].1))
    case PrefixExitKey => seq(|g.exits|, i requires 0 <= i < |g.exits| => PrefixExitArg(g.exits[i].0, g.exits[i].1))
    case EnableKey => seq(|g.enables|, i requires 0 <= i < |g.enables| => EnableArg(g.enables[i].0, g.enables[i].1))
    case DisableKey => seq(|g.disables|, i requires 0 <= i < |g.disables| => DisableArg(g.disables[i].0, g.disables[i].1))
    case PauseKey => seq(|g.pauses|, i requires 0 <= i < |g.pauses| => PauseArg(g.pauses[i].0, g.pauses[i].1))
    case PrettyKey => seq(|g.pretties|, i requires 0 <= i < |g.pretties| => PrettyArg(g.pretties[i].0, g.pretties[i].1))
  }

  /** Filing one outcome appends it to its own option's list and leaves the other lists alone. */
  lemma BucketStep(g: Groups, o: Outcome, k: Key)
    ensures Bucket(Group(g, o), k) == Bucket(g, k) + (if IsArgOf(o, k) then [o.value] else [])
  {
    match o
    case Failure(_) =>
    case Success(arg) =>
      match k
      case PrefixEnterKey =>
      case PrefixExitKey =>
      case EnableKey =>
      case DisableKey =>
      case PauseKey =>
      case PrettyKey =>
  }

  /** Each per-option list holds exactly that option's arguments, in input order. */
  lemma {:induction false} BucketIsEntries(os: seq<Outcome>, k: Key)
    ensures Bucket(GroupAll(os), k) == Entries(os, k)
  {
    if os != [] {
      BucketIsEntries(os[..|os| - 1], k);
      BucketStep(GroupAll(os[..|os| - 1]), os[|os| - 1], k);
    }
  }

  predicate IsFormatOf(o: Outcome, n: string)
  {
    o.Success? && o.value.FormatArg? && o.value.ident.name == n
  }

  /** How many format overrides for `n` the input holds. */
  function FormatCount(os: seq<Outcome>, n: string): nat
  {
    if os == [] then 0
    else FormatCount(os[..|os| - 1], n) + (if IsFormatOf(os[|os| - 1], n) then 1 else 0)
  }

  /** The names that received a format override. */
  function FormatNames(os: seq<Outcome>): set<string>
  {
    set i | 0 <= i < |os| && os[i].Success? && os[i].value.FormatArg? :: os[i].value.ident.name
  }

  /** The diagnostics of `es` that have kind `kind`, in order. */
  function WithKind(es: seq<Diagnostic>, kind: ErrorKind): seq<Diagnostic>
  {
    if es == [] then []
    else WithKind(es[..|es| - 1], kind) + (if es[|es| - 1].kind == kind then [es[|es| - 1]] else [])
  }

  lemma {:induction false} WithKindAppend(a: seq<Diagnostic>, b: seq<Diagnostic>, kind: ErrorKind)
    ensures WithKind(a + b, kind) == WithKind(a, kind) + WithKind(b, kind)
  {
    if b == [] {
      assert a + b == a;
    } else {
      var init := b[..|b| - 1];
      assert (a + b)[..|a + b| - 1] == a + init;
      assert (a + b)[|a + b| - 1] == b[|b| - 1];
      WithKindAppend(a, init, kind);
    }
  }

  lemma {:induction false} WithKindNone(es: seq<Diagnostic>, kind: ErrorKind)
    requires forall d :: d in es ==> d.kind != kind
    ensures WithKind(es, kind) == []
  {
    if es != [] {
      WithKindNone(es[..|es| - 1], kind);
    }
  }

  lemma {:induction false} WithKindAll(es: seq<Diagnostic>, kind: ErrorKind)
    requires forall d :: d in es ==> d.kind == kind
    ensures WithKind(es, kind) == es
  {
    if es != [] {
      WithKindAll(es[..|es| - 1], kind);
    }
  }

  /** Every rejected argument carries at least one diagnostic, all of them about that argument alone. */
  predicate WellFormed(os: seq<Outcome>)
  {
    forall i :: 0 <= i < |os| && os[i].Failure? ==>
      os[i].error != [] && forall d :: d in os[i].error ==> IsEntryError(d)
  }

  lemma ClassifiedWellFormed(raw: seq<NestedMeta>)
    ensures WellFormed(Classified(raw))
  {
  }

  /** Filing never produces a duplicate-option or conflict diagnostic. */
  lemma {:induction false} GroupErrorKinds(os: seq<Outcome>)
    requires WellFormed(os)
    ensures forall d :: d in GroupAll(os).errors ==> IsEntryError(d) || d.kind.DuplicateFormatting?
  {
    if os != [] {
      GroupErrorKinds(os[..|os| - 1]);
    }
  }

  lemma {:induction false} FormatNamesStep(os: seq<Outcome>)
    requires os != []
    ensures var last := os[|os| - 1];
      FormatNames(os) == FormatNames(os[..|os| - 1]) +
        (if last.Success? && last.value.FormatArg? then {last.value.ident.name} else {})
  {
    var init := os[..|os| - 1];
    assert forall i :: 0 <= i < |init| ==> init[i] == os[i];
  }

  /** The format map's keys are exactly the names that received an override. */
  lemma {:induction false} GroupFormatKeys(os: seq<Outcome>)
    ensures GroupAll(os).formats.Keys == FormatNames(os)
  {
    if os != [] {
      GroupFormatKeys(os[..|os| - 1]);
      FormatNamesStep(os);
    }
  }

  /** The format map keeps the first override given for each name. */
  lemma {:induction false} GroupFormatFirst(os: seq<Outcome>, n: string, i: nat)
    requires i < |os| && IsFormatOf(os[i], n)
    requires forall j :: 0 <= j < i ==> !IsFormatOf(os[j], n)
    ensures n in GroupAll(os).formats && GroupAll(os).formats[n] == os[i].value.format
  {
    var init := os[..|os| - 1];
    if i == |os| - 1 {
      GroupFormatKeys(init);
      assert forall j :: 0 <= j < |init| ==> init[j] == os[j];
      assert n !in FormatNames(init);
    } else {
      assert forall j :: 0 <= j < |init| ==> init[j] == os[j];
      GroupFormatFirst(init, n, i);
    }
  }

  lemma {:induction false} FormatCountZero(os: seq<Outcome>, n: string)
    ensures FormatCount(os, n) == 0 <==> n !in FormatNames(os)
  {
    if os != [] {
      FormatCountZero(os[..|os| - 1], n);
      FormatNamesStep(os);
    }
  }

  /** Where the overrides of `n` occur, in input order. */
  function FormatSpans(os: seq<Outcome>, n: string): (r: seq<Span>)
  {
    if os == [] then []
    else
      var last := os[|os| - 1];
      FormatSpans(os[..|os| - 1], n) + (if IsFormatOf(last, n) then [last.value.span] else [])
  }

  lemma {:induction false} FormatSpansCount(os: seq<Outcome>, n: string)
    ensures |FormatSpans(os, n)| == FormatCount(os, n)
  {
    if os != [] {
      FormatSpansCount(os[..|os| - 1], n);
    }
  }

  /**
   * Every override of a name after its first adds one duplicate-formatting
   * diagnostic, at that override, in input order; the first override adds none.
   */
  lemma {:induction false} GroupDuplicateFormatting(os: seq<Outcome>, n: string)
    requires WellFormed(os)
    ensures var dups := WithKind(GroupAll(os).errors, DuplicateFormatting(n));
      var at := FormatSpans(os, n);
      && |dups| == (if FormatCount(os, n) == 0 then 0 else FormatCount(os, n) - 1)
      && |dups| == (if at == [] then 0 else |at| - 1)
      && forall i :: 0 <= i < |dups| ==> dups[i] == Diagnostic(at[i + 1], DuplicateFormatting(n))
  {
    FormatSpansCount(os, n);
    if os != [] {
      var init := os[..|os| - 1];
      var last := os[|os| - 1];
      assert WellFormed(init) by {
        assert forall j :: 0 <= j < |init| ==> init[j] == os[j];
      }
      GroupDuplicateFormatting(init, n);
      GroupFormatKeys(init);
      FormatCountZero(init, n);
      FormatSpansCount(init, n);
      DuplicateFormattingStep(GroupAll(init), last, n);
    }
  }

  /** Filing one outcome adds a duplicate-formatting diagnostic for `n`, at that outcome, exactly when it overrides `n` again. */
  lemma DuplicateFormattingStep(g: Groups, o: Outcome, n: string)
    requires o.Failure? ==> forall d :: d in o.error ==> IsEntryError(d)
    ensures WithKind(Group(g, o).errors, DuplicateFormatting(n))
         == WithKind(g.errors, DuplicateFormatting(n))
            + (if IsFormatOf(o, n) && n in g.formats then [Diagnostic(o.value.span, DuplicateFormatting(n))] else [])
  {
    var kind := DuplicateFormatting(n);
    match o
    case Failure(es) =>
      WithKindAppend(g.errors, es, kind);
      WithKindNone(es, kind);
    case Success(arg) =>
      if arg.FormatArg? && arg.ident.name in g.formats {
        var d := Diagnostic(arg.span, DuplicateFormatting(arg.ident.name));
        assert Group(g, o).errors == g.errors + [d];
        WithKindAppend(g.errors, [d], kind);
        assert [d][..0] == [];
      } else {
        assert Group(g, o).errors == g.errors;
      }
  }

  // ---------------------------------------------------------------------------
  // Whole-input properties
  // ---------------------------------------------------------------------------

  /** No name received a format override more than once. */
  ghost predicate FormatsDistinct(os: seq<Outcome>)
  {
    forall n :: FormatCount(os, n) <= 1
  }

  lemma SameCountBound(os: seq<Outcome>, init: seq<Outcome>)
    requires forall n :: FormatCount(os, n) <= FormatCount(init, n) + 1
    requires forall n :: FormatCount(init, n) <= FormatCount(os, n)
    requires forall n :: FormatCount(init, n) == 0 || FormatCount(os, n) == FormatCount(init, n)
    ensures FormatsDistinct(os) <==> FormatsDistinct(init)
  {
    if FormatsDistinct(init) {
      forall n ensures FormatCount(os, n) <= 1 {
        assert FormatCount(init, n) <= 1;
        assert FormatCount(init, n) == 0 || FormatCount(os, n) == FormatCount(init, n);
      }
    }
    if FormatsDistinct(os) {
      forall n ensures FormatCount(init, n) <= 1 {
        assert FormatCount(init, n) <= FormatCount(os, n);
      }
    }
  }

  /** The filed errors are empty exactly when every argument was accepted and no name was overridden twice. */
  lemma {:induction false} GroupErrorsEmpty(os: seq<Outcome>)
    requires WellFormed(os)
    ensures GroupAll(os).errors == [] <==>
      (forall i :: 0 <= i < |os| ==> os[i].Success?) && FormatsDistinct(os)
  {
    if os != [] {
      var init := os[..|os| - 1];
      var last := os[|os| - 1];
      assert forall j :: 0 <= j < |init| ==> init[j] == os[j];
      GroupErrorsEmpty(init);
      GroupFormatKeys(init);
      var g := GroupAll(init);
      var allOk := forall i :: 0 <= i < |os| ==> os[i].Success?;
      assert allOk <==> (forall i :: 0 <= i < |init| ==> init[i].Success?) && last.Success?;
      if last.Failure? {
        assert GroupAll(os).errors == g.errors + last.error;
      } else if last.value.FormatArg? {
        var m := last.value.ident.name;
        FormatCountZero(init, m);
        if m in g.formats {
          assert FormatCount(os, m) == FormatCount(init, m) + 1;
          assert GroupAll(os).errors != [];
        } else {
          assert GroupAll(os).errors == g.errors;
          assert forall n :: FormatCount(os, n) == FormatCount(init, n) + (if n == m then 1 else 0);
          assert FormatCount(init, m) == 0;
          SameCountBound(os, init);
        }
      } else {
        assert GroupAll(os).errors == g.errors;
        assert forall n :: FormatCount(os, n) == FormatCount(init, n);
        SameCountBound(os, init);
      }
    }
  }

  /** The length of each per-option list is the number of times that option occurs. */
  lemma ListLengths(os: seq<Outcome>)
    ensures var g := GroupAll(os);
      && |g.enters| == |Occurrences(os, PrefixEnterKey)|
      && |g.exits| == |Occurrences(os, PrefixExitKey)|
      && |g.enables| == |Occurrences(os, EnableKey)|
      && |g.disables| == |Occurrences(os, DisableKey)|
      && |g.pauses| == |Occurrences(os, PauseKey)|
      && |g.pretties| == |Occurrences(os, PrettyKey)|
  {
    var g := GroupAll(os);
    BucketIsEntries(os, PrefixEnterKey);
    BucketIsEntries(os, PrefixExitKey);
    BucketIsEntries(os, EnableKey);
    BucketIsEntries(os, DisableKey);
    BucketIsEntries(os, PauseKey);
    BucketIsEntries(os, PrettyKey);
  }

  /** Input on which `from_raw_args` succeeds, stated without reference to how it works. */
  ghost predicate Clean(os: seq<Outcome>)
  {
    && (forall i :: 0 <= i < |os| ==> os[i].Success?)
    && FormatsDistinct(os)
    && (forall k :: |Occurrences(os, k)| <= 1)
    && !(|Occurrences(os, EnableKey)| == 1 && |Occurrences(os, DisableKey)| == 1)
  }

  lemma {:induction false} OutcomesOkIff(os: seq<Outcome>)
    requires WellFormed(os)
    ensures Finish(GroupAll(os)).Success? <==> Clean(os)
  {
    var g := GroupAll(os);
    GroupErrorsEmpty(os);
    ReportsEmptyIff(g);
    AllOptionSpans(os);
    assert (forall k :: |OptionSpans(g, k)| <= 1) <==> (forall k :: |Occurrences(os, k)| <= 1);
    assert |Occurrences(os, EnableKey)| == |g.enables| && |Occurrences(os, DisableKey)| == |g.disables|;
    assert Finish(g).Success? <==> Reports(g) == [];
    assert g.errors == [] <==>
      (forall i :: 0 <= i < |os| ==> os[i].Success?) && FormatsDistinct(os);
  }

  /**
   * `from_raw_args` returns a configuration exactly when every argument is well
   * shaped, no option and no format name is given twice, and `enable` and
   * `disable` are not both given.
   */
  lemma ParseArgsOkIff(raw: seq<NestedMeta>)
    ensures ParseArgs(raw).Success? <==> Clean(Classified(raw))
  {
    ClassifiedWellFormed(raw);
    OutcomesOkIff(Classified(raw));
  }

  /** The duplicate reports for `k` among those for the distinct options `ks`. */
  lemma {:induction false} DuplicateReportsForKind(g: Groups, ks: seq<Key>, kind: ErrorKind)
    requires forall i, j :: 0 <= i < j < |ks| ==> ks[i] != ks[j]
    ensures WithKind(DuplicateReportsFor(g, ks), kind) ==
      if kind.Duplicate? && kind.key in ks then DuplicateReports(OptionSpans(g, kind.key), kind.key) else []
  {
    if ks != [] {
      var init := ks[..|ks| - 1];
      var last := ks[|ks| - 1];
      DuplicateReportsForKind(g, init, kind);
      var d := DuplicateReports(OptionSpans(g, last), last);
      WithKindAppend(DuplicateReportsFor(g, init), d, kind);
      if kind == Duplicate(last) {
        WithKindAll(d, kind);
        assert kind.key !in init;
      } else {
        WithKindNone(d, kind);
        assert kind.Duplicate? ==> (kind.key in ks <==> kind.key in init);
      }
    }
  }

  lemma AllKeysDistinct()
    ensures forall i, j :: 0 <= i < j < |AllKeys| ==> AllKeys[i] != AllKeys[j]
  {
  }

  lemma AllKeysComplete(k: Key)
    ensures k in AllKeys
  {
    match k
    case PrefixEnterKey =>
    case PrefixExitKey =>
    case EnableKey =>
    case DisableKey =>
    case PauseKey =>
    case PrettyKey =>
  }

  /** Filing reports no duplicate-option and no conflict diagnostic. */
  lemma GroupErrorsWithoutKind(os: seq<Outcome>, kind: ErrorKind)
    requires WellFormed(os)
    requires kind.Duplicate? || kind.Conflict?
    ensures WithKind(GroupAll(os).errors, kind) == []
  {
    GroupErrorKinds(os);
    WithKindNone(GroupAll(os).errors, kind);
  }

  /** The conflict reports, filtered by `kind`. */
  lemma ConflictReportsOfKind(g: Groups, kind: ErrorKind)
    ensures WithKind(ConflictReports(g), kind) == if kind.Conflict? then ConflictReports(g) else []
  {
    if kind.Conflict? {
      WithKindAll(ConflictReports(g), kind);
    } else {
      WithKindNone(ConflictReports(g), kind);
    }
  }

  /** Of all reports, the duplicate and conflict reports come only from their own checks. */
  lemma ReportsOfKind(os: seq<Outcome>, kind: ErrorKind)
    requires WellFormed(os)
    requires kind.Duplicate? || kind.Conflict?
    ensures var g := GroupAll(os);
      WithKind(Reports(g), kind) ==
        if kind.Conflict? then ConflictReports(g) else DuplicateReports(OptionSpans(g, kind.key), kind.key)
  {
    var g := GroupAll(os);
    var e := g.errors;
    var d := DuplicateReportsFor(g, AllKeys);
    var c := ConflictReports(g);
    WithKindAppend(e + d, c, kind);
    WithKindAppend(e, d, kind);
    GroupErrorsWithoutKind(os, kind);
    AllKeysDistinct();
    DuplicateReportsForKind(g, AllKeys, kind);
    ConflictReportsOfKind(g, kind);
    if kind.Duplicate? {
      AllKeysComplete(kind.key);
    }
  }

  lemma OptionSpansAreOccurrences(os: seq<Outcome>, k: Key)
    ensures OptionSpans(GroupAll(os), k) == Occurrences(os, k)
  {
    BucketIsEntries(os, k);
    var g := GroupAll(os);
    match k
    case PrefixEnterKey =>
    case PrefixExitKey =>
    case EnableKey =>
    case DisableKey =>
    case PauseKey =>
    case PrettyKey =>
  }

  lemma AllOptionSpans(os: seq<Outcome>)
    ensures forall k :: OptionSpans(GroupAll(os), k) == Occurrences(os, k)
  {
    forall k ensures OptionSpans(GroupAll(os), k) == Occurrences(os, k) {
      OptionSpansAreOccurrences(os, k);
    }
  }

  /**
   * An option given two or more times makes parsing fail, with one duplicate
   * diagnostic per occurrence, at that occurrence; an option given at most once
   * gets none.
   */
  lemma DuplicatesReportedPerOccurrence(raw: seq<NestedMeta>, k: Key)
    ensures |Occurrences(Classified(raw), k)| >= 2 ==> ParseArgs(raw).Failure?
    ensures ParseArgs(raw).Failure? ==>
      var dups := WithKind(ParseArgs(raw).error, Duplicate(k));
      var occ := Occurrences(Classified(raw), k);
      && |dups| == (if |occ| >= 2 then |occ| else 0)
      && forall i :: 0 <= i < |dups| ==> dups[i] == Diagnostic(occ[i], Duplicate(k))
  {
    var os := Classified(raw);
    ClassifiedWellFormed(raw);
    OptionSpansAreOccurrences(os, k);
    ReportsOfKind(os, Duplicate(k));
    if |Occurrences(os, k)| >= 2 {
      assert |WithKind(Reports(GroupAll(os)), Duplicate(k))| >= 2;
    }
  }

  /**
   * `enable` and `disable` given once each make parsing fail with exactly two
   * conflict diagnostics, one at each of them; otherwise no conflict is reported.
   */
  lemma ConflictReportedOnBothSides(raw: seq<NestedMeta>)
    ensures var os := Classified(raw);
      |Occurrences(os, EnableKey)| == 1 && |Occurrences(os, DisableKey)| == 1 ==> ParseArgs(raw).Failure?
    ensures var os := Classified(raw);
      ParseArgs(raw).Failure? ==>
        WithKind(ParseArgs(raw).error, Conflict) ==
          if |Occurrences(os, EnableKey)| == 1 && |Occurrences(os, DisableKey)| == 1 then
            [Diagnostic(Occurrences(os, EnableKey)[0], Conflict), Diagnostic(Occurrences(os, DisableKey)[0], Conflict)]
          else []
  {
    var os := Classified(raw);
    ClassifiedWellFormed(raw);
    OptionSpansAreOccurrences(os, EnableKey);
    OptionSpansAreOccurrences(os, DisableKey);
    ReportsOfKind(os, Conflict);
  }

  /**
   * A name given two or more format overrides makes parsing fail, with one
   * duplicate-formatting diagnostic at each override after the first, in input
   * order; a name overridden at most once gets none.
   */
  lemma DuplicateFormattingReported(raw: seq<NestedMeta>, n: string)
    ensures |FormatSpans(Classified(raw), n)| >= 2 ==> ParseArgs(raw).Failure?
    ensures ParseArgs(raw).Failure? ==>
      var dups := WithKind(ParseArgs(raw).error, DuplicateFormatting(n));
      var at := FormatSpans(Classified(raw), n);
      && |dups| == (if |at| >= 2 then |at| - 1 else 0)
      && forall i :: 0 <= i < |dups| ==> dups[i] == Diagnostic(at[i + 1], DuplicateFormatting(n))
  {
    var os := Classified(raw);
    var g := GroupAll(os);
    var kind := DuplicateFormatting(n);
    ClassifiedWellFormed(raw);
    FormatSpansCount(os, n);
    ParseArgsOkIff(raw);
    GroupDuplicateFormatting(os, n);
    var d := DuplicateReportsFor(g, AllKeys);
    var c := ConflictReports(g);
    WithKindAppend(g.errors + d, c, kind);
    WithKindAppend(g.errors, d, kind);
    AllKeysDistinct();
    DuplicateReportsForKind(g, AllKeys, kind);
    ConflictReportsOfKind(g, kind);
    assert WithKind(Reports(g), kind) == WithKind(g.errors, kind);
  }

  /** On clean input an option given once is the only one of its kind, so it is the one kept. */
  lemma OnlyEntry(os: seq<Outcome>, k: Key, i: nat)
    requires i < |os| && IsArgOf(os[i], k) && |Occurrences(os, k)| <= 1
    ensures Bucket(GroupAll(os), k) == [os[i].value]
  {
    EntriesAreArgs(os, k);
    BucketIsEntries(os, k);
  }

  /** The configuration `a` holds the value the accepted argument `x` gives. */
  predicate Keeps(a: Args, x: Arg)
  {
    match x
    case PrefixEnterArg(_, s) => a.prefixEnter == Prefix(Some(s))
    case PrefixExitArg(_, s) => a.prefixExit == Prefix(Some(s))
    case EnableArg(_, names) => a.filter == Enable(names)
    case DisableArg(_, names) => a.filter == Disable(names)
    case PauseArg(_, b) => a.pause == b
    case PrettyArg(_, b) => a.pretty == b
    case FormatArg(_, id, f) => id.name in a.argsFormat && a.argsFormat[id.name] == f
  }

  /** An error-free grouping assembles the first value filed for each option. */
  lemma AssembledFirst(g: Groups, a: Args, k: Key)
    requires Finish(g) == Success(a) && Bucket(g, k) != []
    ensures Keeps(a, Bucket(g, k)[0])
  {
    ReportsEmptyIff(g);
    assert |OptionSpans(g, EnableKey)| <= 1 && |OptionSpans(g, DisableKey)| <= 1;
  }

  /** Where the configuration assembled from clean input takes the value of argument `i`. */
  lemma {:induction false} ValueKept(os: seq<Outcome>, a: Args, i: nat)
    requires WellFormed(os) && Finish(GroupAll(os)) == Success(a)
    requires i < |os| && os[i].Success?
    ensures match os[i].value
      case PrefixEnterArg(_, s) => a.prefixEnter == Prefix(Some(s))
      case PrefixExitArg(_, s) => a.prefixExit == Prefix(Some(s))
      case EnableArg(_, names) => a.filter == Enable(names)
      case DisableArg(_, names) => a.filter == Disable(names)
      case PauseArg(_, b) => a.pause == b
      case PrettyArg(_, b) => a.pretty == b
      case FormatArg(_, id, f) => id.name in a.argsFormat && a.argsFormat[id.name] == f
  {
    OutcomesOkIff(os);
    var x := os[i].value;
    if x.FormatArg? {
      FormatKept(os, i);
      assert a.argsFormat == GroupAll(os).formats;
    } else {
      var k := KeyOfArg(x).value;
      OnlyEntry(os, k, i);
      AssembledFirst(GroupAll(os), a, k);
    }
    assert Keeps(a, x);
  }

  /** On clean input the format of argument `i` is the one filed for its name. */
  lemma FormatKept(os: seq<Outcome>, i: nat)
    requires WellFormed(os) && FormatsDistinct(os)
    requires i < |os| && os[i].Success? && os[i].value.FormatArg?
    ensures var n := os[i].value.ident.name;
      n in GroupAll(os).formats && GroupAll(os).formats[n] == os[i].value.format
  {
    var n := os[i].value.ident.name;
    assert forall j :: 0 <= j < i ==> !IsFormatOf(os[j], n) by {
      if j :| 0 <= j < i && IsFormatOf(os[j], n) {
        FormatCountAtLeastTwo(os, n, j, i);
      }
    }
    GroupFormatFirst(os, n, i);
  }

  /**
   * A successful parse keeps the value each option was given, and the
   * default for each option that was not given.
   */
  lemma ParsedValues(raw: seq<NestedMeta>, a: Args)
    requires ParseArgs(raw) == Success(a)
    ensures forall i :: 0 <= i < |raw| ==> Classify(raw[i]).Success?
    ensures forall i :: 0 <= i < |raw| ==>
      match Classify(raw[i]).value
      case PrefixEnterArg(_, s) => a.prefixEnter == Prefix(Some(s))
      case PrefixExitArg(_, s) => a.prefixExit == Prefix(Some(s))
      case EnableArg(_, names) => a.filter == Enable(names)
      case DisableArg(_, names) => a.filter == Disable(names)
      case PauseArg(_, b) => a.pause == b
      case PrettyArg(_, b) => a.pretty == b
      case FormatArg(_, id, f) => id.name in a.argsFormat && a.argsFormat[id.name] == f
    ensures Entries(Classified(raw), PrefixEnterKey) == [] ==> a.prefixEnter == Prefix(None)
    ensures Entries(Classified(raw), PrefixExitKey) == [] ==> a.prefixExit == Prefix(None)
    ensures a.filter.NoFilter? <==>
      Entries(Classified(raw), EnableKey) == [] && Entries(Classified(raw), DisableKey) == []
    ensures Entries(Classified(raw), PauseKey) == [] ==> a.pause == DefaultPause
    ensures Entries(Classified(raw), PrettyKey) == [] ==> a.pretty == DefaultPretty
    ensures a.argsFormat.Keys == FormatNames(Classified(raw))
  {
    var os := Classified(raw);
    ClassifiedWellFormed(raw);
    OutcomesOkIff(os);
    GroupFormatKeys(os);
    ListLengths(os);
    forall i | 0 <= i < |raw|
      ensures match os[i].value
        case PrefixEnterArg(_, s) => a.prefixEnter == Prefix(Some(s))
        case PrefixExitArg(_, s) => a.prefixExit == Prefix(Some(s))
        case EnableArg(_, names) => a.filter == Enable(names)
        case DisableArg(_, names) => a.filter == Disable(names)
        case PauseArg(_, b) => a.pause == b
        case PrettyArg(_, b) => a.pretty == b
        case FormatArg(_, id, f) => id.name in a.argsFormat && a.argsFormat[id.name] == f
    {
      ValueKept(os, a, i);
    }
  }

  lemma {:induction false} FormatCountAtLeastTwo(os: seq<Outcome>, n: string, j: nat, i: nat)
    requires j < i < |os| && IsFormatOf(os[j], n) && IsFormatOf(os[i], n)
    ensures FormatCount(os, n) >= 2
  {
    var init := os[..|os| - 1];
    assert forall m :: 0 <= m < |init| ==> init[m] == os[m];
    if i == |os| - 1 {
      FormatCountZero(init, n);
      assert n in FormatNames(init);
    } else {
      FormatCountAtLeastTwo(init, n, j, i);
    }
  }

  // ---------------------------------------------------------------------------
  // Prefix collection
  // ---------------------------------------------------------------------------

  lemma {:induction false} FragmentsEmpty(ps: seq<Prefix>)
    ensures Fragments(ps) == [] <==> forall i :: 0 <= i < |ps| ==> ps[i].text.None?
  {
    if ps != [] {
      var init := ps[..|ps| - 1];
      FragmentsEmpty(init);
      assert forall i :: 0 <= i < |init| ==> init[i] == ps[i];
    }
  }

  /** Collecting yields no prefix exactly when no fragment is present. */
  lemma CollectedNone(ps: seq<Prefix>)
    ensures Collected(ps).text.None? <==> forall i :: 0 <= i < |ps| ==> ps[i].text.None?
  {
    FragmentsEmpty(ps);
  }

  /** Collecting one more prefix appends its fragment (if any) to the collected text. */
  lemma CollectedAppend(ps: seq<Prefix>, p: Prefix)
    ensures Text(Collected(ps + [p])) == Text(Collected(ps)) + Text(p)
  {
    assert (ps + [p])[..|ps|] == ps;
    var f := Fragments(ps);
    if p.text.Some? {
      assert Concat(f + [p.text.value]) == Concat(f) + p.text.value by {
        assert (f + [p.text.value])[..|f|] == f;
      }
    } else {
      assert f + [] == f;
    }
  }

  lemma LabelText(p: Prefix)
    ensures Enter(p) == ">>> " + Text(p) && Exit(p) == "<<< " + Text(p)
  {
  }

  /** The texts of all the prefixes of `ps`, absent ones counting as empty, in order. */
  function AllTexts(ps: seq<Prefix>): seq<string>
  {
    seq(|ps|, i requires 0 <= i < |ps| => Text(ps[i]))
  }

  lemma {:induction false} CollectedAllTexts(ps: seq<Prefix>)
    ensures Text(Collected(ps)) == Concat(AllTexts(ps))
  {
    if ps != [] {
      var init := ps[..|ps| - 1];
      var last := ps[|ps| - 1];
      CollectedAllTexts(init);
      CollectedAppend(init, last);
      assert init + [last] == ps;
      assert AllTexts(ps)[..|ps| - 1] == AllTexts(init);
    }
  }

  lemma LabelAppend(marker: string, t: string, u: string)
    ensures marker + (t + u) == (marker + t) + u
  {
  }

  /**
   * The labels: `>>> ` or `<<< `, then the text of every prefix in order (an
   * absent one adds nothing); collecting one more prefix extends the label by
   * its text, and with no text at all the label is the bare marker.
   */
  lemma EnterExitLabels(ps: seq<Prefix>, p: Prefix)
    ensures Enter(Collected(ps)) == ">>> " + Concat(AllTexts(ps))
    ensures Exit(Collected(ps)) == "<<< " + Concat(AllTexts(ps))
    ensures Enter(Collected(ps + [p])) == Enter(Collected(ps)) + Text(p)
    ensures Exit(Collected(ps + [p])) == Exit(Collected(ps)) + Text(p)
    ensures (forall i :: 0 <= i < |ps| ==> ps[i].text.None?) ==> Enter(Collected(ps)) == ">>> " && Exit(Collected(ps)) == "<<< "
  {
    var t := Text(Collected(ps));
    var u := Text(Collected(ps + [p]));
    CollectedNone(ps);
    CollectedAllTexts(ps);
    CollectedAppend(ps, p);
    LabelText(Collected(ps));
    LabelText(Collected(ps + [p]));
    assert u == t + Text(p);
    LabelAppend(">>> ", t, Text(p));
    LabelAppend("<<< ", t, Text(p));
  }
}
