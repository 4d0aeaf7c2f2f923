/**
 * Which parameters a traced function logs (src/lib.rs: `extract_arg_idents`
 * with its inner `process_pat`, and the sort and dedup at the top of
 * `construct_traced_block`).
 *
 * A parameter name is logged as `Some(name)` or, when the item's own filter
 * excludes it, redacted as `None`.  A pattern or argument form the macro does
 * not handle makes it panic (`unimplemented!()`); here that outcome is `None`
 * for the whole extraction.
 */
module ArgIdents {
  import opened Wrappers
  import opened Syntax
  import opened Args
  import opened Context

  /** A parameter as the trace sees it: its name, or `None` when redacted. */
  type Leaf = Option<string>

  // ---------------------------------------------------------------------------
  // The names bound by the parameter list
  // ---------------------------------------------------------------------------

  /** The names a pattern binds, depth-first in declaration order, skipping tuple elements after `..`; `None` when a sub-pattern is unsupported. */
  function PatNames(p: Pat): Option<seq<string>>
    decreases p, 1
  {
    match p
    case PatIdent(id) => Some([id.name])
    case PatTuple(elems, _) => ElemsNames(elems)
    case PatOther => None
  }

  /** The names bound by a sequence of sub-patterns, concatenated. */
  function ElemsNames(elems: seq<Pat>): Option<seq<string>>
    decreases elems, 0
  {
    if elems == [] then Some([])
    else
      var front := ElemsNames(elems[..|elems| - 1]);
      var last := PatNames(elems[|elems| - 1]);
      if front.Some? && last.Some? then Some(front.value + last.value) else None
  }

  /** The names bound by a parameter list: receivers contribute nothing, closure-style and bare-type inputs are unsupported. */
  function ArgNames(inputs: seq<FnArg>): Option<seq<string>>
  {
    if inputs == [] then Some([])
    else
      var front := ArgNames(inputs[..|inputs| - 1]);
      var last := match inputs[|inputs| - 1]
        case SelfRef => Some([])
        case SelfValue => Some([])
        case Captured(pat) => PatNames(pat)
        case Inferred => None
        case Ignored => None;
      if front.Some? && last.Some? then Some(front.value + last.value) else None
  }

  /** How one bound name appears in the trace under `chain`. */
  ghost function Mark(chain: Chain, name: string): Leaf
  {
    if DirectlyExcluded(chain, name) then None else Some(name)
  }

  /** Each name of `names` marked under `chain`, in order. */
  ghost function Marks(chain: Chain, names: seq<string>): (r: seq<Leaf>)
    ensures |r| == |names|
  {
    seq(|names|, i requires 0 <= i < |names| => Mark(chain, names[i]))
  }

  /** What `extract_arg_idents` yields: the marked names, or `None` when the macro panics. */
  ghost function ArgLeaves(chain: Chain, inputs: seq<FnArg>): Option<seq<Leaf>>
  {
    var names := ArgNames(inputs);
    if names.Some? then Some(Marks(chain, names.value)) else None
  }

  lemma MarksAppend(chain: Chain, a: seq<string>, b: seq<string>)
    ensures Marks(chain, a + b) == Marks(chain, a) + Marks(chain, b)
  {
  }

  // ---------------------------------------------------------------------------
  // The imperative extraction
  // ---------------------------------------------------------------------------

  /**
   * `process_pat`: pushes the marked names of `p` onto `leaves`; `None` when
   * the pattern holds an unsupported sub-pattern.
   */
  method ProcessPat(chain: Chain, p: Pat, leaves: seq<Leaf>) returns (r: Option<seq<Leaf>>)
    ensures PatNames(p).Some? ==> r == Some(leaves + Marks(chain, PatNames(p).value))
    ensures PatNames(p).None? ==> r.None?
    decreases p
  {
    match p
    case PatIdent(id) =>
      var excluded := IsDirectlyExcluded(chain, id.name);
      assert Marks(chain, [id.name]) == [Mark(chain, id.name)];
      if excluded {
        r := Some(leaves + [None]);
      } else {
        r := Some(leaves + [Some(id.name)]);
      }
    case PatTuple(elems, _) =>
      var acc := leaves;
      for i := 0 to |elems|
        invariant ElemsNames(elems[..i]).Some?
        invariant acc == leaves + Marks(chain, ElemsNames(elems[..i]).value)
      {
        assert elems[..i + 1][..i] == elems[..i];
        var step := ProcessPat(chain, elems[i], acc);
        if step.None? {
          assert ElemsNames(elems[..i + 1]).None?;
          ElemsNamesNone(elems, i + 1);
          return None;
        }
        MarksAppend(chain, ElemsNames(elems[..i]).value, PatNames(elems[i]).value);
        acc := step.value;
      }
      assert elems[..|elems|] == elems;
      r := Some(acc);
    case PatOther =>
      r := None;
  }

  /** Once a prefix of the elements is unsupported, so is the whole tuple. */
  lemma {:induction false} ElemsNamesNone(elems: seq<Pat>, k: nat)
    requires k <= |elems|
    requires ElemsNames(elems[..k]).None?
    ensures ElemsNames(elems).None?
    decreases |elems| - k
  {
    if k < |elems| {
      assert elems[..k + 1][..k] == elems[..k];
      ElemsNamesNone(elems, k + 1);
    } else {
      assert elems[..k] == elems;
    }
  }

  /** Once a prefix of the inputs is unsupported, so is the whole list. */
  lemma {:induction false} ArgNamesNone(inputs: seq<FnArg>, k: nat)
    requires k <= |inputs|
    requires ArgNames(inputs[..k]).None?
    ensures ArgNames(inputs).None?
    decreases |inputs| - k
  {
    if k < |inputs| {
      assert inputs[..k + 1][..k] == inputs[..k];
      ArgNamesNone(inputs, k + 1);
    } else {
      assert inputs[..k] == inputs;
    }
  }

  /** `extract_arg_idents`: walks the inputs in order, skipping receivers. */
  method ExtractArgIdents(chain: Chain, inputs: seq<FnArg>) returns (r: Option<seq<Leaf>>)
    ensures r == ArgLeaves(chain, inputs)
  {
    var leaves: seq<Leaf> := [];
    for i := 0 to |inputs|
      invariant ArgNames(inputs[..i]).Some?
      invariant leaves == Marks(chain, ArgNames(inputs[..i]).value)
    {
      assert inputs[..i + 1][..i] == inputs[..i];
      match inputs[i]
      case SelfRef =>
        assert ArgNames(inputs[..i + 1]) == ArgNames(inputs[..i]) by {
          assert ArgNames(inputs[..i]).value + [] == ArgNames(inputs[..i]).value;
        }
      case SelfValue =>
        assert ArgNames(inputs[..i + 1]) == ArgNames(inputs[..i]) by {
          assert ArgNames(inputs[..i]).value + [] == ArgNames(inputs[..i]).value;
        }
      case Captured(pat) =>
        var step := ProcessPat(chain, pat, leaves);
        if step.None? {
          ArgNamesNone(inputs, i + 1);
          return None;
        }
        MarksAppend(chain, ArgNames(inputs[..i]).value, PatNames(pat).value);
        leaves := step.value;
      case Inferred =>
        ArgNamesNone(inputs, i + 1);
        return None;
      case Ignored =>
        ArgNamesNone(inputs, i + 1);
        return None;
    }
    assert inputs[..|inputs|] == inputs;
    r := Some(leaves);
  }

  // ---------------------------------------------------------------------------
  // Properties of the extraction
  // ---------------------------------------------------------------------------

  /** A pattern the macro can flatten: names and tuples of such patterns only. */
  predicate PatSupported(p: Pat)
    decreases p
  {
    match p
    case PatIdent(_) => true
    case PatTuple(elems, _) => forall i :: 0 <= i < |elems| ==> PatSupported(elems[i])
    case PatOther => false
  }

  lemma {:induction false} PatNamesSupported(p: Pat)
    ensures PatNames(p).Some? <==> PatSupported(p)
    decreases p, 1
  {
    match p
    case PatIdent(_) =>
    case PatTuple(elems, _) => ElemsNamesSupported(elems);
    case PatOther =>
  }

  lemma {:induction false} ElemsNamesSupported(elems: seq<Pat>)
    ensures ElemsNames(elems).Some? <==> forall i :: 0 <= i < |elems| ==> PatSupported(elems[i])
    decreases elems, 0
  {
    if elems != [] {
      var init := elems[..|elems| - 1];
      ElemsNamesSupported(init);
      PatNamesSupported(elems[|elems| - 1]);
      assert forall i :: 0 <= i < |init| ==> init[i] == elems[i];
    }
  }

  /** An input the macro can handle: a receiver, or a typed pattern it can flatten. */
  predicate ArgSupported(a: FnArg)
  {
    match a
    case SelfRef => true
    case SelfValue => true
    case Captured(pat) => PatSupported(pat)
    case Inferred => false
    case Ignored => false
  }

  /** Extraction succeeds exactly when every input is supported. */
  lemma {:induction false} ArgNamesSupported(inputs: seq<FnArg>)
    ensures ArgNames(inputs).Some? <==> forall i :: 0 <= i < |inputs| ==> ArgSupported(inputs[i])
  {
    if inputs != [] {
      var init := inputs[..|inputs| - 1];
      ArgNamesSupported(init);
      assert forall i :: 0 <= i < |init| ==> init[i] == inputs[i];
      match inputs[|inputs| - 1]
      case Captured(pat) => PatNamesSupported(pat);
      case _ =>
    }
  }

  /** A receiver contributes no name, wherever it stands in the list. */
  lemma {:induction false} ReceiverIgnored(front: seq<FnArg>, back: seq<FnArg>, self: FnArg)
    requires self.SelfRef? || self.SelfValue?
    ensures ArgNames(front + [self] + back) == ArgNames(front + back)
    decreases |back|
  {
    if back == [] {
      assert front + [self] + back == front + [self];
      assert (front + [self])[..|front|] == front;
      assert front + back == front;
      match ArgNames(front) {
        case Some(v) => assert v + [] == v;
        case None =>
      }
    } else {
      var b := back[..|back| - 1];
      ReceiverIgnored(front, b, self);
      assert (front + [self] + back)[..|front + [self] + back| - 1] == front + [self] + b;
      assert (front + back)[..|front + back| - 1] == front + b;
    }
  }

  lemma SingleName(a: Ident)
    ensures ElemsNames([PatIdent(a)]) == Some([a.name])
  {
    assert [PatIdent(a)][..0] == [];
    assert ElemsNames([]) == Some([]);
    assert [] + [a.name] == [a.name];
  }

  /**
   * Tuple patterns flatten depth-first: `(a, (b, c), .., rest)` yields a, b, c
   * in that order, and whatever stands after the `..` is neither logged nor
   * checked for support.
   */
  lemma TupleFlattening(a: Ident, b: Ident, c: Ident, rest: seq<Pat>)
    ensures PatNames(PatTuple([PatIdent(a), PatTuple([PatIdent(b), PatIdent(c)], [])], rest)) == Some([a.name, b.name, c.name])
  {
    var inner := [PatIdent(b), PatIdent(c)];
    SingleName(b);
    assert inner[..1] == [PatIdent(b)];
    assert ElemsNames(inner) == Some([b.name] + [c.name]);
    assert [b.name] + [c.name] == [b.name, c.name];
    var outer := [PatIdent(a), PatTuple(inner, [])];
    SingleName(a);
    assert outer[..1] == [PatIdent(a)];
    assert outer[1] == PatTuple(inner, []);
    assert PatNames(PatTuple(inner, [])) == Some([b.name, c.name]);
    assert ElemsNames(outer) == Some([a.name] + [b.name, c.name]);
    assert [a.name] + [b.name, c.name] == [a.name, b.name, c.name];
  }

  // ---------------------------------------------------------------------------
  // Ordering: the stable sort and the dedup of `construct_traced_block`
  // ---------------------------------------------------------------------------

  /** The sort key of the comparator: visible names rank before redacted ones, all else is a tie. */
  function Rank(l: Leaf): nat
  {
    if l.Some? then 0 else 1
  }

  /** Insert `x` after every element of `sorted` whose rank does not exceed its own. */
  function Insert(sorted: seq<Leaf>, x: Leaf): seq<Leaf>
  {
    if sorted == [] || Rank(sorted[|sorted| - 1]) <= Rank(x) then sorted + [x]
    else Insert(sorted[..|sorted| - 1], x) + [sorted[|sorted| - 1]]
  }

  /**
   * `sort_by` with the visible-first comparator, as a stable insertion sort:
   * an independent reference for what any stable sort by this key yields.
   */
  function SortByRank(xs: seq<Leaf>): seq<Leaf>
  {
    if xs == [] then []
    else Insert(SortByRank(xs[..|xs| - 1]), xs[|xs| - 1])
  }

  /** Collapses each run of redaction markers into one: a marker right after a kept marker is dropped. */
  function Dedup(xs: seq<Leaf>): seq<Leaf>
  {
    if xs == [] then []
    else
      var kept := Dedup(xs[..|xs| - 1]);
      var x := xs[|xs| - 1];
      if x.None? && kept != [] && kept[|kept| - 1].None? then kept else kept + [x]
  }

  /** The visible leaves, in order. */
  function Visible(xs: seq<Leaf>): (r: seq<Leaf>)
    ensures forall i :: 0 <= i < |r| ==> r[i].Some?
  {
    if xs == [] then []
    else Visible(xs[..|xs| - 1]) + (if xs[|xs| - 1].Some? then [xs[|xs| - 1]] else [])
  }

  /** The redacted leaves (all `None`). */
  function Redacted(xs: seq<Leaf>): (r: seq<Leaf>)
    ensures forall i :: 0 <= i < |r| ==> r[i].None?
  {
    if xs == [] then []
    else Redacted(xs[..|xs| - 1]) + (if xs[|xs| - 1].None? then [None] else [])
  }

  lemma {:induction false} RedactedEmpty(xs: seq<Leaf>)
    ensures Redacted(xs) == [] <==> forall i :: 0 <= i < |xs| ==> xs[i].Some?
  {
    if xs != [] {
      var init := xs[..|xs| - 1];
      RedactedEmpty(init);
      assert forall i :: 0 <= i < |init| ==> init[i] == xs[i];
    }
  }

  /** The leaf list after `sort_by` and `dedup_by`. */
  function Arranged(xs: seq<Leaf>): seq<Leaf>
  {
    Dedup(SortByRank(xs))
  }

  lemma {:induction false} InsertVisible(v: seq<Leaf>, rd: seq<Leaf>, x: Leaf)
    requires forall i :: 0 <= i < |v| ==> v[i].Some?
    requires forall i :: 0 <= i < |rd| ==> rd[i].None?
    requires x.Some?
    ensures Insert(v + rd, x) == v + [x] + rd
    decreases |rd|
  {
    if rd == [] {
      assert v + rd == v;
      if v != [] {
        assert (v + rd)[|v + rd| - 1] == v[|v| - 1];
      }
    } else {
      var s := v + rd;
      var init := rd[..|rd| - 1];
      assert s[|s| - 1] == rd[|rd| - 1];
      assert s[..|s| - 1] == v + init;
      InsertVisible(v, init, x);
      assert v + [x] + rd == (v + [x] + init) + [rd[|rd| - 1]];
    }
  }

  /** Sorting by rank puts the visible leaves first and the redacted ones after, each group in its original order. */
  lemma {:induction false} SortIsVisibleThenRedacted(xs: seq<Leaf>)
    ensures SortByRank(xs) == Visible(xs) + Redacted(xs)
  {
    if xs != [] {
      var init := xs[..|xs| - 1];
      var x := xs[|xs| - 1];
      SortIsVisibleThenRedacted(init);
      assert Visible(xs) == Visible(init) + (if x.Some? then [x] else []);
      assert Redacted(xs) == Redacted(init) + (if x.None? then [None] else []);
      if x.Some? {
        InsertVisible(Visible(init), Redacted(init), x);
      } else {
        assert Insert(Visible(init) + Redacted(init), x) == Visible(init) + Redacted(init) + [x];
      }
    }
  }

  lemma {:induction false} SplitPermutes(xs: seq<Leaf>)
    ensures multiset(Visible(xs) + Redacted(xs)) == multiset(xs)
  {
    if xs != [] {
      var init := xs[..|xs| - 1];
      SplitPermutes(init);
      assert xs == init + [xs[|xs| - 1]];
    }
  }

  /** The sort is a permutation of its input. */
  lemma SortPermutes(xs: seq<Leaf>)
    ensures multiset(SortByRank(xs)) == multiset(xs)
  {
    SortIsVisibleThenRedacted(xs);
    SplitPermutes(xs);
  }

  /** Dedup keeps visible leaves untouched and collapses a run of `None`s into one. */
  lemma {:induction false} DedupVisibleThenRedacted(v: seq<Leaf>, rd: seq<Leaf>)
    requires forall i :: 0 <= i < |v| ==> v[i].Some?
    requires forall i :: 0 <= i < |rd| ==> rd[i].None?
    ensures Dedup(v + rd) == v + (if rd == [] then [] else [None])
    decreases |v| + |rd|
  {
    var s := v + rd;
    if rd == [] {
      assert s == v;
      if v != [] {
        var init := v[..|v| - 1];
        DedupVisibleThenRedacted(init, []);
        assert init + [] == init;
        assert s[..|s| - 1] == init;
      }
    } else {
      var init := rd[..|rd| - 1];
      assert s[..|s| - 1] == v + init;
      assert s[|s| - 1] == rd[|rd| - 1];
      DedupVisibleThenRedacted(v, init);
    }
  }

  /**
   * After the sort and the dedup, the visible names come first in their
   * original order, followed by a single `...` exactly when some name was redacted.
   */
  lemma ArrangedShape(xs: seq<Leaf>)
    ensures Arranged(xs) == Visible(xs) + (if forall i :: 0 <= i < |xs| ==> xs[i].Some? then [] else [None])
  {
    SortIsVisibleThenRedacted(xs);
    DedupVisibleThenRedacted(Visible(xs), Redacted(xs));
    RedactedEmpty(xs);
  }

  /** Consequences: every `Some` precedes every `None`, and at most one `None` remains. */
  lemma ArrangedOrdered(xs: seq<Leaf>, i: nat, j: nat)
    requires i < |Arranged(xs)| && j < |Arranged(xs)|
    ensures Arranged(xs)[i].None? && Arranged(xs)[j].Some? ==> j < i
    ensures Arranged(xs)[i].None? && Arranged(xs)[j].None? ==> i == j
  {
    ArrangedShape(xs);
  }
}
