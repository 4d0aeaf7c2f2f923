/**
 * How configurations from enclosing items are combined with the one written on
 * the item being rewritten (src/lib.rs: `AttrApplication`, `create_context`, and
 * the direct-filter test repeated in `transform_mod`, `transform_impl` and
 * `process_pat`).
 */
module Context {
  import opened Wrappers
  import opened Args

  /**
   * A configuration in the resolution chain, tagged with whether it was written
   * on the item being rewritten (`Directly`) or inherited from an ancestor.
   */
  datatype AttrApplication = Directly(args: Args) | Indirectly(args: Args)

  /** The resolution chain, ancestors first. */
  type Chain = seq<AttrApplication>

  /** `AttrApplication::demote`: an ancestor's configuration loses its direct status. */
  function Demote(a: AttrApplication): (r: AttrApplication)
    ensures r.Indirectly?
    ensures r.args == a.args
    ensures a.Indirectly? ==> r == a
  {
    if a.Directly? then Indirectly(a.args) else a
  }

  /** `AttrApplication::is_direct`: exactly the entries that demotion changes. */
  function IsDirect(a: AttrApplication): (b: bool)
    ensures b <==> Demote(a) != a
  {
    a.Directly?
  }

  /** Number of direct entries in a chain. */
  function DirectCount(chain: Chain): nat
  {
    if chain == [] then 0
    else DirectCount(chain[..|chain| - 1]) + (if IsDirect(chain[|chain| - 1]) then 1 else 0)
  }

  /**
   * `create_context`: every given entry demoted, in order, followed by the
   * local configuration (when there is one) as the single direct entry.
   */
  function CreateContext(given: Chain, local: Option<Args>): (r: Chain)
    ensures |r| == |given| + (if local.Some? then 1 else 0)
    ensures forall i :: 0 <= i < |given| ==> r[i].Indirectly? && r[i].args == given[i].args
    ensures local.Some? ==> r[|given|] == Directly(local.value)
    ensures forall i :: 0 <= i < |r| && r[i].Directly? ==> local.Some? && i == |given|
  {
    seq(|given|, i requires 0 <= i < |given| => Demote(given[i]))
      + (if local.Some? then [Directly(local.value)] else [])
  }

  lemma {:induction false} DirectCountOnlyLast(chain: Chain, last: nat)
    requires forall i :: 0 <= i < |chain| && chain[i].Directly? ==> i == last
    ensures DirectCount(chain) == if last < |chain| && chain[last].Directly? then 1 else 0
  {
    if chain != [] {
      var init := chain[..|chain| - 1];
      assert forall i :: 0 <= i < |init| ==> init[i] == chain[i];
      DirectCountOnlyLast(init, last);
    }
  }

  /** A resolved context holds one direct entry when the item has its own configuration, none otherwise. */
  lemma ContextDirectCount(given: Chain, local: Option<Args>)
    ensures DirectCount(CreateContext(given, local)) == if local.Some? then 1 else 0
  {
    DirectCountOnlyLast(CreateContext(given, local), |given|);
  }

  /**
   * The test the walker and the parameter extraction apply to a name: some
   * direct entry has `enable` without the name or `disable` with it.
   */
  ghost predicate DirectlyExcluded(chain: Chain, name: string)
  {
    exists i :: 0 <= i < |chain| && chain[i].Directly? && Excludes(chain[i].args.filter, name)
  }

  /** The loop over the chain that ends (`continue 'item_eval` / `return`) at the first direct entry excluding `name`. */
  method IsDirectlyExcluded(chain: Chain, name: string) returns (b: bool)
    ensures b <==> DirectlyExcluded(chain, name)
  {
    for i := 0 to |chain|
      invariant forall j :: 0 <= j < i ==> !(chain[j].Directly? && Excludes(chain[j].args.filter, name))
    {
      if chain[i].Directly? {
        match chain[i].args.filter
        case Enable(names) =>
          if name !in names {
            return true;
          }
        case Disable(names) =>
          if name in names {
            return true;
          }
        case NoFilter =>
      }
    }
    return false;
  }

  /**
   * Filtering is local: in a resolved context only the item's own
   * configuration can exclude a name; inherited filters never do.
   */
  lemma ExclusionIsLocal(given: Chain, local: Option<Args>, name: string)
    ensures DirectlyExcluded(CreateContext(given, local), name)
        <==> local.Some? && Excludes(local.value.filter, name)
  {
    var c := CreateContext(given, local);
    if local.Some? && Excludes(local.value.filter, name) {
      assert c[|given|].Directly? && Excludes(c[|given|].args.filter, name);
    }
  }

  /** The inherited part of a context never excludes anything, whatever the ancestors' filters say. */
  lemma InheritedNeverExcludes(given: Chain, name: string)
    ensures !DirectlyExcluded(CreateContext(given, None), name)
  {
    ExclusionIsLocal(given, None, name);
  }
}
