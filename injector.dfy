/**
  `SharedObjectInjector`: the injection pass as the source runs it, changing the target object in
  place and growing a visited set while it recurses through the type hierarchy. Each method is
  proved against the pure description in `InjectionSpec` and `Hierarchy`.
*/
module SharedObjectInjector {
  import opened Wrappers
  import opened Reflection
  import opened Registry
  import opened Hierarchy
  import opened InjectionSpec

  /** A consumer object: its runtime type (`GetType()`) and what its storage locations hold. */
  class Target {
    const runtimeType: TypeName
    var slots: Slots

    constructor (runtimeType: TypeName, slots: Slots)
      ensures this.runtimeType == runtimeType && this.slots == slots
    {
      this.runtimeType := runtimeType;
      this.slots := slots;
    }
  }

  /** The `HashSet<Type>` of types the pass has entered. */
  class TypeSet {
    var elements: set<TypeName>

    constructor ()
      ensures elements == {}
    {
      elements := {};
    }

    /** `HashSet.Add`: reports whether `t` was new, and adds it. */
    method Add(t: TypeName) returns (added: bool)
      modifies this
      ensures added <==> t !in old(elements)
      ensures elements == old(elements) + {t}
    {
      added := t !in elements;
      elements := elements + {t};
    }
  }

  /**
    `InjectSharedObjects(target, gameShare)`: a null target, then a null registry, is refused before
    anything is visited or written; otherwise the pass runs from `target.GetType()` with an empty
    visited set.
  */
  method InjectSharedObjects(target: Target?, gameShare: Option<GameShare>, g: TypeGraph, editor: bool)
    returns (outcome: Outcome)
    requires WellFormed(g) && (target != null ==> Known(g, target.runtimeType))
    modifies target
    ensures target == null ==> outcome == Fail(ArgumentNull("target"))
    ensures target != null && gameShare.None? ==>
      outcome == Fail(ArgumentNull("gameShare")) && target.slots == old(target.slots)
    ensures target != null && gameShare.Some? ==>
      PassState(outcome, target.slots) ==
        Injection(Context(g, gameShare.value, editor, target.runtimeType), old(target.slots))
  {
    if target == null {
      return Fail(ArgumentNull("target"));
    }
    if gameShare.None? {
      return Fail(ArgumentNull("gameShare"));
    }
    var visited := new TypeSet();
    outcome := InjectTypeHierarchy(target, gameShare.value, g, editor, Some(target.runtimeType), visited);
  }

  /** The extension form `gameShare.InjectSharedObjects(injectingClass)`, which forwards to the above. */
  method InjectFromShare(gameShare: Option<GameShare>, injectingClass: Target?, g: TypeGraph, editor: bool)
    returns (outcome: Outcome)
    requires WellFormed(g) && (injectingClass != null ==> Known(g, injectingClass.runtimeType))
    modifies injectingClass
    ensures injectingClass == null ==> outcome == Fail(ArgumentNull("target"))
    ensures injectingClass != null && gameShare.None? ==>
      outcome == Fail(ArgumentNull("gameShare")) && injectingClass.slots == old(injectingClass.slots)
    ensures injectingClass != null && gameShare.Some? ==>
      PassState(outcome, injectingClass.slots) ==
        Injection(Context(g, gameShare.value, editor, injectingClass.runtimeType), old(injectingClass.slots))
  {
    outcome := InjectSharedObjects(injectingClass, gameShare, g, editor);
  }

  /**
    `InjectTypeHierarchy(type)`: the members of the types `Walk` lists, in its order, until a member
    fails; when none fails, `visited` ends as `Walk` says.
  */
  method InjectTypeHierarchy(target: Target, gameShare: GameShare, g: TypeGraph, editor: bool,
                             ot: Option<TypeName>, visited: TypeSet)
    returns (outcome: Outcome)
    requires WellFormed(g) && KnownOpt(g, ot)
    modifies target, visited
    ensures var w := Walk(g, ot, old(visited.elements));
      && PassState(outcome, target.slots) ==
           Run(Context(g, gameShare, editor, target.runtimeType), old(target.slots), StepsOf(g, w.order))
      && (outcome.Pass? ==> visited.elements == w.visited)
    decreases |g.Keys - visited.elements|, 0
  {
    ghost var ctx := Context(g, gameShare, editor, target.runtimeType);
    ghost var vis0 := visited.elements;
    ghost var s0 := target.slots;
    if ot.None? || ot.value == OBJECT {
      return Pass;
    }
    var t := ot.value;
    var added := visited.Add(t);
    if !added {
      return Pass;
    }
    ghost var fromBase := Walk(g, g[t].base, vis0 + {t});
    ghost var own := TypeSteps(g, t);
    ghost var baseSteps := StepsOf(g, fromBase.order);
    ghost var interfaceSteps := StepsOf(g, WalkEach(g, g[t].interfaces, 0, fromBase.visited).order);
    ghost var final := Run(ctx, s0, StepsOf(g, Walk(g, ot, vis0).order));
    WalkSteps(g, t, vis0);
    RunAppend(ctx, s0, own, baseSteps + interfaceSteps);

    // 1. the type's own fields and properties
    outcome := InjectMembers(target, gameShare, g, editor, t);
    if outcome.Fail? {
      return;
    }
    ghost var s1 := target.slots;
    assert final == Run(ctx, s1, baseSteps + interfaceSteps);
    RunAppend(ctx, s1, baseSteps, interfaceSteps);

    // 2. the base type
    FewerUnvisited(g.Keys, vis0, visited.elements, t);
    outcome := InjectTypeHierarchy(target, gameShare, g, editor, g[t].base, visited);
    if outcome.Fail? {
      return;
    }

    // 3. every interface, in the order GetInterfaces() reports them
    WalkVisitsOnce(g, g[t].base, vis0 + {t});
    FewerUnvisited(g.Keys, vis0, visited.elements, t);
    outcome := InjectInterfaces(target, gameShare, g, editor, g[t].interfaces, visited);
  }

  /**
    The `foreach` over `GetInterfaces()` at the end of `InjectTypeHierarchy`: each interface's
    hierarchy in turn, sharing one visited set, until one fails.
  */
  method InjectInterfaces(target: Target, gameShare: GameShare, g: TypeGraph, editor: bool,
                          interfaces: seq<TypeName>, visited: TypeSet)
    returns (outcome: Outcome)
    requires WellFormed(g) && AllKnown(g, interfaces)
    modifies target, visited
    ensures var w := WalkEach(g, interfaces, 0, old(visited.elements));
      && PassState(outcome, target.slots) ==
           Run(Context(g, gameShare, editor, target.runtimeType), old(target.slots), StepsOf(g, w.order))
      && (outcome.Pass? ==> visited.elements == w.visited)
    decreases |g.Keys - visited.elements|, 1
  {
    ghost var ctx := Context(g, gameShare, editor, target.runtimeType);
    ghost var final := Run(ctx, target.slots, StepsOf(g, WalkEach(g, interfaces, 0, visited.elements).order));
    ghost var finalVisited := WalkEach(g, interfaces, 0, visited.elements).visited;
    outcome := Pass;
    for i := 0 to |interfaces|
      invariant old(visited.elements) <= visited.elements
      invariant finalVisited == WalkEach(g, interfaces, i, visited.elements).visited
      invariant final == Run(ctx, target.slots, StepsOf(g, WalkEach(g, interfaces, i, visited.elements).order))
      invariant outcome == Pass
    {
      ghost var vBefore := visited.elements;
      ghost var sBefore := target.slots;
      NoMoreUnvisited(g.Keys, old(visited.elements), vBefore);
      outcome := InjectTypeHierarchy(target, gameShare, g, editor, Some(interfaces[i]), visited);
      NextInterface(ctx, interfaces, i, vBefore, sBefore, PassState(outcome, target.slots), visited.elements);
      if outcome.Fail? {
        return;
      }
    }
  }

  /** One turn of the `foreach` over the interfaces: what is left to do after interface `i`. */
  lemma NextInterface(ctx: Context, interfaces: seq<TypeName>, i: nat, vBefore: set<TypeName>,
                      sBefore: Slots, after: PassState, vAfter: set<TypeName>)
    requires WellFormed(ctx.graph) && AllKnown(ctx.graph, interfaces) && i < |interfaces|
    requires after == Run(ctx, sBefore, StepsOf(ctx.graph, Walk(ctx.graph, Some(interfaces[i]), vBefore).order))
    requires after.outcome.Pass? ==> vAfter == Walk(ctx.graph, Some(interfaces[i]), vBefore).visited
    ensures var g := ctx.graph;
      var whole := Run(ctx, sBefore, StepsOf(g, WalkEach(g, interfaces, i, vBefore).order));
      && (after.outcome.Fail? ==> whole == after)
      && (after.outcome.Pass? ==>
            && vBefore <= vAfter
            && whole == Run(ctx, after.slots, StepsOf(g, WalkEach(g, interfaces, i + 1, vAfter).order))
            && WalkEach(g, interfaces, i, vBefore).visited == WalkEach(g, interfaces, i + 1, vAfter).visited)
  {
    var g := ctx.graph;
    var here := Walk(g, Some(interfaces[i]), vBefore);
    var later := WalkEach(g, interfaces, i + 1, here.visited);
    StepsOfAppend(g, here.order, later.order);
    RunAppend(ctx, sBefore, StepsOf(g, here.order), StepsOf(g, later.order));
  }

  /** The steps of a fresh type's walk: its own members, then its base's walk, then its interfaces'. */
  lemma WalkSteps(g: TypeGraph, t: TypeName, vis: set<TypeName>)
    requires WellFormed(g) && t in g && t != OBJECT && t !in vis
    ensures var fromBase := Walk(g, g[t].base, vis + {t});
      var fromInterfaces := WalkEach(g, g[t].interfaces, 0, fromBase.visited);
      && Walk(g, Some(t), vis).visited == fromInterfaces.visited
      && StepsOf(g, Walk(g, Some(t), vis).order) ==
           TypeSteps(g, t) + (StepsOf(g, fromBase.order) + StepsOf(g, fromInterfaces.order))
  {
    var fromBase := Walk(g, g[t].base, vis + {t});
    var fromInterfaces := WalkEach(g, g[t].interfaces, 0, fromBase.visited);
    var order := Walk(g, Some(t), vis).order;
    assert order == [t] + (fromBase.order + fromInterfaces.order);
    StepsOfAppend(g, [t], fromBase.order + fromInterfaces.order);
    StepsOfAppend(g, fromBase.order, fromInterfaces.order);
    assert StepsOf(g, [t]) == TypeSteps(g, t) + StepsOf(g, []);
  }

  /** `InjectMembers(type)`: every declared field, then every declared property, until one fails. */
  method InjectMembers(target: Target, gameShare: GameShare, g: TypeGraph, editor: bool, t: TypeName)
    returns (outcome: Outcome)
    requires t in g
    modifies target
    ensures PassState(outcome, target.slots) ==
      Run(Context(g, gameShare, editor, target.runtimeType), old(target.slots), TypeSteps(g, t))
  {
    ghost var ctx := Context(g, gameShare, editor, target.runtimeType);
    ghost var steps := TypeSteps(g, t);
    var fields := g[t].fields;
    var properties := g[t].properties;
    assert steps[0..] == steps;
    for i := 0 to |fields|
      invariant Run(ctx, old(target.slots), steps) == Run(ctx, target.slots, steps[i..])
    {
      RunFrom(ctx, target.slots, steps, i);
      outcome := ProcessInjection(target, gameShare, g, editor, t, FieldMember(fields[i]));
      if outcome.Fail? {
        return;
      }
    }
    for j := 0 to |properties|
      invariant Run(ctx, old(target.slots), steps) == Run(ctx, target.slots, steps[|fields| + j..])
    {
      RunFrom(ctx, target.slots, steps, |fields| + j);
      outcome := ProcessInjection(target, gameShare, g, editor, t, PropertyMember(properties[j]));
      if outcome.Fail? {
        return;
      }
    }
    outcome := Pass;
  }

  /** `Run` over the steps from index `i` on: the step at `i`, then, unless it fails, the rest. */
  lemma RunFrom(ctx: Context, s: Slots, steps: seq<Step>, i: nat)
    requires OwnersKnown(ctx.graph, steps) && i < |steps|
    ensures var first := StepRun(ctx, s, steps[i]);
      Run(ctx, s, steps[i..]) == if first.outcome.Fail? then first else Run(ctx, first.slots, steps[i + 1..])
  {
    assert steps[i..][0] == steps[i] && steps[i..][1..] == steps[i + 1..];
  }

  /**
    `ProcessInjection(member)`: no attribute, nothing; otherwise resolve against the registry and
    write. In editor builds a failed lookup is replaced by an exception naming the target's type,
    the member and its type; otherwise the `TargetInvocation` wrapper from `Invoke` propagates.
  */
  method ProcessInjection(target: Target, gameShare: GameShare, g: TypeGraph, editor: bool,
                          owner: TypeName, member: Member)
    returns (outcome: Outcome)
    requires owner in g
    modifies target
    ensures PassState(outcome, target.slots) ==
      StepRun(Context(g, gameShare, editor, target.runtimeType), old(target.slots), Step(owner, member))
  {
    var attribute := member.Inject();
    if attribute.None? {
      return Pass;
    }
    var memberType := member.DeclaredType();
    var sharedObject := GetSharedObject(gameShare, memberType, attribute.value);
    if sharedObject.Failure? {
      if editor {
        return Fail(InjectionFailure(SimpleName(target.runtimeType), member.Name(), memberType));
      }
      return Fail(sharedObject.error);
    }
    SetValue(target, g, owner, member, sharedObject.value);
    outcome := Pass;
  }

  /**
    The `setValue` callbacks of `InjectMembers`: a field is set; a property is set through its
    setter, or else through its backing field when the type declares one, or else not at all.
  */
  method SetValue(target: Target, g: TypeGraph, owner: TypeName, member: Member, value: Value)
    requires owner in g
    modifies target
    ensures target.slots == Write(old(target.slots), WriteSlot(g, owner, member), value)
  {
    match member
    case FieldMember(f) =>
      target.slots := target.slots[Slot(owner, f.name) := value];
    case PropertyMember(p) =>
      if p.hasSetter {
        target.slots := target.slots[Slot(owner, p.name) := value];
      } else {
        var backingFieldName := BackingFieldName(p.name);
        if DeclaresField(g[owner], backingFieldName) {
          target.slots := target.slots[Slot(owner, backingFieldName) := value];
        }
      }
  }
}
