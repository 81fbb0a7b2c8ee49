/**
  What one injection pass computes, as pure functions: the request `GetSharedObject` makes for
  a member, the slot of the target a member write lands in, the effect of one member
  (`ProcessInjection`), and the whole pass as a fold over the members of the types in walk
  order that stops at the first failure, keeping the writes made before it.
*/
module InjectionSpec {
  import opened Wrappers
  import opened Attribute
  import opened Reflection
  import opened Registry
  import opened Hierarchy

  datatype Error =
    | ArgumentNull(paramName: string)
      /** What the registry raises for a request it cannot answer. */
    | NotFound(request: Request)
      /** `MethodInfo.Invoke` rethrows whatever the invoked lookup raised inside this wrapper. */
    | TargetInvocation(inner: Error)
      /**
        The editor build's `new Exception(message)`: the target's `GetType().Name`, the member's
        name and its declared type. It carries no inner exception; the caught one survives only
        as message text, which is not modelled.
      */
    | InjectionFailure(typeName: string, memberName: string, memberType: TypeName)

  datatype Outcome = Pass | Fail(error: Error)

  /** A storage location of the target object: a field, a property, or a property's backing field. */
  datatype Slot = Slot(owner: TypeName, name: string)

  type Slots = map<Slot, Value>

  /** How far a pass got: whether it has failed, and the target's slots at that point. */
  datatype PassState = PassState(outcome: Outcome, slots: Slots)

  /** One member of one type, as the pass meets it. */
  datatype Step = Step(owner: TypeName, member: Member)

  /**
    What stays fixed during a pass: the reflection data, the registry, the build flag and
    `target.GetType()`, by its full name (the editor wrapper reports its `SimpleName`).
  */
  datatype Context = Context(graph: TypeGraph, share: GameShare, editor: bool, targetType: TypeName)

  /**
    The request a declaration makes: the generic argument is always the member's type; the key is
    the member's type when no main type is given, the main type when no sub type is given, and the
    (main type, sub type) pair otherwise.
  */
  function LookupRequest(memberType: TypeName, attr: InjectAttr): (r: Request)
    ensures r.asType == memberType
    ensures r.key.BySubType? <==> attr.mainType.Some? && attr.subType.Some?
    ensures r.key.BySubType? ==> r.key == BySubType(attr.mainType.value, attr.subType.value)
    ensures r.key.ByType? ==> r.key.keyType == if attr.mainType.Some? then attr.mainType.value else memberType
  {
    match (attr.mainType, attr.subType)
    case (None, _) => Request(memberType, ByType(memberType))
    case (Some(main), None) => Request(memberType, ByType(main))
    case (Some(main), Some(sub)) => Request(memberType, BySubType(main, sub))
  }

  function Found(v: Option<Value>, req: Request): Result<Value, Error> {
    match v
    case Some(x) => Success(x)
    case None => Failure(TargetInvocation(NotFound(req)))
  }

  /**
    `GetSharedObject`: picks the registry lookup by which of `MainType` and `SubType` are null and
    calls it through `MethodInfo.Invoke`, so a failing lookup surfaces wrapped in `TargetInvocation`.
  */
  function GetSharedObject(share: GameShare, memberType: TypeName, attr: InjectAttr): (r: Result<Value, Error>)
    ensures r.Success? <==> LookupRequest(memberType, attr) in share.entries
    ensures r.Success? ==> r.value == share.entries[LookupRequest(memberType, attr)]
    ensures r.Failure? ==> r.error == TargetInvocation(NotFound(LookupRequest(memberType, attr)))
  {
    if attr.mainType.None? then
      Found(share.InjectSharedObject(memberType, memberType), Request(memberType, ByType(memberType)))
    else if attr.subType.None? then
      Found(share.InjectSharedObject(memberType, attr.mainType.value), Request(memberType, ByType(attr.mainType.value)))
    else
      Found(share.InjectSharedSubTypeObject(memberType, attr.mainType.value, attr.subType.value),
            Request(memberType, BySubType(attr.mainType.value, attr.subType.value)))
  }

  /**
    Where writing member `m` of type `owner` lands: a field is written directly; a property through
    its setter; a property without a setter through its `<Name>k__BackingField` when the type declares
    one, and nowhere otherwise.
  */
  function WriteSlot(g: TypeGraph, owner: TypeName, m: Member): (r: Option<Slot>)
    requires owner in g
    ensures r.Some? ==> r.value.owner == owner
    ensures m.FieldMember? || m.property.hasSetter ==> r == Some(Slot(owner, m.Name()))
    ensures r.None? <==> m.PropertyMember? && !m.property.hasSetter && !DeclaresField(g[owner], BackingFieldName(m.Name()))
    ensures m.PropertyMember? && !m.property.hasSetter && r.Some? ==> r.value.name == BackingFieldName(m.Name())
  {
    match m
    case FieldMember(f) => Some(Slot(owner, f.name))
    case PropertyMember(p) =>
      if p.hasSetter then Some(Slot(owner, p.name))
      else if DeclaresField(g[owner], BackingFieldName(p.name)) then Some(Slot(owner, BackingFieldName(p.name)))
      else None
  }

  function Write(s: Slots, slot: Option<Slot>, v: Value): Slots {
    if slot.Some? then s[slot.value := v] else s
  }

  /**
    The error a failed lookup surfaces as: replaced by the context-carrying exception in editor
    builds, and left as `Invoke` raised it otherwise.
  */
  function Raised(ctx: Context, m: Member, cause: Error): Error {
    if ctx.editor then InjectionFailure(SimpleName(ctx.targetType), m.Name(), m.DeclaredType()) else cause
  }

  /** `ProcessInjection` of one member. */
  function StepRun(ctx: Context, s: Slots, st: Step): (r: PassState)
    requires st.owner in ctx.graph
    ensures r.outcome.Pass? <==> Resolves(ctx, st)
    ensures r.outcome.Fail? ==> st.member.Inject().Some? && r.slots == s && r.outcome.error == Unresolved(ctx, st)
  {
    match st.member.Inject()
    case None => PassState(Pass, s)
    case Some(attr) =>
      match GetSharedObject(ctx.share, st.member.DeclaredType(), attr)
      case Failure(e) => PassState(Fail(Raised(ctx, st.member, e)), s)
      case Success(v) => PassState(Pass, Write(s, WriteSlot(ctx.graph, st.owner, st.member), v))
  }

  predicate OwnersKnown(g: TypeGraph, steps: seq<Step>) {
    forall i | 0 <= i < |steps| :: steps[i].owner in g
  }

  /** The members of `steps` processed in turn, stopping at the first failure. */
  function Run(ctx: Context, s: Slots, steps: seq<Step>): (r: PassState)
    requires OwnersKnown(ctx.graph, steps)
    ensures r.outcome.Fail? ==>
      if ctx.editor then r.outcome.error.InjectionFailure? && r.outcome.error.typeName == SimpleName(ctx.targetType)
      else r.outcome.error.TargetInvocation?
    decreases |steps|
  {
    if steps == [] then PassState(Pass, s)
    else
      var first := StepRun(ctx, s, steps[0]);
      if first.outcome.Fail? then first else Run(ctx, first.slots, steps[1..])
  }

  /** `InjectMembers(type)`: the declared fields, in order, then the declared properties, in order. */
  function TypeSteps(g: TypeGraph, t: TypeName): (r: seq<Step>)
    requires t in g
    ensures |r| == |g[t].fields| + |g[t].properties|
    ensures forall i | 0 <= i < |g[t].fields| :: r[i] == Step(t, FieldMember(g[t].fields[i]))
    ensures forall j | 0 <= j < |g[t].properties| :: r[|g[t].fields| + j] == Step(t, PropertyMember(g[t].properties[j]))
  {
    var fields := g[t].fields;
    var properties := g[t].properties;
    seq(|fields|, i requires 0 <= i < |fields| => Step(t, FieldMember(fields[i])))
    + seq(|properties|, j requires 0 <= j < |properties| => Step(t, PropertyMember(properties[j])))
  }

  /**
    The members of each type of `order`, type after type. A type the graph does not describe has
    none; the walk never lists one (`Hierarchy.WalkVisitsOnce`).
  */
  function StepsOf(g: TypeGraph, order: seq<TypeName>): (r: seq<Step>)
    ensures OwnersKnown(g, r)
  {
    if order == [] then []
    else (if order[0] in g then TypeSteps(g, order[0]) else []) + StepsOf(g, order[1..])
  }

  /** Only members of the types in `order` are processed. */
  lemma {:induction false} StepsOfOwnedByOrder(g: TypeGraph, order: seq<TypeName>)
    ensures forall i | 0 <= i < |StepsOf(g, order)| :: StepsOf(g, order)[i].owner in order
    decreases |order|
  {
    if order != [] {
      StepsOfOwnedByOrder(g, order[1..]);
      var own: seq<Step> := if order[0] in g then TypeSteps(g, order[0]) else [];
      var rest := StepsOf(g, order[1..]);
      forall i | 0 <= i < |own + rest| ensures (own + rest)[i].owner in order {
        if i >= |own| {
          assert (own + rest)[i] == rest[i - |own|];
          assert rest[i - |own|].owner in order[1..];
        }
      }
    }
  }

  /** The pass `InjectSharedObjects` runs once both arguments are non-null. */
  function Injection(ctx: Context, s: Slots): (r: PassState)
    requires WellFormed(ctx.graph) && Known(ctx.graph, ctx.targetType)
    ensures ctx.targetType == OBJECT ==> r == PassState(Pass, s)
  {
    Run(ctx, s, StepsOf(ctx.graph, Walk(ctx.graph, Some(ctx.targetType), {}).order))
  }

  // ---------------------------------------------------------------------------------------------
  // Properties of the pass

  /**
    The three declaration forms: the no-argument form looks up the member's own type, the
    one-type form that type, the two-type form the (main, sub) pair; a null main type falls back to
    the member's type whatever the sub type. The generic argument is the member's type in all.
  */
  lemma DeclarationKeys(memberType: TypeName, main: TypeName, sub: TypeName, other: Option<TypeName>)
    ensures LookupRequest(memberType, Implicit()) == Request(memberType, ByType(memberType))
    ensures LookupRequest(memberType, WithMainType(Some(main))) == Request(memberType, ByType(main))
    ensures LookupRequest(memberType, WithMainAndSubType(Some(main), Some(sub))) == Request(memberType, BySubType(main, sub))
    ensures LookupRequest(memberType, WithMainType(None)) == Request(memberType, ByType(memberType))
    ensures LookupRequest(memberType, WithMainAndSubType(None, other)) == Request(memberType, ByType(memberType))
    ensures LookupRequest(memberType, WithMainAndSubType(Some(main), None)) == Request(memberType, ByType(main))
  {
  }

  /** Two declarations with one main type and different sub types never share a registry entry. */
  lemma SubTypesKeepEntriesApart(memberType: TypeName, main: TypeName, sub1: TypeName, sub2: TypeName)
    requires sub1 != sub2
    ensures LookupRequest(memberType, WithMainAndSubType(Some(main), Some(sub1)))
         != LookupRequest(memberType, WithMainAndSubType(Some(main), Some(sub2)))
  {
  }

  /** A member without the attribute makes no lookup and changes nothing. */
  lemma UnannotatedMemberIsSkipped(ctx: Context, s: Slots, st: Step)
    requires st.owner in ctx.graph && st.member.Inject().None?
    ensures StepRun(ctx, s, st) == PassState(Pass, s)
  {
  }

  /**
    The write of a resolved value `v`: a field takes it; a property with a setter takes it; a
    property without one passes it to its backing field if that exists, and otherwise the value is
    dropped without an error. Only that one slot changes.
  */
  lemma MemberWrite(ctx: Context, s: Slots, st: Step, attr: InjectAttr, v: Value)
    requires st.owner in ctx.graph && st.member.Inject() == Some(attr)
    requires GetSharedObject(ctx.share, st.member.DeclaredType(), attr) == Success(v)
    ensures var r := StepRun(ctx, s, st);
      && r.outcome == Pass
      && (st.member.FieldMember? ==> r.slots == s[Slot(st.owner, st.member.field.name) := v])
      && (st.member.PropertyMember? && st.member.property.hasSetter ==>
            r.slots == s[Slot(st.owner, st.member.property.name) := v])
      && (st.member.PropertyMember? && !st.member.property.hasSetter ==>
            var backing := BackingFieldName(st.member.property.name);
            if DeclaresField(ctx.graph[st.owner], backing) then r.slots == s[Slot(st.owner, backing) := v]
            else r.slots == s)
  {
  }

  /** Does the member resolve: either it is not annotated, or its request is registered. */
  predicate Resolves(ctx: Context, st: Step) {
    st.member.Inject().Some? ==> LookupRequest(st.member.DeclaredType(), st.member.Inject().value) in ctx.share.entries
  }

  /** The error an unresolvable member raises. */
  function Unresolved(ctx: Context, st: Step): Error
    requires st.member.Inject().Some?
  {
    Raised(ctx, st.member, TargetInvocation(NotFound(LookupRequest(st.member.DeclaredType(), st.member.Inject().value))))
  }

  /** Running `a` then `b` is running `a + b`; once `a` has failed, nothing of `b` runs. */
  lemma {:induction false} RunAppend(ctx: Context, s: Slots, a: seq<Step>, b: seq<Step>)
    requires OwnersKnown(ctx.graph, a) && OwnersKnown(ctx.graph, b)
    ensures OwnersKnown(ctx.graph, a + b)
    ensures Run(ctx, s, a + b) ==
      var ra := Run(ctx, s, a);
      if ra.outcome.Fail? then ra else Run(ctx, ra.slots, b)
    decreases |a|
  {
    assert OwnersKnown(ctx.graph, a + b) by {
      forall i | 0 <= i < |a + b| ensures (a + b)[i].owner in ctx.graph {
        if i >= |a| { assert (a + b)[i] == b[i - |a|]; }
      }
    }
    if a == [] {
      assert a + b == b;
    } else {
      assert (a + b)[0] == a[0];
      assert (a + b)[1..] == a[1..] + b;
      var first := StepRun(ctx, s, a[0]);
      if first.outcome.Pass? {
        RunAppend(ctx, first.slots, a[1..], b);
      }
    }
  }

  lemma {:induction false} StepsOfAppend(g: TypeGraph, a: seq<TypeName>, b: seq<TypeName>)
    ensures StepsOf(g, a + b) == StepsOf(g, a) + StepsOf(g, b)
    decreases |a|
  {
    if a == [] {
      assert a + b == b;
    } else {
      assert (a + b)[0] == a[0];
      assert (a + b)[1..] == a[1..] + b;
      StepsOfAppend(g, a[1..], b);
    }
  }

  /** A pass succeeds exactly when every annotated member it meets is registered. */
  lemma {:induction false} RunPassesIffAllResolve(ctx: Context, s: Slots, steps: seq<Step>)
    requires OwnersKnown(ctx.graph, steps)
    ensures Run(ctx, s, steps).outcome.Pass? <==> forall i | 0 <= i < |steps| :: Resolves(ctx, steps[i])
    decreases |steps|
  {
    if steps != [] {
      var first := StepRun(ctx, s, steps[0]);
      if first.outcome.Pass? {
        RunPassesIffAllResolve(ctx, first.slots, steps[1..]);
        if forall i | 0 <= i < |steps[1..]| :: Resolves(ctx, steps[1..][i]) {
          forall i | 0 <= i < |steps| ensures Resolves(ctx, steps[i]) {
            if i > 0 { assert steps[i] == steps[1..][i - 1]; }
          }
        } else {
          var i :| 0 <= i < |steps[1..]| && !Resolves(ctx, steps[1..][i]);
          assert steps[1..][i] == steps[i + 1];
        }
      }
    }
  }

  /**
    A failed pass reports the first unresolvable member: its lookup's `NotFound` inside `Invoke`'s
    wrapper, replaced in editor builds by an error naming the target's type, the member and its
    declared type; every member before it resolved.
  */
  lemma {:induction false} RunFailsAtFirstUnresolved(ctx: Context, s: Slots, steps: seq<Step>)
    requires OwnersKnown(ctx.graph, steps)
    requires Run(ctx, s, steps).outcome.Fail?
    ensures exists i :: 0 <= i < |steps| && FailsFirst(ctx, steps, i, Run(ctx, s, steps).outcome.error)
    decreases |steps|
  {
    var first := StepRun(ctx, s, steps[0]);
    if first.outcome.Fail? {
      assert FailsFirst(ctx, steps, 0, first.outcome.error);
    } else {
      RunFailsAtFirstUnresolved(ctx, first.slots, steps[1..]);
      var i :| 0 <= i < |steps[1..]| && FailsFirst(ctx, steps[1..], i, Run(ctx, first.slots, steps[1..]).outcome.error);
      assert steps[i + 1] == steps[1..][i];
      forall j | 0 <= j < i + 1 ensures Resolves(ctx, steps[j]) {
        if j > 0 { assert steps[j] == steps[1..][j - 1]; }
      }
      assert FailsFirst(ctx, steps, i + 1, Run(ctx, s, steps).outcome.error);
    }
  }

  /** Member `i` is the first that does not resolve, and `e` is what it raises. */
  predicate FailsFirst(ctx: Context, steps: seq<Step>, i: nat, e: Error)
    requires i < |steps|
  {
    && !Resolves(ctx, steps[i])
    && e == Unresolved(ctx, steps[i])
    && (ctx.editor ==> e.InjectionFailure? && e.typeName == SimpleName(ctx.targetType))
    && (!ctx.editor ==> e.TargetInvocation?)
    && forall j | 0 <= j < i :: Resolves(ctx, steps[j])
  }

  /** The slots annotated members of `steps` would write. */
  function WriteTargets(g: TypeGraph, steps: seq<Step>): set<Slot>
    requires OwnersKnown(g, steps)
    decreases |steps|
  {
    if steps == [] then {}
    else
      var st := steps[0];
      var here := if st.member.Inject().Some? && WriteSlot(g, st.owner, st.member).Some?
                  then {WriteSlot(g, st.owner, st.member).value} else {};
      here + WriteTargets(g, steps[1..])
  }

  /** A pass changes no slot other than those its annotated members write, whether it fails or not. */
  lemma {:induction false} OnlyAnnotatedMembersChange(ctx: Context, s: Slots, steps: seq<Step>, k: Slot)
    requires OwnersKnown(ctx.graph, steps)
    requires k !in WriteTargets(ctx.graph, steps)
    ensures var r := Run(ctx, s, steps).slots;
      (k in r <==> k in s) && (k in s ==> r[k] == s[k])
    decreases |steps|
  {
    if steps != [] {
      var first := StepRun(ctx, s, steps[0]);
      if first.outcome.Pass? {
        OnlyAnnotatedMembersChange(ctx, first.slots, steps[1..], k);
      }
    }
  }

  /**
    One member overlays what it writes on the target: its outcome and the slot it writes do not
    depend on what the target held before.
  */
  lemma StepOverlays(ctx: Context, s: Slots, st: Step)
    requires st.owner in ctx.graph
    ensures var alone := StepRun(ctx, map[], st);
      StepRun(ctx, s, st) == PassState(alone.outcome, s + alone.slots)
  {
    var alone := StepRun(ctx, map[], st);
    if alone.outcome.Pass? && st.member.Inject().Some? {
      var v := GetSharedObject(ctx.share, st.member.DeclaredType(), st.member.Inject().value).value;
      var slot := WriteSlot(ctx.graph, st.owner, st.member);
      if slot.Some? {
        assert s[slot.value := v] == s + map[slot.value := v];
      }
    }
  }

  /**
    A pass overlays its writes on the target: from any prior state it reaches the same outcome, and
    it ends with the prior slots updated by exactly what it writes into an empty target.
  */
  lemma {:induction false} RunOverlays(ctx: Context, s: Slots, steps: seq<Step>)
    requires OwnersKnown(ctx.graph, steps)
    ensures var alone := Run(ctx, map[], steps);
      Run(ctx, s, steps) == PassState(alone.outcome, s + alone.slots)
    decreases |steps|
  {
    if steps != [] {
      StepOverlays(ctx, s, steps[0]);
      var e0 := StepRun(ctx, map[], steps[0]);
      if e0.outcome.Pass? {
        var rest := Run(ctx, map[], steps[1..]);
        RunOverlays(ctx, s + e0.slots, steps[1..]);
        RunOverlays(ctx, e0.slots, steps[1..]);
        assert (s + e0.slots) + rest.slots == s + (e0.slots + rest.slots);
      }
    }
  }

  /** Whether the pass succeeds, and which error it raises, does not depend on the target's state. */
  lemma OutcomeIgnoresTargetState(ctx: Context, s: Slots, s': Slots)
    requires WellFormed(ctx.graph) && Known(ctx.graph, ctx.targetType)
    ensures Injection(ctx, s).outcome == Injection(ctx, s').outcome
  {
    var steps := StepsOf(ctx.graph, Walk(ctx.graph, Some(ctx.targetType), {}).order);
    RunOverlays(ctx, s, steps);
    RunOverlays(ctx, s', steps);
  }

  /**
    Injecting into an object a second time, against the same registry, changes nothing: the same
    members resolve to the same shared objects and land in the same slots.
  */
  lemma InjectionIsIdempotent(ctx: Context, s: Slots)
    requires WellFormed(ctx.graph) && Known(ctx.graph, ctx.targetType)
    ensures Injection(ctx, Injection(ctx, s).slots) == Injection(ctx, s)
  {
    var steps := StepsOf(ctx.graph, Walk(ctx.graph, Some(ctx.targetType), {}).order);
    var alone := Run(ctx, map[], steps);
    RunOverlays(ctx, s, steps);
    RunOverlays(ctx, s + alone.slots, steps);
    assert (s + alone.slots) + alone.slots == s + alone.slots;
  }
}
