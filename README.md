# GameShare shared-object injector, modelled in Dafny

GameShare is a Unity service registry. Its `SharedObjectInjector` (`Runtime/Injection.cs`) wires
a consumer object up by reflection. It walks the consumer's runtime type, then that type's base
types, then its interfaces, and enters each type at most once. In every type it visits, it looks
at the instance fields and then the properties that type declares itself. For each member marked
`[InjectSharedObject]`, `[InjectSharedObject(mainType)]` or
`[InjectSharedObject(mainType, subType)]`, it looks up a shared object in the `GameShare`
registry and writes it into the member. A property without a setter is written through its
compiler-generated backing field. The lookups go through `MethodInfo.Invoke`, which rethrows a
lookup's exception inside a `TargetInvocationException`. The first failed lookup aborts the pass.
In editor builds (`UNITY_EDITOR`), that exception is replaced by a new one whose message names
the consumer's type (`GetType().Name`), the member and the member's type.

The project is organised as follows:

- `wrappers.dfy` (`Wrappers`): `Option` and `Result`. They stand in for null references and
  thrown exceptions.
- `attribute.dfy` (`Attribute`): `InjectSharedObjectAttribute` and its three constructors.
- `reflection.dfy` (`Reflection`): a value that replaces reflection data. The `TypeGraph` maps each
  type's full name to four things: its base type, the interfaces `GetInterfaces()` reports (in
  order), its declared fields and its declared properties. Each member carries the attribute it is
  marked with, if any.
- `registry.dfy` (`Registry`): the `GameShare` registry as an abstract finite map from lookup
  requests to registered objects. A request the map does not hold is a failed lookup.
- `hierarchy.dfy` (`Hierarchy`): the order in which `InjectTypeHierarchy` enters types, written as
  the pure function `Walk` (together with `WalkEach` for the loop over the interfaces). It also
  holds what is proved about that order and about the visited set.
- `injection_spec.dfy` (`InjectionSpec`): the rest of the pass as pure functions:
  - the key selection of `GetSharedObject`;
  - where a member's write lands (`WriteSlot`);
  - one member's processing (`StepRun`);
  - the fold over the members, which stops at the first failure (`Run`);
  - the whole pass (`Injection`).

  Each of these has its lemmas.
- `injector.dfy` (`SharedObjectInjector`): the injector as the source writes it. It is imperative,
  with a `Target` object whose slots are changed in place and a `TypeSet` standing for the shared
  `HashSet<Type>`. Every method is proved against the functions above.

The consumer's state is a map from `Slot(declaring type, member name)` to a `Value`. A field is
keyed by the type that declares it, so same-named fields in a class and its base stay apart, as
they do for reflection. The `UNITY_EDITOR` compile-time switch becomes a parameter, `editor`.

## Model

| member | source | states |
|---|---|---|
| Attribute.Implicit | Runtime/Injection.cs:13-15 | the no-argument attribute leaves both the main type and the sub type null |
| Attribute.WithMainType | Runtime/Injection.cs:17-20 | the one-argument attribute stores the main type as given (it may be null) and leaves the sub type null |
| Attribute.WithMainAndSubType | Runtime/Injection.cs:22-26 | the two-argument attribute stores both types as given |
| Registry.GameShare.InjectSharedObject | Runtime/Injection.cs:138-140 | the one-key lookup succeeds exactly when the registry holds that (generic argument, key type) request, and then returns the registered object |
| Registry.GameShare.InjectSharedSubTypeObject | Runtime/Injection.cs:150-152 | the two-key lookup succeeds exactly when the registry holds that (generic argument, main type, sub type) request, and then returns the registered object |
| Reflection.BackingFieldName | Runtime/Injection.cs:89 | the backing-field name is `<`, then the property name, then `>k__BackingField` |
| Reflection.BackingFieldNameInjective | Runtime/Injection.cs:89-90 | different property names give different backing-field names, so two read-only properties of one type never share a backing field |
| Reflection.SimpleName | Runtime/Injection.cs:121 | `GetType().Name` of a full name: its longest suffix containing no namespace `.` and no nested-type `+` |
| Reflection.SimpleNameOfNestedType | Runtime/Injection.cs:121 | a nested type `Ui+Hud` is reported as `Hud` |
| InjectionSpec.LookupRequest | Runtime/Injection.cs:136-152 | the generic argument is always the member's type; the key is the (main, sub) pair exactly when both are non-null, and otherwise the main type if non-null, else the member's type |
| InjectionSpec.GetSharedObject | Runtime/Injection.cs:133-153 | the resolution succeeds if and only if the registry holds the request `LookupRequest` selects; on success it returns that entry, and on failure the error is the `Invoke` wrapper around the registry's failure for that request |
| InjectionSpec.DeclarationKeys | Runtime/Injection.cs:136-152 | the no-argument form looks up the member's own type, the one-type form the given type, and the two-type form the (main, sub) pair; a null main type falls back to the member's type whatever the sub type; the generic argument is always the member's type |
| InjectionSpec.SubTypesKeepEntriesApart | Runtime/Injection.cs:150-152 | two declarations with the same main type and different sub types ask for different entries |
| InjectionSpec.UnannotatedMemberIsSkipped | Runtime/Injection.cs:124-125 | a member without the attribute passes and leaves every slot unchanged: no lookup, no write |
| InjectionSpec.MemberWrite | Runtime/Injection.cs:69-96 | a resolved field is written to its own slot; a resolved property goes through its setter if it has one, else through its backing field if the type declares one, and is otherwise dropped silently; in every case the member passes |
| InjectionSpec.WriteSlot | Runtime/Injection.cs:69-96 | a write lands in a slot of the member's declaring type: a field's or a settable property's own slot, else the property's backing field; it lands nowhere exactly when the property has no setter and its type declares no such backing field |
| InjectionSpec.StepRun | Runtime/Injection.cs:100-131 | one member passes exactly when it is unannotated or its request is registered; when it fails the target is unchanged and the error is that member's `Unresolved` error |
| InjectionSpec.Run | Runtime/Injection.cs:66-97 | every failure of a member list is, in editor builds, the context exception naming the consumer's `SimpleName`, and the `Invoke` wrapper otherwise |
| InjectionSpec.StepsOf | Runtime/Injection.cs:47-60 | every member listed belongs to a type the graph describes |
| InjectionSpec.StepsOfOwnedByOrder | Runtime/Injection.cs:47-60 | only members of the types in the walk order are processed |
| InjectionSpec.Injection | Runtime/Injection.cs:43-44 | a consumer whose runtime type is `object` itself passes and is left unchanged |
| InjectionSpec.TypeSteps | Runtime/Injection.cs:62-97 | a type's members are its declared fields in order, then its declared properties in order, each exactly once |
| InjectionSpec.RunAppend | Runtime/Injection.cs:52-59 | running two member lists one after the other is running the first, then, unless it failed, the second from where the first left the target |
| InjectionSpec.StepsOfAppend | Runtime/Injection.cs:52-59 | the members of a concatenation of type lists are the members of each list in turn |
| InjectionSpec.RunPassesIffAllResolve | Runtime/Injection.cs:100-131 | a pass over a member list succeeds if and only if every annotated member in it resolves |
| InjectionSpec.RunFailsAtFirstUnresolved | Runtime/Injection.cs:107-122 | a failed pass fails at a member that does not resolve, after all earlier ones resolved, raising that member's error; in editor builds the error is the context exception naming the consumer's `SimpleName`, and otherwise the `Invoke` wrapper |
| InjectionSpec.OnlyAnnotatedMembersChange | Runtime/Injection.cs:100-131 | a pass, whether it succeeds or not, changes no slot except those its annotated members write |
| InjectionSpec.StepOverlays | Runtime/Injection.cs:124-129 | processing one member gives an outcome and a write that do not depend on the target's prior contents; this holds because writes never throw and a setter only stores its value, see "Left out" |
| InjectionSpec.RunOverlays | Runtime/Injection.cs:69-96 | a pass from any prior state reaches the same outcome and ends with the prior slots overwritten by exactly what it writes into an empty target; under the same assumption about writes and setters |
| InjectionSpec.OutcomeIgnoresTargetState | Runtime/Injection.cs:36-45 | whether injection succeeds, and which error it raises, does not depend on what the consumer held before; under the same assumption about writes and setters (a setter that throws depending on the object's state breaks it) |
| InjectionSpec.InjectionIsIdempotent | Runtime/Injection.cs:36-45 | injecting a consumer a second time against the same registry leaves it exactly as the first injection did; under the same assumption about writes and setters (a setter that appends breaks it) |
| Hierarchy.Walk | Runtime/Injection.cs:47-60 | the walk only ever adds types to the visited set |
| Hierarchy.WalkEach | Runtime/Injection.cs:59 | walking the interfaces in turn only ever adds types to the visited set |
| Hierarchy.WalkVisitsOnce | Runtime/Injection.cs:49-59 | the types entered are listed once each, are exactly those added to the visited set, are described types, and never include `object` |
| Hierarchy.WalkEachVisitsOnce | Runtime/Injection.cs:59 | the same for the loop over the interfaces |
| Hierarchy.WalkCloses | Runtime/Injection.cs:49-59 | a walk puts its start type (unless null or `object`) in the visited set, and every type it adds has its base type and interfaces visited too |
| Hierarchy.WalkEachCloses | Runtime/Injection.cs:59 | after the loop, every interface is visited and every type added has its base type and interfaces visited |
| Hierarchy.WalkStaysWithin | Runtime/Injection.cs:49-59 | a walk adds no type outside a set closed under base types and interfaces that contains its start type |
| Hierarchy.WalkEachStaysWithin | Runtime/Injection.cs:59 | the same for the loop over the interfaces |
| Hierarchy.VisitedIsClosed | Runtime/Injection.cs:43-44 | after a pass from an empty set, the visited set holds the runtime type and everything reachable from it through base types and interfaces, and never `object` |
| Hierarchy.VisitedIsLeast | Runtime/Injection.cs:43-44 | that visited set lies inside every set closed under base types and interfaces that contains the runtime type, so it is exactly the reachable types |
| Hierarchy.SharedInterfaceEnteredOnce | Runtime/Injection.cs:53-59 | when a class and its base both report an interface, the walk goes class, base, interface, and the class's own copy of the interface is skipped |
| SharedObjectInjector.InjectSharedObjects | Runtime/Injection.cs:36-45 | a null target fails with an argument-null error for `target`, and a null registry fails for `gameShare` before anything else runs; otherwise the target ends as `Injection` says, starting from an empty visited set |
| SharedObjectInjector.InjectFromShare | Runtime/Injection.cs:31-34 | the extension form behaves exactly as the two-argument form with its arguments swapped |
| SharedObjectInjector.InjectTypeHierarchy | Runtime/Injection.cs:47-60 | the target is changed as running the members of the walked types in `Walk`'s order says (its own members, then its base, then its interfaces), stopping at the first failure; on success the visited set ends as `Walk` says |
| SharedObjectInjector.InjectInterfaces | Runtime/Injection.cs:59 | the loop over the interfaces changes the target as `WalkEach` orders it, sharing one visited set |
| SharedObjectInjector.InjectMembers | Runtime/Injection.cs:62-98 | the target is changed as running the type's fields and then its properties says, stopping at the first failure |
| SharedObjectInjector.ProcessInjection | Runtime/Injection.cs:100-131 | one member: nothing without the attribute, otherwise resolve and write; a failed lookup fails with the context exception (consumer's `SimpleName`, member name, member type) in editor builds, and with the `Invoke` wrapper otherwise |
| SharedObjectInjector.SetValue | Runtime/Injection.cs:69-96 | the `setValue` callbacks: exactly the slot `WriteSlot` names is written, or nothing |
| SharedObjectInjector.TypeSet.Add | Runtime/Injection.cs:49 | `HashSet.Add` reports whether the type was new, and adds it |
| SharedObjectInjector.NextInterface | Runtime/Injection.cs:59 | after one turn of the interface loop, what remains is the walk of the rest, from the state this turn left |
| SharedObjectInjector.WalkSteps | Runtime/Injection.cs:52-59 | the members run for a newly entered type are its own, then those of its base's walk, then those of its interfaces' walks |

## Left out

- Reflection itself (`GetType`, `GetFields`, `GetProperties`, `GetInterfaces`,
  `Attribute.GetCustomAttribute`, `MakeGenericMethod` and `Invoke`) is replaced by the
  `TypeGraph` value. Binding flags are folded into what the graph lists: declared instance
  members only.
- The `GameShare` implementation and its registration API are not part of this model. Its two
  lookups are an abstract finite map. An absent entry is taken to make the lookup throw, which
  the model writes as `NotFound`.
- `Invoke`'s wrapping is kept only as a `TargetInvocation` layer around that `NotFound`. The
  `TargetInvocationException` message and stack are not modelled.
- `Runtime/SharedPackage.cs` (scene discovery of packages) and `Runtime/Abstractions.cs` (interface
  declarations only) are not part of this model.
- Exception messages, stack traces and the Russian message text are left out. The editor build's
  exception is built from a string and has no inner exception, so `InjectionFailure` keeps only
  the type name, member name and member type. The caught exception's message and stack trace,
  which the source pastes into that text, are not modelled.
- Writes that throw (`FieldInfo.SetValue` or a setter raising, a type mismatch) are left out.
  `SetValue` always succeeds. So in the model only a lookup can fail, and the editor build's
  `catch` replaces only lookup errors.
- What a property setter does with the value is left out. A setter is modelled as storing the
  value in the property's own slot. The overlay, outcome-independence and idempotence lemmas
  depend on this and on writes never throwing. A setter with other effects falls outside them.
- Types are identified by full name. Generic type instantiation and type identity subtleties are
  left out.
- Reflection.SimpleName: does not reproduce `Type.Name` for generic types. Their full names carry
  bracketed, assembly-qualified argument names that may contain dots, and their `Name` is the
  bare name with its arity.
- The type graph is required to be closed (`WellFormed`): every base type and interface it mentions
  is described. Reflection always answers for a loaded type, so this excludes no case the source
  can meet.
- Partial writes before a failure persist, as in the code, which has no rollback.
- A skip-on-error ("non-strict") mode, in which a member that cannot be resolved is skipped and the
  pass continues, does not exist in the code. Both builds abort the pass on the first failure, and
  the editor build only adds context to the error. The model follows the code.
- Concurrency is left out. The pass is single-threaded, with its own visited set per call.
