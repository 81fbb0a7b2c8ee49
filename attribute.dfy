/** `InjectSharedObjectAttribute`: the per-member declaration of a shared-object dependency. */
module Attribute {
  import opened Wrappers

  /**
    `MainType` and `SubType` as the attribute stores them; a `Type` argument may be null, so
    both are optional whichever constructor built the attribute. Type names are strings here
    (see `Reflection.TypeName`).
  */
  datatype InjectAttr = InjectAttr(mainType: Option<string>, subType: Option<string>)

  /** `[InjectSharedObject]`: both types left null. */
  function Implicit(): (a: InjectAttr)
    ensures a.mainType.None? && a.subType.None?
  {
    InjectAttr(None, None)
  }

  /** `[InjectSharedObject(mainType)]`: the sub type is left null. */
  function WithMainType(mainType: Option<string>): (a: InjectAttr)
    ensures a.mainType == mainType && a.subType.None?
  {
    InjectAttr(mainType, None)
  }

  /** `[InjectSharedObject(mainType, subType)]`. */
  function WithMainAndSubType(mainType: Option<string>, subType: Option<string>): (a: InjectAttr)
    ensures a.mainType == mainType && a.subType == subType
  {
    InjectAttr(mainType, subType)
  }
}
