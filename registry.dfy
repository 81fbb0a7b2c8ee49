/**
  The `GameShare` registry as the injector sees it: an abstract partial lookup. Its two
  generic lookups, `InjectSharedObject<T>(Type)` and `InjectSharedSubTypeObject<T>(Type, Type)`,
  are answered by a finite map from requests to registered objects; an absent request is the
  lookup failing.
*/
module Registry {
  import opened Wrappers

  /** An object reference as stored in a member. */
  datatype Value = Null | Ref(id: nat)

  /** The lookup key: a single type, or a (main type, sub type) pair. */
  datatype Key = ByType(keyType: string) | BySubType(mainType: string, subType: string)

  /** `asType` is the generic argument `T` of the lookup; `key` its `Type` arguments. */
  datatype Request = Request(asType: string, key: Key)

  datatype GameShare = GameShare(entries: map<Request, Value>)
  {
    /** `InjectSharedObject<asType>(keyType)`. */
    function InjectSharedObject(asType: string, keyType: string): (r: Option<Value>)
      ensures r.Some? <==> Request(asType, ByType(keyType)) in entries
      ensures r.Some? ==> r.value == entries[Request(asType, ByType(keyType))]
    {
      var req := Request(asType, ByType(keyType));
      if req in entries then Some(entries[req]) else None
    }

    /** `InjectSharedSubTypeObject<asType>(mainType, subType)`. */
    function InjectSharedSubTypeObject(asType: string, mainType: string, subType: string): (r: Option<Value>)
      ensures r.Some? <==> Request(asType, BySubType(mainType, subType)) in entries
      ensures r.Some? ==> r.value == entries[Request(asType, BySubType(mainType, subType))]
    {
      var req := Request(asType, BySubType(mainType, subType));
      if req in entries then Some(entries[req]) else None
    }
  }
}
