/** `pkg/aks-engine/api/strictjson.go`: every key of a decoded JSON document must be a declared
    tag of the Go type it is decoded into. Types form a graph that may have cycles. */
module StrictJson {
  import opened Basics
  import opened Text

  type TypeId(==) = nat

  /** A struct field with the content of its `json` tag (empty if there is none). */
  datatype Field = Field(jsonTag: string, typ: TypeId)

  datatype Kind = Struct(fields: seq<Field>) | Slice(elem: TypeId) | Ptr(elem: TypeId) | Other

  /** The type graph, and `strings.ToLower`. */
  datatype Env = Env(kinds: map<TypeId, Kind>, lower: string -> string)
  {
    function KindOf(t: TypeId): Kind {
      if t in kinds then kinds[t] else Other
    }
  }

  /** nil, the error about one key, or a panic of `reflect` on a type that is no struct. */
  datatype Outcome = Ok | Unknown(tag: string) | Panic

  // ---------------------------------------------------------------------------------------
  // createJSONFieldMap
  // ---------------------------------------------------------------------------------------

  predicate AllStructs(env: Env, types: seq<TypeId>) {
    forall t | t in types :: env.KindOf(t).Struct?
  }

  /** The fields of all types, in order. */
  function AllFields(env: Env, types: seq<TypeId>): seq<Field>
    requires AllStructs(env, types)
  {
    if types == [] then []
    else AllFields(env, types[..|types| - 1]) + env.KindOf(types[|types| - 1]).fields
  }

  /** `strings.SplitN(tag, ",", 2)[0]` in lower case */
  function TagKey(env: Env, f: Field): string {
    env.lower(Split(f.jsonTag, ',')[0])
  }

  function AddField(env: Env, m: map<string, Field>, f: Field): map<string, Field> {
    if f.jsonTag != "" then m[TagKey(env, f) := f] else m
  }

  /** The map of a list of fields: of two fields with the same key, the later one counts. */
  function FieldMap(env: Env, fields: seq<Field>): map<string, Field> {
    if fields == [] then map[]
    else AddField(env, FieldMap(env, fields[..|fields| - 1]), fields[|fields| - 1])
  }

  lemma FieldMapSnoc(env: Env, fields: seq<Field>, f: Field)
    ensures FieldMap(env, fields + [f]) == AddField(env, FieldMap(env, fields), f)
  {
    assert (fields + [f])[..|fields|] == fields;
  }

  /** The inner loop of `createJSONFieldMap`: the fields of one type after those before it. */
  method AddFields(env: Env, m0: map<string, Field>, fields: seq<Field>, ghost before: seq<Field>)
    returns (m: map<string, Field>)
    requires m0 == FieldMap(env, before)
    ensures m == FieldMap(env, before + fields)
  {
    m := m0;
    ghost var seen := before;
    for i := 0 to |fields|
      invariant seen == before + fields[..i] && m == FieldMap(env, seen)
    {
      var f := fields[i];
      FieldMapSnoc(env, seen, f);
      seen := seen + [f];
      if f.jsonTag != "" {
        var fieldJSONkey := Split(f.jsonTag, ',')[0];
        m := m[env.lower(fieldJSONkey) := f];
      }
    }
    assert fields[..|fields|] == fields;
  }

  /** `createJSONFieldMap`; None stands for the panic of `NumField` on a non-struct. */
  method CreateJSONFieldMap(env: Env, types: seq<TypeId>) returns (fieldMap: Option<map<string, Field>>)
    ensures fieldMap == if AllStructs(env, types) then Some(FieldMap(env, AllFields(env, types))) else None
  {
    var m: map<string, Field> := map[];
    for j := 0 to |types|
      invariant AllStructs(env, types[..j])
      invariant m == FieldMap(env, AllFields(env, types[..j]))
    {
      if !env.KindOf(types[j]).Struct? {
        assert types[j] in types;
        return None;
      }
      assert types[..j + 1][..j] == types[..j];
      m := AddFields(env, m, env.KindOf(types[j]).fields, AllFields(env, types[..j]));
    }
    assert types[..|types|] == types;
    return Some(m);
  }

  /** A key is declared if some field's tag has it, ignoring case. */
  predicate Declared(env: Env, types: seq<TypeId>, key: string)
    requires AllStructs(env, types)
  {
    HasKey(env, AllFields(env, types), env.lower(key))
  }

  predicate HasKey(env: Env, fields: seq<Field>, key: string) {
    exists i | 0 <= i < |fields| :: HoldsKey(env, fields, key, i)
  }

  lemma HasKeyLast(env: Env, fields: seq<Field>, key: string)
    requires fields != []
    ensures var f := fields[|fields| - 1];
            HasKey(env, fields, key) <==>
            HasKey(env, fields[..|fields| - 1], key) || (f.jsonTag != "" && TagKey(env, f) == key)
  {
    var front := fields[..|fields| - 1];
    assert forall i | 0 <= i < |front| :: HoldsKey(env, front, key, i) <==> HoldsKey(env, fields, key, i);
    assert HoldsKey(env, fields, key, |front|) ==> HasKey(env, fields, key);
  }

  lemma {:induction false} FieldMapHas(env: Env, fields: seq<Field>, key: string)
    ensures key in FieldMap(env, fields) <==> HasKey(env, fields, key)
  {
    if fields != [] {
      FieldMapHas(env, fields[..|fields| - 1], key);
      HasKeyLast(env, fields, key);
    }
  }

  predicate HoldsKey(env: Env, fields: seq<Field>, key: string, i: nat) {
    i < |fields| && fields[i].jsonTag != "" && TagKey(env, fields[i]) == key
  }

  /** Of the fields with one key, in one type or in several, the last counts. */
  lemma {:induction false} LastFieldCounts(env: Env, fields: seq<Field>, key: string, i: nat)
    requires HoldsKey(env, fields, key, i) && forall j | i < j < |fields| :: !HoldsKey(env, fields, key, j)
    ensures key in FieldMap(env, fields) && FieldMap(env, fields)[key] == fields[i]
  {
    var n := |fields| - 1;
    if i < n {
      assert !HoldsKey(env, fields, key, n);
      forall j | i < j < n ensures !HoldsKey(env, fields[..n], key, j) {
        assert !HoldsKey(env, fields, key, j);
      }
      LastFieldCounts(env, fields[..n], key, i);
    }
  }

  /** Options after a comma in a tag do not count. */
  lemma TagKeyIgnoresOptions(env: Env, name: string, options: string, typ: TypeId)
    requires ',' !in name
    ensures TagKey(env, Field(name, typ)) == env.lower(name)
    ensures TagKey(env, Field(name + [','] + options, typ)) == env.lower(name)
  {
    SplitPlain(name, ',');
    SplitConcat(name, options, ',');
  }

  /** The fields of all types count. */
  lemma {:induction false} AllFieldsHas(env: Env, types: seq<TypeId>, f: Field)
    requires AllStructs(env, types)
    ensures f in AllFields(env, types) <==> exists t | t in types :: f in env.KindOf(t).fields
  {
    if types != [] {
      var front, last := types[..|types| - 1], types[|types| - 1];
      assert types == front + [last];
      AllFieldsHas(env, front, f);
    }
  }

  // ---------------------------------------------------------------------------------------
  // What is promised
  // ---------------------------------------------------------------------------------------

  /** The element type of a slice, with one pointer removed. */
  function ElementType(env: Env, elem: TypeId): TypeId {
    match env.KindOf(elem)
    case Ptr(t) => t
    case _ => elem
  }

  /** One step from an object into an object below it. */
  datatype Hop = Member(key: string) | Element(key: string, i: nat)

  /** The object that a hop leads to, with the type it is decoded into: through a struct or
      pointer field to an object, through a slice field to an object in an array. */
  function Follow(env: Env, obj: Json, types: seq<TypeId>, hop: Hop): Option<(Json, TypeId)> {
    if !obj.Object? || hop.key !in obj.members || !AllStructs(env, types) then None
    else
      var fields := FieldMap(env, AllFields(env, types));
      var value := obj.members[hop.key];
      if env.lower(hop.key) !in fields then None
      else
        var typ := fields[env.lower(hop.key)].typ;
        match env.KindOf(typ)
        case Struct(_) => if hop.Member? && value.Object? then Some((value, typ)) else None
        case Ptr(elem) => if hop.Member? && value.Object? then Some((value, elem)) else None
        case Slice(elem) =>
          if hop.Element? && value.Array? && hop.i < |value.elems| && value.elems[hop.i].Object?
          then Some((value.elems[hop.i], ElementType(env, elem))) else None
        case Other => None
  }

  /** The object at the end of a path of hops, with the types it is decoded into. */
  function At(env: Env, obj: Json, types: seq<TypeId>, path: seq<Hop>): Option<(Json, seq<TypeId>)>
    decreases |path|
  {
    if path == [] then Some((obj, types))
    else
      var next := Follow(env, obj, types, path[0]);
      if next.None? then None else At(env, next.value.0, [next.value.1], path[1..])
  }

  /** An object of the document where every key is declared for the struct it is decoded into. */
  predicate KeysDeclared(env: Env, obj: Json, types: seq<TypeId>) {
    AllStructs(env, types) && obj.Object? && forall k | k in obj.members :: Declared(env, types, k)
  }

  /** Strictness: all keys of all objects reached through struct, slice and pointer fields. */
  ghost predicate Strict(env: Env, obj: Json, types: seq<TypeId>) {
    forall path: seq<Hop> | At(env, obj, types, path).Some? ::
      KeysDeclared(env, At(env, obj, types, path).value.0, At(env, obj, types, path).value.1)
  }

  /** Objects sit only where the type is a struct, as a successful decode of the same document
      into these types ensures unless a map or an interface is involved. */
  ghost predicate ObjectsAreStructs(env: Env, obj: Json, types: seq<TypeId>) {
    forall path: seq<Hop> | At(env, obj, types, path).Some? ::
      AllStructs(env, At(env, obj, types, path).value.1)
  }

  lemma AtFirst(env: Env, obj: Json, types: seq<TypeId>, hop: Hop, path: seq<Hop>)
    ensures At(env, obj, types, [hop] + path) ==
            var next := Follow(env, obj, types, hop);
            if next.None? then None else At(env, next.value.0, [next.value.1], path)
  {
    assert ([hop] + path)[1..] == path;
  }

  /** Where the objects below a field are decoded: in a struct field into its type, in a pointer
      field into what it points to, in a slice into the element type or what that points to. */
  lemma DecodedInto(env: Env, obj: Json, types: seq<TypeId>, key: string, typ: TypeId)
    requires obj.Object? && key in obj.members && AllStructs(env, types)
    requires env.lower(key) in FieldMap(env, AllFields(env, types))
    requires FieldMap(env, AllFields(env, types))[env.lower(key)].typ == typ
    ensures obj.members[key].Object? ==>
              && (env.KindOf(typ).Struct? ==> Follow(env, obj, types, Member(key)) == Some((obj.members[key], typ)))
              && forall t | env.KindOf(typ) == Ptr(t) :: Follow(env, obj, types, Member(key)) == Some((obj.members[key], t))
    ensures obj.members[key].Array? ==>
              forall i: nat, p | i < |obj.members[key].elems| && obj.members[key].elems[i].Object? && env.KindOf(typ) == Slice(p) ::
                && (!env.KindOf(p).Ptr? ==> Follow(env, obj, types, Element(key, i)) == Some((obj.members[key].elems[i], p)))
                && forall t | env.KindOf(p) == Ptr(t) :: Follow(env, obj, types, Element(key, i)) == Some((obj.members[key].elems[i], t))
  {}

  /** The type graph with a slice of values in place of a slice of pointers. */
  function WithoutPointer(env: Env, slice: TypeId, t: TypeId): Env {
    env.(kinds := env.kinds[slice := Slice(t)])
  }

  predicate SliceOfPointers(env: Env, slice: TypeId, t: TypeId) {
    env.KindOf(slice).Slice? && env.KindOf(env.KindOf(slice).elem) == Ptr(t)
  }

  lemma {:induction false} SameFields(env: Env, env': Env, types: seq<TypeId>)
    requires forall t | env.KindOf(t).Struct? || env'.KindOf(t).Struct? :: env.KindOf(t) == env'.KindOf(t)
    ensures AllStructs(env, types) <==> AllStructs(env', types)
    ensures AllStructs(env, types) ==> AllFields(env, types) == AllFields(env', types)
  {
    if types != [] {
      var front, last := types[..|types| - 1], types[|types| - 1];
      assert types == front + [last];
      SameFields(env, env', front);
    }
  }

  lemma {:induction false} SameFieldMap(env: Env, env': Env, fields: seq<Field>)
    requires env.lower == env'.lower
    ensures FieldMap(env, fields) == FieldMap(env', fields)
  {
    if fields != [] {
      SameFieldMap(env, env', fields[..|fields| - 1]);
    }
  }

  lemma SameHop(env: Env, obj: Json, types: seq<TypeId>, hop: Hop, slice: TypeId, t: TypeId)
    requires SliceOfPointers(env, slice, t) && !env.KindOf(t).Ptr?
    ensures Follow(WithoutPointer(env, slice, t), obj, types, hop) == Follow(env, obj, types, hop)
  {
    var env' := WithoutPointer(env, slice, t);
    assert forall u | u != slice :: env'.KindOf(u) == env.KindOf(u);
    SameFields(env, env', types);
    if AllStructs(env, types) {
      SameFieldMap(env, env', AllFields(env, types));
    }
  }

  lemma {:induction false} SamePath(env: Env, obj: Json, types: seq<TypeId>, path: seq<Hop>, slice: TypeId, t: TypeId)
    requires SliceOfPointers(env, slice, t) && !env.KindOf(t).Ptr?
    ensures At(WithoutPointer(env, slice, t), obj, types, path) == At(env, obj, types, path)
    decreases |path|
  {
    if path != [] {
      SameHop(env, obj, types, path[0], slice, t);
      var next := Follow(env, obj, types, path[0]);
      if next.Some? {
        SamePath(env, next.value.0, [next.value.1], path[1..], slice, t);
      }
    }
  }

  lemma SameDeclared(env: Env, obj: Json, types: seq<TypeId>, slice: TypeId, t: TypeId)
    requires SliceOfPointers(env, slice, t)
    ensures KeysDeclared(WithoutPointer(env, slice, t), obj, types) <==> KeysDeclared(env, obj, types)
  {
    var env' := WithoutPointer(env, slice, t);
    SameFields(env, env', types);
    if AllStructs(env, types) && obj.Object? {
      forall k ensures Declared(env', types, k) <==> Declared(env, types, k) {
        SameFieldMap(env, env', AllFields(env, types));
        FieldMapHas(env, AllFields(env, types), env.lower(k));
        FieldMapHas(env', AllFields(env, types), env.lower(k));
      }
    }
  }

  /** A type with a slice of pointers accepts the same documents as with a slice of values. */
  lemma PointersDoNotMatter(env: Env, obj: Json, types: seq<TypeId>, slice: TypeId, t: TypeId)
    requires SliceOfPointers(env, slice, t) && !env.KindOf(t).Ptr?
    ensures Strict(WithoutPointer(env, slice, t), obj, types) <==> Strict(env, obj, types)
  {
    var env' := WithoutPointer(env, slice, t);
    forall path: seq<Hop>
      ensures At(env', obj, types, path) == At(env, obj, types, path)
      ensures At(env, obj, types, path).Some? ==>
                (KeysDeclared(env', At(env, obj, types, path).value.0, At(env, obj, types, path).value.1) <==>
                 KeysDeclared(env, At(env, obj, types, path).value.0, At(env, obj, types, path).value.1))
    {
      SamePath(env, obj, types, path, slice, t);
      if At(env, obj, types, path).Some? {
        SameDeclared(env, At(env, obj, types, path).value.0, At(env, obj, types, path).value.1, slice, t);
      }
    }
  }

  /** Strictness unfolds by one level. */
  lemma StrictByLevel(env: Env, obj: Json, types: seq<TypeId>)
    ensures Strict(env, obj, types) <==>
            KeysDeclared(env, obj, types) &&
            forall hop: Hop | Follow(env, obj, types, hop).Some? ::
              Strict(env, Follow(env, obj, types, hop).value.0, [Follow(env, obj, types, hop).value.1])
  {
    if Strict(env, obj, types) {
      assert At(env, obj, types, []).Some?;
      forall hop: Hop | Follow(env, obj, types, hop).Some?
        ensures Strict(env, Follow(env, obj, types, hop).value.0, [Follow(env, obj, types, hop).value.1])
      {
        var next := Follow(env, obj, types, hop).value;
        forall path: seq<Hop> | At(env, next.0, [next.1], path).Some?
          ensures KeysDeclared(env, At(env, next.0, [next.1], path).value.0, At(env, next.0, [next.1], path).value.1)
        {
          AtFirst(env, obj, types, hop, path);
        }
      }
    } else {
      var path :| At(env, obj, types, path).Some?
               && !KeysDeclared(env, At(env, obj, types, path).value.0, At(env, obj, types, path).value.1);
      if path != [] {
        var next := Follow(env, obj, types, path[0]).value;
        assert At(env, next.0, [next.1], path[1..]).Some?;
        assert !Strict(env, next.0, [next.1]);
      }
    }
  }

  lemma StructsByLevel(env: Env, obj: Json, types: seq<TypeId>, hop: Hop)
    requires ObjectsAreStructs(env, obj, types)
    ensures AllStructs(env, types)
    ensures var next := Follow(env, obj, types, hop);
            next.Some? ==> ObjectsAreStructs(env, next.value.0, [next.value.1])
  {
    assert At(env, obj, types, []).Some?;
    var next := Follow(env, obj, types, hop);
    if next.Some? {
      forall path: seq<Hop> | At(env, next.value.0, [next.value.1], path).Some?
        ensures AllStructs(env, At(env, next.value.0, [next.value.1], path).value.1)
      {
        AtFirst(env, obj, types, hop, path);
      }
    }
  }

  // ---------------------------------------------------------------------------------------
  // checkMapKeys
  // ---------------------------------------------------------------------------------------

  /** All hops over one key lead to strict objects. */
  ghost predicate StrictOver(env: Env, obj: Json, types: seq<TypeId>, key: string) {
    forall hop: Hop | hop.key == key && Follow(env, obj, types, hop).Some? ::
      Strict(env, Follow(env, obj, types, hop).value.0, [Follow(env, obj, types, hop).value.1])
  }

  /** Some object reached in the document holds this key, and its type does not declare it. */
  ghost predicate Offends(env: Env, obj: Json, types: seq<TypeId>, key: string) {
    exists path: seq<Hop> ::
      At(env, obj, types, path).Some? && OffendsHere(env, At(env, obj, types, path).value, key)
  }

  predicate OffendsHere(env: Env, at: (Json, seq<TypeId>), key: string) {
    AllStructs(env, at.1) && at.0.Object? && key in at.0.members && !Declared(env, at.1, key)
  }

  lemma OffendsBelow(env: Env, obj: Json, types: seq<TypeId>, hop: Hop, key: string)
    requires Follow(env, obj, types, hop).Some?
    requires Offends(env, Follow(env, obj, types, hop).value.0, [Follow(env, obj, types, hop).value.1], key)
    ensures Offends(env, obj, types, key)
  {
    var next := Follow(env, obj, types, hop).value;
    var path :| At(env, next.0, [next.1], path).Some? && OffendsHere(env, At(env, next.0, [next.1], path).value, key);
    AtFirst(env, obj, types, hop, path);
    assert At(env, obj, types, [hop] + path).Some?;
  }

  /** The loop of `checkMapKeys` need only look at one key at a time. */
  lemma StrictByKey(env: Env, obj: Json, types: seq<TypeId>)
    requires obj.Object? && AllStructs(env, types)
    ensures Strict(env, obj, types) <==> forall k | k in obj.members :: GoodKey(env, obj, types, k)
  {
    StrictByLevel(env, obj, types);
    if forall k | k in obj.members :: GoodKey(env, obj, types, k) {
      forall hop: Hop | Follow(env, obj, types, hop).Some?
        ensures Strict(env, Follow(env, obj, types, hop).value.0, [Follow(env, obj, types, hop).value.1])
      {
        assert GoodKey(env, obj, types, hop.key);
      }
    }
  }

  ghost predicate GoodKey(env: Env, obj: Json, types: seq<TypeId>, key: string)
    requires AllStructs(env, types)
  {
    Declared(env, types, key) && StrictOver(env, obj, types, key)
  }

  lemma UndeclaredOffends(env: Env, obj: Json, types: seq<TypeId>, key: string)
    requires obj.Object? && key in obj.members && AllStructs(env, types) && !Declared(env, types, key)
    ensures Offends(env, obj, types, key)
  {
    assert OffendsHere(env, At(env, obj, types, []).value, key);
  }

  lemma NonStruct(env: Env, obj: Json, types: seq<TypeId>)
    requires !AllStructs(env, types)
    ensures !Strict(env, obj, types) && !ObjectsAreStructs(env, obj, types)
  {
    assert At(env, obj, types, []).Some?;
  }

  lemma StrictMeansStructs(env: Env, obj: Json, types: seq<TypeId>)
    ensures Strict(env, obj, types) ==> ObjectsAreStructs(env, obj, types)
  {}

  /** `checkMapKeys`. It recurses on the document only, so that cycles among the types do no
      harm. In every iteration order it returns nil exactly for strict documents, and an error
      names a key that does offend. It panics only if an object is decoded into no struct, and
      then must unless an offending key is found first. */
  method CheckMapKeys(env: Env, obj: Json, types: seq<TypeId>) returns (outcome: Outcome)
    requires obj.Object?
    ensures outcome.Ok? <==> Strict(env, obj, types)
    ensures outcome.Unknown? ==> Offends(env, obj, types, outcome.tag)
    ensures ObjectsAreStructs(env, obj, types) ==> !outcome.Panic?
    ensures (forall k :: !Offends(env, obj, types, k)) ==> (outcome.Panic? <==> !ObjectsAreStructs(env, obj, types))
    decreases obj, 2
  {
    StrictMeansStructs(env, obj, types);
    var created := CreateJSONFieldMap(env, types);
    if created.None? {
      NonStruct(env, obj, types);
      return Panic;
    }
    StrictByKey(env, obj, types);
    outcome := CheckMembers(env, obj, types, created.value);
  }

  /** The loop over the members. */
  method CheckMembers(env: Env, obj: Json, types: seq<TypeId>, fieldMap: map<string, Field>) returns (outcome: Outcome)
    requires obj.Object? && AllStructs(env, types) && fieldMap == FieldMap(env, AllFields(env, types))
    ensures outcome.Ok? <==> forall k | k in obj.members :: GoodKey(env, obj, types, k)
    ensures outcome.Unknown? ==> Offends(env, obj, types, outcome.tag)
    ensures ObjectsAreStructs(env, obj, types) ==> !outcome.Panic?
    decreases obj, 1
  {
    var todo := obj.members.Keys;
    while todo != {}
      invariant todo <= obj.members.Keys
      invariant forall k | k in obj.members && k !in todo :: GoodKey(env, obj, types, k)
    {
      var k :| k in todo;
      todo := todo - {k};
      FieldMapHas(env, AllFields(env, types), env.lower(k));
      if env.lower(k) !in fieldMap {
        UndeclaredOffends(env, obj, types, k);
        assert !GoodKey(env, obj, types, k);
        return Unknown(k);
      }
      outcome := CheckValue(env, obj, types, k, fieldMap[env.lower(k)]);
      if !outcome.Ok? {
        assert !GoodKey(env, obj, types, k);
        return;
      }
    }
    return Ok;
  }

  /** The body of the loop for a declared key: descend by the kind of the field's type. */
  method CheckValue(env: Env, obj: Json, types: seq<TypeId>, k: string, f: Field) returns (outcome: Outcome)
    requires obj.Object? && k in obj.members && AllStructs(env, types)
    requires env.lower(k) in FieldMap(env, AllFields(env, types))
    requires f == FieldMap(env, AllFields(env, types))[env.lower(k)]
    ensures outcome.Ok? <==> StrictOver(env, obj, types, k)
    ensures outcome.Unknown? ==> Offends(env, obj, types, outcome.tag)
    ensures ObjectsAreStructs(env, obj, types) ==> !outcome.Panic?
    decreases obj, 0
  {
    var v := obj.members[k];
    if ObjectsAreStructs(env, obj, types) {
      forall hop: Hop
        ensures var next := Follow(env, obj, types, hop);
                next.Some? ==> ObjectsAreStructs(env, next.value.0, [next.value.1])
      {
        StructsByLevel(env, obj, types, hop);
      }
    }
    match env.KindOf(f.typ) {
      case Struct(_) =>
        if v.Object? {
          assert Follow(env, obj, types, Member(k)) == Some((v, f.typ));
          outcome := CheckMapKeys(env, v, [f.typ]);
          if outcome.Unknown? {
            OffendsBelow(env, obj, types, Member(k), outcome.tag);
          }
          return;
        }
      case Slice(elem) =>
        var elementType := ElementType(env, elem);
        if v.Array? {
          for i := 0 to |v.elems|
            invariant forall j | 0 <= j < i && v.elems[j].Object? :: Strict(env, v.elems[j], [elementType])
          {
            if v.elems[i].Object? {
              assert Follow(env, obj, types, Element(k, i)) == Some((v.elems[i], elementType));
              outcome := CheckMapKeys(env, v.elems[i], [elementType]);
              if outcome.Unknown? {
                OffendsBelow(env, obj, types, Element(k, i), outcome.tag);
              }
              if !outcome.Ok? {
                return;
              }
            }
          }
        }
      case Ptr(elem) =>
        if v.Object? {
          assert Follow(env, obj, types, Member(k)) == Some((v, elem));
          outcome := CheckMapKeys(env, v, [elem]);
          if outcome.Unknown? {
            OffendsBelow(env, obj, types, Member(k), outcome.tag);
          }
          return;
        }
      case Other =>
    }
    return Ok;
  }

  // ---------------------------------------------------------------------------------------
  // A panic
  // ---------------------------------------------------------------------------------------

  /** A struct whose one field is a slice of maps. */
  function SliceOfMaps(lower: string -> string): Env {
    Env(map[0 := Struct([Field("items", 1)]), 1 := Slice(2), 2 := Other], lower)
  }

  const EMPTY := Object(map[])
  const DOCUMENT := Object(map["items" := Array([EMPTY])])

  lemma OneField(env: Env, t: TypeId, field: Field)
    requires env.KindOf(t) == Struct([field]) && field.jsonTag != ""
    ensures AllStructs(env, [t]) && AllFields(env, [t]) == [field]
    ensures FieldMap(env, [field]) == map[TagKey(env, field) := field]
  {
    assert [t][..0] == [] && [field][..0] == [];
    assert AllFields(env, [t]) == [] + [field];
  }

  lemma ItemsAreDeclared(lower: string -> string)
    ensures var env := SliceOfMaps(lower);
            AllStructs(env, [0]) && Declared(env, [0], "items")
            && FieldMap(env, AllFields(env, [0])) == map[lower("items") := Field("items", 1)]
  {
    var env, field := SliceOfMaps(lower), Field("items", 1);
    OneField(env, 0, field);
    SplitPlain("items", ',');
    assert HoldsKey(env, [field], lower("items"), 0);
  }

  /** The one way into the document leads to the object that is decoded into a map. */
  lemma OnlyHop(lower: string -> string, hop: Hop)
    ensures Follow(SliceOfMaps(lower), DOCUMENT, [0], hop) ==
            if hop == Element("items", 0) then Some((EMPTY, 2)) else None
  {
    var env, items := SliceOfMaps(lower), Array([EMPTY]);
    assert DOCUMENT.members == map["items" := items];
    if hop.key == "items" {
      ItemsAreDeclared(lower);
      assert env.KindOf(1) == Slice(2) && ElementType(env, 2) == 2;
      ThroughSlice(env, DOCUMENT, [0], hop, Field("items", 1), 2);
    } else {
      assert hop.key !in DOCUMENT.members;
    }
  }

  lemma ThroughSlice(env: Env, obj: Json, types: seq<TypeId>, hop: Hop, field: Field, elem: TypeId)
    requires obj.Object? && hop.key in obj.members && obj.members[hop.key].Array? && AllStructs(env, types)
    requires env.lower(hop.key) in FieldMap(env, AllFields(env, types))
    requires FieldMap(env, AllFields(env, types))[env.lower(hop.key)] == field && env.KindOf(field.typ) == Slice(elem)
    ensures var elems := obj.members[hop.key].elems;
            Follow(env, obj, types, hop) ==
            if hop.Element? && hop.i < |elems| && elems[hop.i].Object?
            then Some((elems[hop.i], ElementType(env, elem))) else None
  {}

  lemma NoHop(env: Env, types: seq<TypeId>, hop: Hop)
    ensures Follow(env, EMPTY, types, hop).None?
  {}

  /** A document with an object in that slice: Go decodes it, no key offends, and an object sits
      where the type is no struct. By the contract of `CheckMapKeys`, every run panics. */
  lemma SliceOfMapsPanics(lower: string -> string)
    ensures !ObjectsAreStructs(SliceOfMaps(lower), DOCUMENT, [0])
    ensures forall k :: !Offends(SliceOfMaps(lower), DOCUMENT, [0], k)
  {
    var env, hop := SliceOfMaps(lower), Element("items", 0);
    OnlyHop(lower, hop);
    assert [hop][1..] == [];
    assert At(env, DOCUMENT, [0], [hop]) == Some((EMPTY, [2]));
    forall k, path: seq<Hop> | At(env, DOCUMENT, [0], path).Some?
      ensures !OffendsHere(env, At(env, DOCUMENT, [0], path).value, k)
    {
      if path == [] {
        ItemsAreDeclared(lower);
      } else {
        OnlyHop(lower, path[0]);
        NoFurther(env, [2], path[1..]);
      }
    }
  }

  lemma NoFurther(env: Env, types: seq<TypeId>, path: seq<Hop>)
    ensures At(env, EMPTY, types, path) == if path == [] then Some((EMPTY, types)) else None
  {
    if path != [] {
      NoHop(env, types, path[0]);
    }
  }
}
