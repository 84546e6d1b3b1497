/**
 * The type converters and the schema walker of `src/schema.js`, and the
 * scalar-name normalisation that sits beside them.
 */
module Schema {
  import opened Wrappers
  import opened JsObject
  import opened Ast
  import opened FieldShape
  import opened Directives

  /** A converted field; `EmptyField` is the `{}` returned for a field of an unhandled kind. */
  datatype ConvertedField =
    | FieldInfo(typeName: ResolvedName, directives: DirectiveMap, isNullable: bool, isList: bool)
    | EmptyField

  /** A converted type; the constructor is the `type` tag (`consts.OBJECT` or `consts.ENUM`). */
  datatype ConvertedType =
    | ConvertedObject(fields: Obj<ConvertedField>, directives: DirectiveMap)
    | ConvertedEnum(values: seq<string>, directives: DirectiveMap)

  /**
   * `convertField`. For a field (constructor `Object`) with an `astNode`
   * whose type reference is well formed, the result is specified by the
   * reference's SDL text: the name is the text without wrapper punctuation,
   * the field is nullable unless the text ends in `!`, and it is a list
   * exactly when the text starts with `[`. Without an `astNode` it is the
   * fallback: nullable, not a list, named by `type.toString`.
   */
  function ConvertField(f: Field): (r: ConvertedField)
    ensures !f.kind.PlainObject? <==> r.EmptyField?
    ensures f.kind.PlainObject? && f.astNode.None? ==> r == FieldInfo(RuntimeToString, [], true, false)
    ensures f.kind.PlainObject? && f.astNode.Some? && WellFormed(f.astNode.value.typeRef) ==>
      var text := Print(f.astNode.value.typeRef);
      && |text| > 0
      && r.typeName == Declared(StripWrappers(text))
      && (r.isNullable <==> text[|text| - 1] != '!')
      && (r.isList <==> text[0] == '[')
    ensures f.kind.PlainObject? && f.astNode.Some? ==> r.directives == DirectivesOf(f.astNode.value.directives)
  {
    match f.kind
    case PlainObject =>
      var t := FieldTypeRef(f);
      assert t.Some? && WellFormed(t.value) ==>
        && InnermostName(t.value) == StripWrappers(Print(t.value))
        && |Print(t.value)| > 0
        && (IsNullable(t) <==> Print(t.value)[|Print(t.value)| - 1] != '!')
        && (IsList(t) <==> Print(t.value)[0] == '[')
      by {
        if t.Some? && WellFormed(t.value) {
          NullableIffNoBang(t.value);
          ListIffOpenBracket(t.value);
          InnermostNameIsStrippedText(t.value);
        }
      }
      FieldInfo(ResolveName(t), ConvertDirectives(PlainObject, FieldDirectives(f)), IsNullable(t), IsList(t))
    case _ => EmptyField
  }

  function FieldConverter(): Field -> Option<ConvertedField>
  {
    (f: Field) => Some(ConvertField(f))
  }

  /** `convertFields`: the same keys in the same order, each holding its converted field. */
  function ConvertFields(fields: Obj<Field>): (r: Obj<ConvertedField>)
    ensures Keys(r) == Keys(fields)
    ensures forall i :: 0 <= i < |fields| ==> Get(r, fields[i].0) == Some(ConvertField(fields[i].1))
  {
    FilterMapTotal(fields, FieldConverter());
    FilterMap(fields, FieldConverter())
  }

  /** `convertObjectType`: the object's fields converted under the same keys in the same order, and its directives. */
  function ConvertObjectType(t: NamedType): (r: ConvertedType)
    requires t.ObjectType?
    ensures r.ConvertedObject?
    ensures Keys(r.fields) == Keys(t.fields)
    ensures forall i :: 0 <= i < |t.fields| ==> Get(r.fields, t.fields[i].0) == Some(ConvertField(t.fields[i].1))
    ensures r.directives == ConvertDirectives(GraphQLObjectType, TypeDirectives(t.astNode))
  {
    ConvertedObject(ConvertFields(t.fields), ConvertDirectives(GraphQLObjectType, TypeDirectives(t.astNode)))
  }

  /** `convertEnumType`: the value names in declaration order, and the enum's directives. */
  function ConvertEnumType(t: NamedType): (r: ConvertedType)
    requires t.EnumType?
    ensures r.ConvertedEnum?
    ensures |r.values| == |t.values|
    ensures forall i :: 0 <= i < |t.values| ==> r.values[i] == t.values[i].name
    ensures r.directives == ConvertDirectives(GraphQLEnumType, TypeDirectives(t.astNode))
  {
    ConvertedEnum(seq(|t.values|, i requires 0 <= i < |t.values| => t.values[i].name),
                  ConvertDirectives(GraphQLEnumType, TypeDirectives(t.astNode)))
  }

  /** The `switch` of `convertTypeMap`: enum and object types are converted, every other kind is dropped. */
  function ConvertNamedType(t: NamedType): Option<ConvertedType>
  {
    match t
    case EnumType(_, _) => Some(ConvertEnumType(t))
    case ObjectType(_, _) => Some(ConvertObjectType(t))
    case OtherType(_) => None
  }

  /**
   * The object `convertTypeMap` returns: keyed by exactly the input keys
   * whose type is an enum or object type, in input order.
   */
  function ConvertedTypeMap(typeMap: Obj<NamedType>): (r: Obj<ConvertedType>)
    ensures IsSubsequence(Keys(r), Keys(typeMap))
    ensures forall k :: k in Keys(r) ==> k in Keys(typeMap)
    ensures forall i :: 0 <= i < |typeMap| ==> (typeMap[i].0 in Keys(r) <==> !typeMap[i].1.OtherType?)
  {
    var r := FilterMap(typeMap, ConvertNamedType);
    SubsequenceMembers(Keys(r), Keys(typeMap));
    r
  }

  /**
   * Each kept entry of the converted type map: an enum entry lists the value
   * names in declaration order, an object entry has the type's field keys in
   * their order.
   */
  lemma ConvertedTypeMapEntries(typeMap: Obj<NamedType>, i: nat)
    requires i < |typeMap|
    ensures typeMap[i].1.EnumType? ==>
      var c := Get(ConvertedTypeMap(typeMap), typeMap[i].0);
      && c.Some? && c.value.ConvertedEnum?
      && |c.value.values| == |typeMap[i].1.values|
      && (forall j :: 0 <= j < |typeMap[i].1.values| ==> c.value.values[j] == typeMap[i].1.values[j].name)
    ensures typeMap[i].1.ObjectType? ==>
      var c := Get(ConvertedTypeMap(typeMap), typeMap[i].0);
      && c.Some? && c.value.ConvertedObject?
      && Keys(c.value.fields) == Keys(typeMap[i].1.fields)
  {
    assert ConvertedTypeMap(typeMap) == FilterMap(typeMap, ConvertNamedType);
  }

  /** When every input kind is an enum or object type, the output has all of the input's keys, in order. */
  lemma ConvertedTypeMapComplete(typeMap: Obj<NamedType>)
    requires forall i :: 0 <= i < |typeMap| ==> !typeMap[i].1.OtherType?
    ensures Keys(ConvertedTypeMap(typeMap)) == Keys(typeMap)
  {
    FilterMapTotal(typeMap, ConvertNamedType);
  }

  /** The kind names `convertTypeMap` logs, in input order: one per dropped entry. */
  function UnhandledKinds(typeMap: seq<(string, NamedType)>): seq<string>
  {
    if typeMap == [] then []
    else
      var rest := UnhandledKinds(typeMap[..|typeMap| - 1]);
      match typeMap[|typeMap| - 1].1
      case OtherType(kindName) => rest + [kindName]
      case _ => rest
  }

  /** One step of the walk: how the converted prefix and the log grow by entry `i`. */
  lemma WalkStep(typeMap: Obj<NamedType>, i: nat)
    requires i < |typeMap|
    ensures DistinctKeys(typeMap[..i]) && DistinctKeys(typeMap[..i + 1])
    ensures typeMap[i].0 !in Keys(FilterMap(typeMap[..i], ConvertNamedType))
    ensures FilterMap(typeMap[..i + 1], ConvertNamedType)
            == match ConvertNamedType(typeMap[i].1)
               case Some(c) => FilterMap(typeMap[..i], ConvertNamedType) + [(typeMap[i].0, c)]
               case None => FilterMap(typeMap[..i], ConvertNamedType)
    ensures UnhandledKinds(typeMap[..i + 1])
            == match typeMap[i].1
               case OtherType(kindName) => UnhandledKinds(typeMap[..i]) + [kindName]
               case _ => UnhandledKinds(typeMap[..i])
  {
    var p: Obj<NamedType> := typeMap[..i + 1];
    assert p[..i] == typeMap[..i];
    FilterMapLast(p, ConvertNamedType);
  }

  /**
   * `convertTypeMap`: walks the keys in order, assigning each converted
   * enum or object type into a fresh object and logging the kind of every
   * other entry.
   */
  method ConvertTypeMap(typeMap: Obj<NamedType>) returns (newTypeMap: Obj<ConvertedType>, logged: seq<string>)
    ensures newTypeMap == ConvertedTypeMap(typeMap)
    ensures logged == UnhandledKinds(typeMap)
  {
    newTypeMap := [];
    logged := [];
    for i := 0 to |typeMap|
      invariant newTypeMap == FilterMap(typeMap[..i], ConvertNamedType)
      invariant logged == UnhandledKinds(typeMap[..i])
    {
      WalkStep(typeMap, i);
      var (typeKey, t) := typeMap[i];
      match t
      case EnumType(_, _) =>
        newTypeMap := Put(newTypeMap, typeKey, ConvertEnumType(t));
      case ObjectType(_, _) =>
        newTypeMap := Put(newTypeMap, typeKey, ConvertObjectType(t));
      case OtherType(kindName) =>
        logged := logged + [kindName];
    }
    assert typeMap[..|typeMap|] == typeMap;
  }

  /** Every input entry is either converted or logged, none is both and none is lost. */
  lemma {:induction false} EveryEntryConvertedOrLogged(typeMap: Obj<NamedType>)
    ensures |ConvertedTypeMap(typeMap)| + |UnhandledKinds(typeMap)| == |typeMap|
    decreases |typeMap|
  {
    if typeMap != [] {
      var init: Obj<NamedType> := typeMap[..|typeMap| - 1];
      EveryEntryConvertedOrLogged(init);
      var acc := FilterMap(init, ConvertNamedType);
      assert typeMap[|typeMap| - 1].0 !in Keys(init);
      SubsequenceMembers(Keys(acc), Keys(init));
      assert |Keys(acc)| == |acc|;
    }
  }

  /** The scalar names `normalizeType` renames. */
  const ScalarNames: map<string, string> := map["String" := "string", "Int" := "number", "Float" := "float"]

  /**
   * `normalizeType`, reading only the mapping's own keys: the three scalar
   * names are renamed and every other name is returned unchanged. No
   * renamed name is itself a key.
   */
  function NormalizeType(name: string): (r: string)
    ensures name in ScalarNames ==> r == ScalarNames[name] && r !in ScalarNames
    ensures name !in ScalarNames ==> r == name
  {
    if name in ScalarNames then ScalarNames[name] else name
  }

  /** Normalising twice is normalising once. */
  lemma NormalizeTypeIdempotent(name: string)
    ensures NormalizeType(NormalizeType(name)) == NormalizeType(name)
  {
  }

  /** The properties every JavaScript object literal inherits from `Object.prototype`. */
  const ObjectPrototypeMembers: set<string> := {
    "constructor", "hasOwnProperty", "isPrototypeOf", "propertyIsEnumerable",
    "toLocaleString", "toString", "valueOf", "__proto__",
    "__defineGetter__", "__defineSetter__", "__lookupGetter__", "__lookupSetter__"
  }

  /** A JavaScript value `normalizeType` can return: a string, or an inherited member of `Object.prototype` (always truthy). */
  datatype JsValue = JsString(s: string) | PrototypeMember(member: string)

  /** `normalizeType` as written: `map[type]` also finds the inherited members of the object literal. */
  function NormalizeTypeAsWritten(name: string): JsValue
  {
    if name in ScalarNames then JsString(ScalarNames[name])
    else if name in ObjectPrototypeMembers then PrototypeMember(name)
    else JsString(name)
  }

  /** For every name that is not an inherited member, the code as written agrees with `NormalizeType`. */
  lemma NormalizeAsWrittenAgrees(name: string)
    requires name !in ObjectPrototypeMembers
    ensures NormalizeTypeAsWritten(name) == JsString(NormalizeType(name))
  {
  }

  /** `toString` is a valid GraphQL name, yet the code as written returns the inherited method for it. */
  lemma NormalizeAsWrittenReturnsInheritedMember()
    ensures ValidName("toString")
    ensures NormalizeTypeAsWritten("toString") == PrototypeMember("toString")
    ensures NormalizeType("toString") == "toString"
  {
  }
}
