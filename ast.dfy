/**
 * The parts of a graphql-js schema that the converter reads.
 *
 * Runtime dispatch on `constructor.name` becomes the closed `Kind`; the
 * optional `astNode` of a type or field becomes an `Option`; the results of
 * `getFields()` and `getValues()` are carried as data.
 */
module Ast {
  import opened Wrappers
  import opened JsObject

  /** The constructor name the converter switches on. */
  datatype Kind =
    | GraphQLEnumType
    | GraphQLObjectType
    | PlainObject          // the name `Object`, which graphql-js fields carry
    | OtherKind(name: string)

  /** A type reference of the GraphQL grammar: a named type inside list and non-null wrappers. */
  datatype TypeRef = Named(name: string) | ListT(inner: TypeRef) | NonNullT(inner: TypeRef)

  /** An argument value node; only the literal kinds have a `value` property. */
  datatype ValueNode =
    | IntValue(raw: string)
    | FloatValue(raw: string)
    | StringValue(raw: string)
    | BooleanValue(bit: bool)
    | EnumLiteral(raw: string)
    | NullValue
    | ListValue
    | ObjectValue
    | Variable(varName: string)

  /** The JavaScript value of a literal's `value` property. */
  datatype Literal = Text(s: string) | Flag(b: bool)

  datatype Argument = Argument(name: string, value: ValueNode)

  /** A directive annotation; `arguments` may be missing from the node. */
  datatype Directive = Directive(name: string, arguments: Option<seq<Argument>>)

  /** The `astNode` of a field definition. */
  datatype FieldAst = FieldAst(typeRef: TypeRef, directives: seq<Directive>)

  /** The `astNode` of a type definition. */
  datatype TypeDefAst = TypeDefAst(directives: seq<Directive>)

  datatype Field = Field(kind: Kind, astNode: Option<FieldAst>)

  datatype EnumValueDef = EnumValueDef(name: string)

  /** An entry of the schema's type map. */
  datatype NamedType =
    | EnumType(values: seq<EnumValueDef>, astNode: Option<TypeDefAst>)
    | ObjectType(fields: Obj<Field>, astNode: Option<TypeDefAst>)
    | OtherType(kindName: string)

  function FieldDirectives(f: Field): Option<seq<Directive>>
  {
    match f.astNode
    case Some(a) => Some(a.directives)
    case None => None
  }

  function TypeDirectives(a: Option<TypeDefAst>): Option<seq<Directive>>
  {
    match a
    case Some(d) => Some(d.directives)
    case None => None
  }

  function FieldTypeRef(f: Field): Option<TypeRef>
  {
    match f.astNode
    case Some(a) => Some(a.typeRef)
    case None => None
  }
}
