# graphSchemaToJson, modelled in Dafny

`src/schema.js` turns the type map of a graphql-js schema into plain nested data. Each enum type becomes its list of value names and each object type its converted fields. Every converted field has four parts:

- the innermost named type, taken from its syntactic type reference;
- whether it is nullable;
- whether it is a list;
- its directives.

The directives of a type or field are folded into an object that maps each directive name to that directive's argument name → literal value. A standalone helper, `filterByDirective`, keeps only the fields that carry a given directive. `normalizeType` renames the three built-in scalar names.

The model has these modules:

- `JsObject`: plain JavaScript objects with string keys. An object is the sequence of its own properties in insertion order, with distinct keys.
  - `Put` is the spread `{...o, [k]: v}`.
  - `FromPairs` and `FilterMap` are the `reduce` folds built from it.
- `Ast`: the parts of the schema that the converter reads.
  - The `constructor.name` dispatch becomes the datatype `Kind`.
  - An optional `astNode` becomes an `Option`.
  - A type reference is `Named | ListT | NonNullT`, following section 2.11 ("Type References") of the GraphQL specification, October 2021 edition.
- `FieldShape`: the helpers of `convertField`: `getNonNullable`, `getIsList` and `getType`.
  - Their partner is the SDL text of a reference (`Print`), against which the three results are specified.
- `Directives`: `convertDirectiveArguments`, `convertDirectives` and `filterByDirective`.
- `Schema`: the converters, the walker `convertTypeMap` and `normalizeType`.
  - The walker is a method with a loop, proved against the function `ConvertedTypeMap`.
- `Examples`: worked conversions of small schemas.

## Model

| member | source | states |
|---|---|---|
| JsObject.Put | src/schema.js:15 | the spread keeps an existing key in place and appends a new one last; the key reads the new value; every other key reads as before |
| JsObject.FromPairsLastWins | src/schema.js:27-30 | after a spread fold, a key is present iff some pair has it, and it holds the value of its last pair |
| JsObject.FilterMap | src/schema.js:11-19 | a fold that spreads in only some entries yields keys that are a subsequence of the input's keys; an entry is kept iff its mapped value exists; kept keys hold that value |
| JsObject.FilterMapTotal | src/schema.js:151-155 | a fold that keeps every entry yields exactly the input keys in input order |
| Directives.ArgumentsOf | src/schema.js:27-30 | the keys are the argument names, each once, in order of first occurrence; each key holds the raw literal of the last argument with that name |
| Directives.ArgumentKeysAreNames | src/schema.js:27-30 | a name is a key of the argument map iff some argument has that name |
| Directives.ConvertDirectiveArguments | src/schema.js:25-34 | `{}` when the directive has no `arguments`, otherwise the argument fold |
| Directives.DirectivesOf | src/schema.js:46-49 | the keys are the directive names, each once, in order of first occurrence; each key holds the converted arguments of the last directive with that name |
| Directives.DirectiveKeysAreNames | src/schema.js:46-49 | a name is a key of the directive map iff some directive on the node has that name |
| Directives.ConvertDirectives | src/schema.js:41-74 | `{}` for an unhandled kind or a missing `astNode`; otherwise, for enum types, object types and fields, the directive fold over `astNode.directives` |
| Directives.FilterByDirective | src/schema.js:10-19 | corrected filter: keys are a subsequence of the input's keys (order kept); a field is kept iff it has an `astNode` whose directives include one with the name; kept values are unchanged |
| Directives.FilterAsWrittenThrowsIff | src/schema.js:10-13 | the filter as written throws iff some field has no `astNode` |
| Directives.FilterAsWrittenAgrees | src/schema.js:10-19 | when every field has an `astNode`, the filter as written returns the corrected result |
| Directives.FilterAsWrittenThrowsWithoutAstNode | src/schema.js:13 | a single field without `astNode`: the filter as written throws, the corrected one returns `{}` |
| FieldShape.ResolveName | src/schema.js:116-131 | the name falls back to the runtime `type.toString` exactly when there is no `astNode` |
| FieldShape.NullableIffNoBang | src/schema.js:90-95 | `getNonNullable` is true iff the reference's SDL text does not end in `!`, i.e. iff the outermost wrapper is not non-null |
| FieldShape.ListIffOpenBracket | src/schema.js:97-112 | `getIsList` is true iff the reference's SDL text starts with `[`, i.e. for `[T]` and `[T]!` only |
| FieldShape.InnermostNameIsStrippedText | src/schema.js:116-128 | the resolved name is the reference's SDL text with every `[`, `]` and `!` removed |
| FieldShape.GetTypeAsWrittenAgrees | src/schema.js:116-128 | `getType` as written succeeds iff the reference is one of the four supported shapes, and then yields the innermost name |
| FieldShape.GetTypeAsWrittenFailsOnListOfNonNull | src/schema.js:118-119 | `[String!]` is a well-formed reference on which `getType` as written throws; its innermost name is `String` |
| FieldShape.SupportedShapes | src/schema.js:90-131 | for `T`, `[T]`, `T!`, `[T]!` and a missing `astNode`: the resolved name is `T` (or the fallback), plus the nullability and list-ness of each shape |
| Schema.ConvertField | src/schema.js:89-146 | `{}` iff the field's kind is not `Object`; without `astNode`: fallback name, nullable, not a list, no directives; with a well-formed reference: name = SDL text without punctuation, nullable iff the text does not end in `!`, list iff it starts with `[`; directives = the fold over the field's directives |
| Schema.ConvertFields | src/schema.js:151-155 | the same keys in the same order, each holding its converted field |
| Schema.ConvertObjectType | src/schema.js:160-164 | the type's field keys in order, each converted, and the type's directives |
| Schema.ConvertEnumType | src/schema.js:170-174 | the enum value names in declaration order, and the type's directives |
| Schema.ConvertedTypeMap | src/schema.js:180-198 | the output keys are a subsequence of the input keys; an input key is present iff its type is an enum or object type |
| Schema.ConvertedTypeMapEntries | src/schema.js:184-192 | an enum entry holds the value names in declaration order; an object entry has the type's field keys in order |
| Schema.ConvertedTypeMapComplete | src/schema.js:184-192 | when every type is an enum or object type, the output has exactly the input keys in order |
| Schema.WalkStep | src/schema.js:184-195 | one iteration: entry `i` is appended to the converted prefix when it is converted, otherwise its kind is appended to the log |
| Schema.ConvertTypeMap | src/schema.js:180-198 | the loop builds exactly `ConvertedTypeMap(typeMap)` and logs the kind names of the dropped entries in input order |
| Schema.EveryEntryConvertedOrLogged | src/schema.js:184-195 | converted entries plus logged kinds account for every input entry exactly once |
| Schema.NormalizeType | src/schema.js:76-84 | `String`, `Int` and `Float` map to `string`, `number` and `float`, none of which is a key; every other name is unchanged |
| Schema.NormalizeTypeIdempotent | src/schema.js:76-84 | normalising twice is normalising once |
| Schema.NormalizeAsWrittenAgrees | src/schema.js:83 | for every name that is not an inherited `Object.prototype` member, the code as written agrees with the corrected mapping |
| Schema.NormalizeAsWrittenReturnsInheritedMember | src/schema.js:83 | for the valid GraphQL name `toString`, the code as written returns the inherited method instead of the name |
| Examples.SameNameDirectives | src/schema.js:46-49 | two directives with one name collapse to one entry holding the later one's arguments |
| Examples.TwoDirectives | src/schema.js:46-49 | two directives with distinct names both appear, in order |
| Examples.LastDirectiveWins | src/schema.js:61-66 | `[A(x: v1), A(x: v2)]` on an object type yields `{A: {x: v2}}` |
| Examples.LastDirectiveWinsInts | src/schema.js:61-66 | `[A(x: 1), A(x: 2)]` yields `{A: {x: "2"}}` |
| Examples.DistinctDirectivesKept | src/schema.js:44-49 | `[A(x: v1), B(y: v2)]` on an enum yields `{A: {x: v1}, B: {y: v2}}` |
| Examples.NoArgumentsIsEmpty | src/schema.js:25-34 | a directive with no or empty `arguments` yields `{}` |
| Examples.FilterKeepsAnnotated | src/schema.js:10-19 | of two fields, only the one carrying the directive is kept |
| Examples.WidgetColorField | src/schema.js:133-141 | `color: Color!` converts to a non-null, non-list `Color` field |
| Examples.ColorConverted | src/schema.js:170-174 | `enum Color { RED GREEN BLUE }` converts to its three value names |
| Examples.WidgetConverted | src/schema.js:160-164 | `type Widget { color: Color! }` converts to its one field |
| Examples.TwoConvertedTypes | src/schema.js:184-192 | a type map of two enum or object types converts to both entries, in order |
| Examples.ColorAndWidget | src/schema.js:180-198 | the type map `{Color, Widget}` converts entry by entry |

## Left out

- The top-level `getType` (src/schema.js:6-8) is a one-line property read that nothing in the file calls. It is not modelled.
- The `index.d.ts` reference and the `./consts` import (src/schema.js:1-3) are not part of this model.
  - The constants are replaced by the `Kind` constructors.
  - The output's `type` tag becomes the `ConvertedType` constructor.
  - The field kind `consts.OBJECT` is taken to be the constructor name `Object` that graphql-js fields carry.
- The graphql-js calls are foreign calls, and their results are inputs of the model:
  - `getTypeMap()` supplies `ConvertTypeMap`'s argument;
  - `getFields()` supplies the `ObjectType` fields;
  - `getValues()` supplies the `EnumType` values.
- `schemaToJS` (src/schema.js:203) is `convertTypeMap` applied to `getTypeMap()`, which is `ConvertTypeMap` on that input.
- The `console.log` calls in `convertDirectives` and `convertField` (src/schema.js:71, 143) are output only and are not modelled. The walker's log (src/schema.js:194) is returned as the list of kind names.
- Without an `astNode`, the field name is `field.type.toString` (src/schema.js:130), a function from the graphql runtime. It is modelled as the constant `RuntimeToString`.
- When an `astNode` is present, `astNode.directives` is taken to be an array, as the graphql-js parser always sets it. The code would throw on a hand-built node without one; the model does not capture that.
- Key order follows JavaScript insertion order. Two differences from real objects cannot arise for GraphQL names, so they are not modelled:
  - integer-like keys enumerate first, but GraphQL names start with a letter or `_`;
  - `__proto__` behaves specially, but user names may not start with `__`.
- Literal values are `arg.value.value`, so a null, list, object or variable argument reads as `undefined` (`None`). The contents of list and object literals are not modelled.
- `normalizeType` is not called by the converters, just as in the code.
- Schema.ConvertField: the name, nullability and list-ness are specified through the SDL text only for well-formed references (valid names, no non-null directly inside a non-null). Ill-formed references cannot come from the parser. For them the contract says only the kind and the directives.
- Wherever the code as written throws, the rest of the model uses the corrected definition (see Findings). The as-written members model the throw as `None`.

## Findings

| source | as written | input that shows it | evidently intended | confidence | as-written member | corrected member |
|---|---|---|---|---|---|---|
| src/schema.js:118-119 | for a list reference, `getType` reads `type.type.name.value`, one level down only | `[String!]`, i.e. `ListT(NonNullT(Named("String")))`: the inner node is a non-null wrapper without `name`, so a TypeError is thrown (likewise `[T!]!` and `[[T]]`) | the innermost name, `String` | high; not executed | FieldShape.GetTypeAsWrittenFailsOnListOfNonNull | FieldShape.InnermostNameIsStrippedText |
| src/schema.js:13 | `field.astNode.directives` is read without testing `field.astNode` | a field built without an `astNode`, e.g. `{id: Field(Object, no astNode)}`; a TypeError is thrown | the field is treated as not annotated and left out | high; not executed | Directives.FilterAsWrittenThrowsWithoutAstNode | Directives.FilterByDirective |
| src/schema.js:83 | `map[type]` also finds properties the object literal inherits from `Object.prototype` | `toString` (also `constructor`, `valueOf`, ...): the inherited function is returned instead of the name | names other than the three scalars are returned unchanged | medium; not executed | Schema.NormalizeAsWrittenReturnsInheritedMember | Schema.NormalizeTypeIdempotent |
