/** Worked examples of the converter's documented behaviour. */
module Examples {
  import opened Wrappers
  import opened JsObject
  import opened Ast
  import opened FieldShape
  import opened Directives
  import opened Schema

  /** The argument map of a directive with the single argument `name: v`. */
  lemma OneArgument(d: Directive, name: string, v: ValueNode)
    requires d.arguments == Some([Argument(name, v)])
    ensures ConvertDirectiveArguments(d) == [(name, RawValue(v))]
  {
    var args := d.arguments.value;
    assert LastArgument(args, 0);
    assert args[0].name == name;
    assert ArgumentNames(args) == [name];
    assert Dedup([name]) == [name] by {
      assert [name][..0] == [];
    }
    DeterminedSingle(ArgumentsOf(args), name, RawValue(v));
  }

  lemma DirectiveNamesPair(d1: Directive, d2: Directive)
    ensures DirectiveNames([d1, d2]) == Dedup([d1.name, d2.name])
  {
    assert DirectiveNameList([d1, d2]) == [d1.name, d2.name];
  }

  /** Two directives with distinct names both appear, in order. */
  lemma TwoDirectives(d1: Directive, d2: Directive)
    requires d1.name != d2.name
    ensures DirectivesOf([d1, d2])
            == [(d1.name, ConvertDirectiveArguments(d1)), (d2.name, ConvertDirectiveArguments(d2))]
  {
    DirectiveNamesPair(d1, d2);
    DedupPair(d1.name, d2.name);
    assert LastDirective([d1, d2], 0) && LastDirective([d1, d2], 1);
    assert [d1, d2][0] == d1 && [d1, d2][1] == d2;
    DeterminedPair(DirectivesOf([d1, d2]), d1.name, ConvertDirectiveArguments(d1), d2.name, ConvertDirectiveArguments(d2));
  }

  /** Two directives with one name collapse to one entry holding the later one's arguments. */
  lemma SameNameDirectives(d1: Directive, d2: Directive)
    requires d1.name == d2.name
    ensures DirectivesOf([d1, d2]) == [(d2.name, ConvertDirectiveArguments(d2))]
  {
    DirectiveNamesPair(d1, d2);
    DedupPair(d1.name, d2.name);
    assert LastDirective([d1, d2], 1);
    assert [d1, d2][1] == d2;
    DeterminedSingle(DirectivesOf([d1, d2]), d2.name, ConvertDirectiveArguments(d2));
  }

  /** `[A(x: v1), A(x: v2)]` yields `{A: {x: v2}}`: the later directive wins. */
  lemma LastDirectiveWins(v1: ValueNode, v2: ValueNode)
    ensures ConvertDirectives(GraphQLObjectType, Some([
              Directive("A", Some([Argument("x", v1)])),
              Directive("A", Some([Argument("x", v2)]))]))
            == [("A", [("x", RawValue(v2))])]
  {
    var d1 := Directive("A", Some([Argument("x", v1)]));
    var d2 := Directive("A", Some([Argument("x", v2)]));
    assert ConvertDirectives(GraphQLObjectType, Some([d1, d2])) == DirectivesOf([d1, d2]);
    SameNameDirectives(d1, d2);
    OneArgument(d2, "x", v2);
  }

  /** `[A(x: 1), A(x: 2)]` yields `{A: {x: "2"}}`. */
  lemma LastDirectiveWinsInts()
    ensures ConvertDirectives(GraphQLObjectType, Some([
              Directive("A", Some([Argument("x", IntValue("1"))])),
              Directive("A", Some([Argument("x", IntValue("2"))]))]))
            == [("A", [("x", Some(Text("2")))])]
  {
    LastDirectiveWins(IntValue("1"), IntValue("2"));
  }

  /** `[A(x: v1), B(y: v2)]` yields `{A: {x: v1}, B: {y: v2}}`. */
  lemma DistinctDirectivesKept(v1: ValueNode, v2: ValueNode)
    ensures ConvertDirectives(GraphQLEnumType, Some([
              Directive("A", Some([Argument("x", v1)])),
              Directive("B", Some([Argument("y", v2)]))]))
            == [("A", [("x", RawValue(v1))]), ("B", [("y", RawValue(v2))])]
  {
    var d1 := Directive("A", Some([Argument("x", v1)]));
    var d2 := Directive("B", Some([Argument("y", v2)]));
    assert ConvertDirectives(GraphQLEnumType, Some([d1, d2])) == DirectivesOf([d1, d2]);
    TwoDirectives(d1, d2);
    OneArgument(d1, "x", v1);
    OneArgument(d2, "y", v2);
  }

  /** A directive without arguments yields `{}`, with an empty argument list too. */
  lemma NoArgumentsIsEmpty()
    ensures ConvertDirectiveArguments(Directive("deprecated", None)) == []
    ensures ConvertDirectiveArguments(Directive("deprecated", Some([]))) == []
  {
    var r := ArgumentsOf([]);
    assert ArgumentNames([]) == [];
    assert |Keys(r)| == 0;
  }

  /** Filtering by `Name` keeps the annotated field only. */
  lemma FilterKeepsAnnotated()
    ensures FilterByDirective("Name", [
              ("f1", Field(PlainObject, Some(FieldAst(Named("String"), [Directive("Name", None)])))),
              ("f2", Field(PlainObject, Some(FieldAst(Named("String"), []))))])
            == [("f1", Field(PlainObject, Some(FieldAst(Named("String"), [Directive("Name", None)]))))]
  {
    var f1 := Field(PlainObject, Some(FieldAst(Named("String"), [Directive("Name", None)])));
    var f2 := Field(PlainObject, Some(FieldAst(Named("String"), [])));
    var fields: Obj<Field> := [("f1", f1), ("f2", f2)];
    assert f1.astNode.value.directives[0].name == "Name";
    assert KeepIfAnnotated("Name")(f1) == Some(f1);
    assert KeepIfAnnotated("Name")(f2) == None;
    assert FilterByDirective("Name", fields) == FilterMap(fields, KeepIfAnnotated("Name"));
    FilterMapFirstOfTwo(fields, KeepIfAnnotated("Name"));
  }

  /** In `type Widget { color: Color! }` the field converts to a non-null, non-list `Color`. */
  lemma WidgetColorField()
    ensures ConvertField(Field(PlainObject, Some(FieldAst(NonNullT(Named("Color")), []))))
            == FieldInfo(Declared("Color"), [], false, false)
  {
    assert DirectiveNameList([]) == [];
  }

  function ColorEnum(): NamedType
  {
    EnumType([EnumValueDef("RED"), EnumValueDef("GREEN"), EnumValueDef("BLUE")], Some(TypeDefAst([])))
  }

  function WidgetObject(): NamedType
  {
    ObjectType([("color", Field(PlainObject, Some(FieldAst(NonNullT(Named("Color")), []))))], Some(TypeDefAst([])))
  }

  /** `enum Color { RED GREEN BLUE }` converts to its value names and no directives. */
  lemma ColorConverted()
    ensures ConvertEnumType(ColorEnum()) == ConvertedEnum(["RED", "GREEN", "BLUE"], [])
  {
    assert DirectiveNameList([]) == [];
  }

  /** `type Widget { color: Color! }` converts to one non-null, non-list `Color` field and no directives. */
  lemma WidgetConverted()
    ensures ConvertObjectType(WidgetObject())
            == ConvertedObject([("color", FieldInfo(Declared("Color"), [], false, false))], [])
  {
    var w := WidgetObject();
    assert DirectiveNameList([]) == [];
    WidgetColorField();
    assert w.fields[0].0 == "color";
    DeterminedSingle(ConvertFields(w.fields), "color", FieldInfo(Declared("Color"), [], false, false));
  }

  /** A type map of two enum or object types converts to both entries, in order. */
  lemma TwoConvertedTypes(tm: Obj<NamedType>)
    requires |tm| == 2 && !tm[0].1.OtherType? && !tm[1].1.OtherType?
    ensures ConvertedTypeMap(tm)
            == [(tm[0].0, ConvertNamedType(tm[0].1).value), (tm[1].0, ConvertNamedType(tm[1].1).value)]
  {
    assert ConvertedTypeMap(tm) == FilterMap(tm, ConvertNamedType);
    FilterMapPair(tm, ConvertNamedType);
  }

  /** The end-to-end example: the type map holding `Color` and `Widget`. */
  lemma ColorAndWidget()
    ensures ConvertedTypeMap([("Color", ColorEnum()), ("Widget", WidgetObject())])
            == [("Color", ConvertedEnum(["RED", "GREEN", "BLUE"], [])),
                ("Widget", ConvertedObject([("color", FieldInfo(Declared("Color"), [], false, false))], []))]
  {
    ColorConverted();
    WidgetConverted();
    assert ConvertNamedType(ColorEnum()) == Some(ConvertEnumType(ColorEnum()));
    assert ConvertNamedType(WidgetObject()) == Some(ConvertObjectType(WidgetObject()));
    TwoConvertedTypes([("Color", ColorEnum()), ("Widget", WidgetObject())]);
  }
}
