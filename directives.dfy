/**
 * Directive extraction (`convertDirectiveArguments`, `convertDirectives`)
 * and `filterByDirective`.
 */
module Directives {
  import opened Wrappers
  import opened JsObject
  import opened Ast

  /** The arguments of one directive: argument name to the literal's `value` (`None` is `undefined`). */
  type ArgumentMap = Obj<Option<Literal>>

  /** Directive name to its argument map. */
  type DirectiveMap = Obj<ArgumentMap>

  /** `arg.value.value`: graphql-js keeps int, float, string and enum literals as text. */
  function RawValue(v: ValueNode): Option<Literal>
  {
    match v
    case IntValue(s) => Some(Text(s))
    case FloatValue(s) => Some(Text(s))
    case StringValue(s) => Some(Text(s))
    case EnumLiteral(s) => Some(Text(s))
    case BooleanValue(b) => Some(Flag(b))
    case NullValue => None
    case ListValue => None
    case ObjectValue => None
    case Variable(_) => None
  }

  function ArgumentPairs(args: seq<Argument>): (ps: seq<(string, Option<Literal>)>)
    ensures |ps| == |args|
    ensures forall i :: 0 <= i < |args| ==> ps[i] == (args[i].name, RawValue(args[i].value))
  {
    seq(|args|, i requires 0 <= i < |args| => (args[i].name, RawValue(args[i].value)))
  }

  /** The argument names in order, repetitions included. */
  function ArgumentNames(args: seq<Argument>): (ns: seq<string>)
    ensures |ns| == |args|
    ensures forall i :: 0 <= i < |args| ==> ns[i] == args[i].name
  {
    seq(|args|, i requires 0 <= i < |args| => args[i].name)
  }

  /** The directive names in order, repetitions included. */
  function DirectiveNameList(ds: seq<Directive>): (ns: seq<string>)
    ensures |ns| == |ds|
    ensures forall i :: 0 <= i < |ds| ==> ns[i] == ds[i].name
  {
    seq(|ds|, i requires 0 <= i < |ds| => ds[i].name)
  }

  /** No argument after position `i` has the name of argument `i`. */
  predicate LastArgument(args: seq<Argument>, i: nat)
    requires i < |args|
  {
    forall j :: i < j < |args| ==> args[j].name != args[i].name
  }

  /** No directive after position `i` has the name of directive `i`. */
  predicate LastDirective(ds: seq<Directive>, i: nat)
    requires i < |ds|
  {
    forall j :: i < j < |ds| ==> ds[j].name != ds[i].name
  }

  /**
   * The `reduce` of `convertDirectiveArguments`: keyed by the argument names,
   * each once, in order of first occurrence (so the key set is exactly the
   * set of argument names), each holding the value of its last argument.
   */
  function ArgumentsOf(args: seq<Argument>): (r: ArgumentMap)
    ensures Keys(r) == Dedup(ArgumentNames(args))
    ensures forall i :: 0 <= i < |args| && LastArgument(args, i) ==>
      Get(r, args[i].name) == Some(RawValue(args[i].value))
  {
    var ps := ArgumentPairs(args);
    FromPairsLastWins(ps);
    assert Keys(ps) == ArgumentNames(args);
    assert forall i :: 0 <= i < |args| && LastArgument(args, i) ==> LastWithKey(ps, i);
    FromPairs(ps)
  }

  /** `convertDirectiveArguments`: `{}` when the node has no `arguments`, the fold over them otherwise. */
  function ConvertDirectiveArguments(d: Directive): (r: ArgumentMap)
    ensures d.arguments.None? ==> r == []
    ensures d.arguments.Some? ==> r == ArgumentsOf(d.arguments.value)
  {
    match d.arguments
    case None => []
    case Some(args) => ArgumentsOf(args)
  }

  /** The directive names in order, each once, at its first occurrence. */
  function DirectiveNames(ds: seq<Directive>): seq<string>
  {
    Dedup(DirectiveNameList(ds))
  }

  /** Whether `convertDirectives` has a case for the constructor name. */
  predicate HasDirectiveCase(kind: Kind)
  {
    kind.GraphQLEnumType? || kind.GraphQLObjectType? || kind.PlainObject?
  }

  /**
   * The `reduce` over a node's directives in `convertDirectives`: keyed by
   * the directive names, each once, in order of first occurrence, each bound
   * to the arguments of the last directive with that name.
   */
  function DirectivesOf(ds: seq<Directive>): (r: DirectiveMap)
    ensures Keys(r) == DirectiveNames(ds)
    ensures forall i :: 0 <= i < |ds| && LastDirective(ds, i) ==>
      Get(r, ds[i].name) == Some(ConvertDirectiveArguments(ds[i]))
  {
    var ps := DirectivePairs(ds);
    FromPairsLastWins(ps);
    assert Keys(ps) == DirectiveNameList(ds);
    assert forall i :: 0 <= i < |ds| && LastDirective(ds, i) ==> LastWithKey(ps, i);
    FromPairs(ps)
  }

  function DirectivePairs(ds: seq<Directive>): (ps: seq<(string, ArgumentMap)>)
    ensures |ps| == |ds|
    ensures forall i :: 0 <= i < |ds| ==> ps[i] == (ds[i].name, ConvertDirectiveArguments(ds[i]))
  {
    seq(|ds|, i requires 0 <= i < |ds| => (ds[i].name, ConvertDirectiveArguments(ds[i])))
  }

  /**
   * `convertDirectives` on a node of the given kind with the given `astNode`
   * directives: empty for an unhandled kind or a missing `astNode`, the fold
   * over the directives otherwise.
   */
  function ConvertDirectives(kind: Kind, ast: Option<seq<Directive>>): (r: DirectiveMap)
    ensures !HasDirectiveCase(kind) || ast.None? ==> r == []
    ensures HasDirectiveCase(kind) && ast.Some? ==> r == DirectivesOf(ast.value)
  {
    match kind
    case OtherKind(_) => []
    case _ =>
      match ast
      case None => []
      case Some(ds) => DirectivesOf(ds)
  }

  /** A directive name is a key of the converted directives exactly when some directive has it. */
  lemma DirectiveKeysAreNames(ds: seq<Directive>, name: string)
    ensures name in Keys(DirectivesOf(ds)) <==> HasDirectiveNamed(ds, name)
  {
    var ns := DirectiveNameList(ds);
    if HasDirectiveNamed(ds, name) {
      var i :| 0 <= i < |ds| && ds[i].name == name;
      assert ns[i] == name;
    }
  }

  /** An argument name is a key of the converted arguments exactly when some argument has it. */
  lemma ArgumentKeysAreNames(args: seq<Argument>, name: string)
    ensures name in Keys(ArgumentsOf(args)) <==> exists i :: 0 <= i < |args| && args[i].name == name
  {
    var ns := ArgumentNames(args);
    if exists i :: 0 <= i < |args| && args[i].name == name {
      var i :| 0 <= i < |args| && args[i].name == name;
      assert ns[i] == name;
    }
  }

  /** The `find` test of `filterByDirective`: some directive of the list is called `name`. */
  predicate HasDirectiveNamed(ds: seq<Directive>, name: string)
  {
    exists i :: 0 <= i < |ds| && ds[i].name == name
  }

  /** A field is kept when it has an `astNode` whose directives include one called `name`. */
  function KeepIfAnnotated(name: string): Field -> Option<Field>
  {
    (f: Field) => if f.astNode.Some? && HasDirectiveNamed(f.astNode.value.directives, name) then Some(f) else None
  }

  /**
   * `filterByDirective(name, fields)`, taking a field without an `astNode`
   * as not annotated: the sub-object of the annotated fields, with their
   * values unchanged and in the input's key order.
   */
  function FilterByDirective(name: string, fields: Obj<Field>): (r: Obj<Field>)
    ensures IsSubsequence(Keys(r), Keys(fields))
    ensures forall i :: 0 <= i < |fields| ==>
      (fields[i].0 in Keys(r) <==>
         fields[i].1.astNode.Some? && HasDirectiveNamed(fields[i].1.astNode.value.directives, name))
    ensures forall k :: k in Keys(r) ==> Get(r, k) == Get(fields, k)
  {
    var r := FilterMap(fields, KeepIfAnnotated(name));
    SubsequenceMembers(Keys(r), Keys(fields));
    r
  }

  /**
   * `filterByDirective` as written: it reads `field.astNode.directives`
   * without testing `field.astNode`, so one field without an `astNode`
   * makes it throw (`None`).
   */
  function FilterByDirectiveAsWritten(name: string, fields: Obj<Field>): Option<Obj<Field>>
  {
    if fields == [] then Some([])
    else
      var init: Obj<Field> := fields[..|fields| - 1];
      var (key, field) := fields[|fields| - 1];
      match FilterByDirectiveAsWritten(name, init)
      case None => None
      case Some(acc) =>
        if field.astNode.None? then None
        else if HasDirectiveNamed(field.astNode.value.directives, name) then Some(Put(acc, key, field))
        else Some(acc)
  }

  /** Some field lacks an `astNode`. */
  predicate SomeFieldWithoutAstNode(fields: seq<(string, Field)>)
  {
    exists i :: 0 <= i < |fields| && fields[i].1.astNode.None?
  }

  /** The code as written throws exactly when some field has no `astNode`. */
  lemma {:induction false} FilterAsWrittenThrowsIff(name: string, fields: Obj<Field>)
    ensures FilterByDirectiveAsWritten(name, fields).None? <==> SomeFieldWithoutAstNode(fields)
    decreases |fields|
  {
    if fields != [] {
      var n := |fields| - 1;
      var init: Obj<Field> := fields[..n];
      FilterAsWrittenThrowsIff(name, init);
      if SomeFieldWithoutAstNode(init) {
        var i :| 0 <= i < |init| && init[i].1.astNode.None?;
        assert fields[i] == init[i];
      }
      if SomeFieldWithoutAstNode(fields) {
        var i :| 0 <= i < |fields| && fields[i].1.astNode.None?;
        if i < n {
          assert fields[i] == init[i];
        }
      }
    }
  }

  /** When every field has an `astNode`, the code as written returns the corrected result. */
  lemma {:induction false} FilterAsWrittenAgrees(name: string, fields: Obj<Field>)
    requires forall i :: 0 <= i < |fields| ==> fields[i].1.astNode.Some?
    ensures FilterByDirectiveAsWritten(name, fields) == Some(FilterByDirective(name, fields))
    decreases |fields|
  {
    if fields != [] {
      var n := |fields| - 1;
      var init: Obj<Field> := fields[..n];
      assert forall i :: 0 <= i < |init| ==> init[i] == fields[i];
      FilterAsWrittenAgrees(name, init);
      FilterMapLast(fields, KeepIfAnnotated(name));
      var acc := FilterMap(init, KeepIfAnnotated(name));
      assert fields[n].0 !in Keys(acc);
      assert Put(acc, fields[n].0, fields[n].1) == acc + [(fields[n].0, fields[n].1)];
    }
  }

  /** One unannotated field without an `astNode`: the code throws, the corrected filter returns `{}`. */
  lemma FilterAsWrittenThrowsWithoutAstNode()
    ensures FilterByDirectiveAsWritten("key", [("id", Field(PlainObject, None))]) == None
    ensures FilterByDirective("key", [("id", Field(PlainObject, None))]) == []
  {
    var fields: Obj<Field> := [("id", Field(PlainObject, None))];
    var r := FilterByDirective("key", fields);
    assert "id" !in Keys(r);
    assert |Keys(r)| == 0;
  }
}
