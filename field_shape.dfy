/**
 * The field-shape resolver of `convertField`: nullability, list-ness and the
 * named type of a field's type reference, and the SDL text of a reference
 * (section 2.11 "Type References" of the GraphQL specification, October 2021
 * edition) against which the three are specified.
 */
module FieldShape {
  import opened Wrappers
  import opened Ast

  /** The `type` of a converted field: a declared name, or the `type.toString` function read when there is no `astNode`. */
  datatype ResolvedName = Declared(name: string) | RuntimeToString

  /** `getNonNullable`, which returns nullability despite its name. */
  function IsNullable(t: Option<TypeRef>): bool
  {
    match t
    case None => true
    case Some(r) => !r.NonNullT?
  }

  /** `getIsList`: looks at the outer wrapper and, under a non-null wrapper, at the next one. */
  function IsList(t: Option<TypeRef>): bool
  {
    match t
    case None => false
    case Some(ListT(_)) => true
    case Some(NonNullT(inner)) => inner.ListT?
    case Some(Named(_)) => false
  }

  /**
   * `getType` as written: it reads `.name.value` two or three levels down;
   * `None` is the TypeError thrown when that node is a wrapper, which has no `name`.
   */
  function GetTypeAsWritten(t: TypeRef): Option<string>
  {
    match t
    case ListT(inner) => NameOf(inner)
    case NonNullT(ListT(inner)) => NameOf(inner)
    case NonNullT(inner) => NameOf(inner)
    case Named(n) => Some(n)
  }

  /** `node.name.value`, or `None` (a TypeError) when the node is a wrapper. */
  function NameOf(t: TypeRef): Option<string>
  {
    if t.Named? then Some(t.name) else None
  }

  /** The name of the named type at the core of a reference, however deep. */
  function InnermostName(t: TypeRef): string
  {
    match t
    case Named(n) => n
    case ListT(inner) => InnermostName(inner)
    case NonNullT(inner) => InnermostName(inner)
  }

  /** The resolved `type` of a field: the innermost name, or the fallback without an `astNode`. */
  function ResolveName(t: Option<TypeRef>): (r: ResolvedName)
    ensures t.None? <==> r == RuntimeToString
  {
    match t
    case None => RuntimeToString
    case Some(ref) => Declared(InnermostName(ref))
  }

  /** The four shapes `getType` handles: unwrapped, list, non-null, non-null list, each directly around a name. */
  predicate Supported(t: TypeRef)
  {
    match t
    case Named(_) => true
    case ListT(inner) => inner.Named?
    case NonNullT(inner) => inner.Named? || (inner.ListT? && inner.inner.Named?)
  }

  // A GraphQL name (section 2.1.9): a letter or underscore, then letters, digits and underscores.
  predicate ValidName(n: string)
  {
    && |n| > 0
    && (n[0] == '_' || 'A' <= n[0] <= 'Z' || 'a' <= n[0] <= 'z')
    && forall i :: 0 <= i < |n| ==> (n[i] == '_' || 'A' <= n[i] <= 'Z' || 'a' <= n[i] <= 'z' || '0' <= n[i] <= '9')
  }

  /** The grammar's restrictions: names are valid and a non-null wrapper is never directly inside another. */
  predicate WellFormed(t: TypeRef)
  {
    match t
    case Named(n) => ValidName(n)
    case ListT(inner) => WellFormed(inner)
    case NonNullT(inner) => !inner.NonNullT? && WellFormed(inner)
  }

  /** The SDL text of a reference: `T`, `[T]`, `T!`. */
  function Print(t: TypeRef): string
  {
    match t
    case Named(n) => n
    case ListT(inner) => "[" + Print(inner) + "]"
    case NonNullT(inner) => Print(inner) + "!"
  }

  /** The text with every `[`, `]` and `!` removed. */
  function StripWrappers(s: string): string
  {
    if s == [] then []
    else (if s[0] in "[]!" then [] else [s[0]]) + StripWrappers(s[1..])
  }

  lemma {:induction false} StripConcat(a: string, b: string)
    ensures StripWrappers(a + b) == StripWrappers(a) + StripWrappers(b)
    decreases |a|
  {
    if a == [] {
      assert a + b == b;
    } else {
      var head := if a[0] in "[]!" then [] else [a[0]];
      assert (a + b)[0] == a[0];
      assert (a + b)[1..] == a[1..] + b;
      StripConcat(a[1..], b);
      calc {
        StripWrappers(a + b);
        head + StripWrappers(a[1..] + b);
        head + (StripWrappers(a[1..]) + StripWrappers(b));
        (head + StripWrappers(a[1..])) + StripWrappers(b);
      }
    }
  }

  lemma {:induction false} StripName(n: string)
    requires forall i :: 0 <= i < |n| ==> n[i] !in "[]!"
    ensures StripWrappers(n) == n
    decreases |n|
  {
    if n != [] {
      StripName(n[1..]);
    }
  }

  /** A well-formed reference prints to a non-empty text whose first character is a name character, `[`, and whose last is a name character, `]` or `!`. */
  lemma {:induction false} PrintShape(t: TypeRef)
    requires WellFormed(t)
    ensures |Print(t)| > 0
    ensures Print(t)[0] == '[' <==> t.ListT? || (t.NonNullT? && t.inner.ListT?)
    ensures Print(t)[|Print(t)| - 1] == '!' <==> t.NonNullT?
    decreases t
  {
    match t
    case Named(n) =>
    case ListT(inner) => PrintShape(inner);
    case NonNullT(inner) => PrintShape(inner);
  }

  /** The reference is nullable exactly when its SDL text does not end in `!`. */
  lemma NullableIffNoBang(t: TypeRef)
    requires WellFormed(t)
    ensures |Print(t)| > 0
    ensures IsNullable(Some(t)) <==> Print(t)[|Print(t)| - 1] != '!'
  {
    PrintShape(t);
  }

  /** The reference is a list (possibly non-null) exactly when its SDL text starts with `[`. */
  lemma ListIffOpenBracket(t: TypeRef)
    requires WellFormed(t)
    ensures |Print(t)| > 0
    ensures IsList(Some(t)) <==> Print(t)[0] == '['
  {
    PrintShape(t);
  }

  /** The resolved name is the SDL text with its wrapper punctuation removed. */
  lemma {:induction false} InnermostNameIsStrippedText(t: TypeRef)
    requires WellFormed(t)
    ensures InnermostName(t) == StripWrappers(Print(t))
    decreases t
  {
    match t
    case Named(n) =>
      assert forall i :: 0 <= i < |n| ==> n[i] !in "[]!";
      StripName(n);
    case ListT(inner) =>
      assert StripWrappers("[") == [] && StripWrappers("]") == [];
      InnermostNameIsStrippedText(inner);
      StripConcat("[" + Print(inner), "]");
      StripConcat("[", Print(inner));
    case NonNullT(inner) =>
      assert StripWrappers("!") == [];
      InnermostNameIsStrippedText(inner);
      StripConcat(Print(inner), "!");
  }

  /** `getType` as written succeeds exactly on the supported shapes, and there yields the innermost name. */
  lemma GetTypeAsWrittenAgrees(t: TypeRef)
    ensures GetTypeAsWritten(t).Some? <==> Supported(t)
    ensures GetTypeAsWritten(t).Some? ==> GetTypeAsWritten(t).value == InnermostName(t)
  {
  }

  /** `[String!]`, a list of non-null strings, makes `getType` as written throw; its innermost name is `String`. */
  lemma GetTypeAsWrittenFailsOnListOfNonNull()
    ensures GetTypeAsWritten(ListT(NonNullT(Named("String")))) == None
    ensures InnermostName(ListT(NonNullT(Named("String")))) == "String"
    ensures WellFormed(ListT(NonNullT(Named("String"))))
  {
  }

  /** The shape table: the name, nullability and list-ness of each supported shape, and the fallback without an `astNode`. */
  lemma SupportedShapes(n: string)
    ensures ResolveName(Some(Named(n))) == Declared(n) && IsNullable(Some(Named(n))) && !IsList(Some(Named(n)))
    ensures ResolveName(Some(ListT(Named(n)))) == Declared(n) && IsNullable(Some(ListT(Named(n)))) && IsList(Some(ListT(Named(n))))
    ensures ResolveName(Some(NonNullT(Named(n)))) == Declared(n) && !IsNullable(Some(NonNullT(Named(n)))) && !IsList(Some(NonNullT(Named(n))))
    ensures ResolveName(Some(NonNullT(ListT(Named(n))))) == Declared(n)
    ensures !IsNullable(Some(NonNullT(ListT(Named(n))))) && IsList(Some(NonNullT(ListT(Named(n)))))
    ensures ResolveName(None) == RuntimeToString && IsNullable(None) && !IsList(None)
  {
  }
}
