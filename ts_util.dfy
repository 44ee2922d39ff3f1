/**
 * The declarations `src/core/typescript-util.ts` builds with `ts.factory`,
 * as a small output syntax: type nodes, interface, enum and alias
 * declarations, hook functions and import statements. Printing is not
 * modelled; the builders are.
 */
module TSUtil {
  import opened Wrappers
  import opened Collections
  import opened GraphQLUtil
  import opened ExtractTypes

  datatype Keyword = StringKeyword | NumberKeyword | BooleanKeyword | UndefinedKeyword

  datatype TypeNode =
    | KeywordType(keyword: Keyword)
    | TypeReference(typeName: string, typeArguments: seq<TypeNode>)
    | ArrayType(elementType: TypeNode)
    | UnionType(members: seq<TypeNode>)
    | LiteralType(literal: string)

  datatype PropertySignature = PropertySignature(name: string, optional: bool, typeNode: TypeNode)

  datatype EnumMember = EnumMember(name: string, initializer: string)

  datatype Expr =
    | Ident(name: string)
    | PropertyAccess(target: Expr, property: string)
    | Not(operand: Expr)
    | Or(left: Expr, right: Expr)
    | ObjectLiteral(properties: seq<ObjectProperty>)
    | Call(callee: string, typeArguments: seq<TypeNode>, arguments: seq<Expr>)

  datatype ObjectProperty = PropertyAssignment(name: string, value: Expr) | SpreadAssignment(spread: Expr)

  datatype Parameter = Parameter(name: string, optional: bool, typeNode: TypeNode)

  /** Top-level statements; every declaration carries the `export` modifier. */
  datatype Statement =
    | InterfaceDeclaration(name: string, members: seq<PropertySignature>)
    | EnumDeclaration(name: string, enumMembers: seq<EnumMember>)
    | TypeAliasDeclaration(name: string, aliased: TypeNode)
    | FunctionDeclaration(name: string, parameters: seq<Parameter>, returned: Expr)
    | DefaultImport(clause: string, moduleSpecifier: string)
    | NamedImport(names: seq<string>, moduleSpecifier: string)

  /** `toJSType`: the keyword of a built-in scalar, nothing for any other name. */
  function ToJSType(typeName: string): (r: Option<Keyword>)
    ensures r.Some? <==> IsScalarType(typeName)
    ensures r != Some(UndefinedKeyword)
  {
    if typeName == "ID" || typeName == "String" then Some(StringKeyword)
    else if typeName == "Int" || typeName == "Float" then Some(NumberKeyword)
    else if typeName == "Boolean" then Some(BooleanKeyword)
    else None
  }

  /**
   * `createType`: a keyword for a built-in scalar, a reference to the named
   * type otherwise; wrapped in an array when `isArray`; and the whole, array
   * included, joined with `undefined` when `allowUndefined`.
   */
  function CreateType(typeName: string, isArray: bool, allowUndefined: bool): (r: TypeNode)
    ensures r.UnionType? <==> allowUndefined
    ensures allowUndefined ==> |r.members| == 2 && r.members[1] == KeywordType(UndefinedKeyword)
    ensures var base := if allowUndefined then r.members[0] else r;
            && (base.ArrayType? <==> isArray)
            && var element := if isArray then base.elementType else base;
               && (element.KeywordType? <==> IsScalarType(typeName))
               && (!IsScalarType(typeName) ==> element == TypeReference(typeName, []))
  {
    var element :=
      match ToJSType(typeName)
      case Some(keyword) => KeywordType(keyword)
      case None => TypeReference(typeName, []);
    var base := if isArray then ArrayType(element) else element;
    if allowUndefined then UnionType([base, KeywordType(UndefinedKeyword)]) else base
  }

  /** A truthy `originalName`: present and not empty. */
  predicate Truthy(originalName: Option<string>)
  {
    originalName.Some? && originalName.value != ""
  }

  /**
   * `createInterface`: one property per field, in order, optional exactly
   * when the field may be null, typed by `createType`; then an optional
   * literal `__typename` exactly when `originalName` is truthy.
   */
  function CreateInterface(gqlType: GQLType, originalName: Option<string>, allowUndefined: bool): (r: Statement)
    requires Flat(gqlType)
    ensures r.InterfaceDeclaration? && r.name == gqlType.name
    ensures |r.members| == |gqlType.fields| + if Truthy(originalName) then 1 else 0
    ensures forall i :: 0 <= i < |gqlType.fields| ==>
              var field := gqlType.fields[i];
              && r.members[i].name == field.name
              && (r.members[i].optional <==> !field.isNonNull)
              && r.members[i].typeNode == CreateType(field.fieldType.typeName, field.isArray, allowUndefined)
    ensures Truthy(originalName) ==>
              r.members[|gqlType.fields|] == PropertySignature("__typename", true, LiteralType(originalName.value))
  {
    var fields := gqlType.fields;
    var properties := seq(|fields|, i requires 0 <= i < |fields| =>
      PropertySignature(fields[i].name, !fields[i].isNonNull,
                        CreateType(fields[i].fieldType.typeName, fields[i].isArray, allowUndefined)));
    var typename :=
      if Truthy(originalName) then [PropertySignature("__typename", true, LiteralType(originalName.value))]
      else [];
    InterfaceDeclaration(gqlType.name, properties + typename)
  }

  /** `createEnum`: one member per field, initialised with the field's type name. */
  function CreateEnum(gqlType: GQLType): (r: Statement)
    requires Flat(gqlType)
    ensures r.EnumDeclaration? && r.name == gqlType.name
    ensures |r.enumMembers| == |gqlType.fields|
    ensures forall i :: 0 <= i < |gqlType.fields| ==>
              r.enumMembers[i] == EnumMember(gqlType.fields[i].name, gqlType.fields[i].fieldType.typeName)
  {
    var fields := gqlType.fields;
    EnumDeclaration(gqlType.name, seq(|fields|, i requires 0 <= i < |fields| =>
      EnumMember(fields[i].name, fields[i].fieldType.typeName)))
  }

  /** A schema enum becomes an enum whose every member is initialised with its own name, in schema order. */
  lemma EnumOfSchemaEnum(enumDef: GraphQL.TypeDef, context: Context)
    requires enumDef.EnumTypeDef?
    ensures Flat(ExtractEnumType(enumDef, context))
    ensures var r := CreateEnum(ExtractEnumType(enumDef, context));
            && r.name == enumDef.name
            && |r.enumMembers| == |enumDef.values|
            && forall i :: 0 <= i < |enumDef.values| ==> r.enumMembers[i] == EnumMember(enumDef.values[i], enumDef.values[i])
  {
  }

  /** `createUnion`: an alias of the union of references to the field names. */
  function CreateUnion(gqlType: GQLType): (r: Statement)
    ensures r.TypeAliasDeclaration? && r.name == gqlType.name && r.aliased.UnionType?
    ensures |r.aliased.members| == |gqlType.fields|
    ensures forall i :: 0 <= i < |gqlType.fields| ==>
              r.aliased.members[i] == TypeReference(gqlType.fields[i].name, [])
  {
    var fields := gqlType.fields;
    TypeAliasDeclaration(gqlType.name, UnionType(seq(|fields|, i requires 0 <= i < |fields| =>
      TypeReference(fields[i].name, []))))
  }

  function SameName(name: string): string
  {
    name
  }

  /** `Object.values(Object.fromEntries(names.map(n => [n, n])))`. */
  function UniqueImports(names: seq<string>): seq<string>
  {
    LastByKey(names, SameName)
  }

  /** Each name once, every name kept, nothing added, in first-occurrence order. */
  lemma UniqueImportsSpec(names: seq<string>)
    ensures var r := UniqueImports(names);
            && Distinct(r)
            && (forall x :: x in names <==> x in r)
            && (forall i, j :: 0 <= i < j < |r| ==> FirstIndex(names, r[i]) < FirstIndex(names, r[j]))
  {
    var r := UniqueImports(names);
    LastByKeySpec(names, SameName);
    assert MapKeys(r, SameName) == r;
    assert MapKeys(names, SameName) == names;
    forall x | x in names ensures x in r {
      var i :| 0 <= i < |names| && names[i] == x;
      assert SameName(names[i]) in MapKeys(r, SameName);
    }
  }

  /**
   * `createNamedImports`: one import declaration per module, in the order the
   * modules were first added, naming that module's imports without repeats.
   */
  function CreateNamedImports(imports: seq<(string, seq<string>)>): (r: seq<Statement>)
    ensures |r| == |imports|
    ensures forall i :: 0 <= i < |imports| ==>
              r[i].NamedImport? && r[i].moduleSpecifier == imports[i].0 && Distinct(r[i].names) &&
              forall x :: x in imports[i].1 <==> x in r[i].names
  {
    forall i | 0 <= i < |imports| {
      UniqueImportsSpec(imports[i].1);
    }
    seq(|imports|, i requires 0 <= i < |imports| => NamedImport(UniqueImports(imports[i].1), imports[i].0))
  }
}
