/**
 * The parts of the GraphQL abstract syntax tree the generator reads and writes
 * (the tree `graphql`'s `parse` produces). Type references follow section 2.11
 * "Type References" of the GraphQL specification (October 2021); variable
 * definitions follow section 2.10 "Variables".
 */
module GraphQL {
  import opened Wrappers

  /** `Named`, `[T]` or `T!`. */
  datatype TypeRef =
    | NamedType(name: string)
    | NonNullType(ofType: TypeRef)
    | ListType(ofType: TypeRef)

  /** An argument definition, or a field of an input object type. */
  datatype InputValue = InputValue(name: string, typeRef: TypeRef, defaultValue: Option<string>, directives: seq<string>)

  /** A field of an object type, with its argument definitions in declaration order. */
  datatype FieldDef = FieldDef(name: string, arguments: seq<InputValue>, typeRef: TypeRef)

  /** A named type definition of the schema. */
  datatype TypeDef =
    | ObjectTypeDef(name: string, fields: seq<FieldDef>)
    | InputObjectTypeDef(name: string, inputFields: seq<InputValue>)
    | EnumTypeDef(name: string, values: seq<string>)
    | UnionTypeDef(name: string, members: seq<string>)
    | ScalarTypeDef(name: string)

  /** A schema document: its type definitions in document order. */
  type Schema = seq<TypeDef>

  /**
   * An argument given in an operation. Only arguments bound to a variable
   * (`id: $userId`) are modelled: the completer reads every caller argument's
   * value as a variable reference.
   */
  datatype Argument = Argument(name: string, variable: string)

  datatype Selection =
    | Field(name: string, arguments: seq<Argument>, selectionSet: SelectionSet)
    | InlineFragment(typeCondition: Option<string>, selections: seq<Selection>)
    | FragmentSpread(fragmentName: string)

  /** The optional `{ ... }` of a field. */
  datatype SelectionSet = NoSelectionSet | SelectionSet(selections: seq<Selection>)

  /** The `kind` string of a selection node. */
  function SelectionKind(s: Selection): string
  {
    match s
    case Field(_, _, _) => "Field"
    case InlineFragment(_, _) => "InlineFragment"
    case FragmentSpread(_) => "FragmentSpread"
  }

  datatype OperationKind = Query | Mutation | Subscription

  /** `def.operation`: "query", "mutation" or "subscription". */
  function OperationKeyword(k: OperationKind): string
  {
    match k
    case Query => "query"
    case Mutation => "mutation"
    case Subscription => "subscription"
  }

  datatype VariableDef = VariableDef(name: string, typeRef: TypeRef, defaultValue: Option<string>, directives: seq<string>)

  /** A definition of an executable document: an operation, or anything else (kept as it is). */
  datatype Definition =
    | OperationDef(operation: OperationKind, name: Option<string>, variableDefinitions: seq<VariableDef>, selections: seq<Selection>)
    | FragmentDef(fragmentName: string, typeCondition: string, fragmentSelections: seq<Selection>)
}
