/**
 * Schema lookups shared by the request completer, the type extractor and the
 * hook generator, and the `required` guard they use to turn a missing value
 * into an error.
 */
module GraphQLUtil {
  import opened Wrappers
  import opened GraphQL
  import opened Names
  import opened Collections

  /**
   * The values `required` is given. JavaScript tells "falsy" values apart from
   * all others; `Object` stands for any syntax node or record, which is never falsy.
   */
  datatype JsValue<T> = Undefined | Null | Bool(b: bool) | Number(n: int) | Str(s: string) | Object(obj: T)

  predicate Truthy<T>(v: JsValue<T>)
  {
    match v
    case Undefined => false
    case Null => false
    case Bool(b) => b
    case Number(n) => n != 0
    case Str(s) => s != ""
    case Object(_) => true
  }

  const RequiredPrefix := "Did not find a required value: "

  /** `required(value, name)`: the value itself, or an error naming what was missing. */
  function Required<T>(value: JsValue<T>, name: string): (r: Result<JsValue<T>>)
    ensures r.Success? <==> value != Undefined && value != Null && value != Bool(false) && value != Number(0) && value != Str("")
    ensures r.Success? ==> r.value == value
    ensures r.Failure? ==> r.error == RequiredPrefix + name
  {
    if !Truthy(value) then Failure(RequiredPrefix + name) else Success(value)
  }

  /** `required` applied to the result of an `Array.find`: a node when found, `undefined` otherwise. */
  function RequiredNode<T>(found: Option<T>, name: string): (r: Result<T>)
    ensures r.Success? <==> found.Some?
    ensures r.Success? ==> r.value == found.value
    ensures r.Failure? ==> r.error == RequiredPrefix + name
  {
    var v := if found.Some? then Object(found.value) else Undefined;
    match Required(v, name)
    case Success(Object(node)) => Success(node)
    case Success(_) => assert false; Failure(name)
    case Failure(e) => Failure(e)
  }

  /** The members of the `ScalarToJSType` enum object: built-in scalar name to TypeScript type. */
  const ScalarToJSType: map<string, string> :=
    map["String" := "string", "Boolean" := "boolean", "Int" := "number", "Float" := "number", "ID" := "string"]

  /**
   * The property names every plain JavaScript object inherits from
   * `Object.prototype`; each of them reads as a function, which is truthy.
   */
  const ObjectPrototypeMembers: set<string> :=
    {"constructor", "hasOwnProperty", "isPrototypeOf", "propertyIsEnumerable", "toLocaleString",
     "toString", "valueOf", "__proto__", "__defineGetter__", "__defineSetter__",
     "__lookupGetter__", "__lookupSetter__"}

  /** `!!ScalarToJSType[type]` as the property lookup evaluates it: own members and inherited ones. */
  predicate IsScalarTypeAsWritten(typeName: string)
  {
    typeName in ScalarToJSType.Keys + ObjectPrototypeMembers
  }

  /** The five built-in scalar types of section 3.5 of the GraphQL specification. */
  function IsScalarType(typeName: string): (r: bool)
    ensures r <==> typeName == "String" || typeName == "Boolean" || typeName == "Int" || typeName == "Float" || typeName == "ID"
  {
    typeName in ScalarToJSType
  }

  /** `constructor` is a legal GraphQL type name, yet the lookup as written calls it a scalar. */
  lemma PrototypeNameReadsAsScalar()
    ensures IsScalarTypeAsWritten("constructor") && !IsScalarType("constructor")
  {
  }

  /** Every built-in scalar is recognised by both lookups; they differ only on inherited names. */
  lemma ScalarLookupsAgree(typeName: string)
    ensures IsScalarType(typeName) ==> IsScalarTypeAsWritten(typeName)
    ensures IsScalarTypeAsWritten(typeName) && !IsScalarType(typeName) ==> typeName in ObjectPrototypeMembers
  {
  }

  predicate IsObjectNamed(d: TypeDef, typeName: string)
  {
    d.ObjectTypeDef? && d.name == typeName
  }

  /** `findObjectType`: the first object type definition called `typeName`. */
  function FindObjectType(schema: Schema, typeName: string): (r: Result<TypeDef>)
    ensures r.Success? <==> exists i :: 0 <= i < |schema| && IsObjectNamed(schema[i], typeName)
    ensures r.Success? ==> r.value.ObjectTypeDef? && r.value.name == typeName
    ensures r.Success? ==> exists i :: 0 <= i < |schema| && schema[i] == r.value && forall j :: 0 <= j < i ==> !IsObjectNamed(schema[j], typeName)
    ensures r.Failure? ==> r.error == RequiredPrefix + "Count not found \"type " + ToClassName(typeName) + "\" in your schema"
  {
    var found := FindIndex(schema, d => IsObjectNamed(d, typeName));
    RequiredNode(if found.Some? then Some(schema[found.value]) else None,
                 "Count not found \"type " + ToClassName(typeName) + "\" in your schema")
  }

  /** The first type definition of any kind called `typeName`, if any. */
  function FindSchemaType(schema: Schema, typeName: string): (r: Option<TypeDef>)
    ensures r.None? <==> forall i :: 0 <= i < |schema| ==> schema[i].name != typeName
    ensures r.Some? ==> r.value.name == typeName
    ensures r.Some? ==> exists i :: 0 <= i < |schema| && schema[i] == r.value && forall j :: 0 <= j < i ==> schema[j].name != typeName
  {
    var found := FindIndex(schema, (d: TypeDef) => d.name == typeName);
    if found.Some? then Some(schema[found.value]) else None
  }

  /** `findField` on an object type definition: the first field called `name`, or an error. */
  function FindField(def: TypeDef, name: string): (r: Result<FieldDef>)
    requires def.ObjectTypeDef?
    ensures r.Success? <==> exists i :: 0 <= i < |def.fields| && def.fields[i].name == name
    ensures r.Success? ==> exists i :: 0 <= i < |def.fields| && def.fields[i] == r.value && forall j :: 0 <= j < i ==> def.fields[j].name != name
    ensures r.Failure? ==> r.error == RequiredPrefix + "No such field: " + name
  {
    var found := FindIndex(def.fields, (f: FieldDef) => f.name == name);
    RequiredNode(if found.Some? then Some(def.fields[found.value]) else None, "No such field: " + name)
  }

  /**
   * The fields a definition declares: the fields of an object type, or the
   * fields of an input object type (which take no arguments); other kinds declare none.
   */
  function DeclaredFields(def: TypeDef): (r: seq<FieldDef>)
    ensures def.ObjectTypeDef? ==> r == def.fields
    ensures def.InputObjectTypeDef? ==>
              |r| == |def.inputFields| &&
              forall i :: 0 <= i < |r| ==> r[i] == FieldDef(def.inputFields[i].name, [], def.inputFields[i].typeRef)
    ensures !def.ObjectTypeDef? && !def.InputObjectTypeDef? ==> r == []
  {
    match def
    case ObjectTypeDef(_, fields) => fields
    case InputObjectTypeDef(_, inputs) =>
      seq(|inputs|, i requires 0 <= i < |inputs| => FieldDef(inputs[i].name, [], inputs[i].typeRef))
    case _ => []
  }

  /** The nullable `findField`: the first declared field called `name`, if any. */
  function FindNullableField(def: TypeDef, name: string): (r: Option<FieldDef>)
    ensures r.None? <==> forall i :: 0 <= i < |DeclaredFields(def)| ==> DeclaredFields(def)[i].name != name
    ensures r.Some? ==> r.value.name == name
    ensures r.Some? ==>
              exists i :: 0 <= i < |DeclaredFields(def)| && DeclaredFields(def)[i] == r.value &&
                forall j :: 0 <= j < i ==> DeclaredFields(def)[j].name != name
  {
    var fields := DeclaredFields(def);
    var found := FindIndex(fields, (f: FieldDef) => f.name == name);
    if found.Some? then Some(fields[found.value]) else None
  }

  /** `findDeepType`: the named type inside every list and non-null wrapper. */
  function FindDeepType(t: TypeRef): (r: string)
    ensures t == Wrap(WrappersOf(t), r)
  {
    match t
    case NamedType(name) => name
    case NonNullType(inner) => FindDeepType(inner)
    case ListType(inner) => FindDeepType(inner)
  }

  datatype Wrapper = NonNullWrapper | ListWrapper

  /** The wrappers around the innermost named type, outermost first. */
  function WrappersOf(t: TypeRef): seq<Wrapper>
  {
    match t
    case NamedType(_) => []
    case NonNullType(inner) => [NonNullWrapper] + WrappersOf(inner)
    case ListType(inner) => [ListWrapper] + WrappersOf(inner)
  }

  /** Applies `ws`, outermost first, around the named type `name`. */
  function Wrap(ws: seq<Wrapper>, name: string): TypeRef
  {
    if ws == [] then NamedType(name)
    else if ws[0] == NonNullWrapper then NonNullType(Wrap(ws[1..], name))
    else ListType(Wrap(ws[1..], name))
  }

  /** Unwrapping is independent of the wrappers: the named type is found whatever surrounds it. */
  lemma {:induction false} DeepTypeOfWrapped(ws: seq<Wrapper>, name: string)
    ensures FindDeepType(Wrap(ws, name)) == name
    ensures WrappersOf(Wrap(ws, name)) == ws
  {
    if ws != [] {
      DeepTypeOfWrapped(ws[1..], name);
    }
  }

  /** `inputValueDefToVariableDef`: an argument definition turned into a variable definition. */
  function InputValueDefToVariableDef(input: InputValue): (r: VariableDef)
    ensures r.name == input.name && r.typeRef == input.typeRef
    ensures r.defaultValue == input.defaultValue && r.directives == input.directives
  {
    VariableDef(input.name, input.typeRef, input.defaultValue, input.directives)
  }

  /** One entry of a variable map: the argument `from` is bound to the variable `to`. */
  datatype VariableMapping = VariableMapping(from: string, to: string)

  /** `inputValueDefToVariable`: the argument `name: $variable` for an argument definition. */
  function InputValueDefToVariable(input: InputValue, variableMap: seq<VariableMapping>): (r: Argument)
    ensures r.name == input.name
    ensures (forall i :: 0 <= i < |variableMap| ==> variableMap[i].from != input.name) ==> r.variable == input.name
    ensures forall i ::
              0 <= i < |variableMap| && variableMap[i].from == input.name &&
              (forall j :: 0 <= j < i ==> variableMap[j].from != input.name)
              ==> r.variable == variableMap[i].to
  {
    var found := FindIndex(variableMap, (m: VariableMapping) => m.from == input.name);
    Argument(input.name, if found.Some? then variableMap[found.value].to else input.name)
  }
}
