/**
 * The request completer: it walks an operation's selections alongside the
 * schema, binds every argument the schema declares to a variable, and rebuilds
 * the operation's variable definitions from what it bound.
 *
 * The pure functions below say what a completed selection, operation and
 * document are; the `VariableRegistry` class performs the walk the way the
 * generator does, pushing onto one shared list of variables, and each of its
 * methods is proved to produce what the functions describe.
 */
module FixRequest {
  import opened Wrappers
  import opened GraphQL
  import opened GraphQLUtil
  import opened Names
  import opened Collections

  function NameOf(v: InputValue): string { v.name }

  /** The names of the registered variables, in registration order. */
  function VariableNames(vars: seq<InputValue>): (r: seq<string>)
    ensures |r| == |vars| && forall i :: 0 <= i < |vars| ==> r[i] == vars[i].name
  {
    MapKeys(vars, NameOf)
  }

  function NameSet(vars: seq<InputValue>): set<string>
  {
    set v | v in vars :: v.name
  }

  /** The first caller argument called `name`, if any. */
  function FindArgument(args: seq<Argument>, name: string): (r: Option<Argument>)
    ensures r.None? <==> forall i :: 0 <= i < |args| ==> args[i].name != name
    ensures r.Some? ==> r.value.name == name && r.value in args
  {
    var found := FindIndex(args, (a: Argument) => a.name == name);
    if found.Some? then Some(args[found.value]) else None
  }

  /**
   * `addVariable`: the variable the argument definition `variable` is bound to,
   * and the registry with that variable pushed under its new name.
   */
  function Binding(vars: seq<InputValue>, path: seq<string>, existingArguments: seq<Argument>, variable: InputValue)
    : (r: (VariableMapping, seq<InputValue>))
    ensures r.0.from == variable.name && r.1 == vars + [variable.(name := r.0.to)]
  {
    var from := variable.name;
    var existingArg := FindArgument(existingArguments, from);
    var to :=
      if existingArg.Some? then existingArg.value.variable
      else if from in VariableNames(vars) then ToCamelCase(Join(path + [from], "-"))
      else from;
    (VariableMapping(from, to), vars + [variable.(name := to)])
  }

  /**
   * `deduplicateVariables`: `addVariable` applied to each argument definition in
   * turn, each one seeing the variables its predecessors pushed.
   */
  function VariableBindings(vars: seq<InputValue>, path: seq<string>, existingArguments: seq<Argument>, inputValues: seq<InputValue>)
    : (r: (seq<VariableMapping>, seq<InputValue>))
    ensures |r.0| == |inputValues| && |r.1| == |vars| + |inputValues| && vars <= r.1
    ensures forall i :: 0 <= i < |inputValues| ==>
              r.0[i].from == inputValues[i].name && r.1[|vars| + i] == inputValues[i].(name := r.0[i].to)
    decreases |inputValues|
  {
    if inputValues == [] then ([], vars)
    else
      var n := |inputValues| - 1;
      var before := VariableBindings(vars, path, existingArguments, inputValues[..n]);
      var here := Binding(before.1, path, existingArguments, inputValues[n]);
      BindingsExtend(vars, inputValues, before.0, before.1, here.0, here.1);
      (before.0 + [here.0], here.1)
  }

  /** One more `addVariable` extends the mappings and the registry by one entry each. */
  lemma BindingsExtend(vars: seq<InputValue>, inputValues: seq<InputValue>, maps: seq<VariableMapping>,
                       vs: seq<InputValue>, m: VariableMapping, vs': seq<InputValue>)
    requires inputValues != []
    requires var n := |inputValues| - 1;
             && |maps| == n && |vs| == |vars| + n && vars <= vs
             && (forall i :: 0 <= i < n ==>
                   maps[i].from == inputValues[..n][i].name && vs[|vars| + i] == inputValues[..n][i].(name := maps[i].to))
             && m.from == inputValues[n].name && vs' == vs + [inputValues[n].(name := m.to)]
    ensures var r := (maps + [m], vs');
            && |r.0| == |inputValues| && |r.1| == |vars| + |inputValues| && vars <= r.1
            && forall i :: 0 <= i < |inputValues| ==>
                 r.0[i].from == inputValues[i].name && r.1[|vars| + i] == inputValues[i].(name := r.0[i].to)
  {
    var n := |inputValues| - 1;
    forall i | 0 <= i < n ensures inputValues[..n][i] == inputValues[i] { }
  }

  /** Each binding is the one `addVariable` makes given the variables pushed before it, siblings included. */
  lemma {:induction false} BindingsSeeEarlierSiblings(vars: seq<InputValue>, path: seq<string>, existingArguments: seq<Argument>, inputValues: seq<InputValue>)
    ensures var r := VariableBindings(vars, path, existingArguments, inputValues);
            forall i :: 0 <= i < |inputValues| ==>
              r.0[i] == Binding(r.1[..|vars| + i], path, existingArguments, inputValues[i]).0
    decreases |inputValues|
  {
    if inputValues != [] {
      var n := |inputValues| - 1;
      BindingsSeeEarlierSiblings(vars, path, existingArguments, inputValues[..n]);
      var (maps, vs) := VariableBindings(vars, path, existingArguments, inputValues[..n]);
      var r := VariableBindings(vars, path, existingArguments, inputValues);
      assert r.1[..|vars| + n] == vs;
      forall i | 0 <= i < n
        ensures r.0[i] == Binding(r.1[..|vars| + i], path, existingArguments, inputValues[i]).0
      {
        assert r.1[..|vars| + i] == vs[..|vars| + i];
        assert inputValues[..n][i] == inputValues[i];
      }
    }
  }

  /**
   * `composeArgumentList`: one argument per declared argument, in declaration
   * order; the caller's own argument when it gave one, else a reference to the
   * variable the map binds it to.
   */
  function ComposeArgumentList(inputValues: seq<InputValue>, argumentNodes: seq<Argument>, variableMap: seq<VariableMapping>)
    : (r: seq<Argument>)
    ensures |r| == |inputValues|
    ensures forall i :: 0 <= i < |r| ==> r[i].name == inputValues[i].name
    ensures forall i :: 0 <= i < |r| ==>
              r[i] == if FindArgument(argumentNodes, inputValues[i].name).Some?
                      then FindArgument(argumentNodes, inputValues[i].name).value
                      else InputValueDefToVariable(inputValues[i], variableMap)
  {
    seq(|inputValues|, i requires 0 <= i < |inputValues| =>
      var argumentNode := FindArgument(argumentNodes, inputValues[i].name);
      if argumentNode.Some? then argumentNode.value else InputValueDefToVariable(inputValues[i], variableMap))
  }

  /**
   * The naming rule, for arguments whose names are distinct: the argument keeps
   * the caller's variable when the caller supplied it; otherwise it takes the
   * bare name when no earlier variable (nor an earlier sibling) holds it, and
   * the path-prefixed name when one does, without checking that name again.
   */
  lemma NamingRule(vars: seq<InputValue>, path: seq<string>, args: seq<Argument>, inputs: seq<InputValue>, i: nat)
    requires i < |inputs|
    requires forall j, k :: 0 <= j < k < |inputs| ==> inputs[j].name != inputs[k].name
    ensures var (maps, vars') := VariableBindings(vars, path, args, inputs);
            var out := ComposeArgumentList(inputs, args, maps);
            var earlier := VariableNames(vars'[..|vars| + i]);
            && out[i].name == inputs[i].name
            && (FindArgument(args, inputs[i].name).Some? ==> out[i] == FindArgument(args, inputs[i].name).value)
            && (FindArgument(args, inputs[i].name).None? && inputs[i].name !in earlier ==> out[i].variable == inputs[i].name)
            && (FindArgument(args, inputs[i].name).None? && inputs[i].name in earlier ==>
                  out[i].variable == ToCamelCase(Join(path + [inputs[i].name], "-")))
            && vars'[|vars| + i].name == maps[i].to
  {
    var (maps, vars') := VariableBindings(vars, path, args, inputs);
    BindingsSeeEarlierSiblings(vars, path, args, inputs);
    if FindArgument(args, inputs[i].name).None? {
      assert maps[i].from == inputs[i].name;
      forall j | 0 <= j < i ensures maps[j].from != inputs[i].name {
        assert maps[j].from == inputs[j].name;
      }
      assert InputValueDefToVariable(inputs[i], maps).variable == maps[i].to;
    }
  }

  /** Every argument a completed field carries names a variable now in the registry. */
  lemma ArgumentsRegistered(vars: seq<InputValue>, path: seq<string>, args: seq<Argument>, inputs: seq<InputValue>)
    ensures var (maps, vars') := VariableBindings(vars, path, args, inputs);
            forall a :: a in ComposeArgumentList(inputs, args, maps) ==> a.variable in NameSet(vars')
  {
    var (maps, vars') := VariableBindings(vars, path, args, inputs);
    BindingsSeeEarlierSiblings(vars, path, args, inputs);
    var out := ComposeArgumentList(inputs, args, maps);
    forall i | 0 <= i < |out| ensures out[i].variable in NameSet(vars') {
      var found := FindArgument(args, inputs[i].name);
      var p := |vars| + i;
      if found.Some? {
        assert maps[i] == Binding(vars'[..p], path, args, inputs[i]).0;
        assert maps[i].to == found.value.variable;
        assert vars'[p].name == maps[i].to;
      } else {
        var k := FindIndex(maps, (m: VariableMapping) => m.from == inputs[i].name);
        assert maps[i].from == inputs[i].name;
        assert vars'[|vars| + k.value] in vars';
      }
    }
  }

  /**
   * The error for a selected field the object type lacks, as written: the
   * path list is spliced into the message as one comma-separated element.
   */
  function InvalidFieldMessageAsWritten(path: seq<string>, fieldName: string): string
  {
    "Invalid field: \"" + Join([Join(path, ","), fieldName], ".") + "\""
  }

  /** The dotted path of the selection, as the extractor reports it for the same mistake. */
  function InvalidFieldMessage(path: seq<string>, fieldName: string): string
  {
    "Invalid field: \"" + Join(path + [fieldName], ".") + "\""
  }

  /** A nested field's message as written glues the path with commas. */
  lemma InvalidFieldMessageShowsCommas()
    ensures InvalidFieldMessageAsWritten(["user", "followers"], "x") == "Invalid field: \"user,followers.x\""
  {
    assert Join(["followers"], ",") == "followers";
    assert Join(["user", "followers"], ",") == "user" + "," + Join(["followers"], ",");
    assert Join(["x"], ".") == "x";
    assert Join(["user,followers", "x"], ".") == "user,followers" + "." + Join(["x"], ".");
  }

  /** A top-level field's message as written starts with a stray dot; the corrected one does not. */
  lemma InvalidFieldMessageShowsLeadingDot()
    ensures InvalidFieldMessageAsWritten([], "x") == "Invalid field: \".x\""
    ensures InvalidFieldMessage([], "x") == "Invalid field: \"x\""
  {
  }

  /** The corrected message names the selection path: splitting its quoted part at dots gives it back. */
  lemma InvalidFieldMessageNamesPath(path: seq<string>, fieldName: string)
    requires forall i :: 0 <= i < |path| ==> '.' !in path[i]
    requires '.' !in fieldName
    ensures var quoted := Join(path + [fieldName], ".");
            InvalidFieldMessage(path, fieldName) == "Invalid field: \"" + quoted + "\"" &&
            Split(quoted, '.') == path + [fieldName]
  {
    var parts := path + [fieldName];
    forall i | 0 <= i < |parts| ensures '.' !in parts[i] {
      if i < |path| {
        assert parts[i] == path[i];
      }
    }
    assert "." == ['.'];
    SplitJoin(parts, '.');
  }

  /** Whether `def` is an object type definition the walk descends into. */
  predicate IsObjectDef(def: Option<TypeDef>)
  {
    def.Some? && def.value.ObjectTypeDef?
  }

  /**
   * `parseSelection`: the completed selection and the registry after it. A
   * field's path grows by its name only when its type is not a built-in scalar;
   * its sub-selections are completed only when that type is an object type.
   */
  function CompletedSelection(schema: Schema, s: Selection, objectDef: TypeDef, path: seq<string>, vars: seq<InputValue>)
    : (r: Result<(Selection, seq<InputValue>)>)
    ensures r.Success? ==> vars <= r.value.1
    ensures r.Success? && !s.Field? ==> r.value == (s, vars)
    ensures r.Success? && s.Field? ==> r.value.0.Field? && r.value.0.name == s.name
    ensures s.Field? && FindNullableField(objectDef, s.name).None? ==> r == Failure(InvalidFieldMessage(path, s.name))
    decreases s
  {
    match s
    case Field(name, args, selectionSet) =>
      (match FindNullableField(objectDef, name)
      case None => Failure(InvalidFieldMessage(path, name))
      case Some(field) =>
        var typeName := FindDeepType(field.typeRef);
        var scalar := IsScalarType(typeName);
        var objectType := if !scalar then FindSchemaType(schema, typeName) else None;
        var fieldPath := if !scalar then path + [name] else path;
        var (variableMap, vars1) := VariableBindings(vars, fieldPath, args, field.arguments);
        var argumentList := ComposeArgumentList(field.arguments, args, variableMap);
        if selectionSet.SelectionSet? && IsObjectDef(objectType) then
          (match CompletedSelections(schema, selectionSet.selections, objectType.value, fieldPath, vars1)
          case Failure(e) => Failure(e)
          case Success((selections, vars2)) => Success((Field(name, argumentList, SelectionSet(selections)), vars2)))
        else
          Success((Field(name, argumentList, NoSelectionSet), vars1)))
    case _ => Success((s, vars))
  }

  /** The path under which a field's arguments are named: its own name is added only for non-scalar fields. */
  function FieldPath(path: seq<string>, fieldName: string, field: FieldDef): seq<string>
  {
    if IsScalarType(FindDeepType(field.typeRef)) then path else path + [fieldName]
  }

  /**
   * A completed field: its arguments are composed from bindings named under
   * the field's path, and it keeps a selection set exactly when it had one and
   * its innermost type is an object type of the schema.
   */
  lemma CompletedField(schema: Schema, s: Selection, objectDef: TypeDef, path: seq<string>, vars: seq<InputValue>)
    requires s.Field? && FindNullableField(objectDef, s.name).Some?
    requires CompletedSelection(schema, s, objectDef, path, vars).Success?
    ensures var field := FindNullableField(objectDef, s.name).value;
            var typeName := FindDeepType(field.typeRef);
            var fieldPath := FieldPath(path, s.name, field);
            var (variableMap, vars1) := VariableBindings(vars, fieldPath, s.arguments, field.arguments);
            var out := CompletedSelection(schema, s, objectDef, path, vars).value.0;
            && out.arguments == ComposeArgumentList(field.arguments, s.arguments, variableMap)
            && (out.selectionSet.SelectionSet? <==>
                  s.selectionSet.SelectionSet? && !IsScalarType(typeName) && IsObjectDef(FindSchemaType(schema, typeName)))
  {
  }

  /** `parseSelectionSet`: the selections completed in order, threading the registry. */
  function CompletedSelections(schema: Schema, sels: seq<Selection>, objectDef: TypeDef, path: seq<string>, vars: seq<InputValue>)
    : (r: Result<(seq<Selection>, seq<InputValue>)>)
    ensures r.Success? ==> vars <= r.value.1 && |r.value.0| == |sels|
    decreases sels
  {
    if sels == [] then Success(([], vars))
    else
      var n := |sels| - 1;
      match CompletedSelections(schema, sels[..n], objectDef, path, vars)
      case Failure(e) => Failure(e)
      case Success((done, vs)) =>
        match CompletedSelection(schema, sels[n], objectDef, path, vs)
        case Failure(e) => Failure(e)
        case Success((s, vs')) => Success((done + [s], vs'))
  }

  /** One more completed selection extends the completed prefix. */
  lemma CompletedSelectionsStep(schema: Schema, sels: seq<Selection>, objectDef: TypeDef, path: seq<string>,
                                vars: seq<InputValue>, i: nat, done: seq<Selection>, vs: seq<InputValue>)
    requires i < |sels| && CompletedSelections(schema, sels[..i], objectDef, path, vars) == Success((done, vs))
    requires CompletedSelection(schema, sels[i], objectDef, path, vs).Success?
    ensures var step := CompletedSelection(schema, sels[i], objectDef, path, vs).value;
            CompletedSelections(schema, sels[..i + 1], objectDef, path, vars) == Success((done + [step.0], step.1))
  {
    assert sels[..i + 1][..i] == sels[..i];
  }

  /** A selection that fails after a completed prefix is the failure of the whole list. */
  lemma CompletedSelectionsStepFails(schema: Schema, sels: seq<Selection>, objectDef: TypeDef, path: seq<string>,
                                     vars: seq<InputValue>, i: nat, done: seq<Selection>, vs: seq<InputValue>)
    requires i < |sels| && CompletedSelections(schema, sels[..i], objectDef, path, vars) == Success((done, vs))
    requires CompletedSelection(schema, sels[i], objectDef, path, vs).Failure?
    ensures CompletedSelections(schema, sels, objectDef, path, vars)
         == Failure(CompletedSelection(schema, sels[i], objectDef, path, vs).error)
  {
    assert sels[..i + 1][..i] == sels[..i];
    CompletedSelectionsFailure(schema, sels, objectDef, path, vars, i + 1);
  }

  /** A failure in the first `k` selections is the failure of the whole list. */
  lemma {:induction false} CompletedSelectionsFailure(schema: Schema, sels: seq<Selection>, objectDef: TypeDef, path: seq<string>, vars: seq<InputValue>, k: nat)
    requires k <= |sels|
    requires CompletedSelections(schema, sels[..k], objectDef, path, vars).Failure?
    ensures CompletedSelections(schema, sels, objectDef, path, vars) == CompletedSelections(schema, sels[..k], objectDef, path, vars)
    decreases |sels| - k
  {
    if k < |sels| {
      var n := |sels| - 1;
      assert sels[..n][..k] == sels[..k];
      CompletedSelectionsFailure(schema, sels[..n], objectDef, path, vars, k);
      assert sels[..|sels|] == sels;
    } else {
      assert sels[..k] == sels;
    }
  }

  /** The variables the arguments of the (nested) fields of a selection list refer to. */
  function FieldVariables(sels: seq<Selection>): set<string>
    decreases sels
  {
    if sels == [] then {} else FieldVariables(sels[..|sels| - 1]) + SelectionVariables(sels[|sels| - 1])
  }

  function SelectionVariables(s: Selection): set<string>
    decreases s
  {
    match s
    case Field(_, args, selectionSet) =>
      (set a | a in args :: a.variable) +
      (if selectionSet.SelectionSet? then FieldVariables(selectionSet.selections) else {})
    case _ => {}
  }

  lemma NameSetGrows(vars: seq<InputValue>, vars': seq<InputValue>)
    requires vars <= vars'
    ensures NameSet(vars) <= NameSet(vars')
  {
    forall v | v in vars ensures v in vars' {
      var i :| 0 <= i < |vars| && vars[i] == v;
      assert vars'[i] == v;
    }
  }

  /**
   * Every variable a completed field refers to, at any depth, is registered
   * by the time the walk leaves it.
   */
  lemma {:induction false} SelectionVariablesRegistered(schema: Schema, s: Selection, objectDef: TypeDef, path: seq<string>, vars: seq<InputValue>)
    requires CompletedSelection(schema, s, objectDef, path, vars).Success?
    ensures var (s', vars') := CompletedSelection(schema, s, objectDef, path, vars).value;
            SelectionVariables(s') <= NameSet(vars')
    decreases s
  {
    match s
    case Field(name, args, selectionSet) =>
      var field := FindNullableField(objectDef, name).value;
      var typeName := FindDeepType(field.typeRef);
      var scalar := IsScalarType(typeName);
      var objectType := if !scalar then FindSchemaType(schema, typeName) else None;
      var fieldPath := if !scalar then path + [name] else path;
      var bound := VariableBindings(vars, fieldPath, args, field.arguments);
      var argumentList := ComposeArgumentList(field.arguments, args, bound.0);
      ArgumentsRegistered(vars, fieldPath, args, field.arguments);
      var r := CompletedSelection(schema, s, objectDef, path, vars).value;
      if selectionSet.SelectionSet? && IsObjectDef(objectType) {
        var inner := CompletedSelections(schema, selectionSet.selections, objectType.value, fieldPath, bound.1).value;
        assert r == (Field(name, argumentList, SelectionSet(inner.0)), inner.1);
        SelectionsVariablesRegistered(schema, selectionSet.selections, objectType.value, fieldPath, bound.1);
        NameSetGrows(bound.1, inner.1);
        RegisteredField(name, argumentList, SelectionSet(inner.0), bound.1, inner.1);
      } else {
        assert r == (Field(name, argumentList, NoSelectionSet), bound.1);
        RegisteredField(name, argumentList, NoSelectionSet, bound.1, bound.1);
      }
    case _ =>
  }

  /** A field whose arguments and sub-selections refer only to registered variables refers only to registered variables. */
  lemma RegisteredField(name: string, argumentList: seq<Argument>, selectionSet: SelectionSet,
                        vars1: seq<InputValue>, vars2: seq<InputValue>)
    requires forall a :: a in argumentList ==> a.variable in NameSet(vars1)
    requires NameSet(vars1) <= NameSet(vars2)
    requires selectionSet.SelectionSet? ==> FieldVariables(selectionSet.selections) <= NameSet(vars2)
    ensures SelectionVariables(Field(name, argumentList, selectionSet)) <= NameSet(vars2)
  {
  }

  lemma {:induction false} SelectionsVariablesRegistered(schema: Schema, sels: seq<Selection>, objectDef: TypeDef, path: seq<string>, vars: seq<InputValue>)
    requires CompletedSelections(schema, sels, objectDef, path, vars).Success?
    ensures var (sels', vars') := CompletedSelections(schema, sels, objectDef, path, vars).value;
            FieldVariables(sels') <= NameSet(vars')
    decreases sels
  {
    if sels != [] {
      var n := |sels| - 1;
      var (done, vs) := CompletedSelections(schema, sels[..n], objectDef, path, vars).value;
      var (s, vs') := CompletedSelection(schema, sels[n], objectDef, path, vs).value;
      SelectionsVariablesRegistered(schema, sels[..n], objectDef, path, vars);
      SelectionVariablesRegistered(schema, sels[n], objectDef, path, vs);
      NameSetGrows(vs, vs');
      var all := done + [s];
      assert all[..|all| - 1] == done;
    }
  }

  /** `toOperationName` reads `selection.name.value`, which an inline fragment lacks. */
  function SelectionNames(sels: seq<Selection>): (r: Result<seq<string>>)
    ensures r.Success? <==> forall i :: 0 <= i < |sels| ==> !sels[i].InlineFragment?
    ensures r.Success? ==> |r.value| == |sels|
    ensures r.Success? ==> forall i :: 0 <= i < |sels| ==>
              r.value[i] == if sels[i].Field? then sels[i].name else sels[i].fragmentName
  {
    if sels == [] then Success([])
    else
      var first := match sels[0]
        case Field(name, _, _) => Success(name)
        case FragmentSpread(name) => Success(name)
        case InlineFragment(_, _) => Failure("TypeError: Cannot read properties of undefined (reading 'value')");
      if first.Failure? then Failure(first.error)
      else
        match SelectionNames(sels[1..])
        case Failure(e) => Failure(e)
        case Success(rest) => Success([first.value] + rest)
  }

  /** `toOperationName`: a name made of the top-level selection names, by operation kind. */
  function ToOperationName(operation: OperationKind, selections: seq<Selection>): (r: Result<string>)
  {
    match SelectionNames(selections)
    case Failure(e) => Failure(e)
    case Success(names) =>
      var joined := Join(names, "-and-");
      match operation
      case Query => Success(ToCamelCase("fetch-" + joined))
      case Mutation => Success(ToCamelCase(joined))
      case Subscription => Success(ToCamelCase("subscribeTo-" + joined))
  }

  /**
   * A query is named `fetch` followed by the class-cased joined selection names,
   * a subscription `subscribeTo` followed by them, and a mutation by the
   * camel-cased names alone.
   */
  lemma OperationNameShape(operation: OperationKind, selections: seq<Selection>)
    requires SelectionNames(selections).Success?
    ensures var joined := Join(SelectionNames(selections).value, "-and-");
            ToOperationName(operation, selections) == Success(
              match operation
              case Query => "fetch" + ToClassName(joined)
              case Mutation => ToCamelCase(joined)
              case Subscription => "subscribeTo" + ToClassName(joined))
  {
    var joined := Join(SelectionNames(selections).value, "-and-");
    match operation
    case Query =>
      assert "fetch-" + joined == "fetch" + "-" + joined;
      CamelCaseOfPrefixed("fetch", joined);
    case Mutation =>
    case Subscription =>
      assert "subscribeTo-" + joined == "subscribeTo" + "-" + joined;
      CamelCaseOfPrefixed("subscribeTo", joined);
  }

  /**
   * `toVariableDefinitions`: one variable definition per registered name, in
   * first-registration order, from the last variable registered under it.
   */
  function ToVariableDefinitions(vars: seq<InputValue>): (r: seq<VariableDef>)
    ensures Distinct(seq(|r|, i requires 0 <= i < |r| => r[i].name))
  {
    var unique := LastByKey(vars, NameOf);
    LastByKeySpec(vars, NameOf);
    var r := Definitions(unique);
    assert seq(|r|, i requires 0 <= i < |r| => r[i].name) == MapKeys(unique, NameOf);
    r
  }

  function Definitions(unique: seq<InputValue>): (r: seq<VariableDef>)
    ensures |r| == |unique| && forall j :: 0 <= j < |r| ==> r[j] == InputValueDefToVariableDef(unique[j])
  {
    seq(|unique|, i requires 0 <= i < |unique| => InputValueDefToVariableDef(unique[i]))
  }

  /** Every registered name is declared. */
  lemma VariableDefinitionsCover(vars: seq<InputValue>)
    ensures var r := ToVariableDefinitions(vars);
            forall i :: 0 <= i < |vars| ==> exists j :: 0 <= j < |r| && r[j].name == vars[i].name
  {
    var unique := LastByKey(vars, NameOf);
    LastByKeySpec(vars, NameOf);
    var r := ToVariableDefinitions(vars);
    assert r == Definitions(unique);
    var keys := MapKeys(unique, NameOf);
    forall i | 0 <= i < |vars| ensures exists j :: 0 <= j < |r| && r[j].name == vars[i].name {
      assert NameOf(vars[i]) in keys;
      var j :| 0 <= j < |keys| && keys[j] == NameOf(vars[i]);
      assert r[j] == InputValueDefToVariableDef(unique[j]);
    }
  }

  /** Each declaration is made from the last variable registered under its name. */
  lemma VariableDefinitionsLastWins(vars: seq<InputValue>)
    ensures var r := ToVariableDefinitions(vars);
            forall j :: 0 <= j < |r| ==>
              r[j].name in VariableNames(vars) &&
              r[j] == InputValueDefToVariableDef(vars[LastIndex(VariableNames(vars), r[j].name)])
  {
    var unique := LastByKey(vars, NameOf);
    LastByKeySpec(vars, NameOf);
    assert MapKeys(vars, NameOf) == VariableNames(vars);
  }

  /** The declarations follow the order in which their names were first registered. */
  lemma VariableDefinitionsOrdered(vars: seq<InputValue>)
    ensures var r := ToVariableDefinitions(vars);
            forall i, j :: 0 <= i < j < |r| ==>
              r[i].name in VariableNames(vars) && r[j].name in VariableNames(vars) &&
              FirstIndex(VariableNames(vars), r[i].name) < FirstIndex(VariableNames(vars), r[j].name)
  {
    var unique := LastByKey(vars, NameOf);
    LastByKeySpec(vars, NameOf);
    assert MapKeys(vars, NameOf) == VariableNames(vars);
  }

  /**
   * `parseOperationDef`: an operation completed with a registry of its own,
   * its variable definitions rebuilt from that registry, and its name kept or
   * made up; other definitions are returned as they are.
   */
  function CompletedDefinition(schema: Schema, def: Definition): (r: Result<Definition>)
    ensures !def.OperationDef? ==> r == Success(def)
    ensures r.Success? && def.OperationDef? ==>
              r.value.OperationDef? && r.value.operation == def.operation && r.value.name.Some? &&
              (def.name.Some? ==> r.value.name == def.name) &&
              |r.value.selections| == |def.selections|
    ensures r.Success? && def.OperationDef? ==>
              && FindObjectType(schema, ToClassName(OperationKeyword(def.operation))).Success?
              && var completed := CompletedSelections(schema, def.selections,
                                    FindObjectType(schema, ToClassName(OperationKeyword(def.operation))).value, [], []);
                 && completed.Success?
                 && r.value.selections == completed.value.0
                 && r.value.variableDefinitions == ToVariableDefinitions(completed.value.1)
    ensures r.Success? && def.OperationDef? && def.name.None? ==>
              ToOperationName(def.operation, def.selections) == Success(r.value.name.value)
  {
    match def
    case OperationDef(operation, name, _, selections) =>
      (match FindObjectType(schema, ToClassName(OperationKeyword(operation)))
      case Failure(e) => Failure(e)
      case Success(operationDef) =>
        match CompletedSelections(schema, selections, operationDef, [], [])
        case Failure(e) => Failure(e)
        case Success((selections', vars)) =>
          var variableDefinitions := ToVariableDefinitions(vars);
          if name.Some? then Success(OperationDef(operation, name, variableDefinitions, selections'))
          else
            match ToOperationName(operation, selections)
            case Failure(e) => Failure(e)
            case Success(n) => Success(OperationDef(operation, Some(n), variableDefinitions, selections')))
    case _ => Success(def)
  }

  /** Every registered name is declared. */
  lemma DeclaresRegistered(vars: seq<InputValue>)
    ensures var declared := ToVariableDefinitions(vars);
            forall v :: v in NameSet(vars) ==> exists j :: 0 <= j < |declared| && declared[j].name == v
  {
    var declared := ToVariableDefinitions(vars);
    VariableDefinitionsCover(vars);
    forall v | v in NameSet(vars) ensures exists j :: 0 <= j < |declared| && declared[j].name == v {
      var w :| w in vars && w.name == v;
      var i :| 0 <= i < |vars| && vars[i] == w;
      assert exists j :: 0 <= j < |declared| && declared[j].name == vars[i].name;
    }
  }

  /**
   * The completed request is self-consistent: every variable its fields refer
   * to is declared, and each is declared once.
   */
  lemma CompletedOperationDeclaresItsVariables(schema: Schema, def: Definition)
    requires def.OperationDef? && CompletedDefinition(schema, def).Success?
    ensures var out := CompletedDefinition(schema, def).value;
            var declared := out.variableDefinitions;
            && Distinct(seq(|declared|, i requires 0 <= i < |declared| => declared[i].name))
            && forall v :: v in FieldVariables(out.selections) ==> exists j :: 0 <= j < |declared| && declared[j].name == v
  {
    var operationDef := FindObjectType(schema, ToClassName(OperationKeyword(def.operation))).value;
    var (selections', vars) := CompletedSelections(schema, def.selections, operationDef, [], []).value;
    SelectionsVariablesRegistered(schema, def.selections, operationDef, [], []);
    DeclaresRegistered(vars);
    var out := CompletedDefinition(schema, def).value;
    assert out.variableDefinitions == ToVariableDefinitions(vars) && out.selections == selections';
  }

  /** `fixGQLRequest` over a parsed document: each definition completed on its own. */
  function CompletedDocument(schema: Schema, defs: seq<Definition>): Result<seq<Definition>>
  {
    MapAll(defs, CompleteIn(schema))
  }

  /**
   * Definitions are completed independently, each with a registry of its
   * own: a definition's completion does not depend on its neighbours.
   */
  lemma DefinitionsCompletedIndependently(schema: Schema, defs: seq<Definition>)
    ensures var r := CompletedDocument(schema, defs);
            && (r.Success? <==> forall i :: 0 <= i < |defs| ==> CompletedDefinition(schema, defs[i]).Success?)
            && (r.Success? ==> |r.value| == |defs|)
            && (r.Success? ==> forall i :: 0 <= i < |defs| ==> r.value[i] == CompletedDefinition(schema, defs[i]).value)
  {
    var complete := CompleteIn(schema);
    assert forall i :: 0 <= i < |defs| ==> complete(defs[i]) == CompletedDefinition(schema, defs[i]);
  }

  function CompleteIn(schema: Schema): Definition -> Result<Definition>
  {
    d => CompletedDefinition(schema, d)
  }

  /** The shared mutable list of variables one operation's walk pushes onto. */
  class VariableRegistry {
    var variables: seq<InputValue>

    constructor ()
      ensures variables == []
    {
      variables := [];
    }

    /** Binds one argument definition and pushes its variable. */
    method AddVariable(path: seq<string>, existingArguments: seq<Argument>, variable: InputValue) returns (m: VariableMapping)
      modifies this
      ensures (m, variables) == Binding(old(variables), path, existingArguments, variable)
      ensures variables == old(variables) + [variable.(name := m.to)]
    {
      var from := variable.name;
      var existingArg := FindArgument(existingArguments, from);
      var to: string;
      if existingArg.Some? {
        to := existingArg.value.variable;
      } else if from in VariableNames(variables) {
        to := ToCamelCase(Join(path + [from], "-"));
      } else {
        to := from;
      }
      variables := variables + [variable.(name := to)];
      m := VariableMapping(from, to);
    }

    method DeduplicateVariables(inputValues: seq<InputValue>, argumentNodes: seq<Argument>, path: seq<string>)
      returns (maps: seq<VariableMapping>)
      modifies this
      ensures (maps, variables) == VariableBindings(old(variables), path, argumentNodes, inputValues)
    {
      maps := [];
      var i := 0;
      while i < |inputValues|
        invariant 0 <= i <= |inputValues|
        invariant (maps, variables) == VariableBindings(old(variables), path, argumentNodes, inputValues[..i])
      {
        var m := AddVariable(path, argumentNodes, inputValues[i]);
        maps := maps + [m];
        assert inputValues[..i + 1][..i] == inputValues[..i];
        i := i + 1;
      }
      assert inputValues[..i] == inputValues;
    }

    method ParseSelection(schema: Schema, selection: Selection, objectDef: TypeDef, path: seq<string>)
      returns (r: Result<Selection>)
      modifies this
      ensures Tracks(r, variables, CompletedSelection(schema, selection, objectDef, path, old(variables)))
      decreases selection
    {
      if !selection.Field? {
        return Success(selection);
      }
      var targetField := FindNullableField(objectDef, selection.name);
      if targetField.None? {
        return Failure(InvalidFieldMessage(path, selection.name));
      }
      var field := targetField.value;
      var typeName := FindDeepType(field.typeRef);
      var scalar := IsScalarType(typeName);
      var objectType := if !scalar then FindSchemaType(schema, typeName) else None;
      var fieldPath := if !scalar then path + [selection.name] else path;
      var variableMap := DeduplicateVariables(field.arguments, selection.arguments, fieldPath);
      var argumentList := ComposeArgumentList(field.arguments, selection.arguments, variableMap);
      if selection.selectionSet.SelectionSet? && IsObjectDef(objectType) {
        var selections := ParseSelectionSet(schema, selection.selectionSet.selections, objectType.value, fieldPath);
        if selections.Failure? {
          return Failure(selections.error);
        }
        r := Success(Field(selection.name, argumentList, SelectionSet(selections.value)));
      } else {
        r := Success(Field(selection.name, argumentList, NoSelectionSet));
      }
    }

    method ParseSelectionSet(schema: Schema, selections: seq<Selection>, objectDef: TypeDef, path: seq<string>)
      returns (r: Result<seq<Selection>>)
      modifies this
      ensures Tracks(r, variables, CompletedSelections(schema, selections, objectDef, path, old(variables)))
      decreases selections
    {
      var done := [];
      var i := 0;
      while i < |selections|
        invariant 0 <= i <= |selections|
        invariant CompletedSelections(schema, selections[..i], objectDef, path, old(variables)) == Success((done, variables))
      {
        ghost var before := variables;
        var s := ParseSelection(schema, selections[i], objectDef, path);
        if s.Failure? {
          CompletedSelectionsStepFails(schema, selections, objectDef, path, old(variables), i, done, before);
          return Failure(s.error);
        }
        CompletedSelectionsStep(schema, selections, objectDef, path, old(variables), i, done, before);
        done := done + [s.value];
        i := i + 1;
      }
      assert selections[..i] == selections;
      r := Success(done);
    }
  }

  /** The method's outcome `r`, with the registry left as `variables`, is what `spec` describes. */
  predicate Tracks<T(==)>(r: Result<T>, variables: seq<InputValue>, spec: Result<(T, seq<InputValue>)>)
  {
    && (r.Success? <==> spec.Success?)
    && (r.Success? ==> r.value == spec.value.0 && variables == spec.value.1)
    && (r.Failure? ==> r.error == spec.error)
  }

  /** `parseOperationDef`: a fresh registry per operation. */
  method ParseOperationDef(schema: Schema, def: Definition) returns (r: Result<Definition>)
    ensures r == CompletedDefinition(schema, def)
  {
    if !def.OperationDef? {
      return Success(def);
    }
    var operationDef := FindObjectType(schema, ToClassName(OperationKeyword(def.operation)));
    if operationDef.Failure? {
      return Failure(operationDef.error);
    }
    var context := new VariableRegistry();
    var selections := context.ParseSelectionSet(schema, def.selections, operationDef.value, []);
    if selections.Failure? {
      return Failure(selections.error);
    }
    var variableDefinitions := ToVariableDefinitions(context.variables);
    var name := def.name;
    if name.None? {
      var made := ToOperationName(def.operation, def.selections);
      if made.Failure? {
        return Failure(made.error);
      }
      name := Some(made.value);
    }
    r := Success(OperationDef(def.operation, name, variableDefinitions, selections.value));
  }

  /** `fixGQLRequest` between parsing and printing: every definition completed in document order. */
  method FixGQLRequest(schema: Schema, definitions: seq<Definition>) returns (r: Result<seq<Definition>>)
    ensures r == CompletedDocument(schema, definitions)
  {
    var fixed := [];
    var i := 0;
    while i < |definitions|
      invariant 0 <= i <= |definitions|
      invariant |fixed| == i
      invariant forall j :: 0 <= j < i ==> CompletedDefinition(schema, definitions[j]) == Success(fixed[j])
    {
      var d := ParseOperationDef(schema, definitions[i]);
      if d.Failure? {
        DocumentFailsAt(schema, definitions, i);
        return Failure(d.error);
      }
      fixed := fixed + [d.value];
      i := i + 1;
    }
    DocumentCompleted(schema, definitions, fixed);
    r := Success(fixed);
  }

  /** The first definition that fails decides the document's error. */
  lemma DocumentFailsAt(schema: Schema, definitions: seq<Definition>, k: nat)
    requires k < |definitions| && CompletedDefinition(schema, definitions[k]).Failure?
    requires forall j :: 0 <= j < k ==> CompletedDefinition(schema, definitions[j]).Success?
    ensures CompletedDocument(schema, definitions) == Failure(CompletedDefinition(schema, definitions[k]).error)
  {
    MapAllFirstFailure(definitions, CompleteIn(schema), k);
  }

  /** When every definition completes, the document is their completions in order. */
  lemma DocumentCompleted(schema: Schema, definitions: seq<Definition>, fixed: seq<Definition>)
    requires |fixed| == |definitions|
    requires forall j :: 0 <= j < |definitions| ==> CompletedDefinition(schema, definitions[j]) == Success(fixed[j])
    ensures CompletedDocument(schema, definitions) == Success(fixed)
  {
    MapAllSucceeds(definitions, CompleteIn(schema), fixed);
  }
}
