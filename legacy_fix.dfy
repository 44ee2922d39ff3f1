/**
 * The first request completer (`src/fix-gql-request.ts`): only the top-level
 * fields of each operation get arguments, one `name: $name` per argument the
 * schema declares, and the variables are collected in one list shared by the
 * whole call, so an operation declares the variables of every operation
 * before it as well as its own. Nothing is deduplicated and no operation name
 * is made up.
 */
module LegacyFix {
  import opened Wrappers
  import opened GraphQL
  import opened GraphQLUtil
  import opened Names
  import opened Collections

  /**
   * `targetField.arguments.map(inputValueDefToVariable)`: every declared
   * argument bound to the variable of the same name (no variable map).
   */
  function VariableArguments(inputs: seq<InputValue>): (r: seq<Argument>)
    ensures |r| == |inputs|
    ensures forall i :: 0 <= i < |inputs| ==> r[i] == Argument(inputs[i].name, inputs[i].name)
  {
    seq(|inputs|, i requires 0 <= i < |inputs| => InputValueDefToVariable(inputs[i], []))
  }

  /**
   * `findOperation`: the root object type an operation reads its fields
   * from, `Query`, `Mutation` or `Subscription` by the operation's kind.
   */
  function RootTypeName(operation: OperationKind): string
  {
    match operation
    case Query => "Query"
    case Mutation => "Mutation"
    case Subscription => "Subscription"
  }

  /** The first object type called `typeName`, scanning the schema from the front. */
  function FirstObjectNamed(schema: Schema, typeName: string): (r: Option<TypeDef>)
    ensures r.Some? ==> IsObjectNamed(r.value, typeName)
    decreases |schema|
  {
    if schema == [] then None
    else if IsObjectNamed(schema[0], typeName) then Some(schema[0])
    else FirstObjectNamed(schema[1..], typeName)
  }

  /** The scan finds exactly what `findObjectType` finds. */
  lemma {:induction false} FirstObjectNamedFinds(schema: Schema, typeName: string)
    ensures var r := FindObjectType(schema, typeName);
            && (FirstObjectNamed(schema, typeName).Some? <==> r.Success?)
            && (r.Success? ==> FirstObjectNamed(schema, typeName).value == r.value)
    decreases |schema|
  {
    var r := FindObjectType(schema, typeName);
    if schema != [] {
      if IsObjectNamed(schema[0], typeName) {
        assert r.Success?;
        var i :| 0 <= i < |schema| && schema[i] == r.value && forall j :: 0 <= j < i ==> !IsObjectNamed(schema[j], typeName);
        assert i == 0;
      } else {
        var tail := schema[1..];
        FirstObjectNamedFinds(tail, typeName);
        var r' := FindObjectType(tail, typeName);
        if r.Success? {
          var i :| 0 <= i < |schema| && schema[i] == r.value && forall j :: 0 <= j < i ==> !IsObjectNamed(schema[j], typeName);
          assert IsObjectNamed(tail[i - 1], typeName);
          var i' :| 0 <= i' < |tail| && tail[i'] == r'.value && forall j :: 0 <= j < i' ==> !IsObjectNamed(tail[j], typeName);
        }
      }
    }
  }

  /** The first field called `name`. */
  function FirstFieldNamed(fields: seq<FieldDef>, name: string): (r: Option<FieldDef>)
    ensures r.Some? ==> r.value.name == name
    decreases |fields|
  {
    if fields == [] then None
    else if fields[0].name == name then Some(fields[0])
    else FirstFieldNamed(fields[1..], name)
  }

  /** The scan finds exactly what `findField` finds. */
  lemma {:induction false} FirstFieldNamedFinds(def: TypeDef, name: string)
    requires def.ObjectTypeDef?
    ensures var r := FindField(def, name);
            && (FirstFieldNamed(def.fields, name).Some? <==> r.Success?)
            && (r.Success? ==> FirstFieldNamed(def.fields, name).value == r.value)
    decreases |def.fields|
  {
    var fields := def.fields;
    var r := FindField(def, name);
    if fields != [] {
      if fields[0].name == name {
        assert r.Success?;
        var i :| 0 <= i < |fields| && fields[i] == r.value && forall j :: 0 <= j < i ==> fields[j].name != name;
        assert i == 0;
      } else {
        var tail := ObjectTypeDef(def.name, fields[1..]);
        FirstFieldNamedFinds(tail, name);
        var r' := FindField(tail, name);
        if r.Success? {
          var i :| 0 <= i < |fields| && fields[i] == r.value && forall j :: 0 <= j < i ==> fields[j].name != name;
          assert tail.fields[i - 1].name == name;
          var i' :| 0 <= i' < |tail.fields| && tail.fields[i'] == r'.value && forall j :: 0 <= j < i' ==> tail.fields[j].name != name;
        }
      }
    }
  }

  /**
   * One top-level selection: a field gets the arguments its definition on the
   * operation's root type declares, and those argument definitions are what
   * it adds to the shared list; any other selection is kept and adds nothing.
   * The root type and the field are looked up as `findObjectType` and
   * `findField` look them up, with their errors.
   */
  function FixedSelection(schema: Schema, rootName: string, s: Selection): (r: Result<(Selection, seq<InputValue>)>)
  {
    match s
    case Field(name, _, selectionSet) =>
      (match FirstObjectNamed(schema, rootName)
      case None => Failure(RequiredPrefix + "Count not found \"type " + ToClassName(rootName) + "\" in your schema")
      case Some(operationDef) =>
        match FirstFieldNamed(operationDef.fields, name)
        case None => Failure(RequiredPrefix + "No such field: " + name)
        case Some(targetField) =>
          Success((Field(name, VariableArguments(targetField.arguments), selectionSet), targetField.arguments)))
    case _ => Success((s, []))
  }

  /**
   * A field fails exactly when the root type or the field on it is missing,
   * with the error of the lookup that failed; otherwise its arguments are
   * replaced by the field's declared arguments, each bound to the variable of
   * its own name, and nothing else about it changes. Any other selection is
   * kept and adds nothing.
   */
  lemma FixedSelectionMeaning(schema: Schema, rootName: string, s: Selection)
    ensures var r := FixedSelection(schema, rootName, s);
            && (!s.Field? ==> r == Success((s, [])))
            && (s.Field? ==>
                  var root := FindObjectType(schema, rootName);
                  && (r.Failure? <==> root.Failure? || FindField(root.value, s.name).Failure?)
                  && (r.Failure? ==> r.error == if root.Failure? then root.error else FindField(root.value, s.name).error)
                  && (r.Success? ==>
                        && r.value.1 == FindField(root.value, s.name).value.arguments
                        && r.value.0 == Field(s.name, VariableArguments(r.value.1), s.selectionSet)))
  {
    if s.Field? {
      FirstObjectNamedFinds(schema, rootName);
      var root := FindObjectType(schema, rootName);
      if root.Success? {
        FirstFieldNamedFinds(root.value, s.name);
      }
    }
  }

  /** The variables one selection refers to: a field's argument variables in order, nothing for anything else. */
  function SelectionVariables(s: Selection): (r: seq<string>)
    ensures s.Field? ==> |r| == |s.arguments| && forall i :: 0 <= i < |r| ==> r[i] == s.arguments[i].variable
    ensures !s.Field? ==> r == []
  {
    if s.Field? then seq(|s.arguments|, i requires 0 <= i < |s.arguments| => s.arguments[i].variable) else []
  }

  /** A rewritten selection refers to exactly the argument definitions it added, by name and in order. */
  lemma AddedOfOne(schema: Schema, rootName: string, s: Selection)
    requires FixedSelection(schema, rootName, s).Success?
    ensures var (s', more) := FixedSelection(schema, rootName, s).value;
            ArgumentNames(more) == SelectionVariables(s')
  {
    FixedSelectionMeaning(schema, rootName, s);
  }

  /** The top-level selections in order, with the argument definitions they add, in the order they are added. */
  function FixedSelections(schema: Schema, rootName: string, sels: seq<Selection>)
    : (r: Result<(seq<Selection>, seq<InputValue>)>)
    ensures r.Success? ==> |r.value.0| == |sels|
    decreases |sels|
  {
    if sels == [] then Success(([], []))
    else
      var n := |sels| - 1;
      match FixedSelections(schema, rootName, sels[..n])
      case Failure(e) => Failure(e)
      case Success((out, added)) =>
        match FixedSelection(schema, rootName, sels[n])
        case Failure(e) => Failure(e)
        case Success((s, more)) => Success((out + [s], added + more))
  }

  /** The variables the given selections refer to, selection by selection. */
  function ReferencedVariables(sels: seq<Selection>): seq<string>
    decreases |sels|
  {
    if sels == [] then []
    else
      var n := |sels| - 1;
      ReferencedVariables(sels[..n]) + SelectionVariables(sels[n])
  }

  function ArgumentNames(vars: seq<InputValue>): (r: seq<string>)
    ensures |r| == |vars| && forall i :: 0 <= i < |vars| ==> r[i] == vars[i].name
  {
    seq(|vars|, i requires 0 <= i < |vars| => vars[i].name)
  }

  /**
   * Every selection keeps its place; a field keeps its name and its nested
   * selections untouched and only its arguments are replaced; any other
   * selection is unchanged.
   */
  lemma {:induction false} FixedSelectionsShape(schema: Schema, rootName: string, sels: seq<Selection>)
    requires FixedSelections(schema, rootName, sels).Success?
    ensures var out := FixedSelections(schema, rootName, sels).value.0;
            forall i :: 0 <= i < |sels| ==>
              && (!sels[i].Field? ==> out[i] == sels[i])
              && (sels[i].Field? ==> out[i].Field? && out[i].name == sels[i].name &&
                                     out[i].selectionSet == sels[i].selectionSet)
    decreases |sels|
  {
    if sels != [] {
      var n := |sels| - 1;
      FixedSelectionsShape(schema, rootName, sels[..n]);
      FixedSelectionMeaning(schema, rootName, sels[n]);
    }
  }

  /**
   * The list of added argument definitions names, in order and with repeats,
   * exactly the variables the rewritten fields refer to.
   */
  lemma {:induction false} AddedMatchReferenced(schema: Schema, rootName: string, sels: seq<Selection>)
    requires FixedSelections(schema, rootName, sels).Success?
    ensures var (out, added) := FixedSelections(schema, rootName, sels).value;
            ArgumentNames(added) == ReferencedVariables(out)
    decreases |sels|
  {
    if sels != [] {
      var n := |sels| - 1;
      var prefix := FixedSelections(schema, rootName, sels[..n]);
      var step := FixedSelection(schema, rootName, sels[n]);
      assert prefix.Success? && step.Success?;
      var out := prefix.value.0 + [step.value.0];
      assert FixedSelections(schema, rootName, sels).value == (out, prefix.value.1 + step.value.1);
      AddedMatchReferenced(schema, rootName, sels[..n]);
      AddedOfOne(schema, rootName, sels[n]);
      assert out[..|prefix.value.0|] == prefix.value.0;
      ArgumentNamesAppend(prefix.value.1, step.value.1);
    }
  }

  lemma ArgumentNamesAppend(a: seq<InputValue>, b: seq<InputValue>)
    ensures ArgumentNames(a + b) == ArgumentNames(a) + ArgumentNames(b)
  {
  }

  /**
   * The whole document: every definition in turn; an operation's selections
   * are fixed, their argument definitions join the shared list, and its
   * variable definitions are that whole list so far.
   */
  function FixedDocument(schema: Schema, defs: seq<Definition>): (r: Result<(seq<Definition>, seq<InputValue>)>)
    ensures r.Success? ==> |r.value.0| == |defs|
    decreases |defs|
  {
    if defs == [] then Success(([], []))
    else
      var n := |defs| - 1;
      match FixedDocument(schema, defs[..n])
      case Failure(e) => Failure(e)
      case Success((out, args)) =>
        match defs[n]
        case OperationDef(operation, name, _, selections) =>
          (match FixedSelections(schema, RootTypeName(operation), selections)
          case Failure(e) => Failure(e)
          case Success((selections', added)) =>
            var args' := args + added;
            Success((out + [OperationDef(operation, name, VariableDefinitions(args'), selections')], args')))
        case _ => Success((out + [defs[n]], args))
  }

  /** `args.map(inputValueDefToVariableDef)`. */
  function VariableDefinitions(args: seq<InputValue>): (r: seq<VariableDef>)
    ensures |r| == |args| && forall i :: 0 <= i < |args| ==> r[i] == InputValueDefToVariableDef(args[i])
  {
    seq(|args|, i requires 0 <= i < |args| => InputValueDefToVariableDef(args[i]))
  }

  /** The shared list only grows: what the first `k` definitions gathered starts the whole document's list. */
  lemma {:induction false} ArgumentsOnlyGrow(schema: Schema, defs: seq<Definition>, k: nat)
    requires k <= |defs| && FixedDocument(schema, defs).Success?
    ensures FixedDocument(schema, defs[..k]).Success?
    ensures var before := FixedDocument(schema, defs[..k]).value.1;
            var after := FixedDocument(schema, defs).value.1;
            |before| <= |after| && after[..|before|] == before
    decreases |defs|
  {
    if k == |defs| {
      assert defs[..k] == defs;
    } else {
      var n := |defs| - 1;
      assert defs[..n][..k] == defs[..k];
      ArgumentsOnlyGrow(schema, defs[..n], k);
    }
  }

  /**
   * Definition `i` of the output: an operation keeps its kind, name and
   * selection count, and declares every argument definition gathered by the
   * operations up to and including it, in order and without deduplication;
   * any other definition is unchanged.
   */
  lemma {:induction false} FixedDefinitionAt(schema: Schema, defs: seq<Definition>, i: nat)
    requires i < |defs| && FixedDocument(schema, defs).Success?
    ensures FixedDocument(schema, defs[..i + 1]).Success?
    ensures var out := FixedDocument(schema, defs).value.0[i];
            && (!defs[i].OperationDef? ==> out == defs[i])
            && (defs[i].OperationDef? ==>
                  && out.OperationDef? && out.operation == defs[i].operation && out.name == defs[i].name
                  && |out.selections| == |defs[i].selections|
                  && out.variableDefinitions == VariableDefinitions(FixedDocument(schema, defs[..i + 1]).value.1))
    decreases |defs|
  {
    var n := |defs| - 1;
    if i == n {
      assert defs[..i + 1] == defs;
    } else {
      assert defs[..n][..i + 1] == defs[..i + 1];
      FixedDefinitionAt(schema, defs[..n], i);
      var out := FixedDocument(schema, defs[..n]).value.0;
      assert FixedDocument(schema, defs).value.0[..n] == out;
    }
  }

  /** Operations declare the variables of the operations before them too. */
  lemma EarlierVariablesLeak(schema: Schema, defs: seq<Definition>, i: nat, j: nat)
    requires i < j < |defs| && defs[j].OperationDef? && FixedDocument(schema, defs).Success?
    ensures FixedDocument(schema, defs[..i + 1]).Success?
    ensures var earlier := VariableDefinitions(FixedDocument(schema, defs[..i + 1]).value.1);
            var out := FixedDocument(schema, defs).value.0[j];
            out.OperationDef? && |earlier| <= |out.variableDefinitions| &&
            out.variableDefinitions[..|earlier|] == earlier
  {
    FixedDefinitionAt(schema, defs, j);
    assert defs[..j + 1][..i + 1] == defs[..i + 1];
    ArgumentsOnlyGrow(schema, defs[..j + 1], i + 1);
  }

  /** One more selection: its rewrite follows, and its argument definitions join the list. */
  lemma SelectionsStep(schema: Schema, rootName: string, sels: seq<Selection>, i: nat)
    requires i < |sels| && FixedSelections(schema, rootName, sels[..i]).Success?
    ensures var out := FixedSelections(schema, rootName, sels[..i]).value.0;
            var added := FixedSelections(schema, rootName, sels[..i]).value.1;
            var step := FixedSelection(schema, rootName, sels[i]);
            FixedSelections(schema, rootName, sels[..i + 1])
            == if step.Failure? then Failure(step.error) else Success((out + [step.value.0], added + step.value.1))
  {
    assert sels[..i + 1][..i] == sels[..i];
  }

  /** A selection that succeeds extends the rewritten prefix and its argument definitions. */
  lemma SelectionsGrow(schema: Schema, rootName: string, sels: seq<Selection>, i: nat,
                       out: seq<Selection>, added: seq<InputValue>)
    requires i < |sels| && FixedSelections(schema, rootName, sels[..i]) == Success((out, added))
    requires FixedSelection(schema, rootName, sels[i]).Success?
    ensures var step := FixedSelection(schema, rootName, sels[i]).value;
            FixedSelections(schema, rootName, sels[..i + 1]) == Success((out + [step.0], added + step.1))
  {
    SelectionsStep(schema, rootName, sels, i);
  }

  /** A selection that fails is the failure of the whole list. */
  lemma SelectionFails(schema: Schema, rootName: string, sels: seq<Selection>, i: nat,
                       out: seq<Selection>, added: seq<InputValue>)
    requires i < |sels| && FixedSelections(schema, rootName, sels[..i]) == Success((out, added))
    requires FixedSelection(schema, rootName, sels[i]).Failure?
    ensures FixedSelections(schema, rootName, sels) == Failure(FixedSelection(schema, rootName, sels[i]).error)
  {
    SelectionsStep(schema, rootName, sels, i);
    SelectionFailureSpreads(schema, rootName, sels, i + 1);
  }

  /** A selection that fails makes every longer prefix fail with its error. */
  lemma {:induction false} SelectionFailureSpreads(schema: Schema, rootName: string, sels: seq<Selection>, k: nat)
    requires k <= |sels| && FixedSelections(schema, rootName, sels[..k]).Failure?
    ensures FixedSelections(schema, rootName, sels) == FixedSelections(schema, rootName, sels[..k])
    decreases |sels| - k
  {
    if k == |sels| {
      assert sels[..k] == sels;
    } else {
      var n := |sels| - 1;
      assert sels[..n][..k] == sels[..k];
      SelectionFailureSpreads(schema, rootName, sels[..n], k);
    }
  }

  /**
   * The `selections.map(...)` of one operation: each top-level selection
   * rewritten in turn, with the argument definitions of each field appended
   * to `args`.
   */
  method FixSelections(schema: Schema, rootName: string, sels: seq<Selection>, args: seq<InputValue>)
    returns (r: Result<seq<Selection>>, args': seq<InputValue>)
    ensures var spec := FixedSelections(schema, rootName, sels);
            && (r.Success? <==> spec.Success?)
            && (r.Success? ==> r.value == spec.value.0 && args' == args + spec.value.1)
            && (r.Failure? ==> r.error == spec.error)
  {
    var out: seq<Selection> := [];
    ghost var added: seq<InputValue> := [];
    args' := args;
    var i := 0;
    assert sels[..0] == [];
    while i < |sels|
      invariant 0 <= i <= |sels|
      invariant FixedSelections(schema, rootName, sels[..i]) == Success((out, added))
      invariant args' == args + added
    {
      var step := FixedSelection(schema, rootName, sels[i]);
      if step.Failure? {
        SelectionFails(schema, rootName, sels, i, out, added);
        return Failure(step.error), args';
      }
      SelectionsGrow(schema, rootName, sels, i, out, added);
      out := out + [step.value.0];
      args' := args' + step.value.1;
      added := added + step.value.1;
      i := i + 1;
    }
    assert sels[..i] == sels;
    r := Success(out);
  }

  /** A definition that fails makes the whole document fail with its error. */
  lemma {:induction false} DocumentFailureSpreads(schema: Schema, defs: seq<Definition>, k: nat)
    requires k <= |defs| && FixedDocument(schema, defs[..k]).Failure?
    ensures FixedDocument(schema, defs) == FixedDocument(schema, defs[..k])
    decreases |defs| - k
  {
    if k == |defs| {
      assert defs[..k] == defs;
    } else {
      var n := |defs| - 1;
      assert defs[..n][..k] == defs[..k];
      DocumentFailureSpreads(schema, defs[..n], k);
    }
  }

  /** One more definition: its rewrite follows, and an operation's argument definitions join the list. */
  lemma DocumentStep(schema: Schema, defs: seq<Definition>, i: nat)
    requires i < |defs| && FixedDocument(schema, defs[..i]).Success?
    ensures var out := FixedDocument(schema, defs[..i]).value.0;
            var args := FixedDocument(schema, defs[..i]).value.1;
            var def := defs[i];
            FixedDocument(schema, defs[..i + 1])
            == if !def.OperationDef? then Success((out + [def], args))
               else
                 var fixed := FixedSelections(schema, RootTypeName(def.operation), def.selections);
                 if fixed.Failure? then Failure(fixed.error)
                 else
                   var args' := args + fixed.value.1;
                   Success((out + [OperationDef(def.operation, def.name, VariableDefinitions(args'), fixed.value.0)], args'))
  {
    assert defs[..i + 1][..i] == defs[..i];
  }

  /**
   * `fixGQLRequest` over a parsed document, up to printing: the definitions
   * in order, with one `args` list shared by all of them.
   */
  method FixGQLRequest(schema: Schema, defs: seq<Definition>) returns (r: Result<seq<Definition>>)
    ensures var spec := FixedDocument(schema, defs);
            && (r.Success? <==> spec.Success?)
            && (r.Success? ==> r.value == spec.value.0)
            && (r.Failure? ==> r.error == spec.error)
  {
    var args: seq<InputValue> := [];
    var out: seq<Definition> := [];
    var i := 0;
    assert defs[..0] == [];
    while i < |defs|
      invariant 0 <= i <= |defs|
      invariant FixedDocument(schema, defs[..i]) == Success((out, args))
    {
      DocumentStep(schema, defs, i);
      var def := defs[i];
      if def.OperationDef? {
        var selections;
        selections, args := FixSelections(schema, RootTypeName(def.operation), def.selections, args);
        if selections.Failure? {
          DocumentFailureSpreads(schema, defs, i + 1);
          return Failure(selections.error);
        }
        out := out + [OperationDef(def.operation, def.name, VariableDefinitions(args), selections.value)];
      } else {
        out := out + [def];
      }
      i := i + 1;
    }
    assert defs[..i] == defs;
    r := Success(out);
  }
}
