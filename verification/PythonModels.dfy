/** Generated Python dataclasses: which models need constructor arguments, and what building one without any does. */
module PythonModels {
  import opened Wrappers

  datatype Kind =
    | Ref(name: string)
    | List(element: IrType)
    | Map(key: IrType, value: IrType)
    | Enum
    | Scalar(scalar: string)

  datatype IrType = IrType(kind: Kind, isNullable: bool)

  datatype Field = Field(irType: IrType, omitsEmpty: bool, hasPresence: bool)

  datatype Model = Model(name: string, fields: seq<Field>)

  function Names(models: seq<Model>): set<string>
  {
    set model | model in models :: model.name
  }

  // ----- Field defaults -----

  /** NoDefault makes the field a required argument; Built calls the named class. */
  datatype Default = NoDefault | Constant | Built(name: string)

  /** The default that python_type chooses. */
  function DefaultOf(field: Field, required: set<string>): Default
  {
    var kind := field.irType.kind;
    if (field.irType.isNullable && !kind.List?) || field.hasPresence || (field.omitsEmpty && (kind.Enum? || kind.Ref?))
      then Constant
    else match kind
      case Ref(name) => if name in required then NoDefault else Built(name)
      case Enum => NoDefault
      case _ => Constant
  }

  // ----- The required-model loop -----

  predicate MakesRequired(field: Field, required: set<string>)
  {
    && !field.omitsEmpty
    && !field.irType.isNullable
    && (field.irType.kind.Enum? || (field.irType.kind.Ref? && field.irType.kind.name in required))
  }

  predicate HasRequiredField(model: Model, required: set<string>)
  {
    exists i :: 0 <= i < |model.fields| && MakesRequired(model.fields[i], required)
  }

  function NewlyRequired(models: seq<Model>, required: set<string>): set<string>
  {
    set model | model in models && HasRequiredField(model, required) :: model.name
  }

  ghost predicate IsClosed(models: seq<Model>, names: set<string>)
  {
    NewlyRequired(models, names) <= names
  }

  lemma NewlyRequiredMonotone(models: seq<Model>, fewer: set<string>, more: set<string>)
    requires fewer <= more
    ensures NewlyRequired(models, fewer) <= NewlyRequired(models, more)
  {
    forall model | model in models && HasRequiredField(model, fewer) ensures HasRequiredField(model, more) {
      var i :| 0 <= i < |model.fields| && MakesRequired(model.fields[i], fewer);
      assert MakesRequired(model.fields[i], more);
    }
  }

  /** The loop of render_models ends at the least closed set, which is also a fixpoint. */
  method RequiredModels(models: seq<Model>) returns (required: set<string>)
    ensures required == NewlyRequired(models, required)
    ensures forall names :: IsClosed(models, names) ==> required <= names
  {
    required := {};
    while true
      invariant required <= Names(models)
      invariant required <= NewlyRequired(models, required)
      invariant forall names :: IsClosed(models, names) ==> required <= names
      decreases Names(models) - required
    {
      var newlyRequired := NewlyRequired(models, required);
      if newlyRequired <= required {
        break;
      }
      forall names | IsClosed(models, names) ensures newlyRequired <= names {
        NewlyRequiredMonotone(models, required, names);
      }
      var added :| added in newlyRequired && added !in required;
      assert added in Names(models) - required;
      NewlyRequiredMonotone(models, required, required + newlyRequired);
      required := required + newlyRequired;
    }
  }

  /** The set that the loop computes, as a specification. */
  ghost predicate IsRequiredSet(models: seq<Model>, required: set<string>)
  {
    && required == NewlyRequired(models, required)
    && forall names :: IsClosed(models, names) ==> required <= names
  }

  // ----- Why a model is required: a chain of strict references to a strict enum -----

  predicate IsStrict(field: Field)
  {
    !field.omitsEmpty && !field.irType.isNullable
  }

  ghost predicate RefersTo(models: seq<Model>, name: string, target: string)
  {
    exists model, i :: model in models && model.name == name && 0 <= i < |model.fields| && IsStrict(model.fields[i]) &&
      model.fields[i].irType.kind == Ref(target)
  }

  ghost predicate HoldsEnum(models: seq<Model>, name: string)
  {
    exists model, i :: model in models && model.name == name && 0 <= i < |model.fields| && IsStrict(model.fields[i]) &&
      model.fields[i].irType.kind.Enum?
  }

  ghost predicate IsChain(models: seq<Model>, chain: seq<string>)
  {
    && chain != []
    && HoldsEnum(models, chain[|chain| - 1])
    && forall i :: 0 <= i < |chain| - 1 ==> RefersTo(models, chain[i], chain[i + 1])
  }

  ghost predicate ReachesEnum(models: seq<Model>, name: string)
  {
    exists chain :: IsChain(models, chain) && chain[0] == name
  }

  lemma {:induction false} ChainIsRequired(models: seq<Model>, required: set<string>, chain: seq<string>)
    requires IsRequiredSet(models, required) && IsChain(models, chain)
    ensures chain[0] in required
    decreases |chain|
  {
    if |chain| == 1 {
      var model, i :| model in models && model.name == chain[0] && 0 <= i < |model.fields| &&
        IsStrict(model.fields[i]) && model.fields[i].irType.kind.Enum?;
      assert MakesRequired(model.fields[i], required);
    } else {
      assert IsChain(models, chain[1..]) by {
        forall i | 0 <= i < |chain[1..]| - 1 ensures RefersTo(models, chain[1..][i], chain[1..][i + 1]) {
          assert RefersTo(models, chain[i + 1], chain[i + 2]);
        }
      }
      ChainIsRequired(models, required, chain[1..]);
      assert RefersTo(models, chain[0], chain[1]);
      var model, i :| model in models && model.name == chain[0] && 0 <= i < |model.fields| &&
        IsStrict(model.fields[i]) && model.fields[i].irType.kind == Ref(chain[1]);
      assert MakesRequired(model.fields[i], required);
    }
  }

  lemma ChainsAreClosed(models: seq<Model>, reaching: set<string>)
    requires reaching == set model | model in models && ReachesEnum(models, model.name) :: model.name
    ensures IsClosed(models, reaching)
  {
    forall model | model in models && HasRequiredField(model, reaching) ensures ReachesEnum(models, model.name) {
      var i :| 0 <= i < |model.fields| && MakesRequired(model.fields[i], reaching);
      if model.fields[i].irType.kind.Enum? {
        assert HoldsEnum(models, model.name);
        assert IsChain(models, [model.name]);
      } else {
        var target := model.fields[i].irType.kind.name;
        assert RefersTo(models, model.name, target);
        var chain :| IsChain(models, chain) && chain[0] == target;
        var longer := [model.name] + chain;
        forall j | 0 <= j < |longer| - 1 ensures RefersTo(models, longer[j], longer[j + 1]) {
          if j > 0 {
            assert RefersTo(models, chain[j - 1], chain[j]);
          }
        }
        assert IsChain(models, longer);
      }
    }
  }

  /** A model is required exactly when a chain of strict references leads from it to a strict enum field. */
  lemma RequiredIffReachesEnum(models: seq<Model>, required: set<string>, name: string)
    requires IsRequiredSet(models, required)
    ensures name in required <==> name in Names(models) && ReachesEnum(models, name)
  {
    var reaching := set model | model in models && ReachesEnum(models, model.name) :: model.name;
    ChainsAreClosed(models, reaching);
    if name in Names(models) && ReachesEnum(models, name) {
      var chain :| IsChain(models, chain) && chain[0] == name;
      ChainIsRequired(models, required, chain);
    }
  }

  // ----- Building a model without arguments -----

  datatype Instance = Instance(model: string, values: seq<Value>)

  datatype Value = Plain | Nested(instance: Instance)

  predicate IsByValue(field: Field)
  {
    IsStrict(field) && !field.hasPresence && field.irType.kind.Ref?
  }

  /** Every by-value reference leads to a declared model of lower rank: there is no by-value cycle. */
  ghost predicate IsRanked(models: map<string, Model>, rank: string -> nat)
  {
    forall name, i :: name in models && 0 <= i < |models[name].fields| && IsByValue(models[name].fields[i]) ==>
      var target := models[name].fields[i].irType.kind.name;
      target in models && rank(target) < rank(name)
  }

  /** Name(): Python's error for a missing argument is None. */
  function Construct(models: map<string, Model>, required: set<string>, ghost rank: string -> nat,
      name: string): Option<Instance>
    requires IsRanked(models, rank) && name in models
    decreases rank(name), |models[name].fields| + 1
  {
    var values := FieldValues(models, required, rank, name, |models[name].fields|);
    if values.None? then None else Some(Instance(name, values.value))
  }

  /** The values of the first count fields. */
  function FieldValues(models: map<string, Model>, required: set<string>, ghost rank: string -> nat, name: string,
      count: nat): Option<seq<Value>>
    requires IsRanked(models, rank) && name in models && count <= |models[name].fields|
    decreases rank(name), count
  {
    if count == 0 then Some([])
    else
      var earlier := FieldValues(models, required, rank, name, count - 1);
      var field := models[name].fields[count - 1];
      if earlier.None? then None
      else match DefaultOf(field, required)
        case NoDefault => None
        case Constant => Some(earlier.value + [Plain])
        case Built(target) =>
          assert IsByValue(field);
          var nested := Construct(models, required, rank, target);
          if nested.None? then None else Some(earlier.value + [Nested(nested.value)])
  }

  ghost predicate IsTable(models: seq<Model>, table: map<string, Model>)
  {
    table.Keys == Names(models) && forall name :: name in table ==> table[name] in models && table[name].name == name
  }

  /** A field without a default puts its model in the required set. */
  lemma MissingDefaultIsRequired(models: seq<Model>, required: set<string>, model: Model, i: nat)
    requires IsRequiredSet(models, required) && model in models && i < |model.fields|
    ensures DefaultOf(model.fields[i], required).NoDefault? ==> model.name in required
  {
    if DefaultOf(model.fields[i], required).NoDefault? {
      assert MakesRequired(model.fields[i], required);
    }
  }

  /** Building a model that is not required succeeds with no arguments, whatever it nests. */
  lemma {:induction false} NonRequiredConstructs(models: seq<Model>, table: map<string, Model>, required: set<string>,
      rank: string -> nat, name: string)
    requires IsRequiredSet(models, required) && IsTable(models, table) && IsRanked(table, rank)
    requires name in table && name !in required
    ensures Construct(table, required, rank, name).Some?
    decreases rank(name), |table[name].fields| + 1
  {
    NonRequiredFieldValues(models, table, required, rank, name, |table[name].fields|);
  }

  lemma {:induction false} NonRequiredFieldValues(models: seq<Model>, table: map<string, Model>, required: set<string>,
      rank: string -> nat, name: string, count: nat)
    requires IsRequiredSet(models, required) && IsTable(models, table) && IsRanked(table, rank)
    requires name in table && name !in required && count <= |table[name].fields|
    ensures FieldValues(table, required, rank, name, count).Some?
    decreases rank(name), count
  {
    if count > 0 {
      NonRequiredFieldValues(models, table, required, rank, name, count - 1);
      var field := table[name].fields[count - 1];
      MissingDefaultIsRequired(models, required, table[name], count - 1);
      if DefaultOf(field, required).Built? {
        assert IsByValue(field);
        NonRequiredConstructs(models, table, required, rank, field.irType.kind.name);
      }
    }
  }

  /** What the Go model loader guarantees: names are unique, and a field with a presence flag may be left out. */
  ghost predicate IsLoaded(models: seq<Model>)
  {
    && (forall left, right :: left in models && right in models && left.name == right.name ==> left == right)
    && (forall model, i ::
      model in models && 0 <= i < |model.fields| && model.fields[i].hasPresence ==> model.fields[i].omitsEmpty)
  }

  lemma {:induction false} MissingDefaultFails(table: map<string, Model>, required: set<string>, rank: string -> nat,
      name: string, count: nat, i: nat)
    requires IsRanked(table, rank) && name in table && i < count <= |table[name].fields|
    requires DefaultOf(table[name].fields[i], required).NoDefault?
    ensures FieldValues(table, required, rank, name, count).None?
    decreases count
  {
    if i < count - 1 {
      MissingDefaultFails(table, required, rank, name, count - 1, i);
    }
  }

  /** The required set is exact: no arguments suffice exactly for the other models. */
  lemma ConstructsIffNotRequired(models: seq<Model>, table: map<string, Model>, required: set<string>,
      rank: string -> nat, name: string)
    requires IsLoaded(models) && IsRequiredSet(models, required) && IsTable(models, table) && IsRanked(table, rank) &&
      name in table
    ensures Construct(table, required, rank, name).Some? <==> name !in required
  {
    if name in required {
      var model :| model in models && HasRequiredField(model, required) && model.name == name;
      var i :| 0 <= i < |model.fields| && MakesRequired(model.fields[i], required);
      MissingDefaultFails(table, required, rank, name, |model.fields|, i);
    } else {
      NonRequiredConstructs(models, table, required, rank, name);
    }
  }

  lemma {:induction false} FieldValuesShape(
    models: map<string, Model>, required: set<string>, rank: string -> nat, name: string, count: nat, i: nat)
    requires IsRanked(models, rank) && name in models && i < count <= |models[name].fields|
    requires FieldValues(models, required, rank, name, count).Some?
    ensures |FieldValues(models, required, rank, name, count).value| == count
    ensures var field, value := models[name].fields[i], FieldValues(models, required, rank, name, count).value[i];
      if IsByValue(field) then value.Nested? && value.instance.model == field.irType.kind.name else value == Plain
    decreases count
  {
    if i < count - 1 {
      FieldValuesShape(models, required, rank, name, count - 1, i);
    } else {
      FieldValuesLength(models, required, rank, name, count - 1);
    }
  }

  lemma {:induction false} FieldValuesLength(
    models: map<string, Model>, required: set<string>, rank: string -> nat, name: string, count: nat)
    requires IsRanked(models, rank) && name in models && count <= |models[name].fields|
    ensures var values := FieldValues(models, required, rank, name, count); values.Some? ==> |values.value| == count
    decreases count
  {
    if count > 0 {
      FieldValuesLength(models, required, rank, name, count - 1);
    }
  }

  /** A model built without arguments nests a model for each by-value reference, and nothing else. */
  lemma BuiltNestsByValue(
    models: map<string, Model>, required: set<string>, rank: string -> nat, name: string, i: nat)
    requires IsRanked(models, rank) && name in models && i < |models[name].fields|
    requires Construct(models, required, rank, name).Some?
    ensures var field, built := models[name].fields[i], Construct(models, required, rank, name).value;
      && built.model == name && |built.values| == |models[name].fields|
      && if IsByValue(field) then built.values[i].Nested? && built.values[i].instance.model == field.irType.kind.name
         else built.values[i] == Plain
  {
    FieldValuesShape(models, required, rank, name, |models[name].fields|, i);
  }
}
