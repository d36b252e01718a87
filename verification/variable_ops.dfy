/**
 * The options page's variable handlers: the add form, the remove button
 * (which also drops the variable's override from every environment) and the
 * update button (which renames the variable and re-keys its overrides).
 */
module VariableOps {
  import opened Wrappers
  import opened Store
  import Text
  import Seqs

  // ---------------------------------------------------------------------------
  // Override-list helpers
  // ---------------------------------------------------------------------------

  /** `values.filter(v => v.key !== key)`. */
  function WithoutKey(values: seq<EnvValue>, key: string): (r: seq<EnvValue>)
    ensures forall i :: 0 <= i < |r| ==> r[i] in values && r[i].key != key
    ensures Seqs.Selects(r, values, (v: EnvValue) => v.key != key)
    ensures (forall i :: 0 <= i < |values| ==> values[i].key != key) ==> r == values
  {
    Seqs.FilterFacts(values, (v: EnvValue) => v.key != key);
    Seqs.Filter(values, (v: EnvValue) => v.key != key)
  }

  /** Dropping one key leaves the lookup of every other key as it was. */
  lemma {:induction false} LookupWithoutKey(values: seq<EnvValue>, key: string, other: string)
    ensures Lookup(WithoutKey(values, key), key) == None
    ensures other != key ==> Lookup(WithoutKey(values, key), other) == Lookup(values, other)
  {
    if |values| > 0 {
      LookupWithoutKey(values[1..], key, other);
      LookupCons(values, key);
      LookupCons(values, other);
      if values[0].key != key {
        var r := WithoutKey(values, key);
        assert r == [values[0]] + WithoutKey(values[1..], key);
        LookupCons(r, key);
        LookupCons(r, other);
        assert r[1..] == WithoutKey(values[1..], key);
      } else {
        assert WithoutKey(values, key) == WithoutKey(values[1..], key);
      }
    }
  }

  /** Keys a filtered override list keeps unique. */
  lemma WithoutKeyUnique(values: seq<EnvValue>, key: string)
    requires UniqueKeys(values)
    ensures UniqueKeys(WithoutKey(values, key))
  {
    var r := WithoutKey(values, key);
    Seqs.SelectsKeepPairs(r, values, (v: EnvValue) => v.key != key, (a: EnvValue, b: EnvValue) => a.key != b.key);
  }

  /** `values.map(val => val.key === from ? {...val, key: to} : val)`. */
  function RenameKey(values: seq<EnvValue>, from: string, to: string): (r: seq<EnvValue>)
    ensures |r| == |values|
    ensures forall i :: 0 <= i < |values| ==> r[i].value == values[i].value
    ensures forall i :: 0 <= i < |values| ==>
      (values[i].key == from ==> r[i].key == to) && (values[i].key != from ==> r[i] == values[i])
  {
    if |values| == 0 then []
    else
      var head := if values[0].key == from then values[0].(key := to) else values[0];
      [head] + RenameKey(values[1..], from, to)
  }

  /**
   * Re-keying `from` to `to`, where `to` was not in use: the lookup of `to`
   * afterwards is the lookup of `from` before, `from` is gone, and every other
   * key is untouched.
   */
  lemma {:induction false} RenameKeyLookup(values: seq<EnvValue>, from: string, to: string, k: string)
    requires from == to || forall i :: 0 <= i < |values| ==> values[i].key != to
    ensures Lookup(RenameKey(values, from, to), k) ==
      if k == to then Lookup(values, from) else if k == from then None else Lookup(values, k)
  {
    if |values| > 0 {
      var r := RenameKey(values, from, to);
      assert r[1..] == RenameKey(values[1..], from, to);
      RenameKeyLookup(values[1..], from, to, k);
    }
  }

  /** Re-keying to a key not in use keeps keys unique. */
  lemma RenameKeyUnique(values: seq<EnvValue>, from: string, to: string)
    requires UniqueKeys(values)
    requires from == to || forall i :: 0 <= i < |values| ==> values[i].key != to
    ensures UniqueKeys(RenameKey(values, from, to))
  {
    var r := RenameKey(values, from, to);
    forall i, j | 0 <= i < j < |r|
      ensures r[i].key != r[j].key
    {
      assert values[i].key != values[j].key;
    }
  }

  // ---------------------------------------------------------------------------
  // Handlers
  // ---------------------------------------------------------------------------

  /**
   * The add form's submit handler. Nothing happens while a variable is being
   * edited or when the normalised name or trimmed default is empty; a name
   * already in use is refused with an alert; otherwise `{name, defaultValue}`
   * is appended.
   */
  function AddVariable(s: Snapshot, editing: Option<string>, nameInput: string, defaultInput: string): (r: Outcome)
    ensures Truthy(editing) ==> r == Ignored
    ensures r.Rejected? <==>
      !Truthy(editing) && Text.NormalizeName(nameInput) != [] && Text.Trim(defaultInput) != []
      && HasVariable(s.variables, Text.NormalizeName(nameInput))
    ensures r.Rejected? ==> r.alert == VariableExists
    ensures r.Written? <==>
      !Truthy(editing) && Text.NormalizeName(nameInput) != [] && Text.Trim(defaultInput) != []
      && !HasVariable(s.variables, Text.NormalizeName(nameInput))
    ensures r.Written? ==>
      && r.snapshot.urls == s.urls
      && r.snapshot.environments == s.environments
      && r.snapshot.variables == s.variables + [Variable(Text.NormalizeName(nameInput), Text.Trim(defaultInput))]
  {
    if Truthy(editing) then Ignored
    else
      var name := Text.NormalizeName(nameInput);
      var default := Text.Trim(defaultInput);
      if name != [] && default != [] then
        if HasVariable(s.variables, name) then Rejected(VariableExists)
        else Written(s.(variables := s.variables + [Variable(name, default)]))
      else Ignored
  }

  /** `variables.filter(v => v.name !== name)`. */
  function RemainingVariables(variables: seq<Variable>, name: string): (r: seq<Variable>)
    ensures !HasVariable(r, name)
    ensures forall i :: 0 <= i < |r| ==> r[i] in variables
    ensures Seqs.Selects(r, variables, (v: Variable) => v.name != name)
    ensures forall i :: 0 <= i < |variables| && variables[i].name != name ==> variables[i] in r
    ensures !HasVariable(variables, name) ==> r == variables
  {
    var keep := (v: Variable) => v.name != name;
    Seqs.FilterFacts(variables, keep);
    Seqs.Filter(variables, keep)
  }

  /** Every environment with the overrides keyed by `name` dropped; ids and names unchanged. */
  function WithoutKeyIn(envs: seq<Environment>, name: string): (r: seq<Environment>)
    ensures SameHeaders(envs, r)
    ensures forall i :: 0 <= i < |envs| ==> r[i].values == WithoutKey(envs[i].values, name)
    ensures forall i :: 0 <= i < |envs| ==>
      forall k :: Lookup(r[i].values, k) == (if k == name then None else Lookup(envs[i].values, k))
  {
    var r := seq(|envs|, i requires 0 <= i < |envs| => envs[i].(values := WithoutKey(envs[i].values, name)));
    assert forall i :: 0 <= i < |envs| ==>
      forall k :: Lookup(r[i].values, k) == (if k == name then None else Lookup(envs[i].values, k)) by {
      forall i, k | 0 <= i < |envs|
        ensures Lookup(r[i].values, k) == (if k == name then None else Lookup(envs[i].values, k))
      {
        LookupWithoutKey(envs[i].values, name, k);
      }
    }
    r
  }

  /**
   * The remove button: the variable disappears from `variables` and its
   * override disappears from every environment; the rest keeps its order.
   */
  function RemoveVariable(s: Snapshot, name: string): (r: Outcome)
    ensures r.Written?
    ensures r.snapshot.urls == s.urls
    ensures !HasVariable(r.snapshot.variables, name)
    ensures forall i :: 0 <= i < |r.snapshot.variables| ==> r.snapshot.variables[i] in s.variables
    ensures Seqs.Selects(r.snapshot.variables, s.variables, (v: Variable) => v.name != name)
    ensures forall i :: 0 <= i < |s.variables| && s.variables[i].name != name ==> s.variables[i] in r.snapshot.variables
    ensures SameHeaders(s.environments, r.snapshot.environments)
    ensures forall i :: 0 <= i < |s.environments| ==>
      Seqs.Selects(r.snapshot.environments[i].values, s.environments[i].values, (v: EnvValue) => v.key != name)
    ensures forall i :: 0 <= i < |s.environments| ==>
      && Lookup(r.snapshot.environments[i].values, name) == None
      && forall k :: k != name ==> Lookup(r.snapshot.environments[i].values, k) == Lookup(s.environments[i].values, k)
  {
    Written(Snapshot(s.urls, RemainingVariables(s.variables, name), WithoutKeyIn(s.environments, name)))
  }

  /** `variables.map(v => v.name === from ? {...v, name, defaultValue} : v)`. */
  function RenameVariable(variables: seq<Variable>, from: string, name: string, default: string): (r: seq<Variable>)
    ensures |r| == |variables|
    ensures forall i :: 0 <= i < |variables| ==>
      (variables[i].name == from ==> r[i] == Variable(name, default))
      && (variables[i].name != from ==> r[i] == variables[i])
  {
    seq(|variables|, i requires 0 <= i < |variables| =>
      if variables[i].name == from then Variable(name, default) else variables[i])
  }

  /** Every environment with its overrides re-keyed from `from` to `to`; ids and names unchanged. */
  function RenameKeyIn(envs: seq<Environment>, from: string, to: string): (r: seq<Environment>)
    ensures |r| == |envs|
    ensures forall i :: 0 <= i < |envs| ==>
      r[i].id == envs[i].id && r[i].name == envs[i].name && r[i].values == RenameKey(envs[i].values, from, to)
  {
    seq(|envs|, i requires 0 <= i < |envs| => envs[i].(values := RenameKey(envs[i].values, from, to)))
  }

  /** `variables.some(v => v.name === name && v.name !== editing)`. */
  predicate TakenByAnother(variables: seq<Variable>, name: string, editing: string) {
    exists i :: 0 <= i < |variables| && variables[i].name == name && variables[i].name != editing
  }

  /**
   * The update button. Nothing happens unless a variable is being edited
   * and the normalised name and trimmed default are non-empty; a name held
   * by another variable is refused with an alert; otherwise the edited
   * variable gets the new name and default and every environment's override
   * keyed by the old name is re-keyed to the new one.
   */
  function UpdateVariable(s: Snapshot, editing: Option<string>, nameInput: string, defaultInput: string): (r: Outcome)
    ensures r.Rejected? <==>
      Truthy(editing) && Text.NormalizeName(nameInput) != [] && Text.Trim(defaultInput) != []
      && TakenByAnother(s.variables, Text.NormalizeName(nameInput), editing.value)
    ensures r.Rejected? ==> r.alert == AnotherVariableExists
    ensures r.Written? <==>
      Truthy(editing) && Text.NormalizeName(nameInput) != [] && Text.Trim(defaultInput) != []
      && !TakenByAnother(s.variables, Text.NormalizeName(nameInput), editing.value)
    ensures r.Written? ==> r.snapshot == Snapshot(s.urls,
      RenameVariable(s.variables, editing.value, Text.NormalizeName(nameInput), Text.Trim(defaultInput)),
      RenameKeyIn(s.environments, editing.value, Text.NormalizeName(nameInput)))
  {
    var name := Text.NormalizeName(nameInput);
    var default := Text.Trim(defaultInput);
    if name != [] && default != [] && Truthy(editing) then
      var prev := editing.value;
      if TakenByAnother(s.variables, name, prev) then
        Rejected(AnotherVariableExists)
      else
        Written(Snapshot(s.urls, RenameVariable(s.variables, prev, name, default), RenameKeyIn(s.environments, prev, name)))
    else Ignored
  }

  /** The page's variable form: the name being edited (`editingVariable`) and the two text fields. */
  datatype VariableForm = VariableForm(editing: Option<string>, name: string, defaultValue: string)

  /**
   * The edit button: the name and default of the first variable with that
   * name go into the form and the name becomes the edited name; for a name no variable has, the
   * form stays as it was.
   */
  function BeginVariableEdit(variables: seq<Variable>, form: VariableForm, name: string): (r: VariableForm)
    ensures !HasVariable(variables, name) ==> r == form
    ensures HasVariable(variables, name) ==>
      && r.editing == Some(name) && r.name == name
      && exists i :: 0 <= i < |variables| && variables[i] == Variable(name, r.defaultValue)
           && forall j :: 0 <= j < i ==> variables[j].name != name
  {
    match FindVariable(variables, name)
    case None => form
    case Some(v) => VariableForm(Some(name), v.name, v.defaultValue)
  }

  /** Re-keying a key to itself changes nothing. */
  lemma RenameKeyToItself(values: seq<EnvValue>, key: string)
    ensures RenameKey(values, key, key) == values
  {
    var r := RenameKey(values, key, key);
    assert forall i :: 0 <= i < |values| ==> r[i] == values[i];
  }

  /** Re-keying every environment from a key to itself changes nothing. */
  lemma RenameKeyInToItself(envs: seq<Environment>, key: string)
    ensures RenameKeyIn(envs, key, key) == envs
  {
    var r := RenameKeyIn(envs, key, key);
    forall e | 0 <= e < |envs|
      ensures r[e] == envs[e]
    {
      RenameKeyToItself(envs[e].values, key);
    }
  }

  /** With unique names, writing a variable's own name and default over it changes nothing. */
  lemma RenameVariableToItself(variables: seq<Variable>, k: nat)
    requires UniqueVariableNames(variables) && k < |variables|
    ensures var v := variables[k]; RenameVariable(variables, v.name, v.name, v.defaultValue) == variables
  {
    var v := variables[k];
    var r := RenameVariable(variables, v.name, v.name, v.defaultValue);
    forall i | 0 <= i < |variables|
      ensures r[i] == variables[i]
    {
      if variables[i].name == v.name {
        assert i == k;
      }
    }
  }

  /**
   * Opening a variable for editing and submitting the form unchanged
   * rewrites the same snapshot, as long as its name and default were stored
   * trimmed and non-empty.
   */
  lemma ResubmitUnchangedVariableIsIdentity(s: Snapshot, form: VariableForm, name: string)
    requires Valid(s)
    requires HasVariable(s.variables, name)
    requires name != [] && Text.IsTrimmed(name)
    requires var v := FindVariable(s.variables, name).value; Text.IsTrimmed(v.defaultValue) && v.defaultValue != []
    ensures var f := BeginVariableEdit(s.variables, form, name);
      UpdateVariable(s, f.editing, f.name, f.defaultValue) == Written(s)
  {
    var v := FindVariable(s.variables, name).value;
    var k :| 0 <= k < |s.variables| && s.variables[k] == v && v.name == name;
    assert Text.IsUpper(s.variables[k].name);
    Text.NormalizeNormal(name);
    Text.TrimOfTrimmed(v.defaultValue);
    assert BeginVariableEdit(s.variables, form, name) == VariableForm(Some(name), name, v.defaultValue);
    assert !TakenByAnother(s.variables, name, name);
    RenameVariableToItself(s.variables, k);
    RenameKeyInToItself(s.environments, name);
  }

  // ---------------------------------------------------------------------------
  // Properties
  // ---------------------------------------------------------------------------

  /** Appending a variable under an unused upper-case name keeps the variable invariants. */
  lemma AppendVariableKeepsInvariants(variables: seq<Variable>, envs: seq<Environment>, v: Variable)
    requires UniqueVariableNames(variables) && UpperVariableNames(variables)
    requires WellFormedValues(envs, variables)
    requires !HasVariable(variables, v.name) && Text.IsUpper(v.name)
    ensures UniqueVariableNames(variables + [v]) && UpperVariableNames(variables + [v])
    ensures WellFormedValues(envs, variables + [v])
  {
    var t := variables + [v];
    forall e, i | 0 <= e < |envs| && 0 <= i < |envs[e].values|
      ensures HasVariable(t, envs[e].values[i].key)
    {
      var j :| 0 <= j < |variables| && variables[j].name == envs[e].values[i].key;
      assert t[j] == variables[j];
    }
  }

  /** Adding a variable keeps the snapshot valid; the new name is stored upper-case. */
  lemma AddVariablePreservesValid(s: Snapshot, editing: Option<string>, nameInput: string, defaultInput: string)
    requires Valid(s)
    requires AddVariable(s, editing, nameInput, defaultInput).Written?
    ensures Valid(AddVariable(s, editing, nameInput, defaultInput).snapshot)
  {
    AppendVariableKeepsInvariants(s.variables, s.environments,
      Variable(Text.NormalizeName(nameInput), Text.Trim(defaultInput)));
  }

  /** Filtering out a name keeps the remaining variable names unique and upper-case. */
  lemma RemainingVariablesKeepInvariants(variables: seq<Variable>, name: string)
    requires UniqueVariableNames(variables) && UpperVariableNames(variables)
    ensures var t := RemainingVariables(variables, name);
      UniqueVariableNames(t) && UpperVariableNames(t)
  {
    var t := RemainingVariables(variables, name);
    Seqs.SelectsKeepPairs(t, variables, (v: Variable) => v.name != name, (a: Variable, b: Variable) => a.name != b.name);
    Seqs.MembersKeep(t, variables, (v: Variable) => Text.IsUpper(v.name));
  }

  /** An environment's overrides without `name` are unique and declared by the remaining variables. */
  lemma WithoutKeyWellFormed(values: seq<EnvValue>, variables: seq<Variable>, remaining: seq<Variable>, name: string)
    requires UniqueKeys(values) && KeysDeclared(values, variables)
    requires forall i :: 0 <= i < |variables| && variables[i].name != name ==> variables[i] in remaining
    ensures UniqueKeys(WithoutKey(values, name)) && KeysDeclared(WithoutKey(values, name), remaining)
  {
    var after := WithoutKey(values, name);
    WithoutKeyUnique(values, name);
    forall i | 0 <= i < |after|
      ensures HasVariable(remaining, after[i].key)
    {
      var k :| 0 <= k < |values| && values[k] == after[i];
      var j :| 0 <= j < |variables| && variables[j].name == values[k].key;
      var j' :| 0 <= j' < |remaining| && remaining[j'] == variables[j];
    }
  }

  /** Removing a variable keeps the snapshot valid: no override is left without its variable. */
  lemma RemoveVariablePreservesValid(s: Snapshot, name: string)
    requires Valid(s)
    ensures Valid(RemoveVariable(s, name).snapshot)
  {
    var t := RemoveVariable(s, name).snapshot;
    RemainingVariablesKeepInvariants(s.variables, name);
    forall e | 0 <= e < |t.environments|
      ensures UniqueKeys(t.environments[e].values) && KeysDeclared(t.environments[e].values, t.variables)
    {
      WithoutKeyWellFormed(s.environments[e].values, s.variables, t.variables, name);
    }
    SameHeadersKeepInvariants(s.environments, t.environments);
  }

  /** No override in a valid snapshot is keyed by a name no variable has. */
  lemma UndeclaredKeyUnused(s: Snapshot, e: nat, name: string)
    requires Valid(s) && e < |s.environments|
    requires !HasVariable(s.variables, name)
    ensures forall i :: 0 <= i < |s.environments[e].values| ==> s.environments[e].values[i].key != name
  {
    var values := s.environments[e].values;
    assert KeysDeclared(values, s.variables);
    forall i | 0 <= i < |values|
      ensures values[i].key != name
    {
      assert HasVariable(s.variables, values[i].key);
    }
  }

  /** Renaming a variable to a name no other variable holds keeps names unique and upper-case. */
  lemma RenameVariableKeepsInvariants(variables: seq<Variable>, from: string, name: string, default: string)
    requires UniqueVariableNames(variables) && UpperVariableNames(variables)
    requires !TakenByAnother(variables, name, from) && Text.IsUpper(name)
    ensures var t := RenameVariable(variables, from, name, default);
      UniqueVariableNames(t) && UpperVariableNames(t)
  {
  }

  /** Re-keyed overrides stay unique and belong to the renamed variable list. */
  lemma RenameKeyWellFormed(values: seq<EnvValue>, variables: seq<Variable>, from: string, name: string, default: string)
    requires UniqueKeys(values) && KeysDeclared(values, variables)
    requires !TakenByAnother(variables, name, from)
    ensures UniqueKeys(RenameKey(values, from, name))
    ensures KeysDeclared(RenameKey(values, from, name), RenameVariable(variables, from, name, default))
  {
    var after := RenameKey(values, from, name);
    var t := RenameVariable(variables, from, name, default);
    assert from == name || forall i :: 0 <= i < |values| ==> values[i].key != name by {
      if from != name {
        forall i | 0 <= i < |values|
          ensures values[i].key != name
        {
          var j :| 0 <= j < |variables| && variables[j].name == values[i].key;
        }
      }
    }
    RenameKeyUnique(values, from, name);
    forall i | 0 <= i < |after|
      ensures HasVariable(t, after[i].key)
    {
      var j :| 0 <= j < |variables| && variables[j].name == values[i].key;
      assert t[j].name == after[i].key;
    }
  }

  /** Re-keying every environment keeps the environment invariants against the renamed variables. */
  lemma RenameKeyInKeepsInvariants(envs: seq<Environment>, variables: seq<Variable>, from: string, name: string, default: string)
    requires UniqueEnvironmentIds(envs) && UniqueEnvironmentNames(envs) && UpperEnvironmentNames(envs)
    requires WellFormedValues(envs, variables)
    requires !TakenByAnother(variables, name, from)
    ensures var t := RenameKeyIn(envs, from, name);
      && UniqueEnvironmentIds(t) && UniqueEnvironmentNames(t) && UpperEnvironmentNames(t)
      && WellFormedValues(t, RenameVariable(variables, from, name, default))
  {
    var t := RenameKeyIn(envs, from, name);
    forall e | 0 <= e < |t|
      ensures UniqueKeys(t[e].values) && KeysDeclared(t[e].values, RenameVariable(variables, from, name, default))
    {
      RenameKeyWellFormed(envs[e].values, variables, from, name, default);
    }
    SameHeadersKeepInvariants(envs, t);
  }

  /**
   * A rename keeps the snapshot valid: names stay unique and upper-case, and
   * the re-keyed overrides still belong to declared variables.
   */
  lemma UpdateVariablePreservesValid(s: Snapshot, editing: Option<string>, nameInput: string, defaultInput: string)
    requires Valid(s)
    requires UpdateVariable(s, editing, nameInput, defaultInput).Written?
    ensures Valid(UpdateVariable(s, editing, nameInput, defaultInput).snapshot)
  {
    var t := UpdateVariable(s, editing, nameInput, defaultInput).snapshot;
    var prev, name, default := editing.value, Text.NormalizeName(nameInput), Text.Trim(defaultInput);
    assert !TakenByAnother(s.variables, name, prev);
    var vs := RenameVariable(s.variables, prev, name, default);
    var es := RenameKeyIn(s.environments, prev, name);
    assert t == Snapshot(s.urls, vs, es);
    RenameVariableKeepsInvariants(s.variables, prev, name, default);
    RenameKeyInKeepsInvariants(s.environments, s.variables, prev, name, default);
  }

  /**
   * A rename carries every environment's override over to the new name: a
   * lookup of the new name afterwards gives what the prev name gave before,
   * the prev name has no override left, and all counts are unchanged.
   */
  lemma RenameCarriesValues(s: Snapshot, editing: Option<string>, nameInput: string, defaultInput: string, e: nat, other: string)
    requires Valid(s)
    requires UpdateVariable(s, editing, nameInput, defaultInput).Written?
    requires e < |s.environments|
    ensures var t := UpdateVariable(s, editing, nameInput, defaultInput).snapshot;
      var name := Text.NormalizeName(nameInput);
      && |t.variables| == |s.variables|
      && |t.environments| == |s.environments|
      && |t.environments[e].values| == |s.environments[e].values|
      && Lookup(t.environments[e].values, name) == Lookup(s.environments[e].values, editing.value)
      && (name != editing.value ==> Lookup(t.environments[e].values, editing.value) == None)
      && (other != name && other != editing.value ==>
            Lookup(t.environments[e].values, other) == Lookup(s.environments[e].values, other))
  {
    var prev, name := editing.value, Text.NormalizeName(nameInput);
    if prev != name {
      assert !TakenByAnother(s.variables, name, prev);
      assert !HasVariable(s.variables, name);
      UndeclaredKeyUnused(s, e, name);
    }
    var values := s.environments[e].values;
    RenameKeyLookup(values, prev, name, name);
    RenameKeyLookup(values, prev, name, prev);
    RenameKeyLookup(values, prev, name, other);
  }

  /** Adding a fresh variable and then removing it restores the snapshot. */
  lemma AddThenRemoveVariable(s: Snapshot, nameInput: string, defaultInput: string)
    requires Valid(s)
    requires AddVariable(s, None, nameInput, defaultInput).Written?
    ensures RemoveVariable(AddVariable(s, None, nameInput, defaultInput).snapshot, Text.NormalizeName(nameInput)) == Written(s)
  {
    var v := Variable(Text.NormalizeName(nameInput), Text.Trim(defaultInput));
    assert AddVariable(s, None, nameInput, defaultInput).snapshot == s.(variables := s.variables + [v]);
    RemoveAppendedVariable(s, v);
  }

  /** Removing a variable that was appended under an unused name restores the snapshot. */
  lemma RemoveAppendedVariable(s: Snapshot, v: Variable)
    requires Valid(s)
    requires !HasVariable(s.variables, v.name)
    ensures RemoveVariable(s.(variables := s.variables + [v]), v.name) == Written(s)
  {
    var name := v.name;
    Seqs.FilterAppendRejected(s.variables, v, (v: Variable) => v.name != name);
    assert RemainingVariables(s.variables + [v], name) == RemainingVariables(s.variables, name) == s.variables;
    forall e | 0 <= e < |s.environments|
      ensures WithoutKey(s.environments[e].values, name) == s.environments[e].values
    {
      UndeclaredKeyUnused(s, e, name);
    }
    assert WithoutKeyIn(s.environments, name) == s.environments;
  }
}
