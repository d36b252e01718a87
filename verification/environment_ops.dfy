/**
 * The options page's environment handlers: the add form, the remove button
 * (after a confirmation), renaming from the inline editor, saving one
 * variable's override, and how a variable's value is listed under an
 * environment.
 */
module EnvironmentOps {
  import opened Wrappers
  import opened Store
  import Text
  import Seqs

  // ---------------------------------------------------------------------------
  // Handlers
  // ---------------------------------------------------------------------------

  /**
   * The add form's submit handler: the name is trimmed and upper-cased; an
   * empty name does nothing, a name already in use is refused with an alert,
   * otherwise an environment `{id: newId, name, values: []}` is appended.
   */
  function AddEnvironment(s: Snapshot, nameInput: string, newId: string): (r: Outcome)
    ensures r.Ignored? <==> Text.NormalizeName(nameInput) == []
    ensures r.Rejected? <==> Text.NormalizeName(nameInput) != [] && HasEnvironmentNamed(s.environments, Text.NormalizeName(nameInput))
    ensures r.Rejected? ==> r.alert == EnvironmentExists
    ensures r.Written? ==>
      && r.snapshot.urls == s.urls && r.snapshot.variables == s.variables
      && r.snapshot.environments == s.environments + [Environment(newId, Text.NormalizeName(nameInput), [])]
  {
    var name := Text.NormalizeName(nameInput);
    if name == [] then Ignored
    else if HasEnvironmentNamed(s.environments, name) then Rejected(EnvironmentExists)
    else Written(s.(environments := s.environments + [Environment(newId, name, [])]))
  }

  /**
   * The remove button: without an environment id, or when the user does not
   * confirm, nothing happens; otherwise every environment with that id is
   * dropped and the others keep their order.
   */
  function RemoveEnvironment(s: Snapshot, envId: string, confirmed: bool): (r: Outcome)
    ensures !r.Rejected?
    ensures r.Written? <==> envId != "" && confirmed
    ensures r.Written? ==>
      && r.snapshot.urls == s.urls && r.snapshot.variables == s.variables
      && (forall i :: 0 <= i < |r.snapshot.environments| ==>
            r.snapshot.environments[i] in s.environments && r.snapshot.environments[i].id != envId)
      && (forall i :: 0 <= i < |s.environments| && s.environments[i].id != envId ==>
            s.environments[i] in r.snapshot.environments)
      && Seqs.Selects(r.snapshot.environments, s.environments, (e: Environment) => e.id != envId)
  {
    if envId == "" || !confirmed then Ignored
    else
      var keep := (e: Environment) => e.id != envId;
      Seqs.FilterFacts(s.environments, keep);
      Written(s.(environments := Seqs.Filter(s.environments, keep)))
  }

  /** `environments.some(env => env.name === name && env.id !== envId)`. */
  predicate NameTakenByAnother(envs: seq<Environment>, name: string, envId: string) {
    exists i :: 0 <= i < |envs| && envs[i].name == name && envs[i].id != envId
  }

  /** Every environment with id `envId` renamed to `name`; nothing else changes. */
  function RenameEnvironmentIn(envs: seq<Environment>, envId: string, name: string): (r: seq<Environment>)
    ensures |r| == |envs|
    ensures forall i :: 0 <= i < |envs| ==>
      && r[i].id == envs[i].id && r[i].values == envs[i].values
      && (envs[i].id == envId ==> r[i].name == name)
      && (envs[i].id != envId ==> r[i] == envs[i])
  {
    seq(|envs|, i requires 0 <= i < |envs| => if envs[i].id == envId then envs[i].(name := name) else envs[i])
  }

  /**
   * The save button of the inline name editor. `shownName` is the name the
   * editor was opened with. An empty or unchanged name does nothing; a name
   * held by another environment is refused with an alert; otherwise only
   * that environment's name changes.
   */
  function RenameEnvironment(s: Snapshot, envId: string, shownName: string, nameInput: string): (r: Outcome)
    ensures r.Ignored? <==> Text.NormalizeName(nameInput) == [] || Text.NormalizeName(nameInput) == shownName
    ensures r.Rejected? <==>
      && !r.Ignored?
      && NameTakenByAnother(s.environments, Text.NormalizeName(nameInput), envId)
    ensures r.Rejected? ==> r.alert == AnotherEnvironmentExists
    ensures r.Written? ==>
      && r.snapshot.urls == s.urls && r.snapshot.variables == s.variables
      && r.snapshot.environments == RenameEnvironmentIn(s.environments, envId, Text.NormalizeName(nameInput))
  {
    var name := Text.NormalizeName(nameInput);
    if name == [] || name == shownName then Ignored
    else if NameTakenByAnother(s.environments, name, envId) then Rejected(AnotherEnvironmentExists)
    else Written(s.(environments := RenameEnvironmentIn(s.environments, envId, name)))
  }

  /**
   * One environment's overrides after saving `value` for `key`: every
   * override with that key is overwritten in place; when there is none,
   * `{key, value}` is appended.
   */
  function SetValue(values: seq<EnvValue>, key: string, value: string): (r: seq<EnvValue>)
    ensures Lookup(r, key) == Some(value)
    ensures forall k :: k != key ==> Lookup(r, k) == Lookup(values, k)
    ensures |r| == |values| + (if Lookup(values, key).Some? then 0 else 1)
    ensures UniqueKeys(values) ==> UniqueKeys(r)
    ensures Lookup(values, key).None? ==> r == values + [EnvValue(key, value)]
    ensures Lookup(values, key).Some? ==> forall i :: 0 <= i < |values| ==>
      r[i] == if values[i].key == key then values[i].(value := value) else values[i]
  {
    if Lookup(values, key).Some? then
      LookupOverwriteAll(values, key, value);
      Overwrite(values, key, value)
    else
      LookupAppended(values, key, value);
      values + [EnvValue(key, value)]
  }

  /** `values.map(v => v.key === key ? {...v, value} : v)`. */
  function Overwrite(values: seq<EnvValue>, key: string, value: string): (r: seq<EnvValue>)
    ensures |r| == |values|
    ensures forall i :: 0 <= i < |values| ==> r[i].key == values[i].key
    ensures forall i :: 0 <= i < |values| ==>
      r[i] == if values[i].key == key then values[i].(value := value) else values[i]
  {
    if |values| == 0 then []
    else
      var head := if values[0].key == key then values[0].(value := value) else values[0];
      [head] + Overwrite(values[1..], key, value)
  }

  /** After overwriting, a present `key` looks up to `value` and every other key is unchanged. */
  lemma {:induction false} LookupOverwrite(values: seq<EnvValue>, key: string, value: string, k: string)
    ensures Lookup(Overwrite(values, key, value), k) ==
      if k == key && Lookup(values, key).Some? then Some(value) else Lookup(values, k)
  {
    if |values| > 0 {
      var r := Overwrite(values, key, value);
      assert r[1..] == Overwrite(values[1..], key, value);
      LookupOverwrite(values[1..], key, value, k);
    }
  }

  lemma LookupOverwriteAll(values: seq<EnvValue>, key: string, value: string)
    requires Lookup(values, key).Some?
    ensures Lookup(Overwrite(values, key, value), key) == Some(value)
    ensures forall k :: k != key ==> Lookup(Overwrite(values, key, value), k) == Lookup(values, k)
  {
    LookupOverwrite(values, key, value, key);
    forall k | k != key
      ensures Lookup(Overwrite(values, key, value), k) == Lookup(values, k)
    {
      LookupOverwrite(values, key, value, k);
    }
  }

  lemma {:induction false} LookupAppended(values: seq<EnvValue>, key: string, value: string)
    requires Lookup(values, key).None?
    ensures Lookup(values + [EnvValue(key, value)], key) == Some(value)
    ensures forall k :: k != key ==> Lookup(values + [EnvValue(key, value)], k) == Lookup(values, k)
    ensures UniqueKeys(values) ==> UniqueKeys(values + [EnvValue(key, value)])
  {
    if |values| > 0 {
      assert (values + [EnvValue(key, value)])[1..] == values[1..] + [EnvValue(key, value)];
      LookupAppended(values[1..], key, value);
      forall k
        ensures Lookup(values + [EnvValue(key, value)], k) ==
          if values[0].key == k then Some(values[0].value) else Lookup(values[1..] + [EnvValue(key, value)], k)
        ensures Lookup(values, k) == if values[0].key == k then Some(values[0].value) else Lookup(values[1..], k)
      {
        LookupCons(values + [EnvValue(key, value)], k);
        LookupCons(values, k);
      }
    } else {
      assert values + [EnvValue(key, value)] == [EnvValue(key, value)];
    }
  }

  /**
   * `handleSaveEnvVar`: the trimmed value is stored for `key` in every
   * environment with id `envId`; the other environments are untouched. The
   * write always happens, even with an empty value.
   */
  function SaveEnvValue(s: Snapshot, envId: string, key: string, valueInput: string): (r: Outcome)
    ensures r.Written?
    ensures r.snapshot.urls == s.urls && r.snapshot.variables == s.variables
    ensures SameHeaders(s.environments, r.snapshot.environments)
    ensures forall i :: 0 <= i < |s.environments| ==>
      var before := s.environments[i];
      var after := r.snapshot.environments[i];
      && (before.id == envId ==> Lookup(after.values, key) == Some(Text.Trim(valueInput)))
      && (before.id == envId ==> forall k :: k != key ==> Lookup(after.values, k) == Lookup(before.values, k))
      && (before.id == envId && UniqueKeys(before.values) ==> UniqueKeys(after.values))
      && (before.id == envId ==> after == before.(values := SetValue(before.values, key, Text.Trim(valueInput))))
      && (before.id != envId ==> after == before)
  {
    var value := Text.Trim(valueInput);
    var envs := seq(|s.environments|, i requires 0 <= i < |s.environments| =>
      if s.environments[i].id == envId then s.environments[i].(values := SetValue(s.environments[i].values, key, value))
      else s.environments[i]);
    Written(s.(environments := envs))
  }

  // ---------------------------------------------------------------------------
  // Listing and editing a value
  // ---------------------------------------------------------------------------

  const DefaultPrefix: string := "(default:"

  /**
   * The text listed for `variable` under `env`: the saved override when it
   * is non-empty, otherwise `(default: <default value>)`.
   */
  function ListedValue(env: Environment, variable: Variable): (r: string)
    ensures Lookup(env.values, variable.name).GetOr("") == [] ==> r == DefaultPrefix + " " + variable.defaultValue + ")"
    ensures Lookup(env.values, variable.name).GetOr("") != [] ==> r == Lookup(env.values, variable.name).value
  {
    var value := Lookup(env.values, variable.name).GetOr("");
    if value != [] then value else DefaultPrefix + " " + variable.defaultValue + ")"
  }

  /** `text.startsWith(prefix)`. */
  predicate StartsWith(text: string, prefix: string) {
    |prefix| <= |text| && text[..|prefix|] == prefix
  }

  /**
   * The initial content of the inline value editor, as the page computes it
   * from the listed text: empty when that text starts with `(default:`,
   * otherwise the text itself.
   */
  function EditorValueAsWritten(env: Environment, variable: Variable): (r: string)
    ensures Lookup(env.values, variable.name).GetOr("") == [] ==> r == []
    ensures !StartsWith(Lookup(env.values, variable.name).GetOr(""), DefaultPrefix) ==>
      r == Lookup(env.values, variable.name).GetOr("")
    ensures StartsWith(Lookup(env.values, variable.name).GetOr(""), DefaultPrefix) ==> r == []
  {
    var text := ListedValue(env, variable);
    assert StartsWith(DefaultPrefix + " " + variable.defaultValue + ")", DefaultPrefix);
    if StartsWith(text, DefaultPrefix) then [] else text
  }

  /**
   * A saved override that itself begins with `(default:` is taken for the
   * default placeholder: the editor opens empty instead of showing it.
   */
  lemma EditorValueAsWrittenLosesValue()
    ensures var env := Environment("env-1", "PROD", [EnvValue("HOST", "(default: x)")]);
      var variable := Variable("HOST", "d.com");
      && Lookup(env.values, "HOST") == Some("(default: x)")
      && EditorValueAsWritten(env, variable) == []
  {
    var saved := "(default: x)";
    assert saved[..|DefaultPrefix|] == DefaultPrefix;
  }

  /** The initial content of the inline value editor, read from the stored override itself. */
  function EditorValue(env: Environment, variable: Variable): (r: string)
    ensures Lookup(env.values, variable.name).None? ==> r == []
    ensures Lookup(env.values, variable.name).Some? ==> r == Lookup(env.values, variable.name).value
  {
    Lookup(env.values, variable.name).GetOr("")
  }

  /**
   * Saving a value and reopening the editor shows exactly the value saved,
   * whatever its text.
   */
  lemma SaveThenEditShowsSaved(s: Snapshot, e: nat, variable: Variable, valueInput: string)
    requires e < |s.environments|
    ensures var after := SaveEnvValue(s, s.environments[e].id, variable.name, valueInput).snapshot;
      EditorValue(after.environments[e], variable) == Text.Trim(valueInput)
  {
  }

  /**
   * The loss, for every input: when the stored override begins with
   * `(default:`, saving the page's editor content unchanged replaces that
   * override with the empty string.
   */
  lemma SaveUnchangedAsWrittenBlanks(s: Snapshot, e: nat, variable: Variable)
    requires e < |s.environments|
    requires StartsWith(Lookup(s.environments[e].values, variable.name).GetOr(""), DefaultPrefix)
    ensures var env := s.environments[e];
      var after := SaveEnvValue(s, env.id, variable.name, EditorValueAsWritten(env, variable)).snapshot;
      && Lookup(env.values, variable.name) != Some("")
      && Lookup(after.environments[e].values, variable.name) == Some("")
  {
    var env := s.environments[e];
    assert EditorValueAsWritten(env, variable) == [];
    assert Text.Trim([]) == [];
  }

  /** The page's editor agrees with the stored override whenever that does not begin with `(default:`. */
  lemma EditorValuesAgree(env: Environment, variable: Variable)
    requires !StartsWith(Lookup(env.values, variable.name).GetOr(""), DefaultPrefix)
    ensures EditorValueAsWritten(env, variable) == EditorValue(env, variable)
  {
  }

  /** Adding an environment under a fresh id and then removing that id, confirmed, restores the snapshot. */
  lemma AddThenRemoveEnvironment(s: Snapshot, nameInput: string, newId: string)
    requires newId != ""
    requires forall i :: 0 <= i < |s.environments| ==> s.environments[i].id != newId
    requires AddEnvironment(s, nameInput, newId).Written?
    ensures RemoveEnvironment(AddEnvironment(s, nameInput, newId).snapshot, newId, true) == Written(s)
  {
    var env := Environment(newId, Text.NormalizeName(nameInput), []);
    assert AddEnvironment(s, nameInput, newId).snapshot.environments == s.environments + [env];
    Seqs.FilterAppendRejected(s.environments, env, (e: Environment) => e.id != newId);
    Seqs.FilterKeepsAll(s.environments, (e: Environment) => e.id != newId);
  }

  // ---------------------------------------------------------------------------
  // Invariants
  // ---------------------------------------------------------------------------

  /** Adding an environment under a fresh id keeps the snapshot valid. */
  lemma AddEnvironmentPreservesValid(s: Snapshot, nameInput: string, newId: string)
    requires Valid(s)
    requires forall i :: 0 <= i < |s.environments| ==> s.environments[i].id != newId
    requires AddEnvironment(s, nameInput, newId).Written?
    ensures Valid(AddEnvironment(s, nameInput, newId).snapshot)
  {
    var name := Text.NormalizeName(nameInput);
    assert !HasEnvironmentNamed(s.environments, name);
    AppendEnvironmentKeepsInvariants(s.environments, s.variables, Environment(newId, name, []));
  }

  /** Appending an empty environment under a fresh id and an unused upper-case name keeps the invariants. */
  lemma AppendEnvironmentKeepsInvariants(envs: seq<Environment>, variables: seq<Variable>, env: Environment)
    requires UniqueEnvironmentIds(envs) && UniqueEnvironmentNames(envs) && UpperEnvironmentNames(envs)
    requires WellFormedValues(envs, variables)
    requires forall i :: 0 <= i < |envs| ==> envs[i].id != env.id
    requires !HasEnvironmentNamed(envs, env.name) && Text.IsUpper(env.name) && env.values == []
    ensures var t := envs + [env];
      UniqueEnvironmentIds(t) && UniqueEnvironmentNames(t) && UpperEnvironmentNames(t) && WellFormedValues(t, variables)
  {
    var t := envs + [env];
    assert forall i :: 0 <= i < |envs| ==> t[i] == envs[i];
  }

  /** Removing an environment keeps the snapshot valid. */
  lemma RemoveEnvironmentPreservesValid(s: Snapshot, envId: string, confirmed: bool)
    requires Valid(s)
    requires RemoveEnvironment(s, envId, confirmed).Written?
    ensures Valid(RemoveEnvironment(s, envId, confirmed).snapshot)
  {
    var t := RemoveEnvironment(s, envId, confirmed).snapshot.environments;
    Seqs.SelectsKeepPairs(t, s.environments, (e: Environment) => e.id != envId, (a: Environment, b: Environment) => a.id != b.id && a.name != b.name);
    Seqs.MembersKeep(t, s.environments, (e: Environment) =>
      Text.IsUpper(e.name) && UniqueKeys(e.values) && KeysDeclared(e.values, s.variables));
  }

  /** Renaming an environment keeps the snapshot valid: names stay unique and upper-case. */
  lemma RenameEnvironmentPreservesValid(s: Snapshot, envId: string, shownName: string, nameInput: string)
    requires Valid(s)
    requires RenameEnvironment(s, envId, shownName, nameInput).Written?
    ensures Valid(RenameEnvironment(s, envId, shownName, nameInput).snapshot)
  {
    var name := Text.NormalizeName(nameInput);
    var t := RenameEnvironmentIn(s.environments, envId, name);
    assert !NameTakenByAnother(s.environments, name, envId);
    forall i, j | 0 <= i < j < |t|
      ensures t[i].name != t[j].name
    {
      assert s.environments[i].id != s.environments[j].id;
    }
  }

  /**
   * Renaming an environment and then renaming it back from the editor
   * restores the snapshot, as long as its stored name was trimmed and
   * non-empty.
   */
  lemma RenameEnvironmentBack(s: Snapshot, e: nat, nameInput: string)
    requires Valid(s) && e < |s.environments|
    requires var env := s.environments[e]; env.name != [] && Text.IsTrimmed(env.name)
    requires var env := s.environments[e]; RenameEnvironment(s, env.id, env.name, nameInput).Written?
    ensures var env := s.environments[e];
      var t := RenameEnvironment(s, env.id, env.name, nameInput).snapshot;
      RenameEnvironment(t, env.id, Text.NormalizeName(nameInput), env.name) == Written(s)
  {
    var env := s.environments[e];
    var name := Text.NormalizeName(nameInput);
    var t := RenameEnvironmentIn(s.environments, env.id, name);
    Text.NormalizeNormal(env.name);
    assert !NameTakenByAnother(t, env.name, env.id) by {
      forall i | 0 <= i < |t| && t[i].id != env.id
        ensures t[i].name != env.name
      {
        assert t[i] == s.environments[i];
        assert i != e;
      }
    }
    var back := RenameEnvironmentIn(t, env.id, env.name);
    forall i | 0 <= i < |s.environments|
      ensures back[i] == s.environments[i]
    {
      if s.environments[i].id == env.id {
        assert i == e;
      }
    }
    assert back == s.environments;
  }

  /** Saving an override for a declared variable keeps the snapshot valid. */
  lemma SaveEnvValuePreservesValid(s: Snapshot, envId: string, key: string, valueInput: string)
    requires Valid(s)
    requires HasVariable(s.variables, key)
    ensures Valid(SaveEnvValue(s, envId, key, valueInput).snapshot)
  {
    var t := SaveEnvValue(s, envId, key, valueInput).snapshot;
    SameHeadersKeepInvariants(s.environments, t.environments);
    forall e | 0 <= e < |t.environments| && s.environments[e].id == envId
      ensures KeysDeclared(t.environments[e].values, t.variables)
    {
      var before := s.environments[e].values;
      var after := t.environments[e].values;
      forall i | 0 <= i < |after|
        ensures HasVariable(t.variables, after[i].key)
      {
        var k := after[i].key;
        if k != key {
          assert Lookup(after, k).Some?;
          assert Lookup(before, k).Some?;
          var m :| 0 <= m < |before| && before[m] == EnvValue(k, Lookup(before, k).value) && (forall j :: 0 <= j < m ==> before[j].key != k);
        }
      }
    }
  }
}
