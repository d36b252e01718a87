/**
 * The configuration the extension keeps in `chrome.storage.sync`: the three
 * top-level keys `urls`, `variables` and `environments`, their record shapes,
 * the invariants the options page maintains over them, and the outcome of one
 * read-transform-write storage callback.
 */
module Store {
  import opened Wrappers
  import Text

  /** One saved search: `{id, name, url}`, where `url` may contain `%s`. */
  datatype UrlEntry = UrlEntry(id: string, name: string, url: string)

  /** A named variable with its default value: `{name, defaultValue}`. */
  datatype Variable = Variable(name: string, defaultValue: string)

  /** One stored override inside an environment: `{key, value}`. */
  datatype EnvValue = EnvValue(key: string, value: string)

  /** A named bundle of overrides: `{id, name, values}`. */
  datatype Environment = Environment(id: string, name: string, values: seq<EnvValue>)

  /** The stored snapshot `{urls, variables, environments}`. */
  datatype Snapshot = Snapshot(urls: seq<UrlEntry>, variables: seq<Variable>, environments: seq<Environment>)

  /** The messages the options page shows with `alert` instead of writing. */
  datatype Alert =
    | VariableExists            // "Variable with this name already exists."
    | AnotherVariableExists     // "Another variable with this name already exists."
    | EnvironmentExists         // "Environment with this name already exists."
    | AnotherEnvironmentExists  // "Another environment with this name already exists."
    | InvalidDataStructure      // "Error reading file: Invalid data structure."
    | NotAnObject               // "Error reading file: " and the TypeError of destructuring null
    | NotJson                   // "Error reading file: " and the SyntaxError of JSON.parse

  /**
   * What one storage callback does: write a new snapshot, return early
   * without writing anything, or show an alert and write nothing.
   */
  datatype Outcome = Written(snapshot: Snapshot) | Ignored | Rejected(alert: Alert)

  /** JavaScript truthiness of an id held in a page variable that starts out `null`. */
  predicate Truthy(o: Option<string>) {
    o.Some? && o.value != ""
  }

  // ---------------------------------------------------------------------------
  // Lookups
  // ---------------------------------------------------------------------------

  /** `s.find(p)`: the first element that satisfies `p`. */
  function FindFirst<T>(s: seq<T>, p: T -> bool): (r: Option<T>)
    ensures r.None? <==> forall i :: 0 <= i < |s| ==> !p(s[i])
    ensures r.Some? ==> exists i :: 0 <= i < |s| && s[i] == r.value && p(r.value) && forall j :: 0 <= j < i ==> !p(s[j])
  {
    if |s| == 0 then None
    else if p(s[0]) then Some(s[0])
    else
      var r := FindFirst(s[1..], p);
      assert forall i :: 1 <= i < |s| ==> s[i] == s[1..][i - 1];
      r
  }

  /** `urls.find(item => item.id === id)`: the first entry with that id. */
  function FindUrl(urls: seq<UrlEntry>, id: string): (r: Option<UrlEntry>)
    ensures r.None? <==> forall i :: 0 <= i < |urls| ==> urls[i].id != id
    ensures r.Some? ==> r.value.id == id
    ensures r.Some? ==>
      exists i :: 0 <= i < |urls| && urls[i] == r.value && (forall j :: 0 <= j < i ==> urls[j].id != id)
  {
    FindFirst(urls, (e: UrlEntry) => e.id == id)
  }

  /** `variables.find(v => v.name === name)`: the first variable with that name. */
  function FindVariable(variables: seq<Variable>, name: string): (r: Option<Variable>)
    ensures r.None? <==> forall i :: 0 <= i < |variables| ==> variables[i].name != name
    ensures r.Some? ==>
      exists i :: 0 <= i < |variables| && variables[i] == r.value && r.value.name == name
        && (forall j :: 0 <= j < i ==> variables[j].name != name)
  {
    FindFirst(variables, (v: Variable) => v.name == name)
  }

  /** `values.find(v => v.key === key)`, reduced to the value it holds. */
  function Lookup(values: seq<EnvValue>, key: string): (r: Option<string>)
    ensures r.None? <==> forall i :: 0 <= i < |values| ==> values[i].key != key
    ensures r.Some? ==>
      exists i :: 0 <= i < |values| && values[i] == EnvValue(key, r.value) && (forall j :: 0 <= j < i ==> values[j].key != key)
  {
    match FindFirst(values, (v: EnvValue) => v.key == key)
    case None => None
    case Some(v) => Some(v.value)
  }

  /** A lookup checks the first override and otherwise looks in the rest. */
  lemma LookupCons(values: seq<EnvValue>, key: string)
    requires |values| > 0
    ensures Lookup(values, key) ==
      if values[0].key == key then Some(values[0].value) else Lookup(values[1..], key)
  {
  }

  /** With unique keys, the lookup finds a value exactly when that pair is stored. */
  lemma LookupUnique(values: seq<EnvValue>, key: string, v: string)
    requires UniqueKeys(values)
    ensures Lookup(values, key) == Some(v) <==> EnvValue(key, v) in values
  {
    if EnvValue(key, v) in values {
      var k :| 0 <= k < |values| && values[k] == EnvValue(key, v);
      var r := Lookup(values, key);
      var i :| 0 <= i < |values| && values[i] == EnvValue(key, r.value) && (forall j :: 0 <= j < i ==> values[j].key != key);
      assert i == k;
    }
  }

  /** `variables.some(v => v.name === name)`. */
  predicate HasVariable(variables: seq<Variable>, name: string) {
    exists i :: 0 <= i < |variables| && variables[i].name == name
  }

  /** `environments.some(e => e.name === name)`. */
  predicate HasEnvironmentNamed(envs: seq<Environment>, name: string) {
    exists i :: 0 <= i < |envs| && envs[i].name == name
  }

  // ---------------------------------------------------------------------------
  // Invariants the options page keeps
  // ---------------------------------------------------------------------------

  predicate UniqueVariableNames(variables: seq<Variable>) {
    forall i, j :: 0 <= i < j < |variables| ==> variables[i].name != variables[j].name
  }

  predicate UpperVariableNames(variables: seq<Variable>) {
    forall i :: 0 <= i < |variables| ==> Text.IsUpper(variables[i].name)
  }

  predicate UniqueKeys(values: seq<EnvValue>) {
    forall i, j :: 0 <= i < j < |values| ==> values[i].key != values[j].key
  }

  /** Every stored override belongs to a declared variable. */
  predicate KeysDeclared(values: seq<EnvValue>, variables: seq<Variable>) {
    forall i :: 0 <= i < |values| ==> HasVariable(variables, values[i].key)
  }

  predicate UniqueEnvironmentIds(envs: seq<Environment>) {
    forall i, j :: 0 <= i < j < |envs| ==> envs[i].id != envs[j].id
  }

  predicate UniqueEnvironmentNames(envs: seq<Environment>) {
    forall i, j :: 0 <= i < j < |envs| ==> envs[i].name != envs[j].name
  }

  predicate UpperEnvironmentNames(envs: seq<Environment>) {
    forall i :: 0 <= i < |envs| ==> Text.IsUpper(envs[i].name)
  }

  /** Each environment's overrides have unique keys, all of them declared variables. */
  predicate WellFormedValues(envs: seq<Environment>, variables: seq<Variable>) {
    forall i :: 0 <= i < |envs| ==>
      UniqueKeys(envs[i].values) && KeysDeclared(envs[i].values, variables)
  }

  /** The invariant every options-page operation preserves. */
  predicate Valid(s: Snapshot) {
    && UniqueVariableNames(s.variables)
    && UpperVariableNames(s.variables)
    && UniqueEnvironmentIds(s.environments)
    && UniqueEnvironmentNames(s.environments)
    && UpperEnvironmentNames(s.environments)
    && WellFormedValues(s.environments, s.variables)
  }

  /** Two environment lists with the same ids and names in the same places. */
  predicate SameHeaders(a: seq<Environment>, b: seq<Environment>) {
    |a| == |b| && forall i :: 0 <= i < |a| ==> a[i].id == b[i].id && a[i].name == b[i].name
  }

  /** Changing only the overrides keeps the id and name invariants of the environment list. */
  lemma SameHeadersKeepInvariants(a: seq<Environment>, b: seq<Environment>)
    requires SameHeaders(a, b)
    requires UniqueEnvironmentIds(a) && UniqueEnvironmentNames(a) && UpperEnvironmentNames(a)
    ensures UniqueEnvironmentIds(b) && UniqueEnvironmentNames(b) && UpperEnvironmentNames(b)
  {
    assert forall i :: 0 <= i < |b| ==> b[i].id == a[i].id && b[i].name == a[i].name;
  }
}
