/**
 * The split of sensitive environment variables between the settings file and the secret
 * store: what persisting and materialising compute, loop by loop.
 */
module ProviderSecrets {
  import opened Wrappers
  import opened Sequences
  import opened SecretNames

  datatype Variable = Variable(name: VariableName, value: string, sensitive: bool, valueRedacted: Option<bool>)

  type Environment = seq<Variable>

  /** A provider instance; `other` stands for the fields this code copies unchanged. */
  datatype Instance = Instance(environment: Option<Environment>, other: string)

  /** A record of instances, in key order. */
  type Instances = seq<(InstanceId, Instance)>

  type Secrets = map<string, string>

  predicate IsRedacted(v: Variable) { v.valueRedacted == Some(true) }

  function VariablesOf(instance: Instance): Environment {
    if instance.environment.None? then [] else instance.environment.value
  }

  // ----- One variable -----------------------------------------------------------------

  /** The variable as it is written to the settings file. */
  function PersistedVariable(v: Variable): Variable {
    if !v.sensitive then v.(valueRedacted := None)
    else if IsRedacted(v) || v.value != "" then v.(value := "", valueRedacted := Some(true))
    else v.(valueRedacted := None)
  }

  /** What one variable does to the secret store. */
  function StoreVariable(secrets: Secrets, id: InstanceId, v: Variable): Secrets {
    if !v.sensitive then secrets - {SecretName(id, v.name)}
    else if IsRedacted(v) then secrets
    else if v.value != "" then secrets[SecretName(id, v.name) := v.value]
    else secrets - {SecretName(id, v.name)}
  }

  function SensitiveKey(id: InstanceId, v: Variable): set<string> {
    if v.sensitive then {SecretName(id, v.name)} else {}
  }

  function MaterializedVariable(secrets: Secrets, id: InstanceId, v: Variable): Variable {
    if !v.sensitive || !IsRedacted(v) then v
    else v.(value := if SecretName(id, v.name) in secrets then secrets[SecretName(id, v.name)] else "")
  }

  // ----- One environment ------------------------------------------------------------------

  function PersistedEnvironment(vs: Environment): Environment {
    if vs == [] then [] else PersistedEnvironment(Front(vs)) + [PersistedVariable(Last(vs))]
  }

  function StoreEnvironment(secrets: Secrets, id: InstanceId, vs: Environment): Secrets {
    if vs == [] then secrets else StoreVariable(StoreEnvironment(secrets, id, Front(vs)), id, Last(vs))
  }

  function SensitiveEnvironmentKeys(id: InstanceId, vs: Environment): set<string> {
    if vs == [] then {} else SensitiveEnvironmentKeys(id, Front(vs)) + SensitiveKey(id, Last(vs))
  }

  function MaterializedEnvironment(secrets: Secrets, id: InstanceId, vs: Environment): Environment {
    if vs == [] then []
    else MaterializedEnvironment(secrets, id, Front(vs)) + [MaterializedVariable(secrets, id, Last(vs))]
  }

  // ----- All instances ---------------------------------------------------------------------

  function PersistedInstance(instance: Instance): Instance {
    if instance.environment.None? then instance
    else instance.(environment := Some(PersistedEnvironment(instance.environment.value)))
  }

  function PersistedInstances(instances: Instances): Instances {
    if instances == [] then []
    else PersistedInstances(Front(instances)) + [(Last(instances).0, PersistedInstance(Last(instances).1))]
  }

  function StoreInstances(secrets: Secrets, instances: Instances): Secrets {
    if instances == [] then secrets
    else StoreEnvironment(StoreInstances(secrets, Front(instances)), Last(instances).0, VariablesOf(Last(instances).1))
  }

  function SensitiveKeys(instances: Instances): set<string> {
    if instances == [] then {}
    else SensitiveKeys(Front(instances)) + SensitiveEnvironmentKeys(Last(instances).0, VariablesOf(Last(instances).1))
  }

  function MaterializedInstance(secrets: Secrets, id: InstanceId, instance: Instance): Instance {
    if instance.environment.None? then instance
    else instance.(environment := Some(MaterializedEnvironment(secrets, id, instance.environment.value)))
  }

  function MaterializedInstances(secrets: Secrets, instances: Instances): Instances {
    if instances == [] then []
    else
      var (id, instance) := Last(instances);
      MaterializedInstances(secrets, Front(instances)) + [(id, MaterializedInstance(secrets, id, instance))]
  }

  /** The store once `next` has replaced `current`. */
  function StoreAfter(secrets: Secrets, current: Instances, next: Instances): Secrets {
    StoreInstances(secrets, next) - (SensitiveKeys(current) - SensitiveKeys(next))
  }

  // ----- The service ------------------------------------------------------------------

  class SettingsService {
    var secrets: Secrets
    var current: Instances

    /** No secret is kept but those of the current sensitive variables. */
    ghost predicate Valid()
      reads this
    {
      secrets.Keys <= SensitiveKeys(current)
    }

    constructor ()
      ensures Valid() && secrets == map[] && current == []
    {
      secrets, current := map[], [];
    }

    method PersistEnvironment(id: InstanceId, variables: Environment) returns (environment: Environment, keys: set<string>)
      modifies this`secrets
      ensures environment == PersistedEnvironment(variables)
      ensures keys == SensitiveEnvironmentKeys(id, variables)
      ensures secrets == StoreEnvironment(old(secrets), id, variables)
    {
      environment, keys := [], {};
      for i := 0 to |variables|
        invariant environment == PersistedEnvironment(variables[..i])
        invariant keys == SensitiveEnvironmentKeys(id, variables[..i])
        invariant secrets == StoreEnvironment(old(secrets), id, variables[..i])
      {
        var variable := variables[i];
        var secretName := SecretName(id, variable.name);
        assert Front(variables[..i + 1]) == variables[..i] && Last(variables[..i + 1]) == variable;
        if !variable.sensitive {
          secrets := secrets - {secretName};
          environment := environment + [variable.(valueRedacted := None)];
          continue;
        }
        keys := keys + {secretName};
        if !IsRedacted(variable) {
          if |variable.value| > 0 {
            secrets := secrets[secretName := variable.value];
            environment := environment + [variable.(value := "", valueRedacted := Some(true))];
          } else {
            secrets := secrets - {secretName};
            environment := environment + [variable.(valueRedacted := None)];
          }
          continue;
        }
        environment := environment + [variable.(value := "", valueRedacted := Some(true))];
      }
      assert variables[..|variables|] == variables;
    }

    /** Moves sensitive values into the store and returns what is written to the file. */
    method Persist(next: Instances) returns (persisted: Instances)
      modifies this`secrets
      ensures persisted == PersistedInstances(next)
      ensures secrets == StoreAfter(old(secrets), current, next)
    {
      persisted := [];
      var nextSecretKeys: set<string> := {};
      for i := 0 to |next|
        invariant persisted == PersistedInstances(next[..i])
        invariant nextSecretKeys == SensitiveKeys(next[..i])
        invariant secrets == StoreInstances(old(secrets), next[..i])
      {
        var (id, instance) := next[i];
        assert Front(next[..i + 1]) == next[..i] && Last(next[..i + 1]) == next[i];
        if instance.environment.None? {
          persisted := persisted + [(id, instance)];
          continue;
        }
        var environment, keys := PersistEnvironment(id, instance.environment.value);
        nextSecretKeys := nextSecretKeys + keys;
        persisted := persisted + [(id, instance.(environment := Some(environment)))];
      }
      assert next[..|next|] == next;
      RemoveStale(nextSecretKeys);
    }

    /** Removes the secrets of current sensitive variables that the next settings do not have. */
    method RemoveStale(nextSecretKeys: set<string>)
      modifies this`secrets
      ensures secrets == old(secrets) - (SensitiveKeys(current) - nextSecretKeys)
    {
      for i := 0 to |current|
        invariant secrets == old(secrets) - (SensitiveKeys(current[..i]) - nextSecretKeys)
      {
        var (id, instance) := current[i];
        assert Front(current[..i + 1]) == current[..i] && Last(current[..i + 1]) == current[i];
        RemoveStaleFrom(id, VariablesOf(instance), nextSecretKeys);
      }
      assert current[..|current|] == current;
    }

    method RemoveStaleFrom(id: InstanceId, variables: Environment, nextSecretKeys: set<string>)
      modifies this`secrets
      ensures secrets == old(secrets) - (SensitiveEnvironmentKeys(id, variables) - nextSecretKeys)
    {
      for j := 0 to |variables|
        invariant secrets == old(secrets) - (SensitiveEnvironmentKeys(id, variables[..j]) - nextSecretKeys)
      {
        var variable := variables[j];
        assert Front(variables[..j + 1]) == variables[..j] && Last(variables[..j + 1]) == variable;
        if !variable.sensitive {
          continue;
        }
        var secretName := SecretName(id, variable.name);
        if secretName in nextSecretKeys {
          continue;
        }
        secrets := secrets - {secretName};
      }
      assert variables[..|variables|] == variables;
    }

    /** The settings with the values of redacted variables read back from the store. */
    method Materialize(instances: Instances) returns (r: Instances)
      ensures r == MaterializedInstances(secrets, instances)
    {
      r := [];
      for i := 0 to |instances|
        invariant r == MaterializedInstances(secrets, instances[..i])
      {
        var (id, instance) := instances[i];
        assert Front(instances[..i + 1]) == instances[..i] && Last(instances[..i + 1]) == instances[i];
        if instance.environment.None? {
          r := r + [(id, instance)];
          continue;
        }
        var environment := MaterializeEnvironment(id, instance.environment.value);
        r := r + [(id, instance.(environment := Some(environment)))];
      }
      assert instances[..|instances|] == instances;
    }

    method MaterializeEnvironment(id: InstanceId, variables: Environment) returns (environment: Environment)
      ensures environment == MaterializedEnvironment(secrets, id, variables)
    {
      environment := [];
      for j := 0 to |variables|
        invariant environment == MaterializedEnvironment(secrets, id, variables[..j])
      {
        var variable := variables[j];
        assert Front(variables[..j + 1]) == variables[..j] && Last(variables[..j + 1]) == variable;
        if !variable.sensitive || !IsRedacted(variable) {
          environment := environment + [variable];
          continue;
        }
        var secretName := SecretName(id, variable.name);
        environment := environment + [variable.(value := if secretName in secrets then secrets[secretName] else "")];
      }
      assert variables[..|variables|] == variables;
    }

    /** One settings update; the returned settings have their secrets filled in. */
    method UpdateSettings(next: Instances) returns (r: Instances)
      requires Valid()
      modifies this
      ensures Valid()
      ensures current == PersistedInstances(next) && secrets == StoreAfter(old(secrets), old(current), next)
      ensures r == MaterializedInstances(secrets, current)
    {
      var persisted := Persist(next);
      NoStraySecrets(old(secrets), old(current), next);
      current := persisted;
      r := Materialize(persisted);
    }
  }

  // ----- No secret outlives its variable ------------------------------------------------

  lemma {:induction false} EnvironmentKeysBound(secrets: Secrets, id: InstanceId, vs: Environment)
    ensures StoreEnvironment(secrets, id, vs).Keys <= secrets.Keys + SensitiveEnvironmentKeys(id, vs)
  {
    if vs != [] {
      EnvironmentKeysBound(secrets, id, Front(vs));
    }
  }

  lemma {:induction false} InstanceKeysBound(secrets: Secrets, instances: Instances)
    ensures StoreInstances(secrets, instances).Keys <= secrets.Keys + SensitiveKeys(instances)
  {
    if instances != [] {
      var front, last := Front(instances), Last(instances);
      InstanceKeysBound(secrets, front);
      EnvironmentKeysBound(StoreInstances(secrets, front), last.0, VariablesOf(last.1));
    }
  }

  lemma {:induction false} PersistingKeepsKeys(instances: Instances)
    ensures SensitiveKeys(PersistedInstances(instances)) == SensitiveKeys(instances)
  {
    if instances != [] {
      PersistingKeepsKeys(Front(instances));
      PersistingKeepsEnvironmentKeys(Last(instances).0, VariablesOf(Last(instances).1));
      assert Front(PersistedInstances(instances)) == PersistedInstances(Front(instances));
    }
  }

  lemma {:induction false} PersistingKeepsEnvironmentKeys(id: InstanceId, vs: Environment)
    ensures SensitiveEnvironmentKeys(id, PersistedEnvironment(vs)) == SensitiveEnvironmentKeys(id, vs)
  {
    if vs != [] {
      PersistingKeepsEnvironmentKeys(id, Front(vs));
      assert Front(PersistedEnvironment(vs)) == PersistedEnvironment(Front(vs));
    }
  }

  /** An update keeps the store within the sensitive variables, whatever the next settings are. */
  lemma NoStraySecrets(secrets: Secrets, current: Instances, next: Instances)
    requires secrets.Keys <= SensitiveKeys(current)
    ensures StoreAfter(secrets, current, next).Keys <= SensitiveKeys(PersistedInstances(next))
  {
    InstanceKeysBound(secrets, next);
    PersistingKeepsKeys(next);
  }

  /** The store and the settings file after a run of updates. */
  function AfterUpdates(secrets: Secrets, current: Instances, updates: seq<Instances>): (Secrets, Instances)
    decreases |updates|
  {
    if updates == [] then (secrets, current)
    else AfterUpdates(StoreAfter(secrets, current, updates[0]), PersistedInstances(updates[0]), updates[1..])
  }

  /** `name` is a sensitive variable of instance `id`. */
  ghost predicate IsSensitive(instances: Instances, id: InstanceId, name: VariableName) {
    exists i, j | 0 <= i < |instances| && 0 <= j < |VariablesOf(instances[i].1)| ::
      instances[i].0 == id && VariablesOf(instances[i].1)[j].name == name && VariablesOf(instances[i].1)[j].sensitive
  }

  lemma {:induction false} EnvironmentKeyOf(id: InstanceId, vs: Environment, key: string) returns (j: nat)
    requires key in SensitiveEnvironmentKeys(id, vs)
    ensures j < |vs| && vs[j].sensitive && SecretName(id, vs[j].name) == key
  {
    if key in SensitiveKey(id, Last(vs)) {
      j := |vs| - 1;
    } else {
      j := EnvironmentKeyOf(id, Front(vs), key);
    }
  }

  lemma {:induction false} InstanceKeyOf(instances: Instances, key: string) returns (i: nat, j: nat)
    requires key in SensitiveKeys(instances)
    ensures i < |instances| && j < |VariablesOf(instances[i].1)| && VariablesOf(instances[i].1)[j].sensitive
    ensures SecretName(instances[i].0, VariablesOf(instances[i].1)[j].name) == key
  {
    var last := Last(instances);
    if key in SensitiveEnvironmentKeys(last.0, VariablesOf(last.1)) {
      i := |instances| - 1;
      j := EnvironmentKeyOf(last.0, VariablesOf(last.1), key);
    } else {
      i, j := InstanceKeyOf(Front(instances), key);
    }
  }

  /**
   * After any run of updates, starting with nothing stored, a variable has a secret only while
   * the current settings hold it as sensitive: secrets cannot be confused between variables.
   */
  lemma {:induction false} SecretsAreCurrent(secrets: Secrets, current: Instances, updates: seq<Instances>,
                                             id: InstanceId, name: VariableName)
    requires secrets.Keys <= SensitiveKeys(current)
    requires SecretName(id, name) in AfterUpdates(secrets, current, updates).0
    ensures IsSensitive(AfterUpdates(secrets, current, updates).1, id, name)
    decreases |updates|
  {
    if updates == [] {
      var i, j := InstanceKeyOf(current, SecretName(id, name));
      SecretNameInjective(current[i].0, VariablesOf(current[i].1)[j].name, id, name);
    } else {
      NoStraySecrets(secrets, current, updates[0]);
      SecretsAreCurrent(StoreAfter(secrets, current, updates[0]), PersistedInstances(updates[0]), updates[1..], id, name);
    }
  }

  // ----- What an update returns -------------------------------------------------------------

  /** Instance ids and, inside an instance, variable names occur once. */
  predicate UniqueNames(instances: Instances) {
    && (forall i, j | 0 <= i < j < |instances| :: instances[i].0 != instances[j].0)
    && (forall i | 0 <= i < |instances| :: UniqueInEnvironment(VariablesOf(instances[i].1)))
  }

  predicate UniqueInEnvironment(vs: Environment) {
    forall i, j | 0 <= i < j < |vs| :: vs[i].name != vs[j].name
  }

  function Lookup(secrets: Secrets, id: InstanceId, name: VariableName): Option<string> {
    if SecretName(id, name) in secrets then Some(secrets[SecretName(id, name)]) else None
  }

  /** A variable only touches its own secret. */
  lemma OthersUntouched(secrets: Secrets, id: InstanceId, v: Variable, id': InstanceId, name: VariableName)
    requires id != id' || v.name != name
    ensures Lookup(StoreVariable(secrets, id, v), id', name) == Lookup(secrets, id', name)
  {
    if SecretName(id, v.name) == SecretName(id', name) {
      SecretNameInjective(id, v.name, id', name);
    }
  }

  lemma {:induction false} EnvironmentLeaves(secrets: Secrets, id: InstanceId, vs: Environment, id': InstanceId,
                                             name: VariableName)
    requires id != id' || forall v | v in vs :: v.name != name
    ensures Lookup(StoreEnvironment(secrets, id, vs), id', name) == Lookup(secrets, id', name)
  {
    if vs != [] {
      assert Last(vs) in vs && forall v | v in Front(vs) :: v in vs;
      EnvironmentLeaves(secrets, id, Front(vs), id', name);
      OthersUntouched(StoreEnvironment(secrets, id, Front(vs)), id, Last(vs), id', name);
    }
  }

  lemma {:induction false} InstancesLeave(secrets: Secrets, instances: Instances, id: InstanceId, name: VariableName)
    requires forall i | 0 <= i < |instances| :: instances[i].0 != id
    ensures Lookup(StoreInstances(secrets, instances), id, name) == Lookup(secrets, id, name)
  {
    if instances != [] {
      InstancesLeave(secrets, Front(instances), id, name);
      var last := Last(instances);
      EnvironmentLeaves(StoreInstances(secrets, Front(instances)), last.0, VariablesOf(last.1), id, name);
    }
  }

  /** The secret a variable ends up with: the new value, the old secret when redacted, or none. */
  function NewSecret(v: Variable, before: Option<string>): Option<string> {
    if !v.sensitive then None
    else if IsRedacted(v) then before
    else if v.value != "" then Some(v.value)
    else None
  }

  lemma {:induction false} EnvironmentStores(secrets: Secrets, id: InstanceId, vs: Environment, j: nat)
    requires j < |vs| && UniqueInEnvironment(vs)
    ensures Lookup(StoreEnvironment(secrets, id, vs), id, vs[j].name) == NewSecret(vs[j], Lookup(secrets, id, vs[j].name))
  {
    if j == |vs| - 1 {
      forall v | v in Front(vs) ensures v.name != vs[j].name {
        var i :| 0 <= i < |Front(vs)| && Front(vs)[i] == v;
        assert vs[i] == v;
      }
      EnvironmentLeaves(secrets, id, Front(vs), id, vs[j].name);
    } else {
      EnvironmentStores(secrets, id, Front(vs), j);
      OthersUntouched(StoreEnvironment(secrets, id, Front(vs)), id, Last(vs), id, vs[j].name);
    }
  }

  lemma UniqueFront(instances: Instances, i: nat)
    requires UniqueNames(instances) && i < |instances|
    ensures UniqueNames(Front(instances)) && UniqueInEnvironment(VariablesOf(instances[i].1))
    ensures forall k | 0 <= k < |instances| && k != i :: instances[k].0 != instances[i].0
  {
  }

  lemma {:induction false} InstancesStore(secrets: Secrets, instances: Instances, i: nat, j: nat)
    requires UniqueNames(instances) && i < |instances| && j < |VariablesOf(instances[i].1)|
    ensures var v := VariablesOf(instances[i].1)[j];
      Lookup(StoreInstances(secrets, instances), instances[i].0, v.name)
      == NewSecret(v, Lookup(secrets, instances[i].0, v.name))
  {
    hide StoreEnvironment, UniqueNames, NewSecret, Lookup;
    var front, last := Front(instances), Last(instances);
    UniqueFront(instances, i);
    var id, v := instances[i].0, VariablesOf(instances[i].1)[j];
    if i == |instances| - 1 {
      InstancesLeave(secrets, front, id, v.name);
      EnvironmentStores(StoreInstances(secrets, front), id, VariablesOf(last.1), j);
    } else {
      InstancesStore(secrets, front, i, j);
      EnvironmentLeaves(StoreInstances(secrets, front), last.0, VariablesOf(last.1), id, v.name);
    }
  }

  lemma {:induction false} SensitiveKeyIn(instances: Instances, i: nat, j: nat)
    requires i < |instances| && j < |VariablesOf(instances[i].1)| && VariablesOf(instances[i].1)[j].sensitive
    ensures SecretName(instances[i].0, VariablesOf(instances[i].1)[j].name) in SensitiveKeys(instances)
  {
    if i == |instances| - 1 {
      SensitiveEnvironmentKeyIn(instances[i].0, VariablesOf(instances[i].1), j);
    } else {
      SensitiveKeyIn(Front(instances), i, j);
    }
  }

  lemma {:induction false} SensitiveEnvironmentKeyIn(id: InstanceId, vs: Environment, j: nat)
    requires j < |vs| && vs[j].sensitive
    ensures SecretName(id, vs[j].name) in SensitiveEnvironmentKeys(id, vs)
  {
    if j < |vs| - 1 {
      SensitiveEnvironmentKeyIn(id, Front(vs), j);
    }
  }

  lemma {:induction false} EnvironmentAt(secrets: Secrets, id: InstanceId, vs: Environment, j: nat)
    requires j < |vs|
    ensures |PersistedEnvironment(vs)| == |MaterializedEnvironment(secrets, id, vs)| == |vs|
    ensures PersistedEnvironment(vs)[j] == PersistedVariable(vs[j])
    ensures MaterializedEnvironment(secrets, id, vs)[j] == MaterializedVariable(secrets, id, vs[j])
  {
    EnvironmentLengths(secrets, id, Front(vs));
    if j < |vs| - 1 {
      EnvironmentAt(secrets, id, Front(vs), j);
    }
  }

  lemma {:induction false} EnvironmentLengths(secrets: Secrets, id: InstanceId, vs: Environment)
    ensures |PersistedEnvironment(vs)| == |MaterializedEnvironment(secrets, id, vs)| == |vs|
  {
    if vs != [] {
      EnvironmentLengths(secrets, id, Front(vs));
    }
  }

  lemma {:induction false} InstanceLengths(secrets: Secrets, instances: Instances)
    ensures |PersistedInstances(instances)| == |MaterializedInstances(secrets, instances)| == |instances|
  {
    if instances != [] {
      InstanceLengths(secrets, Front(instances));
    }
  }

  lemma {:induction false} InstanceAt(secrets: Secrets, instances: Instances, i: nat)
    requires i < |instances|
    ensures |PersistedInstances(instances)| == |MaterializedInstances(secrets, instances)| == |instances|
    ensures PersistedInstances(instances)[i] == (instances[i].0, PersistedInstance(instances[i].1))
    ensures MaterializedInstances(secrets, instances)[i]
         == (instances[i].0, MaterializedInstance(secrets, instances[i].0, instances[i].1))
  {
    InstanceLengths(secrets, Front(instances));
    if i < |instances| - 1 {
      InstanceAt(secrets, Front(instances), i);
    }
  }

  /** No sensitive variable of the settings has a value in them. */
  ghost predicate HoldsNoSecret(instances: Instances) {
    forall i, j | 0 <= i < |instances| && 0 <= j < |VariablesOf(instances[i].1)| ::
      VariablesOf(instances[i].1)[j].sensitive ==> VariablesOf(instances[i].1)[j].value == ""
  }

  /** What an update writes to the file holds no sensitive value, whatever the next settings are. */
  lemma PersistedHoldsNoSecret(next: Instances)
    ensures HoldsNoSecret(PersistedInstances(next))
  {
    var persisted := PersistedInstances(next);
    InstanceLengths(map[], next);
    forall i, j | 0 <= i < |persisted| && 0 <= j < |VariablesOf(persisted[i].1)|
      ensures VariablesOf(persisted[i].1)[j].sensitive ==> VariablesOf(persisted[i].1)[j].value == ""
    {
      InstanceAt(map[], next, i);
      EnvironmentLengths(map[], next[i].0, VariablesOf(next[i].1));
      EnvironmentAt(map[], next[i].0, VariablesOf(next[i].1), j);
    }
  }

  /** In every run of updates the settings file never holds a sensitive value. */
  lemma {:induction false} FileHoldsNoSecret(secrets: Secrets, current: Instances, updates: seq<Instances>)
    requires HoldsNoSecret(current)
    ensures HoldsNoSecret(AfterUpdates(secrets, current, updates).1)
    decreases |updates|
  {
    if updates != [] {
      PersistedHoldsNoSecret(updates[0]);
      FileHoldsNoSecret(StoreAfter(secrets, current, updates[0]), PersistedInstances(updates[0]), updates[1..]);
    }
  }

  /**
   * With unique names, the settings returned by an update hold each value supplied and, for a
   * redacted variable, the secret stored before.
   */
  lemma UpdateReturns(secrets: Secrets, current: Instances, next: Instances, i: nat, j: nat)
    requires UniqueNames(next) && i < |next| && j < |VariablesOf(next[i].1)|
    ensures var persisted := PersistedInstances(next);
      var returned := MaterializedInstances(StoreAfter(secrets, current, next), persisted);
      && |persisted| == |returned| == |next|
      && |VariablesOf(persisted[i].1)| == |VariablesOf(returned[i].1)| == |VariablesOf(next[i].1)|
      && var v, p, r := VariablesOf(next[i].1)[j], VariablesOf(persisted[i].1)[j], VariablesOf(returned[i].1)[j];
      && p.name == r.name == v.name && p.sensitive == r.sensitive == v.sensitive
      && (v.sensitive ==> p.value == "")
      && r.value == if v.sensitive && IsRedacted(v)
                    then (match Lookup(secrets, next[i].0, v.name) case Some(secret) => secret case None => "")
                    else v.value
  {
    var store, persisted := StoreAfter(secrets, current, next), PersistedInstances(next);
    var id, vs := next[i].0, VariablesOf(next[i].1);
    InstanceAt(store, next, i);
    InstanceAt(store, persisted, i);
    EnvironmentAt(store, id, vs, j);
    EnvironmentAt(store, id, PersistedEnvironment(vs), j);
    InstancesStore(secrets, next, i, j);
    if vs[j].sensitive {
      SensitiveKeyIn(next, i, j);
      assert Lookup(store, id, vs[j].name) == Lookup(StoreInstances(secrets, next), id, vs[j].name);
    }
  }

  /** Whatever is updated, everything but values and redaction flags is kept; the flags are those of what is stored. */
  lemma RestIsKept(secrets: Secrets, current: Instances, next: Instances, i: nat)
    requires i < |next|
    ensures var persisted := PersistedInstances(next);
      var returned := MaterializedInstances(StoreAfter(secrets, current, next), persisted);
      && |persisted| == |returned| == |next|
      && persisted[i].0 == returned[i].0 == next[i].0
      && persisted[i].1.other == returned[i].1.other == next[i].1.other
      && (persisted[i].1.environment.Some? <==> next[i].1.environment.Some?)
      && (returned[i].1.environment.Some? <==> next[i].1.environment.Some?)
      && |VariablesOf(persisted[i].1)| == |VariablesOf(returned[i].1)| == |VariablesOf(next[i].1)|
      && forall j | 0 <= j < |VariablesOf(next[i].1)| ::
           var v, p, r := VariablesOf(next[i].1)[j], VariablesOf(persisted[i].1)[j], VariablesOf(returned[i].1)[j];
           && p.name == r.name == v.name && p.sensitive == r.sensitive == v.sensitive
           && (!v.sensitive ==> p == r == Variable(v.name, v.value, false, None))
           && (v.sensitive && (IsRedacted(v) || v.value != "") ==> p.valueRedacted == r.valueRedacted == Some(true))
           && (v.sensitive && !IsRedacted(v) && v.value == "" ==> p == r == Variable(v.name, "", true, None))
  {
    hide StoreAfter, PersistedEnvironment, MaterializedEnvironment, PersistedInstances, MaterializedInstances;
    var store, persisted := StoreAfter(secrets, current, next), PersistedInstances(next);
    var id, vs := next[i].0, VariablesOf(next[i].1);
    InstanceAt(store, next, i);
    InstanceAt(store, persisted, i);
    EnvironmentLengths(store, id, vs);
    EnvironmentLengths(store, id, PersistedEnvironment(vs));
    forall j | 0 <= j < |vs|
      ensures PersistedEnvironment(vs)[j] == PersistedVariable(vs[j])
      ensures MaterializedEnvironment(store, id, PersistedEnvironment(vs))[j]
           == MaterializedVariable(store, id, PersistedVariable(vs[j]))
    {
      EnvironmentAt(store, id, vs, j);
      EnvironmentAt(store, id, PersistedEnvironment(vs), j);
    }
  }

  // ----- Repeated names ---------------------------------------------------------------------

  /** The last variable of this name that is not a redacted sensitive one: it decides what is stored. */
  function Effective(vs: Environment, name: VariableName): Option<Variable> {
    if vs == [] then None
    else if Last(vs).name == name && !(Last(vs).sensitive && IsRedacted(Last(vs))) then Some(Last(vs))
    else Effective(Front(vs), name)
  }

  function SecretLeft(effective: Option<Variable>, before: Option<string>): Option<string> {
    match effective
    case None => before
    case Some(v) => if v.sensitive && v.value != "" then Some(v.value) else None
  }

  lemma {:induction false} EnvironmentSecret(secrets: Secrets, id: InstanceId, vs: Environment, name: VariableName)
    ensures Lookup(StoreEnvironment(secrets, id, vs), id, name) == SecretLeft(Effective(vs, name), Lookup(secrets, id, name))
  {
    if vs != [] {
      EnvironmentSecret(secrets, id, Front(vs), name);
      if Last(vs).name != name {
        OthersUntouched(StoreEnvironment(secrets, id, Front(vs)), id, Last(vs), id, name);
      }
    }
  }

  lemma {:induction false} InstancesSecret(secrets: Secrets, instances: Instances, i: nat, name: VariableName)
    requires i < |instances| && forall k, l | 0 <= k < l < |instances| :: instances[k].0 != instances[l].0
    ensures Lookup(StoreInstances(secrets, instances), instances[i].0, name)
         == SecretLeft(Effective(VariablesOf(instances[i].1), name), Lookup(secrets, instances[i].0, name))
  {
    hide StoreEnvironment, Lookup, Effective, SecretLeft;
    var front, last := Front(instances), Last(instances);
    if i == |instances| - 1 {
      InstancesLeave(secrets, front, last.0, name);
      EnvironmentSecret(StoreInstances(secrets, front), last.0, VariablesOf(last.1), name);
    } else {
      InstancesSecret(secrets, front, i, name);
      EnvironmentLeaves(StoreInstances(secrets, front), last.0, VariablesOf(last.1), instances[i].0, name);
    }
  }

  /**
   * Whether or not names repeat, a newly supplied sensitive value is returned exactly when the
   * last variable of its name that is not redacted is sensitive and holds the same value.
   */
  lemma SuppliedIsReturnedExactly(secrets: Secrets, current: Instances, next: Instances, i: nat, j: nat)
    requires forall k, l | 0 <= k < l < |next| :: next[k].0 != next[l].0
    requires i < |next| && j < |VariablesOf(next[i].1)|
    requires var v := VariablesOf(next[i].1)[j]; v.sensitive && !IsRedacted(v) && v.value != ""
    ensures var returned := MaterializedInstances(StoreAfter(secrets, current, next), PersistedInstances(next));
      var v := VariablesOf(next[i].1)[j];
      && |returned| == |next| && |VariablesOf(returned[i].1)| == |VariablesOf(next[i].1)|
      && (VariablesOf(returned[i].1)[j].value == v.value <==>
            var decisive := Effective(VariablesOf(next[i].1), v.name);
            decisive.Some? && decisive.value.sensitive && decisive.value.value == v.value)
  {
    var store, persisted := StoreAfter(secrets, current, next), PersistedInstances(next);
    var id, vs := next[i].0, VariablesOf(next[i].1);
    InstanceAt(store, next, i);
    InstanceAt(store, persisted, i);
    EnvironmentAt(store, id, vs, j);
    EnvironmentAt(store, id, PersistedEnvironment(vs), j);
    SensitiveKeyIn(next, i, j);
    InstancesSecret(secrets, next, i, vs[j].name);
    assert Lookup(store, id, vs[j].name) == Lookup(StoreInstances(secrets, next), id, vs[j].name);
    EffectiveExists(vs, j);
  }

  lemma {:induction false} EffectiveExists(vs: Environment, j: nat)
    requires j < |vs| && !(vs[j].sensitive && IsRedacted(vs[j]))
    ensures Effective(vs, vs[j].name).Some?
  {
    if j < |vs| - 1 {
      EffectiveExists(Front(vs), j);
    }
  }

  /** The settings have `name` as a sensitive variable of instance `id`, and give it no new value. */
  ghost predicate KeepsRedacted(instances: Instances, id: InstanceId, name: VariableName) {
    exists i, j | 0 <= i < |instances| && 0 <= j < |VariablesOf(instances[i].1)| ::
      && instances[i].0 == id
      && VariablesOf(instances[i].1)[j].name == name && VariablesOf(instances[i].1)[j].sensitive
      && Effective(VariablesOf(instances[i].1), name).None?
  }

  predicate DistinctIds(instances: Instances) {
    forall k, l | 0 <= k < l < |instances| :: instances[k].0 != instances[l].0
  }

  /** A secret survives every run of updates that send its variable back redacted, whatever else they change. */
  lemma {:induction false} RedactedSecretSurvives(secrets: Secrets, current: Instances, updates: seq<Instances>,
                                                  id: InstanceId, name: VariableName)
    requires forall next | next in updates :: DistinctIds(next) && KeepsRedacted(next, id, name)
    ensures Lookup(AfterUpdates(secrets, current, updates).0, id, name) == Lookup(secrets, id, name)
    decreases |updates|
  {
    if updates != [] {
      var next := updates[0];
      assert next in updates && forall later | later in updates[1..] :: later in updates;
      SecretKept(secrets, current, next, id, name);
      RedactedSecretSurvives(StoreAfter(secrets, current, next), PersistedInstances(next), updates[1..], id, name);
    }
  }

  lemma SecretKept(secrets: Secrets, current: Instances, next: Instances, id: InstanceId, name: VariableName)
    requires DistinctIds(next) && KeepsRedacted(next, id, name)
    ensures Lookup(StoreAfter(secrets, current, next), id, name) == Lookup(secrets, id, name)
  {
    var i, j :| 0 <= i < |next| && 0 <= j < |VariablesOf(next[i].1)|
      && next[i].0 == id
      && VariablesOf(next[i].1)[j].name == name && VariablesOf(next[i].1)[j].sensitive
      && Effective(VariablesOf(next[i].1), name).None?;
    InstancesSecret(secrets, next, i, name);
    SensitiveKeyIn(next, i, j);
  }

  /** Without unique names the claim fails: a later plain variable of the same name drops the value supplied. */
  lemma DuplicateNamesLoseValue(secrets: Secrets, id: InstanceId, name: VariableName, x: string, y: string, other: string)
    requires x != ""
    ensures var next := [(id, Instance(Some([Variable(name, x, true, None), Variable(name, y, false, None)]), other))];
      var returned := MaterializedInstances(StoreAfter(secrets, [], next), PersistedInstances(next));
      |returned| == 1 && VariablesOf(returned[0].1) == [Variable(name, "", true, Some(true)), Variable(name, y, false, None)]
  {
    var v, w := Variable(name, x, true, None), Variable(name, y, false, None);
    var next := [(id, Instance(Some([v, w]), other))];
    var store := StoreAfter(secrets, [], next);
    assert Front([v, w]) == [v] && Front([v]) == [] && Front(next) == [];
    assert StoreEnvironment(secrets, id, [v]) == StoreVariable(secrets, id, v);
    assert StoreEnvironment(secrets, id, [v, w]) == StoreVariable(StoreVariable(secrets, id, v), id, w);
    assert StoreInstances(secrets, next) == StoreEnvironment(secrets, id, [v, w]);
    InstanceAt(store, next, 0);
    InstanceAt(store, PersistedInstances(next), 0);
    EnvironmentAt(store, id, [v, w], 0);
    EnvironmentAt(store, id, [v, w], 1);
    EnvironmentAt(store, id, PersistedEnvironment([v, w]), 0);
    EnvironmentAt(store, id, PersistedEnvironment([v, w]), 1);
  }
}
