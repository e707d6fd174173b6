/**
 * The start-up step that merges missing default rules into the user's configuration. The
 * default rules are a parameter; so is the test for a shared context, except at the entry point.
 */
module KeybindingSync {
  import opened Wrappers
  import opened Shortcuts
  import ShortcutContexts

  /** MAX_KEYBINDINGS_COUNT. */
  const MAX_COUNT: nat := 256

  type SameContext = (Rule, Rule) -> bool

  predicate HasCommand(config: seq<Rule>, command: string) {
    exists rule | rule in config :: rule.command == command
  }

  /** Some rule of the configuration, searched in order, already uses the rule's context. */
  predicate Blocked(config: seq<Rule>, rule: Rule, same: SameContext) {
    config != [] && (same(config[0], rule) || Blocked(config[1..], rule, same))
  }

  lemma {:induction false} StillBlocked(config: seq<Rule>, more: seq<Rule>, rule: Rule, same: SameContext)
    requires Blocked(config, rule, same)
    ensures Blocked(config + more, rule, same)
  {
    if !same(config[0], rule) {
      StillBlocked(config[1..], more, rule, same);
    }
    assert (config + more)[1..] == config[1..] + more;
  }

  /** The default rules whose command is missing and whose context is free, in order. */
  function MissingDefaults(custom: seq<Rule>, defaults: seq<Rule>, same: SameContext): seq<Rule> {
    if defaults == [] then []
    else
      var rest := MissingDefaults(custom, defaults[1..], same);
      if HasCommand(custom, defaults[0].command) || Blocked(custom, defaults[0], same) then rest
      else [defaults[0]] + rest
  }

  function Capped(config: seq<Rule>): seq<Rule> {
    if |config| > MAX_COUNT then config[|config| - MAX_COUNT..] else config
  }

  /** The configuration on disk after start-up. */
  function SyncedConfig(custom: seq<Rule>, defaults: seq<Rule>, same: SameContext): seq<Rule> {
    var missing := MissingDefaults(custom, defaults, same);
    if missing == [] then custom else Capped(custom + missing)
  }

  /** What is on disk: no file, a file with unusable entries, or a list of rules. */
  datatype Stored = Absent | WithIssues | Rules(rules: seq<Rule>)

  /** The rules written at start-up, or None when the file is left alone. */
  method SyncDefaultKeybindingsOnStartup(stored: Stored, defaults: seq<Rule>) returns (written: Option<seq<Rule>>)
    ensures stored.Absent? ==> written == Some(defaults)
    ensures stored.WithIssues? ==> written == None
    ensures stored.Rules? ==>
      (if written.None? then stored.rules else written.value)
      == SyncedConfig(stored.rules, defaults, ShortcutContexts.HasSameShortcutContext)
    ensures stored.Rules? && written.Some? ==>
      var missing := MissingDefaults(stored.rules, defaults, ShortcutContexts.HasSameShortcutContext);
      var surplus := |stored.rules| + |missing| - MAX_COUNT;
      && (surplus <= 0 ==> written.value == stored.rules + missing)
      && (0 < surplus <= |stored.rules| ==> written.value == stored.rules[surplus..] + missing)
      && (surplus > |stored.rules| ==> written.value == missing[surplus - |stored.rules|..])
  {
    hide ShortcutContexts.HasSameShortcutContext, MissingDefaults, Capped, HasCommand, Blocked;
    written := SyncDefaults(stored, defaults, ShortcutContexts.HasSameShortcutContext);
    if stored.Rules? {
      OldestGoFirst(stored.rules, MissingDefaults(stored.rules, defaults, ShortcutContexts.HasSameShortcutContext));
    }
  }

  /** The cap takes away the oldest rules. */
  lemma OldestGoFirst(custom: seq<Rule>, missing: seq<Rule>)
    ensures var surplus := |custom| + |missing| - MAX_COUNT;
      && (surplus <= 0 ==> Capped(custom + missing) == custom + missing)
      && (0 < surplus <= |custom| ==> Capped(custom + missing) == custom[surplus..] + missing)
      && (surplus > |custom| ==> Capped(custom + missing) == missing[surplus - |custom|..])
  {
  }

  method SyncDefaults(stored: Stored, defaults: seq<Rule>, same: SameContext) returns (written: Option<seq<Rule>>)
    ensures stored.Absent? ==> written == Some(defaults)
    ensures stored.WithIssues? ==> written == None
    ensures stored.Rules? ==>
      && (if written.None? then stored.rules else written.value) == SyncedConfig(stored.rules, defaults, same)
      && (written.None? <==> MissingDefaults(stored.rules, defaults, same) == [])
  {
    if stored.Absent? {
      return Some(defaults);
    }
    if stored.WithIssues? {
      return None;
    }
    var customConfig := stored.rules;
    var existingCommands := set rule | rule in customConfig :: rule.command;
    var missingDefaults: seq<Rule> := [];
    var shortcutConflictWarnings: seq<Rule> := [];
    assert defaults[0..] == defaults;
    for i := 0 to |defaults|
      invariant missingDefaults + MissingDefaults(customConfig, defaults[i..], same)
             == MissingDefaults(customConfig, defaults, same)
    {
      var defaultRule := defaults[i];
      assert defaults[i..][1..] == defaults[i + 1..];
      assert defaultRule.command in existingCommands <==> HasCommand(customConfig, defaultRule.command);
      if defaultRule.command in existingCommands {
        continue;
      }
      if Blocked(customConfig, defaultRule, same) {
        shortcutConflictWarnings := shortcutConflictWarnings + [defaultRule];
        continue;
      }
      missingDefaults := missingDefaults + [defaultRule];
    }
    assert missingDefaults + [] == missingDefaults;
    if |missingDefaults| == 0 {
      return None;
    }
    return Some(Capped(customConfig + missingDefaults));
  }

  lemma {:induction false} MissingFacts(custom: seq<Rule>, defaults: seq<Rule>, same: SameContext)
    ensures forall d :: d in MissingDefaults(custom, defaults, same) <==>
      d in defaults && !HasCommand(custom, d.command) && !Blocked(custom, d, same)
    ensures |MissingDefaults(custom, defaults, same)| <= |defaults|
  {
    if defaults != [] {
      MissingFacts(custom, defaults[1..], same);
      assert forall d :: d in defaults <==> d == defaults[0] || d in defaults[1..];
    }
  }

  /** The missing defaults are added in the order of the defaults, each as often as it occurs there. */
  lemma {:induction false} MissingInOrder(custom: seq<Rule>, defaults: seq<Rule>, d: Rule, more: seq<Rule>, same: SameContext)
    ensures MissingDefaults(custom, defaults + [d] + more, same) == MissingDefaults(custom, defaults, same)
      + (if HasCommand(custom, d.command) || Blocked(custom, d, same) then [] else [d])
      + MissingDefaults(custom, more, same)
  {
    hide HasCommand, Blocked;
    if defaults == [] {
      assert [] + [d] + more == [d] + more && ([d] + more)[1..] == more;
    } else {
      MissingInOrder(custom, defaults[1..], d, more, same);
      assert (defaults + [d] + more)[1..] == defaults[1..] + [d] + more;
    }
  }

  /** The user's rules stay, unchanged and in front; every default is then bound, or blocked by a user rule. */
  lemma {:induction false} EveryDefaultAccountedFor(custom: seq<Rule>, defaults: seq<Rule>, same: SameContext)
    requires |custom + MissingDefaults(custom, defaults, same)| <= MAX_COUNT
    ensures custom <= SyncedConfig(custom, defaults, same)
    ensures forall d | d in defaults :: HasCommand(SyncedConfig(custom, defaults, same), d.command) || Blocked(custom, d, same)
    ensures forall r | r in SyncedConfig(custom, defaults, same) && r !in custom ::
      r in defaults && !HasCommand(custom, r.command) && !Blocked(custom, r, same)
  {
    MissingFacts(custom, defaults, same);
    var synced := SyncedConfig(custom, defaults, same);
    forall d | d in defaults ensures HasCommand(synced, d.command) || Blocked(custom, d, same) {
      if HasCommand(custom, d.command) {
        var c :| c in custom && c.command == d.command;
        assert c in synced;
      } else if !Blocked(custom, d, same) {
        assert d in MissingDefaults(custom, defaults, same) && d in synced;
      }
    }
  }

  /** A rule is blocked exactly when some user rule has its shortcut and its condition. */
  lemma {:induction false} BlockedExactly(config: seq<Rule>, rule: Rule)
    requires ShortcutContexts.ConditionTokenizes(rule) && forall r | r in config :: ShortcutContexts.ConditionTokenizes(r)
    ensures Blocked(config, rule, ShortcutContexts.HasSameShortcutContext) <==>
      exists r | r in config :: ShortcutContexts.SameShortcutAndWhen(r, rule)
  {
    hide ShortcutContexts.HasSameShortcutContext, ShortcutContexts.SameShortcutAndWhen, ShortcutContexts.ConditionTokenizes;
    if config != [] {
      assert forall r | r in config[1..] :: r in config;
      assert forall r | r in config :: r == config[0] || r in config[1..];
      BlockedExactly(config[1..], rule);
      ShortcutContexts.SameContextOfCompiled(config[0], rule);
    }
  }

  /**
   * End to end, for rules that compile: after an untruncated start-up the user's rules are a prefix,
   * every default command is bound or its shortcut taken under the same condition by a user rule,
   * and what was added is a default whose command and whose shortcut were both free.
   */
  lemma StartupAccountsForEveryDefault(custom: seq<Rule>, defaults: seq<Rule>)
    requires forall r | r in custom || r in defaults :: ShortcutContexts.ConditionTokenizes(r)
    requires |custom + MissingDefaults(custom, defaults, ShortcutContexts.HasSameShortcutContext)| <= MAX_COUNT
    ensures var synced := SyncedConfig(custom, defaults, ShortcutContexts.HasSameShortcutContext);
      && custom <= synced
      && (forall d | d in defaults ::
            HasCommand(synced, d.command) || exists r | r in custom :: ShortcutContexts.SameShortcutAndWhen(r, d))
      && (forall d | d in synced && d !in custom ::
            d in defaults && !HasCommand(custom, d.command)
            && !exists r | r in custom :: ShortcutContexts.SameShortcutAndWhen(r, d))
  {
    hide ShortcutContexts.HasSameShortcutContext, ShortcutContexts.SameShortcutAndWhen, ShortcutContexts.ConditionTokenizes;
    EveryDefaultAccountedFor(custom, defaults, ShortcutContexts.HasSameShortcutContext);
    forall d | d in defaults
      ensures Blocked(custom, d, ShortcutContexts.HasSameShortcutContext) <==>
        exists r | r in custom :: ShortcutContexts.SameShortcutAndWhen(r, d)
    {
      BlockedExactly(custom, d);
    }
  }

  /** When nothing is truncated, synchronising the result again adds nothing. */
  lemma SyncIsIdempotent(custom: seq<Rule>, defaults: seq<Rule>, same: SameContext)
    requires |custom + MissingDefaults(custom, defaults, same)| <= MAX_COUNT
    ensures SyncedConfig(SyncedConfig(custom, defaults, same), defaults, same) == SyncedConfig(custom, defaults, same)
  {
    var synced := SyncedConfig(custom, defaults, same);
    EveryDefaultAccountedFor(custom, defaults, same);
    forall d | d in defaults ensures HasCommand(synced, d.command) || Blocked(synced, d, same) {
      if Blocked(custom, d, same) {
        StillBlocked(custom, synced[|custom|..], d, same);
        assert synced == custom + synced[|custom|..];
      }
    }
    NothingMissing(synced, defaults, same);
  }

  lemma {:induction false} NothingMissing(config: seq<Rule>, defaults: seq<Rule>, same: SameContext)
    requires forall d | d in defaults :: HasCommand(config, d.command) || Blocked(config, d, same)
    ensures MissingDefaults(config, defaults, same) == []
  {
    if defaults != [] {
      NothingMissing(config, defaults[1..], same);
    }
  }
}
