/**
 * Gitconf's configuration records (src/cfg.rs).
 *
 * A configuration document parses to a partial record, `OptionConfig`: five
 * optional switches and an optional map of git settings. Documents found at
 * several directory levels are merged in place, one after the other, into an
 * accumulator that starts all-absent; the result is completed with defaults
 * into a `Config`, whose `apply` pushes the settings into git with a series
 * of `git config` commands.
 *
 * The value of a partial record is the datatype `PartialConfig` (what parsing
 * yields); the accumulator is the class `OptionConfig`, whose `Merge` updates
 * its fields and is specified by the function `Overlay` on values. Git is a
 * `Git` object that records the commands it is asked to spawn; the listing
 * that `git config --list` prints and the spawn that fails, if any, are
 * parameters of that object.
 */
module Cfg {
  import opened Wrappers

  /** Git settings: key (such as "user.name") to value. */
  type Settings = map<string, string>

  /** A complete configuration. */
  datatype Config = Config(
    strict: bool,
    strictGit: bool,
    selectProfileOnFirstUse: bool,
    showCurrentProfile: bool,
    interactive: bool,
    config: Settings)

  /** A parsed configuration document: every field may be absent. */
  datatype PartialConfig = PartialConfig(
    strict: Option<bool>,
    strictGit: Option<bool>,
    selectProfileOnFirstUse: Option<bool>,
    showCurrentProfile: Option<bool>,
    interactive: Option<bool>,
    config: Option<Settings>)

  /** `OptionConfig::new()`: nothing set. */
  const Unset := PartialConfig(None, None, None, None, None, None)

  /** The five switches, to speak of them uniformly. */
  datatype Flag = Strict | StrictGit | SelectProfileOnFirstUse | ShowCurrentProfile | Interactive

  function Get(p: PartialConfig, f: Flag): Option<bool>
  {
    match f
    case Strict => p.strict
    case StrictGit => p.strictGit
    case SelectProfileOnFirstUse => p.selectProfileOnFirstUse
    case ShowCurrentProfile => p.showCurrentProfile
    case Interactive => p.interactive
  }

  function IsOn(c: Config, f: Flag): bool
  {
    match f
    case Strict => c.strict
    case StrictGit => c.strictGit
    case SelectProfileOnFirstUse => c.selectProfileOnFirstUse
    case ShowCurrentProfile => c.showCurrentProfile
    case Interactive => c.interactive
  }

  /** The value a switch takes when no document sets it. */
  function Default(f: Flag): bool
  {
    match f
    case Strict => false
    case StrictGit => true
    case SelectProfileOnFirstUse => false
    case ShowCurrentProfile => true
    case Interactive => false
  }

  /** The settings used when no document has a `Config` table. */
  const DefaultSettings: Settings := map["user.name" := "John Doe", "user.email" := ""]

  // ---------------------------------------------------------------- to_config

  /** `OptionConfig::to_config`: fill every absent field with its default. */
  function ToConfig(p: PartialConfig): Config
  {
    Config(
      p.strict.GetOr(false),
      p.strictGit.GetOr(true),
      p.selectProfileOnFirstUse.GetOr(false),
      p.showCurrentProfile.GetOr(true),
      p.interactive.GetOr(false),
      p.config.GetOr(DefaultSettings))
  }

  /** A present field is kept, an absent one takes its default; a present map, even an empty one, is kept whole. */
  lemma ToConfigFields(p: PartialConfig)
    ensures forall f :: Get(p, f).Some? ==> IsOn(ToConfig(p), f) == Get(p, f).value
    ensures forall f :: Get(p, f).None? ==> IsOn(ToConfig(p), f) == Default(f)
    ensures p.config.Some? ==> ToConfig(p).config == p.config.value
    ensures p.config.None? ==> ToConfig(p).config == DefaultSettings
  {
  }

  /** With nothing set: strict off, strict git on, select-on-first-use off, show-current on, interactive off, default settings. */
  lemma ToConfigOfUnset()
    ensures ToConfig(Unset) == Config(false, true, false, true, false, DefaultSettings)
  {
  }

  /** The document that sets everything. */
  function Full(c: Config): PartialConfig
  {
    PartialConfig(Some(c.strict), Some(c.strictGit), Some(c.selectProfileOnFirstUse),
                  Some(c.showCurrentProfile), Some(c.interactive), Some(c.config))
  }

  /** Completing a document that sets everything gives back what it sets. */
  lemma ToConfigOfFull(c: Config)
    ensures ToConfig(Full(c)) == c
  {
  }

  /** The crate's test `test_to_config`: only `Interactive` is absent, and it defaults to false. */
  lemma TestToConfig()
    ensures ToConfig(PartialConfig(Some(false), Some(true), Some(false), Some(true), None,
                                   Some(map["user.name" := "John Doe"])))
         == Config(false, true, false, true, false, map["user.name" := "John Doe"])
  {
  }

  // -------------------------------------------------------------------- merge

  /** A switch of the incoming document wins when present. */
  function Pick(mine: Option<bool>, theirs: Option<bool>): Option<bool>
  {
    if theirs.Some? then theirs else mine
  }

  /**
   * The value of `base` after `base.merge(other)`: a strict document replaces
   * everything; otherwise present switches win and the settings are unioned,
   * incoming keys winning.
   */
  function Overlay(base: PartialConfig, other: PartialConfig): PartialConfig
  {
    if other.strict == Some(true) then other
    else PartialConfig(
      Pick(base.strict, other.strict),
      Pick(base.strictGit, other.strictGit),
      Pick(base.selectProfileOnFirstUse, other.selectProfileOnFirstUse),
      Pick(base.showCurrentProfile, other.showCurrentProfile),
      Pick(base.interactive, other.interactive),
      match other.config
      case None => base.config
      case Some(m) => Some(base.config.GetOr(map[]) + m))
  }

  /** `Strict = true` discards everything merged so far, absent fields included. */
  lemma StrictReplaces(base: PartialConfig, other: PartialConfig)
    requires other.strict == Some(true)
    ensures Overlay(base, other) == other
  {
  }

  /** Otherwise each switch is the incoming one exactly when that is present. */
  lemma PresentFlagWins(base: PartialConfig, other: PartialConfig)
    requires other.strict != Some(true)
    ensures forall f :: Get(other, f).Some? ==> Get(Overlay(base, other), f) == Get(other, f)
    ensures forall f :: Get(other, f).None? ==> Get(Overlay(base, other), f) == Get(base, f)
  {
  }

  /**
   * Otherwise an incoming map is unioned into the accumulated one (absent
   * counts as empty): its keys win, no key is removed, other keys keep their
   * values. An absent incoming map leaves the accumulated one alone.
   */
  lemma SettingsUnion(base: PartialConfig, other: PartialConfig)
    requires other.strict != Some(true)
    ensures other.config.None? ==> Overlay(base, other).config == base.config
    ensures other.config.Some? ==> Overlay(base, other).config.Some?
    ensures other.config.Some? ==>
      var mine := base.config.GetOr(map[]);
      var theirs := other.config.value;
      var r := Overlay(base, other).config.value;
      && r.Keys == mine.Keys + theirs.Keys
      && (forall k :: k in theirs ==> r[k] == theirs[k])
      && (forall k :: k in mine && k !in theirs ==> r[k] == mine[k])
  {
  }

  /** Merging nothing changes nothing. */
  lemma MergeUnsetRight(p: PartialConfig)
    ensures Overlay(p, Unset) == p
  {
  }

  /** Merging into nothing gives the document itself. */
  lemma MergeUnsetLeft(p: PartialConfig)
    ensures Overlay(Unset, p) == p
  {
    if p.strict != Some(true) && p.config.Some? {
      assert map[] + p.config.value == p.config.value;
    }
  }

  /** Merging the same document twice is merging it once. */
  lemma MergeIdempotent(base: PartialConfig, other: PartialConfig)
    ensures Overlay(Overlay(base, other), other) == Overlay(base, other)
  {
    if other.strict != Some(true) && other.config.Some? {
      var m := other.config.value;
      var x := base.config.GetOr(map[]);
      assert (x + m) + m == x + m;
    }
  }

  /**
   * Merging is associative, except when a strict `b` is followed by a `c`
   * with `Strict = false`: merged first, `b` and `c` give a non-strict
   * document that no longer discards `a`.
   */
  lemma MergeAssociative(a: PartialConfig, b: PartialConfig, c: PartialConfig)
    requires !(b.strict == Some(true) && c.strict == Some(false))
    ensures Overlay(Overlay(a, b), c) == Overlay(a, Overlay(b, c))
  {
    if c.strict == Some(true) {
    } else if b.strict == Some(true) {
      match c.strict
      case None =>
      case Some(v) => assert false;
    } else {
      var x := a.config.GetOr(map[]);
      match (b.config, c.config)
      case (Some(mb), Some(mc)) =>
        assert (x + mb) + mc == x + (mb + mc);
      case (None, Some(mc)) =>
        assert map[] + mc == mc;
      case (_, None) =>
    }
  }

  /** The exception is real: `a`'s switches survive on one side only. */
  lemma MergeNotAssociative()
    ensures var a := PartialConfig(None, None, None, None, Some(true), None);
            var b := PartialConfig(Some(true), None, None, None, None, None);
            var c := PartialConfig(Some(false), None, None, None, None, None);
            Overlay(Overlay(a, b), c) != Overlay(a, Overlay(b, c))
  {
  }

  /** Documents merged in order into `acc`, first to last. */
  function MergeAll(acc: PartialConfig, docs: seq<PartialConfig>): PartialConfig
  {
    if docs == [] then acc
    else Overlay(MergeAll(acc, docs[..|docs| - 1]), docs[|docs| - 1])
  }

  /** A strict document makes everything merged before it irrelevant. */
  lemma {:induction false} MergeAllAfterStrict(acc: PartialConfig, docs: seq<PartialConfig>, i: nat)
    requires i < |docs| && docs[i].strict == Some(true)
    ensures MergeAll(acc, docs) == MergeAll(docs[i], docs[i + 1..])
    decreases |docs|
  {
    var n := |docs| - 1;
    if i == n {
      assert docs[i + 1..] == [];
    } else {
      MergeAllAfterStrict(acc, docs[..n], i);
      assert docs[..n][i] == docs[i];
      assert docs[..n][i + 1..] == docs[i + 1..][..|docs[i + 1..]| - 1];
      assert docs[i + 1..][|docs[i + 1..]| - 1] == docs[n];
    }
  }

  /**
   * A switch ends up with the value of the last document that sets it, as long
   * as no strict document follows that one.
   */
  lemma {:induction false} LatestFlagWins(acc: PartialConfig, docs: seq<PartialConfig>, f: Flag, j: nat)
    requires j < |docs| && Get(docs[j], f).Some?
    requires forall k :: j < k < |docs| ==> Get(docs[k], f).None? && docs[k].strict != Some(true)
    ensures Get(MergeAll(acc, docs), f) == Get(docs[j], f)
    decreases |docs|
  {
    var n := |docs| - 1;
    var prev := MergeAll(acc, docs[..n]);
    if j < n {
      LatestFlagWins(acc, docs[..n], f, j);
      PresentFlagWins(prev, docs[n]);
    } else if docs[n].strict != Some(true) {
      PresentFlagWins(prev, docs[n]);
    }
  }

  /**
   * The crate's test `test_merge`: the strict second document drops key "a"
   * and both `true`s of the first; the third adds "c" and its switches.
   */
  lemma TestMerge()
    ensures
      var first := PartialConfig(Some(true), Some(true), Some(true), Some(true), Some(true), Some(map["a" := "1"]));
      var second := PartialConfig(Some(true), None, None, None, None, Some(map["b" := "2"]));
      var third := PartialConfig(Some(false), None, Some(false), None, Some(true), Some(map["c" := "3"]));
      MergeAll(Unset, [first, second, third])
        == PartialConfig(Some(false), None, Some(false), None, Some(true), Some(map["b" := "2", "c" := "3"]))
  {
    var first := PartialConfig(Some(true), Some(true), Some(true), Some(true), Some(true), Some(map["a" := "1"]));
    var second := PartialConfig(Some(true), None, None, None, None, Some(map["b" := "2"]));
    var third := PartialConfig(Some(false), None, Some(false), None, Some(true), Some(map["c" := "3"]));
    var docs := [first, second, third];
    assert docs[..2] == [first, second] && docs[..2][..1] == [first] && docs[..2][..1][..0] == [];
    assert MergeAll(Unset, [first, second]) == second;
    assert map["b" := "2"] + map["c" := "3"] == map["b" := "2", "c" := "3"];
  }

  /** `config.insert(key, value)` for every entry: the union in which incoming entries win. */
  method InsertAll(base: Settings, entries: Settings) returns (r: Settings)
    ensures r == base + entries
  {
    r := base;
    var todo := entries.Keys;
    while todo != {}
      invariant todo <= entries.Keys
      invariant r.Keys == base.Keys + (entries.Keys - todo)
      invariant forall k :: k in r ==> r[k] == if k in entries && k !in todo then entries[k] else base[k]
      decreases |todo|
    {
      var k :| k in todo;
      r := r[k := entries[k]];
      todo := todo - {k};
    }
  }

  /** The accumulator that `merge` updates in place. */
  class OptionConfig {
    var strict: Option<bool>
    var strictGit: Option<bool>
    var selectProfileOnFirstUse: Option<bool>
    var showCurrentProfile: Option<bool>
    var interactive: Option<bool>
    var config: Option<Settings>

    /** The record the fields currently hold. */
    function Value(): PartialConfig
      reads this
    {
      PartialConfig(strict, strictGit, selectProfileOnFirstUse, showCurrentProfile, interactive, config)
    }

    /** `OptionConfig::new()`. */
    constructor New()
      ensures Value() == Unset
    {
      strict := None;
      strictGit := None;
      selectProfileOnFirstUse := None;
      showCurrentProfile := None;
      interactive := None;
      config := None;
    }

    /** `self.merge(&other)`, field by field. */
    method Merge(other: PartialConfig)
      modifies this
      ensures Value() == Overlay(old(Value()), other)
    {
      if other.strict == Some(true) {
        strict := other.strict;
        strictGit := other.strictGit;
        selectProfileOnFirstUse := other.selectProfileOnFirstUse;
        showCurrentProfile := other.showCurrentProfile;
        interactive := other.interactive;
        config := other.config;
      } else {
        if other.strict.Some? {
          strict := Some(other.strict.value);
        }
        if other.strictGit.Some? {
          strictGit := Some(other.strictGit.value);
        }
        if other.selectProfileOnFirstUse.Some? {
          selectProfileOnFirstUse := Some(other.selectProfileOnFirstUse.value);
        }
        if other.showCurrentProfile.Some? {
          showCurrentProfile := Some(other.showCurrentProfile.value);
        }
        if other.interactive.Some? {
          interactive := Some(other.interactive.value);
        }
        if other.config.Some? {
          var merged := if config.Some? then config.value else map[];
          merged := InsertAll(merged, other.config.value);
          config := Some(merged);
        }
      }
    }
  }

  // -------------------------------------------------------------------- apply

  /** The `git config` invocations `apply` spawns. */
  datatype Command =
    | ListAll                                // git config --list
    | UnsetAll(key: string)                  // git config --unset-all <key>
    | SetValue(key: string, value: string)   // git config <key> <value>

  /**
   * The git executable as `apply` sees it: whether `which("git")` finds it,
   * the lines `git config --list` prints, and which spawn, counted over the
   * object's whole life, fails to start. `log` holds the commands spawned.
   */
  class Git {
    const located: bool
    const listing: seq<string>
    const failsAt: Option<nat>
    var log: seq<Command>

    constructor (located: bool, listing: seq<string>, failsAt: Option<nat>)
      ensures this.located == located && this.listing == listing && this.failsAt == failsAt
      ensures log == []
    {
      this.located := located;
      this.listing := listing;
      this.failsAt := failsAt;
      log := [];
    }

    /** `Command::new(git)...output()`: `false` when the process cannot be spawned. */
    method Spawn(c: Command) returns (ok: bool)
      modifies this
      ensures ok <==> failsAt != Some(|old(log)|)
      ensures log == if ok then old(log) + [c] else old(log)
      ensures Outcome([c], old(log), failsAt, ok, log)
    {
      ok := failsAt != Some(|log|);
      if ok {
        log := log + [c];
      }
    }
  }

  /** `line.split_once("=")`, left part: the text before the first '='. */
  function KeyOf(line: string): (r: Option<string>)
    ensures r.None? <==> '=' !in line
    ensures r.Some? ==> r.value <= line && |r.value| < |line| && line[|r.value|] == '=' && '=' !in r.value
  {
    if line == [] then None
    else if line[0] == '=' then Some([])
    else
      match KeyOf(line[1..])
      case None => None
      case Some(k) => Some([line[0]] + k)
  }

  /** Keys the sanitise phase leaves alone. */
  predicate Protected(key: string)
  {
    "core." <= key || "remote." <= key || "branch." <= key
  }

  /** What the sanitise phase spawns for one listed line. */
  function LinePlan(line: string): seq<Command>
  {
    match KeyOf(line)
    case None => []
    case Some(k) => if Protected(k) then [] else [UnsetAll(k), SetValue(k, "")]
  }

  /** What the sanitise phase spawns for the listed lines, in order. */
  function SanitisePlan(lines: seq<string>): seq<Command>
  {
    if lines == [] then []
    else SanitisePlan(lines[..|lines| - 1]) + LinePlan(lines[|lines| - 1])
  }

  /** What the settings phase spawns when the settings map yields its keys in `order`. */
  function SettingsPlan(order: seq<string>, m: Settings): seq<Command>
    requires forall k <- order :: k in m
  {
    if order == [] then []
    else
      var k := order[|order| - 1];
      SettingsPlan(order[..|order| - 1], m) + [UnsetAll(k), SetValue(k, m[k])]
  }

  /** `order` lists every key of the set once. */
  predicate Enumerates(order: seq<string>, keys: set<string>)
  {
    && (forall k <- order :: k in keys)
    && (forall k <- keys :: k in order)
    && (forall i, j :: 0 <= i < j < |order| ==> order[i] != order[j])
  }

  /** Every command `apply` spawns when none fails. */
  function Plan(c: Config, lines: seq<string>, order: seq<string>): seq<Command>
    requires forall k <- order :: k in c.config
  {
    (if c.strictGit then [ListAll] + SanitisePlan(lines) else []) + SettingsPlan(order, c.config)
  }

  /**
   * Running `plan` from log `before`: if spawn number `failsAt` falls inside
   * the plan, everything before it is logged and the result is false;
   * otherwise the whole plan is logged and the result is true.
   */
  predicate Outcome(plan: seq<Command>, before: seq<Command>, failsAt: Option<nat>, ok: bool, after: seq<Command>)
  {
    if failsAt.Some? && |before| <= failsAt.value < |before| + |plan|
    then !ok && after == before + plan[..failsAt.value - |before|]
    else ok && after == before + plan
  }

  /** `HashMap::into_iter` over the settings: some order of its keys. */
  method KeysInSomeOrder(m: Settings) returns (order: seq<string>)
    ensures Enumerates(order, m.Keys)
  {
    order := [];
    var todo := m.Keys;
    while todo != {}
      invariant todo <= m.Keys
      invariant forall k <- order :: k in m && k !in todo
      invariant forall k <- m.Keys :: k in order || k in todo
      invariant forall i, j :: 0 <= i < j < |order| ==> order[i] != order[j]
      decreases |todo|
    {
      var k :| k in todo;
      order := order + [k];
      todo := todo - {k};
    }
  }

  lemma {:induction false} SanitiseConcat(a: seq<string>, b: seq<string>)
    ensures SanitisePlan(a + b) == SanitisePlan(a) + SanitisePlan(b)
    decreases |b|
  {
    if b == [] {
      assert a + b == a;
    } else {
      var n := |b| - 1;
      assert (a + b)[..|a + b| - 1] == a + b[..n];
      assert (a + b)[|a + b| - 1] == b[n];
      SanitiseConcat(a, b[..n]);
    }
  }

  lemma {:induction false} SettingsConcat(a: seq<string>, b: seq<string>, m: Settings)
    requires forall k <- a :: k in m
    requires forall k <- b :: k in m
    ensures SettingsPlan(a + b, m) == SettingsPlan(a, m) + SettingsPlan(b, m)
    decreases |b|
  {
    if b == [] {
      assert a + b == a;
    } else {
      var n := |b| - 1;
      assert (a + b)[..|a + b| - 1] == a + b[..n];
      assert (a + b)[|a + b| - 1] == b[n];
      SettingsConcat(a, b[..n], m);
    }
  }

  /** The sanitise plan for one more line. */
  lemma SanitiseSnoc(lines: seq<string>, i: nat)
    requires i < |lines|
    ensures SanitisePlan(lines[..i + 1]) == SanitisePlan(lines[..i]) + LinePlan(lines[i])
  {
    assert lines[..i + 1][..i] == lines[..i];
  }

  /** The sanitise plan cut after line `i`. */
  lemma SanitiseSplit(lines: seq<string>, i: nat)
    requires i < |lines|
    ensures SanitisePlan(lines) == SanitisePlan(lines[..i + 1]) + SanitisePlan(lines[i + 1..])
  {
    assert lines == lines[..i + 1] + lines[i + 1..];
    SanitiseConcat(lines[..i + 1], lines[i + 1..]);
  }

  lemma Regroup(a: seq<Command>, b: seq<Command>, c: seq<Command>, d: seq<Command>)
    ensures a + ((b + c) + d) == ((a + b) + c) + d
  {
  }

  /** The settings plan around key number `j`. */
  lemma SettingsAround(order: seq<string>, m: Settings, j: nat)
    requires j < |order| && forall k <- order :: k in m
    ensures SettingsPlan(order[..j + 1], m) == SettingsPlan(order[..j], m) + [UnsetAll(order[j]), SetValue(order[j], m[order[j]])]
    ensures SettingsPlan(order, m) == SettingsPlan(order[..j + 1], m) + SettingsPlan(order[j + 1..], m)
  {
    assert order[..j + 1][..j] == order[..j];
    assert order == order[..j + 1] + order[j + 1..];
    SettingsConcat(order[..j + 1], order[j + 1..], m);
  }

  /** A plan that ran through, followed by another, is their concatenation. */
  lemma OutcomeThen(p: seq<Command>, q: seq<Command>, before: seq<Command>, mid: seq<Command>,
                    failsAt: Option<nat>, ok: bool, after: seq<Command>)
    requires Outcome(p, before, failsAt, true, mid)
    requires Outcome(q, mid, failsAt, ok, after)
    ensures Outcome(p + q, before, failsAt, ok, after)
  {
    if failsAt.Some? && |mid| <= failsAt.value < |mid| + |q| {
      assert (p + q)[..failsAt.value - |before|] == p + q[..failsAt.value - |mid|];
    }
  }

  /** A plan that stopped early stops the same way when more is planned after it. */
  lemma OutcomeStopped(p: seq<Command>, q: seq<Command>, before: seq<Command>, failsAt: Option<nat>, after: seq<Command>)
    requires Outcome(p, before, failsAt, false, after)
    ensures Outcome(p + q, before, failsAt, false, after)
  {
    assert (p + q)[..failsAt.value - |before|] == p[..failsAt.value - |before|];
  }

  /** `done` ran through, then `step` stopped: the whole `done + step + rest` stopped there. */
  lemma StoppedWithin(done: seq<Command>, step: seq<Command>, rest: seq<Command>, before: seq<Command>,
                      mid: seq<Command>, failsAt: Option<nat>, after: seq<Command>)
    requires Outcome(done, before, failsAt, true, mid)
    requires Outcome(step, mid, failsAt, false, after)
    ensures Outcome(done + step + rest, before, failsAt, false, after)
  {
    OutcomeThen(done, step, before, mid, failsAt, false, after);
    OutcomeStopped(done + step, rest, before, failsAt, after);
  }

  /** Line `i` of the sanitise phase ran through: the phase has run through line `i` included. */
  lemma SanitiseGoesOn(lines: seq<string>, i: nat, before: seq<Command>, mid: seq<Command>,
                       failsAt: Option<nat>, after: seq<Command>)
    requires i < |lines|
    requires Outcome([ListAll] + SanitisePlan(lines[..i]), before, failsAt, true, mid)
    requires Outcome(LinePlan(lines[i]), mid, failsAt, true, after)
    ensures Outcome([ListAll] + SanitisePlan(lines[..i + 1]), before, failsAt, true, after)
  {
    var done := [ListAll] + SanitisePlan(lines[..i]);
    var step := LinePlan(lines[i]);
    SanitiseSnoc(lines, i);
    OutcomeThen(done, step, before, mid, failsAt, true, after);
    assert done + step == [ListAll] + SanitisePlan(lines[..i + 1]);
  }

  /** Line `i` of the sanitise phase stopped: the whole phase stopped there. */
  lemma SanitiseStops(lines: seq<string>, i: nat, before: seq<Command>, mid: seq<Command>,
                      failsAt: Option<nat>, after: seq<Command>)
    requires i < |lines|
    requires Outcome([ListAll] + SanitisePlan(lines[..i]), before, failsAt, true, mid)
    requires Outcome(LinePlan(lines[i]), mid, failsAt, false, after)
    ensures Outcome([ListAll] + SanitisePlan(lines), before, failsAt, false, after)
  {
    var head := SanitisePlan(lines[..i]);
    var step := LinePlan(lines[i]);
    var rest := SanitisePlan(lines[i + 1..]);
    SanitiseSnoc(lines, i);
    SanitiseSplit(lines, i);
    assert SanitisePlan(lines) == (head + step) + rest;
    Regroup([ListAll], head, step, rest);
    StoppedWithin([ListAll] + head, step, rest, before, mid, failsAt, after);
  }

  /** `git config --unset-all key` then `git config key value`, as `Outcome` sees it. */
  method SpawnPair(git: Git, key: string, value: string) returns (ok: bool)
    modifies git
    ensures Outcome([UnsetAll(key), SetValue(key, value)], old(git.log), git.failsAt, ok, git.log)
  {
    ghost var before := git.log;
    ok := git.Spawn(UnsetAll(key));
    if !ok {
      OutcomeStopped([UnsetAll(key)], [SetValue(key, value)], before, git.failsAt, git.log);
      return;
    }
    ghost var mid := git.log;
    ok := git.Spawn(SetValue(key, value));
    OutcomeThen([UnsetAll(key)], [SetValue(key, value)], before, mid, git.failsAt, ok, git.log);
  }

  /** One listed line of the sanitise phase: skip it, or blank its key. */
  method SanitiseLine(git: Git, line: string) returns (ok: bool)
    modifies git
    ensures Outcome(LinePlan(line), old(git.log), git.failsAt, ok, git.log)
  {
    var key := KeyOf(line);
    if key.None? || Protected(key.value) {
      return true;
    }
    ok := SpawnPair(git, key.value, "");
  }

  /** The sanitise phase of `Config::apply`: list git's settings, blank every unprotected key. */
  method Sanitise(git: Git) returns (ok: bool)
    modifies git
    ensures Outcome([ListAll] + SanitisePlan(git.listing), old(git.log), git.failsAt, ok, git.log)
  {
    ghost var before := git.log;
    ok := git.Spawn(ListAll);
    if !ok {
      OutcomeStopped([ListAll], SanitisePlan(git.listing), before, git.failsAt, git.log);
      return;
    }
    var lines := git.listing;
    var i := 0;
    assert lines[..0] == [];
    while i < |lines|
      invariant 0 <= i <= |lines|
      invariant Outcome([ListAll] + SanitisePlan(lines[..i]), before, git.failsAt, true, git.log)
    {
      ghost var mid := git.log;
      ok := SanitiseLine(git, lines[i]);
      if !ok {
        SanitiseStops(lines, i, before, mid, git.failsAt, git.log);
        return;
      }
      SanitiseGoesOn(lines, i, before, mid, git.failsAt, git.log);
      i := i + 1;
    }
    assert lines[..i] == lines;
  }

  /** The settings phase of `Config::apply`: reset, then set, each key in the map's order. */
  method PushSettings(git: Git, order: seq<string>, m: Settings) returns (ok: bool)
    requires forall k <- order :: k in m
    modifies git
    ensures Outcome(SettingsPlan(order, m), old(git.log), git.failsAt, ok, git.log)
  {
    ghost var before := git.log;
    var j := 0;
    assert order[..0] == [];
    while j < |order|
      invariant 0 <= j <= |order|
      invariant Outcome(SettingsPlan(order[..j], m), before, git.failsAt, true, git.log)
    {
      ghost var done := SettingsPlan(order[..j], m);
      ghost var mid := git.log;
      SettingsAround(order, m, j);
      var key := order[j];
      ok := SpawnPair(git, key, m[key]);
      if !ok {
        StoppedWithin(done, [UnsetAll(key), SetValue(key, m[key])], SettingsPlan(order[j + 1..], m),
                      before, mid, git.failsAt, git.log);
        return;
      }
      OutcomeThen(done, [UnsetAll(key), SetValue(key, m[key])], before, mid, git.failsAt, true, git.log);
      j := j + 1;
    }
    assert order[..j] == order;
    ok := true;
  }

  /** `Config::apply`. */
  method Apply(c: Config, git: Git) returns (ok: bool)
    modifies git
    ensures !git.located ==> !ok && git.log == old(git.log)
    ensures git.located ==> exists order ::
      Enumerates(order, c.config.Keys) && Outcome(Plan(c, git.listing, order), old(git.log), git.failsAt, ok, git.log)
  {
    if !git.located {
      return false;
    }
    ghost var before := git.log;
    // The iteration order of the settings is fixed by the map; nothing git does changes it.
    var order := KeysInSomeOrder(c.config);
    ghost var head: seq<Command> := [];
    if c.strictGit {
      head := [ListAll] + SanitisePlan(git.listing);
      ok := Sanitise(git);
      if !ok {
        OutcomeStopped(head, SettingsPlan(order, c.config), before, git.failsAt, git.log);
        return;
      }
    } else {
      assert Outcome([], before, git.failsAt, true, git.log);
    }
    ghost var mid := git.log;
    ok := PushSettings(git, order, c.config);
    OutcomeThen(head, SettingsPlan(order, c.config), before, mid, git.failsAt, ok, git.log);
  }

  // ------------------------------------------------ what the commands achieve

  /** Git's settings after one command (a key holds one value here). */
  function Exec(store: Settings, c: Command): Settings
  {
    match c
    case ListAll => store
    case UnsetAll(k) => store - {k}
    case SetValue(k, v) => store[k := v]
  }

  /** Git's settings after the commands, in order. */
  function Run(store: Settings, cmds: seq<Command>): Settings
  {
    if cmds == [] then store else Exec(Run(store, cmds[..|cmds| - 1]), cmds[|cmds| - 1])
  }

  lemma {:induction false} RunConcat(store: Settings, a: seq<Command>, b: seq<Command>)
    ensures Run(store, a + b) == Run(Run(store, a), b)
    decreases |b|
  {
    if b == [] {
      assert a + b == a;
    } else {
      var n := |b| - 1;
      assert (a + b)[..|a + b| - 1] == a + b[..n];
      RunConcat(store, a, b[..n]);
    }
  }

  /** The keys the sanitise phase blanks: those of listed lines with a '=' and no protected prefix. */
  function SanitisedKeys(lines: seq<string>): set<string>
  {
    if lines == [] then {}
    else
      var last := KeyOf(lines[|lines| - 1]);
      SanitisedKeys(lines[..|lines| - 1])
        + (if last.Some? && !Protected(last.value) then {last.value} else {})
  }

  /** A key is blanked exactly when some listed line has it before its first '=', unprotected. */
  lemma {:induction false} SanitisedKeysMeaning(lines: seq<string>, k: string)
    ensures k in SanitisedKeys(lines) <==>
      exists i :: 0 <= i < |lines| && KeyOf(lines[i]) == Some(k) && !Protected(k)
    decreases |lines|
  {
    if lines != [] {
      var n := |lines| - 1;
      SanitisedKeysMeaning(lines[..n], k);
      if exists i :: 0 <= i < |lines| && KeyOf(lines[i]) == Some(k) && !Protected(k) {
        var i :| 0 <= i < |lines| && KeyOf(lines[i]) == Some(k) && !Protected(k);
        if i < n {
          assert lines[..n][i] == lines[i];
        }
      } else {
        forall i | 0 <= i < n ensures KeyOf(lines[..n][i]) != Some(k) || Protected(k) {
          assert lines[..n][i] == lines[i];
        }
      }
    }
  }

  /** Every key in `keys` set to the empty string. */
  function Blank(keys: set<string>): Settings
  {
    map k | k in keys :: ""
  }

  /** The settings given by the first keys of `order`. */
  function Restrict(m: Settings, order: seq<string>): Settings
  {
    map k | k in order && k in m :: m[k]
  }

  lemma BlankAdd(store: Settings, keys: set<string>, k: string)
    ensures (store + Blank(keys))[k := ""] == store + Blank(keys + {k})
  {
  }

  lemma RestrictAdd(store: Settings, m: Settings, order: seq<string>, k: string)
    requires k in m
    ensures (store + Restrict(m, order))[k := m[k]] == store + Restrict(m, order + [k])
  {
  }

  /** Resetting a key and then setting it leaves just the new value. */
  lemma RunPair(store: Settings, k: string, v: string)
    ensures Run(store, [UnsetAll(k), SetValue(k, v)]) == store[k := v]
  {
    var p := [UnsetAll(k), SetValue(k, v)];
    assert p[..1] == [UnsetAll(k)] && p[..1][..0] == [];
    assert Run(store, p[..1]) == store - {k};
    assert (store - {k})[k := v] == store[k := v];
  }

  lemma {:induction false} RunSanitise(store: Settings, lines: seq<string>)
    ensures Run(store, SanitisePlan(lines)) == store + Blank(SanitisedKeys(lines))
    decreases |lines|
  {
    if lines == [] {
      assert store + Blank({}) == store;
    } else {
      var n := |lines| - 1;
      var keys := SanitisedKeys(lines[..n]);
      RunSanitise(store, lines[..n]);
      var mid := store + Blank(keys);
      RunConcat(store, SanitisePlan(lines[..n]), LinePlan(lines[n]));
      assert Run(store, SanitisePlan(lines)) == Run(mid, LinePlan(lines[n]));
      var key := KeyOf(lines[n]);
      if key.Some? && !Protected(key.value) {
        var k := key.value;
        RunPair(mid, k, "");
        BlankAdd(store, keys, k);
      } else {
        assert LinePlan(lines[n]) == [];
        assert SanitisedKeys(lines) == keys;
      }
    }
  }

  lemma {:induction false} RunSettings(store: Settings, order: seq<string>, m: Settings)
    requires forall k <- order :: k in m
    ensures Run(store, SettingsPlan(order, m)) == store + Restrict(m, order)
    decreases |order|
  {
    if order == [] {
      assert store + Restrict(m, order) == store;
    } else {
      var n := |order| - 1;
      var k := order[n];
      RunSettings(store, order[..n], m);
      var mid := store + Restrict(m, order[..n]);
      RunConcat(store, SettingsPlan(order[..n], m), [UnsetAll(k), SetValue(k, m[k])]);
      RunPair(mid, k, m[k]);
      RestrictAdd(store, m, order[..n], k);
      assert order == order[..n] + [k];
    }
  }

  /**
   * What a complete run of `apply` leaves in git, whatever the map's order:
   * with strict git, every unprotected listed key is first blanked; then every
   * settings key holds its configured value, protected prefix or not.
   */
  lemma ApplyEffect(c: Config, lines: seq<string>, order: seq<string>, store: Settings)
    requires Enumerates(order, c.config.Keys)
    ensures Run(store, Plan(c, lines, order))
         == (if c.strictGit then store + Blank(SanitisedKeys(lines)) else store) + c.config
  {
    var head := if c.strictGit then [ListAll] + SanitisePlan(lines) else [];
    RunConcat(store, head, SettingsPlan(order, c.config));
    var mid := Run(store, head);
    if c.strictGit {
      RunConcat(store, [ListAll], SanitisePlan(lines));
      assert [ListAll][..0] == [];
      assert Run(store, [ListAll]) == store;
      RunSanitise(store, lines);
    }
    RunSettings(mid, order, c.config);
    assert Restrict(c.config, order) == c.config;
  }

  /**
   * The sanitise phase never touches a protected key, but the settings phase
   * does: after a complete run a protected key keeps its old value only if the
   * settings do not name it.
   */
  lemma ApplyAndProtectedKeys(c: Config, lines: seq<string>, order: seq<string>, store: Settings, k: string)
    requires Enumerates(order, c.config.Keys) && Protected(k)
    ensures k in c.config ==> k in Run(store, Plan(c, lines, order)) && Run(store, Plan(c, lines, order))[k] == c.config[k]
    ensures k !in c.config ==> (k in Run(store, Plan(c, lines, order)) <==> k in store)
    ensures k !in c.config && k in store ==> Run(store, Plan(c, lines, order))[k] == store[k]
  {
    ApplyEffect(c, lines, order, store);
    SanitisedKeysMeaning(lines, k);
  }
}
