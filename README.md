# gitconf, modelled in Dafny

gitconf keeps git settings in TOML "profile" documents stored in `.gitconf`
directories at several levels: `/etc`, each ancestor of the working
directory but the root, the working directory itself and its `.git` directory.

- **Discovery.** The active documents (`.gitconf/current/<one file>`) are
  merged from the farthest level to the closest. The result is completed
  with defaults into a configuration.
- **Application.** The configuration is pushed into git with `git config`
  commands. With *strict git*, every unprotected key git already had is
  blanked first.
- **Listing.** The available profiles are the files under
  `.gitconf/profiles`, by file name; the closest level wins.
- **Activation.** Activating a profile replaces the `current` slot of a
  directory with a copy of the chosen file.
- **Line endings.** The vendored `newline-converter` crate converts between
  DOS and UNIX line endings.

The project has five modules:

- `Wrappers` (`wrappers.dfy`): Rust's `Option`.
- `Cfg` (`cfg.dfy`): partial and complete configurations, covering
  `OptionConfig::new`, `to_config` and `merge`, and `Config::apply`.
  - The accumulator `OptionConfig` is a class whose `Merge` updates its
    fields in place. It is specified by the value-level function `Overlay`.
  - Git is a `Git` object that logs the commands it is asked to spawn. The
    lines `git config --list` prints and the spawn that fails, if any, are
    parameters of that object.
  - `Run` gives what the commands do to git's settings, and `ApplyEffect`
    states the settings that a complete `apply` leaves behind.
- `Pth` (`pth.dfy`): the ancestor walk `PathIter` as a class with the
  source's fields `buf`, `end` and `last`, plus its closed form.
- `Profiles` (`profiles.dfy`): discovery of the current configuration and of
  the profiles, and `set_profile`, over an abstract file system.
  - The file system maps absolute paths (component sequences) to readable
    or unreadable directories and files.
  - TOML parsing is a parameter `parse` from text to an optional partial
    configuration.
  - The mutating file system calls used by `set_profile` are methods of a
    `Disk` class.
- `Newline` (`newline.dfy`): `dos2unix` and `unix2dos` as loops over the
  input's characters, specified by the functions `ReplaceCrlf` and
  `ReplaceBareLf`.

Three behaviours of the code a reader may not expect:

- The settings loop (src/cfg.rs:68-85) runs `--unset-all` and then a set for
  every key of the settings, keys prefixed `core.`, `remote.` or `branch.`
  included. Only the sanitise phase of strict git skips those keys
  (src/cfg.rs:47-49). `Cfg.ApplyAndProtectedKeys` states the consequence.
- The walk never yields `/`: it yields `/etc` in its place
  (src/pth.rs:37-39) and suppresses a repeat (src/pth.rs:41-45). So a walk
  from `/etc/x` yields `/etc` once, and a walk from `/` yields only `/etc`
  (`Pth.TestEtc`, `Pth.TestRoot`).
- `set_profile` for the root directory writes `/.gitconf/current` (when
  there is no `/.git`). Discovery from the root never reads that directory;
  it reads `/.git/.gitconf/current` and `/etc/.gitconf/current`
  (`Profiles.RootSlotNotVisited`).

## Model

| member | source | states |
|---|---|---|
| Cfg.OptionConfig.New | src/cfg.rs:107-116 | `OptionConfig::new()` holds the all-absent record `Unset` |
| Cfg.ToConfigFields | src/cfg.rs:117-129 | a present switch keeps its value and an absent one takes its default (strict false, strict git true, select-on-first-use false, show-current true, interactive false); a present settings map is kept whole, even if empty, and an absent one becomes `{user.name: "John Doe", user.email: ""}` |
| Cfg.ToConfigOfUnset | src/cfg.rs:117-129 | completing the empty accumulator gives the documented default configuration |
| Cfg.ToConfigOfFull | src/cfg.rs:117-129 | completing a document that sets every field gives back exactly what it sets |
| Cfg.TestToConfig | src/cfg.rs:173-193 | the crate's `test_to_config`: absent `Interactive` turns into false, the rest is copied |
| Cfg.OptionConfig.Merge | src/cfg.rs:130-166 | after `merge(other)` the fields hold `Overlay(old value, other)` |
| Cfg.InsertAll | src/cfg.rs:160-162 | inserting every incoming entry yields the union in which incoming entries win |
| Cfg.StrictReplaces | src/cfg.rs:131-137 | an incoming `Strict = true` replaces the whole accumulator, absent fields included |
| Cfg.PresentFlagWins | src/cfg.rs:139-153 | otherwise each switch becomes the incoming one exactly when that is present, and is kept when it is absent |
| Cfg.SettingsUnion | src/cfg.rs:154-164 | otherwise an incoming map is unioned into the accumulated one (absent counts as empty): keys are the union, incoming values win, other keys keep their values; an absent incoming map leaves the accumulated one unchanged |
| Cfg.MergeUnsetRight | src/cfg.rs:130-166 | merging the empty document changes nothing |
| Cfg.MergeUnsetLeft | src/cfg.rs:130-166 | merging into the empty accumulator gives the document itself |
| Cfg.MergeIdempotent | src/cfg.rs:130-166 | merging the same document twice is merging it once |
| Cfg.MergeAssociative | src/cfg.rs:130-166 | merging is associative unless a strict document is followed by one with `Strict = false` |
| Cfg.MergeNotAssociative | src/cfg.rs:130-166 | that exception is real: a concrete triple on which the two groupings differ |
| Cfg.MergeAllAfterStrict | src/cfg.rs:131-137 | in a sequence of merges everything before a strict document is irrelevant |
| Cfg.LatestFlagWins | src/cfg.rs:139-153 | a switch takes the value of the last document that sets it, as long as no strict document follows it |
| Cfg.TestMerge | src/cfg.rs:223-269 | the crate's `test_merge`: the strict second document drops key "a" and the first document's switches |
| Cfg.KeyOf | src/cfg.rs:43-46 | `split_once("=")`: none exactly when the line has no '='; otherwise the part before the first '=' |
| Cfg.Git.Spawn | src/cfg.rs:34-40 | a spawn succeeds unless it is the failing one; only a successful spawn is logged |
| Cfg.KeysInSomeOrder | src/cfg.rs:68 | the settings map yields each of its keys exactly once, in some order |
| Cfg.SanitiseLine | src/cfg.rs:42-65 | one listed line: no command for a line without '=' or with a `core.`/`remote.`/`branch.` key; otherwise `--unset-all key`, then `key ""`, stopping at a failed spawn |
| Cfg.Sanitise | src/cfg.rs:33-67 | `git config --list` followed by every line's commands in order; the first failed spawn stops the phase with false |
| Cfg.SpawnPair | src/cfg.rs:50-84 | the reset-then-set pair of both phases (lines 50-65 and 69-84): `--unset-all key`, then `key value` only if the reset spawned; false at the first failed spawn |
| Cfg.PushSettings | src/cfg.rs:68-85 | for each key in the map's order, `--unset-all key` then `key value`; the first failed spawn stops with false |
| Cfg.Apply | src/cfg.rs:25-87 | without git, false and nothing spawned; otherwise, for some order of the settings keys, the spawned commands are the plan (sanitise phase when strict git, then settings) cut at the failing spawn, with true exactly when none failed |
| Cfg.OutcomeThen | src/cfg.rs:25-87 | a phase that ran through followed by another behaves as their concatenation |
| Cfg.SanitisedKeysMeaning | src/cfg.rs:42-57 | a key is blanked exactly when some listed line has it before its first '=' and it is unprotected |
| Cfg.RunSanitise | src/cfg.rs:42-65 | the sanitise commands set every blanked key to "" and change nothing else |
| Cfg.RunSettings | src/cfg.rs:68-85 | the settings commands leave each key of the settings at its configured value and change nothing else |
| Cfg.ApplyEffect | src/cfg.rs:25-87 | whatever the map's order, a complete `apply` leaves git's settings as the old ones with the blanked keys set to "" (strict git only), overlaid with the configured settings |
| Cfg.ApplyAndProtectedKeys | src/cfg.rs:47-49 | after a complete `apply` a protected key named in the settings holds its configured value; one not named keeps its old value or stays absent |
| Pth.PathIter.New | src/pth.rs:18-24 | a new iterator at `path`, with `end` false and `last` the root, still has the whole walk from `path` to yield |
| Pth.PathIter.Next | src/pth.rs:33-48 | returns the first of the walk's remaining yields and drops it; none once the walk is over, and from then on always none |
| Pth.Collect | src/pth.rs:31-49 | collecting the iterator gives the whole walk |
| Pth.AncestorsClosedForm | src/pth.rs:33-48 | the walk from `p` is `p` and each ancestor but the root, longest first, then `/etc` unless `/etc` was just yielded |
| Pth.AncestorsEnds | src/pth.rs:33-48 | the walk is never empty, starts at `p` (at `/etc` for the root) and ends at `/etc` |
| Pth.AncestorsShape | src/pth.rs:37-45 | the root is never yielded; each yield is followed by its parent (or `/etc`); no two consecutive yields are equal; at most one yield more than `p` has components |
| Pth.TestAbc | src/pth.rs:33-48 | `/a/b/c` yields `/a/b/c`, `/a/b`, `/a`, `/etc` |
| Pth.TestEtc | src/pth.rs:41-45 | `/etc/x` yields `/etc/x`, then `/etc` once |
| Pth.TestRoot | src/pth.rs:37-39 | `/` yields only `/etc` |
| Profiles.Prepend | src/profiles.rs:9-17 | the result starts with the new element, followed by the old vector |
| Profiles.Suffixed | src/profiles.rs:25-28 | every candidate gains `.gitconf/<leaf>`, in place, nothing reordered |
| Profiles.SuffixAll | src/profiles.rs:25-28 | the in-place loop computes `Suffixed` |
| Profiles.VisitOrder | src/profiles.rs:22-29 | candidates are visited from `/etc` first to `cur/.git` last, with the level of `cur` just before it |
| Profiles.LevelFoundMeaning | src/profiles.rs:30-54 | a `current` level contributes exactly when it is a readable directory whose only entry reads and parses |
| Profiles.ReadCurrent | src/profiles.rs:30-53 | the loop body for one `current` candidate yields that level's contribution |
| Profiles.GetCurrentConfigForPath | src/profiles.rs:19-63 | the configuration is the defaults-completed merge of the contributing levels' documents in visit order; the reported path is the last contributing file |
| Profiles.ClosestFlagWins | src/profiles.rs:29-55 | a switch takes its value from the closest contributing level that sets it, unless a closer strict level resets it |
| Profiles.StrictLevelDiscardsFarther | src/profiles.rs:29-55 | a strict level makes every farther level irrelevant |
| Profiles.RepositoryLevelWins | src/profiles.rs:23-24 | a document in `cur/.git/.gitconf/current` is reported, and every switch it sets keeps its value |
| Profiles.StackHasKey | src/profiles.rs:101 | a name is in the map built by successive inserts exactly when some level inserted it |
| Profiles.StackLastWins | src/profiles.rs:101 | its value comes from the last level that inserted it |
| Profiles.ReadAndParse | src/profiles.rs:85-99 | a candidate file yields a document exactly when it reads and parses |
| Profiles.LoadEntries | src/profiles.rs:82-102 | the loop over a directory's entries adds every readable, parseable entry by name, overwriting earlier names |
| Profiles.ReadProfiles | src/profiles.rs:80-103 | one `profiles` candidate adds what its directory offers; an unreadable directory adds nothing |
| Profiles.GetProfilesForPath | src/profiles.rs:70-107 | the result is the levels' offers laid over one another in visit order |
| Profiles.ProfilesFromSomeLevel | src/profiles.rs:79-103 | a name is a profile exactly when some visited level has an entry of that name that reads and parses |
| Profiles.ProfilesClosestWins | src/profiles.rs:79-103 | a profile maps to its entry in the closest level that offers the name; an unreadable or unparseable closer file does not displace a farther one |
| Profiles.Disk.RemoveDirAll | src/profiles.rs:131 | succeeds exactly when every directory below the path is listable, and then removes the whole subtree |
| Profiles.Disk.RemoveFile | src/profiles.rs:136 | removes a file and nothing else |
| Profiles.Disk.CreateDirAll | src/profiles.rs:142 | succeeds exactly when nothing on the way is a file, and then adds the missing directories |
| Profiles.Disk.Copy | src/profiles.rs:147 | succeeds exactly when the source is a readable file and the target's directory exists, and then writes the content at the target |
| Profiles.SetProfile | src/profiles.rs:114-152 | the slot is `dst/.git/.gitconf/current` when `dst/.git` exists and `dst/.gitconf/current` otherwise; true exactly when every step can run, leaving the installed state; a failure leaves the state after the last step that ran |
| Profiles.InstalledFrame | src/profiles.rs:114-152 | nothing outside the slot changes; new paths are the slot's missing ancestors or lie under the slot |
| Profiles.InstalledSlot | src/profiles.rs:129-150 | after success the slot is a readable directory whose only entry is the copy, holding the source's content |
| Profiles.InstalledSlotListable | src/profiles.rs:129-150 | after success the slot is a readable directory that a second removal can list |
| Profiles.RecreatedSlot | src/profiles.rs:129-143 | removing the freshly made slot and creating it again gives back the same file system |
| Profiles.InstalledIsCurrent | src/profiles.rs:129-150 | discovery reads the installed copy from that level, as the document the source parses to |
| Profiles.GitLevelAbsent | src/profiles.rs:114-128 | without `dst/.git`, installing creates no `dst/.git/.gitconf/current` |
| Profiles.SetThenGet | src/profiles.rs:19-63 | after a profile is set for a directory other than the root, looking up the current configuration from that directory reports the copy, and its document is merged last |
| Profiles.SetProfileIdempotent | src/profiles.rs:114-152 | a second activation of the same file for the same directory picks the same slot, succeeds and changes nothing |
| Profiles.RootSlotNotVisited | src/profiles.rs:114-128 | the slot set for `/` is not one of the directories discovery from `/` reads |
| Newline.Dos2Unix | vendor/newline-converter/src/lib.rs:34-65 | the result's text is the input with every CR that precedes an LF dropped; the result is borrowed exactly when the input has no CRLF, and then it is the input |
| Newline.KeptFromIsReplaceCrlf | vendor/newline-converter/src/lib.rs:40-59 | what the loop appends from position i on is the conversion of the rest of the input |
| Newline.ReplaceCrlfLength | vendor/newline-converter/src/lib.rs:46-47 | the output is shorter by the number of CRLF pairs |
| Newline.ReplaceCrlfKeepsLineFeeds | vendor/newline-converter/src/lib.rs:40-59 | every LF survives |
| Newline.ReplaceCrlfChangesIffPair | vendor/newline-converter/src/lib.rs:61-64 | the text changes exactly when it has a CRLF pair |
| Newline.ReplaceCrlfNotIdempotent | vendor/newline-converter/src/lib.rs:40-59 | converting twice can differ from converting once: "\r\r\n" gives "\r\n", then "\n" |
| Newline.Unix2Dos | vendor/newline-converter/src/lib.rs:80-108 | the result's text has a CR inserted before every LF not already after a CR; borrowed exactly when every LF already follows a CR, and then it is the input |
| Newline.NoInsertionIffEveryLfAfterCr | vendor/newline-converter/src/lib.rs:87 | the insertion condition never fires exactly when every LF already follows a CR |
| Newline.AddedFromIsReplaceBareLf | vendor/newline-converter/src/lib.rs:86-102 | what the loop appends from position i on is the conversion of the rest of the input |
| Newline.ReplaceBareLfLeavesNoBareLf | vendor/newline-converter/src/lib.rs:86-102 | after conversion every LF follows a CR |
| Newline.ReplaceBareLfFixesDosText | vendor/newline-converter/src/lib.rs:104-107 | text whose LFs all follow a CR is unchanged |
| Newline.ReplaceBareLfIdempotent | vendor/newline-converter/src/lib.rs:80-108 | converting twice is converting once |
| Newline.ReplaceBareLfLength | vendor/newline-converter/src/lib.rs:89-90 | output length plus CRLF pairs equals input length plus LFs |
| Newline.ReplaceCrlfAfterReplaceBareLf | vendor/newline-converter/src/lib.rs:34-108 | `dos2unix` after `unix2dos` equals `dos2unix` alone |
| Newline.RoundTrip | vendor/newline-converter/src/lib.rs:34-108 | text without CRLF comes back unchanged from `unix2dos` then `dos2unix` |
| Newline.CrlfPlainPrefix | vendor/newline-converter/src/lib.rs:40-59 | a prefix without LF passes `dos2unix` unchanged, unless it ends in a CR that the rest pairs with an LF |
| Newline.BareLfPlainPrefix | vendor/newline-converter/src/lib.rs:86-102 | the same for `unix2dos` |
| Newline.NoLineFeedUnchanged | vendor/newline-converter/src/lib.rs:34-108 | text without LF is left alone by both conversions |
| Newline.LineBreaks | vendor/newline-converter/src/lib.rs:34-108 | a lone CRLF and a lone LF convert as documented |
| Newline.TestMiddleDos2Unix | vendor/newline-converter/src/lib.rs:115-118 | test `middle`, dos2unix half, for any two words (texts without CR or LF) in place of "foo" and "bar" |
| Newline.TestMiddleUnix2Dos | vendor/newline-converter/src/lib.rs:115-118 | test `middle`, unix2dos half, for any two words (texts without CR or LF) in place of "foo" and "bar" |
| Newline.TestBeginningDos2Unix | vendor/newline-converter/src/lib.rs:121-124 | test `beginning`, dos2unix half, for any word in place of "foobar" |
| Newline.TestBeginningUnix2Dos | vendor/newline-converter/src/lib.rs:121-124 | test `beginning`, unix2dos half, for any word in place of "foobar" |
| Newline.TestEndDos2Unix | vendor/newline-converter/src/lib.rs:127-130 | test `end`, dos2unix half, for any word in place of "foobar" |
| Newline.TestEndUnix2Dos | vendor/newline-converter/src/lib.rs:127-130 | test `end`, unix2dos half, for any word in place of "foobar" |
| Newline.TestAllDos2Unix | vendor/newline-converter/src/lib.rs:133-136 | test `all`, dos2unix half, for any two words in place of "foo" and "bar" |
| Newline.TestAllUnix2Dos | vendor/newline-converter/src/lib.rs:133-136 | test `all`, unix2dos half, for any two words in place of "foo" and "bar" |
| Newline.TestAdvancedDos2Unix | vendor/newline-converter/src/lib.rs:139-142 | test `advanced`: a lone CR survives dos2unix, for any two words in place of "foo" and "bar" |
| Newline.TestAdvancedUnix2Dos | vendor/newline-converter/src/lib.rs:139-142 | test `advanced`: existing CRLF is respected by unix2dos, for any two words in place of "foo" and "bar" |
| Newline.TestNotMutated | vendor/newline-converter/src/lib.rs:144-163 | tests `not_mutated_*`: with the methods' contracts both inputs come back borrowed |
| Newline.TestMutated | vendor/newline-converter/src/lib.rs:150-172 | tests `mutated_*`: with the methods' contracts both inputs come back owned |
| Newline.BytePrefixOfAscii | vendor/newline-converter/src/lib.rs:48 | on ASCII text a byte offset and a character index agree |
| Newline.Dos2UnixAsWrittenOnAscii | vendor/newline-converter/src/lib.rs:34-65 | on ASCII text the code as written agrees with `Dos2Unix` |
| Newline.Unix2DosAsWrittenOnAscii | vendor/newline-converter/src/lib.rs:80-108 | on ASCII text the code as written agrees with `Unix2Dos` |
| Newline.Dos2UnixAsWrittenLosesText | vendor/newline-converter/src/lib.rs:48 | as written, "éa\r\n" becomes "é\n" instead of "éa\n" |
| Newline.Dos2UnixAsWrittenPanics | vendor/newline-converter/src/lib.rs:48 | as written, "é\r\n" splits inside 'é' and panics |
| Newline.Unix2DosAsWrittenLosesText | vendor/newline-converter/src/lib.rs:91 | as written, "éa\n" becomes "é\r\n" instead of "éa\r\n" |
| Newline.Unix2DosAsWrittenPanics | vendor/newline-converter/src/lib.rs:91 | as written, "é\n" splits inside 'é' and panics |

## Left out

- src/main.rs (argument handling, the interactive prompts, exit codes) is not part of this model. The same goes for the `get_current_config` and `get_current_profiles` wrappers, which only read the process's current directory (src/profiles.rs:65-68, 109-112).
- TOML parsing (`toml::from_str` into `OptionConfig`) is the parameter `parse`. So the parsing tests at src/cfg.rs:195-221 are not modelled.
- Logging (`log::warn!`, `log::error!`) is left out: it does not affect results.
- The iteration orders of `HashMap` and of `read_dir` are left open. `Cfg.Apply` holds for some order of the settings keys, and the discovery results do not depend on entry order.
- Errors on individual `read_dir` entries (src/profiles.rs:34, 83) are left out: every entry of a readable directory is listed.
- Symbolic links, relative paths, `..` components, the root's rendering as "/", and conversions between paths and strings (`to_str`, `into_string().unwrap()`) are left out. Paths are absolute component sequences, so the `to_str() == "/"` test at src/pth.rs:37 is `buf == Root`.
- `String::from_utf8_lossy` and the exact splitting of `lines()` are left out: the listing of `git config --list` is a sequence of line strings.
- Git holds one value per key here. Multi-valued keys, which `--unset-all` exists for, are not modelled.
- Cfg.Run: assumes git accepts every command it is given. Real git exits with an error and changes nothing when run outside a repository or given a key name it rejects; the code still counts these as successes, but `Cfg.ApplyEffect` then describes settings git never took.
- Only spawn failures of `git` are modelled. A git command that runs but exits with an error status counts as a success, as it does in the code, which only checks that the process could be spawned.
- Profiles.Disk.RemoveDirAll: a `remove_dir_all` that fails part-way, after deleting some entries, is not modelled. The call either removes the whole subtree or nothing.
- Write permissions are left out: removing, creating and copying fail only for the reasons the model names (an unlistable directory, a file on the way, an unreadable source, a missing target directory).
- Profiles.SetProfile: requires the source path to have a last component. The code calls `file_name().unwrap()` only after removing and recreating the slot (src/profiles.rs:146), and would panic there on the root.
- Profiles.SetProfile: on failure the contract says which intermediate state is left (nothing changed, slot removed, or slot recreated). It does not promise when each one occurs beyond the success condition.
- vendor/newline-converter/benches/bench.rs (benchmarks) is not part of this model.
- Newline.Dos2Unix and Newline.Unix2Dos give the evidently intended behaviour. The byte-offset defect of the code as written is modelled separately, under Findings.
- The `String::with_capacity` sizes (vendor/newline-converter/src/lib.rs:46-47, 89-90) affect only allocation. They appear only in the length lemmas.

## Findings

| source | as written | input that shows it | evidently intended | confidence | as-written member | corrected member |
|---|---|---|---|---|---|---|
| vendor/newline-converter/src/lib.rs:48 | `input.split_at(i)` where `i` comes from `chars().enumerate()`, a character index used as a byte offset | "éa\r\n" gives "é\n" (the 'a' is lost); "é\r\n" splits inside 'é' and panics | copy the text before the first CRLF, i.e. the first `i` characters | not executed | Newline.Dos2UnixAsWritten (with Newline.Dos2UnixAsWrittenLosesText, Newline.Dos2UnixAsWrittenPanics) | Newline.Dos2Unix |
| vendor/newline-converter/src/lib.rs:91 | the same character index passed to `split_at` as a byte offset | "éa\n" gives "é\r\n" (the 'a' is lost); "é\n" splits inside 'é' and panics | copy the text before the first bare LF, i.e. the first `i` characters | not executed | Newline.Unix2DosAsWritten (with Newline.Unix2DosAsWrittenLosesText, Newline.Unix2DosAsWrittenPanics) | Newline.Unix2Dos |
