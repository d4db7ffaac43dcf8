# Skill validator and packager, modelled in Dafny

This project models the core of `package_skill.py` from the socratic-ideation-tree
skill. That core is the validator that decides whether a skill folder's `SKILL.md`
front matter is acceptable, and the packager that refuses an invalid folder and
otherwise zips every file of the folder into `<folder>.skill`.

- `strings.dfy` (module `Strings`) holds the Python `str` operations the validator
  uses: `strip()` with Python's full whitespace set, `startswith`/`endswith`,
  substring `in`, the code-point ordering of `str`, `sorted(set(...))`,
  `', '.join(...)` and `str(n)`.
- `frontmatter.dfy` (module `Frontmatter`) cuts the front-matter block out of the
  file text. This is the anchored, non-greedy, dot-matches-newline match
  `^---\n(.*?)\n---`. The module also says what the YAML loader returns: a
  dictionary (as its key/value pairs), a document that is not a dictionary, or a
  loader error.
- `validator.dfy` (module `SkillValidator`) is `validate_skill`, a first-failure-wins
  chain. `Diagnose` reports which step ended the chain as a `Verdict`.
  `ValidateSkill` turns that into the `(valid, message)` pair, or into the
  exception that escapes. Each check is paired with a declarative predicate
  (`NameRulesHold`, `DescriptionRulesHold`, `FrontmatterOk`). The contracts tie
  the computed check to that predicate in both directions, and say which
  violation is reported when several hold.
- `packager.dfy` (module `SkillPackager`) is `package_skill`. It is a method that
  runs the existence checks and the validation gate. It then walks the folder in
  a loop, adding one archive entry per regular file. The entry name is the
  file's path relative to the folder's parent.
- `validator_examples.dfy` (module `ValidatorExamples`) holds concrete cases. These
  are `My_Skill`, `-abc`, `my--skill`, a 65-character name, `<script>`, a
  1025-character description and an extra key `foo`. It also fixes the
  sorted listing of the allowed keys.

Inputs the model takes as parameters:

- Whether SKILL.md and the folder exist, and whether the folder is a directory,
  are booleans.
- The file text is a `string`. It is what `read_text()` returns, so newlines are
  already translated.
- The YAML loader is a function `parse: string -> Parsed`.
- The resolved skill path, output directory and working directory are sequences
  of path segments.
- The recursive walk is a sequence of `WalkItem`s. Each item gives the path
  below the folder, whether it is a regular file, and whether writing it into
  the archive succeeds.

Two behaviours of the code are easy to miss.

- Every failure inside `validate_skill` returns a `(False, message)` pair, and
  `package_skill`'s docstring (`package_skill.py:107-108`) promises a path or
  `None`. Yet a non-string YAML key (such as `1:` or `null:`) reaches
  `', '.join(sorted(...))` at `package_skill.py:61`, which raises `TypeError`,
  and nothing catches it. The model follows the code: `ValidateSkill` gives
  `Raised("TypeError")` (verdict `UnjoinableKeys`), and `PackageSkill` ends in
  `ValidationRaised`.
- The name test at `package_skill.py:78` is `re.match(r'^[a-z0-9-]+$', name)`.
  Without MULTILINE, Python's `$` also matches just before a final newline, and
  `MatchesNamePattern` models that. `NamePatternOnStripped` shows it makes no
  difference here, because the name is stripped first.

## Model

| member | source | states |
|---|---|---|
| `Strings.Strip` | socratic-ideation-tree/scripts/package_skill.py:75 | `strip()` yields the empty string exactly when the input is all whitespace; otherwise the result starts and ends with a non-whitespace character |
| `Strings.StripSlice` | socratic-ideation-tree/scripts/package_skill.py:75 | what `strip()` keeps is a contiguous slice of the input with only whitespace on either side |
| `Strings.StripSurrounded` | socratic-ideation-tree/scripts/package_skill.py:89 | any whitespace around a core with non-space ends is removed and the core is exactly what remains |
| `Strings.StripIdempotent` | socratic-ideation-tree/scripts/package_skill.py:75 | stripping twice equals stripping once |
| `Strings.StartsWith` | socratic-ideation-tree/scripts/package_skill.py:36 | `s.startswith(prefix)` holds exactly when the prefix fits and matches `s` character by character |
| `Strings.EndsWith` | socratic-ideation-tree/scripts/package_skill.py:80 | `s.endswith(suffix)` holds exactly when the suffix fits and matches the end of `s` character by character |
| `Strings.FindFrom` | socratic-ideation-tree/scripts/package_skill.py:40 | returns the least index at or after the start where the pattern occurs, or none when it occurs nowhere after it |
| `Strings.Contains` | socratic-ideation-tree/scripts/package_skill.py:80 | `pat in s` holds exactly when `pat` occurs at some index of `s` |
| `Strings.ContainsPair` | socratic-ideation-tree/scripts/package_skill.py:80 | `'--' in name` holds exactly when two adjacent characters are both hyphens |
| `Strings.ContainsChar` | socratic-ideation-tree/scripts/package_skill.py:91 | `'<' in description` holds exactly when the character occurs |
| `Strings.LessIrreflexive` | socratic-ideation-tree/scripts/package_skill.py:61 | no string sorts before itself |
| `Strings.LessTransitive` | socratic-ideation-tree/scripts/package_skill.py:61 | Python's string order is transitive |
| `Strings.LessTotal` | socratic-ideation-tree/scripts/package_skill.py:61 | any two distinct strings are ordered one way or the other |
| `Strings.LessAsymmetric` | socratic-ideation-tree/scripts/package_skill.py:61 | two strings are never each below the other |
| `Strings.Insert` | socratic-ideation-tree/scripts/package_skill.py:61 | inserting into a strictly sorted listing keeps it strictly sorted and adds exactly the new element |
| `Strings.SortedSet` | socratic-ideation-tree/scripts/package_skill.py:61-62 | `sorted(set(xs))` is strictly increasing and holds exactly the elements of `xs` |
| `Strings.SortedListingUnique` | socratic-ideation-tree/scripts/package_skill.py:61-62 | two strictly sorted listings of the same elements are equal, so the listing in the message is determined by the key set |
| `Strings.Join` | socratic-ideation-tree/scripts/package_skill.py:61-62 | `sep.join(xs)` is empty for no elements and a lone element unchanged, and no element is longer than the result |
| `Strings.JoinEnds` | socratic-ideation-tree/scripts/package_skill.py:61-62 | a join of one or more strings opens with the first and closes with the last |
| `Strings.NatToString` | socratic-ideation-tree/scripts/package_skill.py:83 | `str(len(name))` is a non-empty string of decimal digits without a leading zero |
| `Strings.NatToStringRoundTrip` | socratic-ideation-tree/scripts/package_skill.py:94 | reading back the digits of `str(n)` gives `n` |
| `Frontmatter.Extract` | socratic-ideation-tree/scripts/package_skill.py:36-44 | the result is "no front matter" exactly when the text does not start with `---`. A block is found exactly when the text starts with `---\n` and a `\n---` occurs at index 4 or later. The block is the text between them, and no `\n---` starts before the block ends |
| `Frontmatter.BlockHasNoClosingFence` | socratic-ideation-tree/scripts/package_skill.py:40-44 | the extracted block never contains `\n---` itself (the match is the shortest one) |
| `Frontmatter.OccursWithin` | socratic-ideation-tree/scripts/package_skill.py:40 | an occurrence inside the block is an occurrence in the whole text |
| `Frontmatter.HasKey` | socratic-ideation-tree/scripts/package_skill.py:66-69 | `key in frontmatter` holds exactly when some pair of the loaded mapping has that key |
| `Frontmatter.Lookup` | socratic-ideation-tree/scripts/package_skill.py:72 | `frontmatter.get(key)` on a present key is the value of the key's last occurrence |
| `SkillValidator.HyphenCaseRun` | socratic-ideation-tree/scripts/package_skill.py:78 | `[a-z0-9-]+` consumes the whole string exactly when the string is non-empty and every character is a lowercase ASCII letter, a digit or a hyphen |
| `SkillValidator.MatchesNamePattern` | socratic-ideation-tree/scripts/package_skill.py:78 | `re.match(r'^[a-z0-9-]+$', s)` succeeds exactly when `s`, less one final newline if it has one, is non-empty and all hyphen-case |
| `SkillValidator.NamePatternOnStripped` | socratic-ideation-tree/scripts/package_skill.py:78 | on a stripped non-empty name, `re.match(r'^[a-z0-9-]+$')` succeeds exactly when every character is hyphen-case |
| `SkillValidator.HyphenChecks` | socratic-ideation-tree/scripts/package_skill.py:80 | the `startswith('-')`/`endswith('-')`/`'--' in` test holds exactly when a hyphen leads, trails or is doubled |
| `SkillValidator.CheckNameText` | socratic-ideation-tree/scripts/package_skill.py:75-83 | a stripped name passes exactly when it is empty or hyphen-case, has no misplaced hyphen and has at most 64 characters. The pattern violation is reported first, then the hyphen violation, then the length (with the actual length) |
| `SkillValidator.CheckName` | socratic-ideation-tree/scripts/package_skill.py:71-83 | a non-string `name` fails with its type name before any content rule runs. A string passes exactly when its stripped text meets the name rules |
| `SkillValidator.NamePaddingIgnored` | socratic-ideation-tree/scripts/package_skill.py:75 | whitespace around a name changes nothing; the rules see the stripped text only |
| `SkillValidator.CheckDescriptionText` | socratic-ideation-tree/scripts/package_skill.py:89-94 | a stripped description passes exactly when it is empty, or has no `<`/`>` and at most 1024 characters. An angle bracket is reported before the length |
| `SkillValidator.CheckDescription` | socratic-ideation-tree/scripts/package_skill.py:85-94 | a non-string `description` fails with its type name before any content rule runs. A string passes exactly when its stripped text meets the description rules |
| `SkillValidator.DescriptionPaddingIgnored` | socratic-ideation-tree/scripts/package_skill.py:89 | whitespace around a description changes nothing |
| `SkillValidator.UnexpectedKeyNodes` | socratic-ideation-tree/scripts/package_skill.py:55-58 | `set(keys) - ALLOWED_PROPERTIES` holds exactly the keys present that are not one of the five allowed strings |
| `SkillValidator.Message` | socratic-ideation-tree/scripts/package_skill.py:32-96 | each returned verdict's text is the message the source writes for it (an unexpected-key message lists the keys and the sorted allowed set). The success message belongs to `Valid` alone |
| `SkillValidator.NameViolation.Message` | socratic-ideation-tree/scripts/package_skill.py:74-83 | every message about `name` opens with `Name ` |
| `SkillValidator.DescriptionViolation.Message` | socratic-ideation-tree/scripts/package_skill.py:88-94 | every message about `description` opens with `Description ` |
| `SkillValidator.CheckEntries` | socratic-ideation-tree/scripts/package_skill.py:54-96 | passes exactly when `FrontmatterOk` holds. A non-string key raises, and otherwise any unknown key fails, both before the required-field checks. The unknown keys are listed strictly sorted and exactly. Then a missing `name` fails, then a missing `description`. Each verdict holds exactly when its own check fails and every earlier one passed. So `name`'s violation is reported when both fields are present, and `description`'s exactly when `name` passed as well |
| `SkillValidator.Diagnose` | socratic-ideation-tree/scripts/package_skill.py:29-52 | a missing SKILL.md is reported first, then a text not starting with `---`, then a malformed block. A well-formed block is judged by the loader's result: a loader error gives `InvalidYaml` with its diagnostic, a non-dictionary gives `NotADictionary`, and a dictionary gives `CheckEntries`' verdict. The verdict is `Valid` exactly when every check of the chain holds |
| `SkillValidator.Report` | socratic-ideation-tree/scripts/package_skill.py:60-63 | only the non-string-key verdict raises. Every other verdict returns its own `Message`, with a flag that is true exactly for `Valid` |
| `SkillValidator.ValidateSkill` | socratic-ideation-tree/scripts/package_skill.py:25-96 | returns `(True, "Skill is valid!")` exactly when every check passes, and a true flag always comes with that message. It states the "SKILL.md not found" and "No YAML frontmatter found" results. "Invalid frontmatter format" is returned both for `---` without a following newline and for a block with no closing `\n---`. It also states the "Invalid YAML in frontmatter: …" and "Frontmatter must be a YAML dictionary" results. A dictionary gets `CheckEntries`' verdict with its message. An escaping exception is a `TypeError` |
| `SkillPackager.Parent` | socratic-ideation-tree/scripts/package_skill.py:153 | a non-root path is its parent followed by its name |
| `SkillPackager.ArcName` | socratic-ideation-tree/scripts/package_skill.py:153 | the entry name, appended to the folder's parent, gives the file's full path (`relative_to(skill_path.parent)`) |
| `SkillPackager.ArcNameUnderFolder` | socratic-ideation-tree/scripts/package_skill.py:153 | for a non-root folder, the entry name is the folder name followed by the file's path inside the folder |
| `SkillPackager.ArchivePath` | socratic-ideation-tree/scripts/package_skill.py:136-144 | the archive's name is `<folder name>.skill`, and its parent is the output directory when one is given, otherwise the working directory |
| `SkillPackager.FolderName` | socratic-ideation-tree/scripts/package_skill.py:137 | `Path.name` is the segment after the parent; the root's name is empty |
| `SkillPackager.Entries` | socratic-ideation-tree/scripts/package_skill.py:150-154 | the walk yields at most one entry per item, and none when it holds no regular file (`EntriesExact` gives the exact set) |
| `SkillPackager.EntriesExact` | socratic-ideation-tree/scripts/package_skill.py:150-154 | the entries are exactly the arc names of the walk's regular files; directories get no entry |
| `SkillPackager.EntriesSound` | socratic-ideation-tree/scripts/package_skill.py:150-154 | every archive entry is the arc name of some regular file of the walk |
| `SkillPackager.EntriesComplete` | socratic-ideation-tree/scripts/package_skill.py:150-154 | every regular file of the walk has its arc name among the entries |
| `SkillPackager.EntriesCount` | socratic-ideation-tree/scripts/package_skill.py:150-154 | the number of entries equals the number of walk positions that hold a regular file |
| `SkillPackager.EntriesUnderFolder` | socratic-ideation-tree/scripts/package_skill.py:153 | every entry of a non-root folder has the folder's name as its first segment |
| `SkillPackager.WriteEntries` | socratic-ideation-tree/scripts/package_skill.py:147-162 | the loop completes exactly when every regular file writes, and then yields the entries in walk order. When it stops, it stops at the first failing file, with the entries of the files before it |
| `SkillPackager.PackageSkill` | socratic-ideation-tree/scripts/package_skill.py:110-162 | each outcome holds exactly when its condition does. A missing path, a non-directory and a missing SKILL.md are refused in that order. A failed validation is refused with the validator's message, and an exception from it passes through unchanged. No archive is started unless validation returned `(True, "Skill is valid!")`. After that, the skill is packaged exactly when every file writes, and otherwise the archive fails at the first file that does not. A packaged archive's path and entries follow `ArchivePath` and `Entries`, and every entry starts with the folder name. A failed archive keeps the entries of the files before the failing one |
| `ValidatorExamples.SortedAllowed` | socratic-ideation-tree/scripts/package_skill.py:55 | `sorted(ALLOWED_PROPERTIES)` is `allowed-tools, description, license, metadata, name` |
| `ValidatorExamples.AllowedListingValue` | socratic-ideation-tree/scripts/package_skill.py:62 | the allowed-properties half of the message is `allowed-tools, description, license, metadata, name` |
| `ValidatorExamples.UpperCaseAndUnderscoreRejected` | socratic-ideation-tree/scripts/package_skill.py:78-79 | `My_Skill` fails the hyphen-case pattern |
| `ValidatorExamples.LeadingHyphenRejected` | socratic-ideation-tree/scripts/package_skill.py:80-81 | `-abc` fails the hyphen-placement rule |
| `ValidatorExamples.DoubleHyphenRejected` | socratic-ideation-tree/scripts/package_skill.py:80-81 | `my--skill` fails the hyphen-placement rule |
| `ValidatorExamples.SixtyFiveCharacterNameRejected` | socratic-ideation-tree/scripts/package_skill.py:82-83 | a 65-character name fails the length rule, reporting 65 |
| `ValidatorExamples.ValidNameAccepted` | socratic-ideation-tree/scripts/package_skill.py:75-83 | `my-skill` passes every name rule |
| `ValidatorExamples.BlankNameAccepted` | socratic-ideation-tree/scripts/package_skill.py:75-76 | a whitespace-only name passes unchecked |
| `ValidatorExamples.ScriptTagRejected` | socratic-ideation-tree/scripts/package_skill.py:91-92 | a description containing `<script>` fails the angle-bracket rule |
| `ValidatorExamples.LongDescriptionRejected` | socratic-ideation-tree/scripts/package_skill.py:93-94 | a 1025-character description fails the length rule, reporting 1025 |
| `ValidatorExamples.ExtraKeyVerdict` | socratic-ideation-tree/scripts/package_skill.py:57-63 | an extra key `foo` is reported alone, even though `description` is missing as well |
| `ValidatorExamples.ExtraKeyMessage` | socratic-ideation-tree/scripts/package_skill.py:60-63 | the message names `foo` and the full sorted allowed set |
| `ValidatorExamples.ExtraKeyReported` | socratic-ideation-tree/scripts/package_skill.py:57-63 | for any SKILL.md text whose block loads as that dictionary, validation returns `(False, …)` with that message |

## Left out

- `init_project.py` is not part of this model. It creates directories, writes fixed template text and reads the current date, so it has no logic to state beyond which paths get written.
- The YAML loader (`yaml.safe_load`) is an opaque parameter. Its `YAMLError` is the `YamlError` variant, and its diagnostic text is an input.
- `type(x).__name__` for a non-string value is an input: the `typeName` of `NonStr`.
- Python's equality of keys of different types (`1 == True`) is not modelled. Any such key is a non-string key and raises anyway.
- File-system access is not modelled: `exists`, `is_dir`, `read_text`, `resolve`, `Path.cwd` and `mkdir(parents=True, exist_ok=True)`. Their outcomes are parameters. A failing `mkdir`, or a `read_text` decoding error, raises outside any handler; the model does not include these.
- The zip format, the DEFLATE compression and the file bytes are not modelled. Entries are their names only. A failure to open the archive file is not modelled; a failure to write one file is (`WalkItem.writes`).
- The order of the recursive walk is an input. The model keeps walk order for the entries, and `EntriesExact` gives their set.
- `print` output, `sys.exit` codes and both `main` functions are command-line plumbing and are not modelled.
- SkillValidator.Report: the raised `TypeError` is modelled by its class name only, not by its message text.
