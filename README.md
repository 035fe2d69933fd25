# Extension names of the PIE installer, in Dafny

This project models `Php\Pie\ExtensionName`, the value type that the PIE
installer uses for the canonical name of a PHP extension. The class follows
the smart-constructor pattern. Its private constructor admits a string only
when the string matches the PEAR package-name pattern `^[A-Za-z][a-zA-Z0-9_]+$`.
Two public factories lead to the constructor:

- `normaliseFromString` drops one optional leading `ext-`.
- `determineFromComposerPackage` takes the candidate from a Composer package.
  A non-empty string under `extension-name` in the package's php-ext metadata
  wins. Otherwise the candidate is the part after the `/` of the pretty name
  `vendor/package`.

The value then offers the bare name and the name with the `ext-` prefix.

Files:

- `wrappers.dfy`: `Option` for the nullable php-ext metadata and `Result` for
  the exceptions the factories throw.
- `php_strings.dfy`: the PHP built-ins involved. `str_starts_with` is
  `StartsWith`. `explode` with a one-character separator is `Explode`.
  `implode` is `Implode`, and two round-trip lemmas tie it to `Explode`.
- `name_pattern.dfy`: the package-name pattern. It is given as the regular
  expression walks it (`MatchesPattern`) and as a plain statement of the
  admitted strings (`IsValidName`); the two are proved equal. It also holds
  PCRE's actual reading of the pattern (`PcreMatchesPattern`), in which `$`
  also matches before one final newline (see Findings).
- `extension_name.dfy`: the `ExtensionName` datatype and its factories.
  The class invariant "the stored name is valid" is a type here. The name
  field has the subset type `ValidName`, so no `ExtensionName` with an
  invalid name can exist. Values are immutable and functions are
  deterministic, as the class's `@immutable` and `readonly` promise.

Exceptions become `Failure` values. `InvalidExtensionName(candidate)` is the
failed `Assert::regex`, carrying the string that was checked.
`NotVendorPackage(prettyName)` is the failed `Assert::count`. The
`Assert::keyExists($parts, 1)` that follows the count check cannot fail: two
pieces of `explode` always have the keys 0 and 1.

## Model

| member | source | states |
|---|---|---|
| `NamePattern.NameCharsToEndIff` | src/ExtensionName.php:26 | `[a-zA-Z0-9_]+$`, read strictly, matches exactly the non-empty strings made only of letters, digits and `_` |
| `NamePattern.PatternMatchesIff` | src/ExtensionName.php:26 | the strict pattern matches a string exactly when it is a valid name: an ASCII letter, then at least one more character, each a letter, a digit or `_` |
| `NamePattern.PcreNameCharsToEndIff` | src/ExtensionName.php:26 | as PCRE reads it, `[a-zA-Z0-9_]+$` also matches such a run followed by one final newline, and nothing else |
| `NamePattern.NameCharsNoNewline` | src/ExtensionName.php:26 | a strict match of the name characters contains no newline |
| `NamePattern.PcrePatternIff` | src/ExtensionName.php:26 | as written, the pattern admits exactly the valid names and the valid names followed by one `\n` |
| `NamePattern.PcreAcceptsTrailingNewline` | src/ExtensionName.php:26-40 | `"foo\n"` passes the pattern as written, yet it is not a valid name |
| `NamePattern.ValidNameShape` | src/ExtensionName.php:26 | a valid name has length at least 2, contains no `/`, `-` or newline, and never starts with `ext-` |
| `PhpStrings.Explode` | src/ExtensionName.php:57 | `explode` yields one more piece than there are separators, and no piece contains the separator |
| `PhpStrings.ImplodeExplode` | src/ExtensionName.php:57 | joining the pieces of `explode` with the separator gives back the original string |
| `PhpStrings.ExplodeFreePrefix` | src/ExtensionName.php:57 | exploding a separator-free prefix followed by more text glues the prefix onto the first piece |
| `PhpStrings.ExplodeImplode` | src/ExtensionName.php:57 | exploding separator-free pieces joined with the separator gives back the pieces |
| `PhpStrings.ExplodeTwoPieces` | src/ExtensionName.php:57-61 | `vendor/package` with slash-free parts explodes into exactly `[vendor, package]`, with either part possibly empty |
| `PhpStrings.ExplodeTwoPiecesShape` | src/ExtensionName.php:57-61 | two pieces mean the string is the first piece, one `/`, and the second piece |
| `ExtensionNames.ExtensionName.Name` | src/ExtensionName.php:76-80 | the bare name is non-empty and valid, for every value (the class invariant) |
| `ExtensionNames.ExtensionName.NameWithExtPrefix` | src/ExtensionName.php:82-86 | the prefixed name starts with `ext-`, the rest is exactly the bare name, and it is at least 6 characters long |
| `ExtensionNames.Construct` | src/ExtensionName.php:33-44 | the constructor succeeds exactly for valid names, keeps the string unchanged, and otherwise fails with that string |
| `ExtensionNames.NormaliseFromString` | src/ExtensionName.php:67-74 | with a leading `ext-`, exactly the remainder after those 4 characters is validated and becomes the name; without one, the whole input is |
| `ExtensionNames.DetermineFromComposerPackage` | src/ExtensionName.php:46-65 | a `NotVendorPackage` failure happens only without a usable declared name and when the pretty name does not have exactly one `/`; a fallback success implies exactly one `/` |
| `ExtensionNames.NormaliseName` | src/ExtensionName.php:67-80 | normalising the bare name of any value gives back that value |
| `ExtensionNames.NormalisePrefixedName` | src/ExtensionName.php:67-86 | round trip: normalising the prefixed name of any value gives back that value |
| `ExtensionNames.NormaliseIdempotent` | src/ExtensionName.php:67-86 | if normalising `s` succeeds, normalising the prefixed name of the result gives the same result |
| `ExtensionNames.OnlyOnePrefixStripped` | src/ExtensionName.php:67-74 | `ext-ext-foo` fails as `ext-foo`, because only one prefix is stripped; `ext-foo` gives `foo` |
| `ExtensionNames.RejectedInputs` | src/ExtensionName.php:26-40 | `""`, `"a"`, `"1ab"`, `"a-b"` and `"ext-"` are all rejected, with the checked string in the error |
| `ExtensionNames.NameDeterminesValue` | src/ExtensionName.php:21-43 | a value holds nothing but its name: two values with the same name are equal |
| `ExtensionNames.DeclaredNameWins` | src/ExtensionName.php:51-64 | a non-empty string under `extension-name` is normalised as the candidate, whatever the pretty name |
| `ExtensionNames.DeclaredNameBeatsPrettyName` | src/ExtensionName.php:51-64 | with `extension-name` `foo_ext` and pretty name `vendor/other`, the result is `foo_ext`, not `other` |
| `ExtensionNames.FallbackToPackagePart` | src/ExtensionName.php:51-61 | with no metadata, no key, a non-string value or an empty string, `vendor/package` gives the normalised `package` |
| `ExtensionNames.FallbackNeedsOneSlash` | src/ExtensionName.php:57-58 | without a usable declared name, a pretty name with zero or several `/` fails with `NotVendorPackage` naming it |
| `ExtensionNames.FallbackSuccessShape` | src/ExtensionName.php:57-61 | without a usable declared name, a success means the pretty name is two pieces around one `/`, and the result is the normalised second piece |
| `ExtensionNames.VendorPackageName` | src/ExtensionName.php:57-86 | `vendor/package` with a valid `package` gives bare name `package` and prefixed name `ext-package` |
| `ExtensionNames.EmptyParts` | src/ExtensionName.php:57-61 | `vendor/` fails validation on the empty candidate, while `/pkg` is accepted as `pkg` |

## Findings

| source | as written | input that shows it | evidently intended | confidence | as-written member | corrected member |
|---|---|---|---|---|---|---|
| src/ExtensionName.php:26 | the pattern has no `D` modifier, so PCRE's `$` also matches before a final newline and the check at lines 35-40 admits a valid name followed by `\n` | `normaliseFromString("foo\n")` (or `"ext-foo\n"`) passes the check and stores a name containing a newline | reject it, as the error message at lines 38-39 says: only letters, digits and underscores | medium, not executed | `NamePattern.PcreAcceptsTrailingNewline` | `NamePattern.PatternMatchesIff` |

The rest of the model uses the strict reading (`MatchesPattern`, equal to
`IsValidName`). Under it the invariant holds that a stored name contains no
newline. `NamePattern.PcrePatternIff` states exactly which additional strings
the pattern as written lets through.

## Left out

- src/Downloading/UnixDownloadAndExtract.php is not part of this model. It
  is I/O orchestration: temporary directories (`sys_get_temp_dir`, `uniqid`,
  `mkdir`), the network download, zip extraction and Composer's
  authentication headers, all done through collaborators whose code is not
  available. Its one local decision, the missing-`downloadUrl` guard, is left
  out with it.
- Composer's `PackageInterface` is reduced to the two things the factory
  reads: the pretty name and the php-ext metadata. That metadata becomes a
  map from keys to `MetaValue`. `MetaValue` has a string case and several
  non-string cases, so the `is_string` test is modelled.
- The text of exception messages is not modelled. Errors carry only the
  offending value.
- `PhpStrings.Explode` handles only a one-character separator, which is all
  the source uses (`'/'`).
- ExtensionNames.Construct: follows the strict reading of the pattern, not
  PCRE's. It rejects a valid name followed by one newline, which the code
  as written accepts (see Findings).
