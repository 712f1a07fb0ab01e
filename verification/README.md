# generate-bindings: symbol filter and header synthesiser

A Dafny model of the logic inside `generate-bindings`. This build-time tool
produces Rust bindings for the Flipper Zero firmware SDK. The tool reads the
SDK's symbol manifest (`api_symbols.csv`). It keeps the public symbols. It
writes a small C header that defines `API_VERSION` and includes every public
header. It then asks `bindgen` for bindings restricted to an allow-list: the
public functions, the public variables and `API_VERSION`.

Modules, one per component of `tools/src/bin/generate-bindings.rs`:

- `ApiVersion` (version.dfy): how a `"Version"` value is read. The value is
  split at its first dot (`SplitOnce` for `split_once`). Each side is parsed
  with `ParseU16` (`u16::from_str`), and `Pack` packs the two halves into a
  `u32`. `ParseVersion` is the whole `"Version"` arm.
- `Symbols` (symbols.dfy): `load_symbols`. `LoadSymbols` is the record loop.
  It mutates the version and the three lists and stops at the first bad
  record. `Load` is its specification, written as a left fold of `Step`,
  which is one iteration of the loop body.
  The lemmas compare `Load` with definitions that do not use the fold
  (`PublicValues`, `Acceptable`, the index of the last version record).
- `BindingsHeader` (header.dfy): `generate_bindings_header`
  (`GenerateBindingsHeader`). `Hex8` is the `{:08X}` formatting, checked
  against a hex reader (`HexValue`). `DefineLine` and `IncludeLine` are the
  two `format!` calls.
- `Generator` (generator.dfy): the pure parts of `main`. These are the
  `replace_sdk_root_dir` closure (`ReplaceSdkRootDir`, built on `Replace`),
  the allow-list calls on the bindings builder (`ComposeAllowlist`), and
  `PlanBindings`, which combines the stages in `main`'s order.
- `Strings` (strings.dfy): `Join` (`join`) and `Replace` (`str::replace`)
  from Rust's standard library, as the tool uses them. The tool never splits
  text. `Split` exists only to state how many lines the header text has.
- `Wrappers` (wrappers.dfy): `Option` and `Result`. A `panic!`, `expect` or
  `unwrap` in the tool becomes an `Err` in the model.

Choices and points where the code decides:

- Integer widths: `u16` and `u32` are newtypes. `(major as u32) << 16 |
  minor as u32` is modelled as `major * 65536 + minor`. This is exact
  because both halves are below 2^16, so their bits do not overlap and
  nothing overflows. `>> 16` and `& 0xFFFF` become `/ 65536` and `% 65536`.
- `u16::from_str` is modelled as Rust's core library defines it. An
  optional leading `'+'` comes first, then one or more ASCII digits, with a
  value of at most 65535. Leading zeros are accepted. An empty string, a
  lone sign, a `'-'`, any other character and an overflow are all errors.
- A record is a sequence of fields. The code indexes `record[0..2]`, so a
  record with fewer than three fields aborts the run, even when it is not
  public. The model returns `MissingField` for it.
- Several public `"Version"` records: the code overwrites `api_version`, so
  the last one wins (`VersionLastWins`). The code does not reject a second
  public `"Version"` record.
- Header row: `csv::Reader::from_path` builds the reader with the `csv`
  crate's default `has_headers = true`, so the first line of the file is
  never returned as a record. The model's input is the data records after
  that first line.

## Model

| member | source | states |
|---|---|---|
| `ApiVersion.SplitOnce` | tools/src/bin/generate-bindings.rs:53-54 | `split_once('.')`: no result exactly when the value has no dot; otherwise the value is `before + "." + after` with no dot in `before` (the split is at the first dot) |
| `ApiVersion.ParseDecimalText` | tools/src/bin/generate-bindings.rs:55-56 | every n ≤ 65535 parses back from its decimal text, with or without a leading `+`; a larger n is refused rather than wrapped |
| `ApiVersion.ParseU16Accepts` | tools/src/bin/generate-bindings.rs:55-56 | an accepted text is an optional `+` followed by one or more digits whose value is the result; it contains no `.` and no `-` |
| `ApiVersion.PackRoundTrip` | tools/src/bin/generate-bindings.rs:58 | `>> 16` and `& 0xFFFF` of the packed version give back major and minor, and every `u32` is the packing of its two halves |
| `ApiVersion.ParseVersionText` | tools/src/bin/generate-bindings.rs:53-58 | the value `"M.m"` with M, m ≤ 65535 is accepted and reads as `M * 65536 + m` |
| `ApiVersion.ParseVersionOneDot` | tools/src/bin/generate-bindings.rs:53-56 | an accepted version value holds exactly one dot |
| `ApiVersion.MissingDotRefused` | tools/src/bin/generate-bindings.rs:53-54 | a value without a dot (`"12"`, `""`) is an error |
| `ApiVersion.ThreeComponentsRefused` | tools/src/bin/generate-bindings.rs:53-56 | `"1.2.3"` is an error: the minor part is `"2.3"` |
| `ApiVersion.OutOfRangeMajorRefused` | tools/src/bin/generate-bindings.rs:55 | `"70000.1"` is an error: the major part does not fit in 16 bits |
| `ApiVersion.EmptyPartRefused` | tools/src/bin/generate-bindings.rs:55-56 | `"1."` and `".5"` are errors |
| `ApiVersion.MinusSignRefused` | tools/src/bin/generate-bindings.rs:55 | `"-1.0"` is an error |
| `ApiVersion.PlusSignAccepted` | tools/src/bin/generate-bindings.rs:55-56 | `"+1.+2"` is accepted as version 1.2, as `u16::from_str` accepts a leading plus |
| `Symbols.LoadSymbols` | tools/src/bin/generate-bindings.rs:30-74 | the record loop returns exactly `Load(records)`: the version and three lists built record by record, or the error of the first bad record |
| `Symbols.StepContents` | tools/src/bin/generate-bindings.rs:43-70 | one iteration fails exactly on a record with fewer than three fields or a malformed public version; otherwise it appends the value to the list of its kind only when the record is public |
| `Symbols.LoadStopsAtError` | tools/src/bin/generate-bindings.rs:42-56 | once a prefix of the manifest fails, the whole manifest fails with that same error |
| `Symbols.InertRecordIgnored` | tools/src/bin/generate-bindings.rs:47-49 | a non-public record, or a public record of an unknown kind, can be removed without changing the result |
| `Symbols.LoadContents` | tools/src/bin/generate-bindings.rs:36-73 | the filter succeeds exactly when every record is acceptable, and then headers, functions and variables equal the values of the public records of each kind, in manifest order, duplicates kept |
| `Symbols.VersionDefault` | tools/src/bin/generate-bindings.rs:36 | with no public version record the version is 0 |
| `Symbols.VersionLastWins` | tools/src/bin/generate-bindings.rs:52-58 | the version is the parse of the last public version record |
| `Symbols.VersionRecord` | tools/src/bin/generate-bindings.rs:52-58 | appending a public record `Version,+,"M.m"` sets the version to the packing of M and m and changes nothing else |
| `BindingsHeader.HexPadValue` | tools/src/bin/generate-bindings.rs:101 | zero-padded hex formatting writes exactly `width` uppercase hex digits whose value is v mod 16^width |
| `BindingsHeader.Hex8RoundTrip` | tools/src/bin/generate-bindings.rs:101 | `{:08X}` of a `u32` is exactly 8 uppercase hex digits that read back as the version |
| `BindingsHeader.Hex8Example` | tools/src/bin/generate-bindings.rs:101 | version 0x00010002 is written `00010002` |
| `BindingsHeader.IncludeLines` | tools/src/bin/generate-bindings.rs:103-105 | one `#include "h"` line per header, in order, header inserted verbatim |
| `BindingsHeader.GenerateBindingsHeader` | tools/src/bin/generate-bindings.rs:98-108 | the loop that pushes lines produces the version line and then the include lines, joined with `"\n"` |
| `BindingsHeader.HeaderTextLines` | tools/src/bin/generate-bindings.rs:98-108 | when no header holds a newline, the text splits into exactly `1 + |headers|` lines: the `#define API_VERSION 0x…` line, then `#include "headers[i]"` in order |
| `BindingsHeader.HeaderNoTrailingNewline` | tools/src/bin/generate-bindings.rs:107 | the header text is non-empty and does not end with a newline |
| `BindingsHeader.HeaderExample` | tools/src/bin/generate-bindings.rs:98-108 | version 0x00010002 with headers `a.h`, `b.h` gives `#define API_VERSION 0x00010002`, `#include "a.h"`, `#include "b.h"` |
| `Strings.SplitJoin` | tools/src/bin/generate-bindings.rs:107 | joining lines that hold no separator and splitting the result again gives the lines back |
| `Strings.JoinSplit` | tools/src/bin/generate-bindings.rs:107 | splitting any text and joining the pieces again gives the text back |
| `Strings.ReplaceLeftmost` | tools/src/bin/generate-bindings.rs:151 | `str::replace` replaces the leftmost occurrence of the pattern and continues scanning after it |
| `Strings.ReplaceNoOccurrence` | tools/src/bin/generate-bindings.rs:151 | `str::replace` leaves a text without the pattern unchanged |
| `Strings.ReplaceChar` | tools/src/bin/generate-bindings.rs:151 | replacing one character by another keeps the length and maps the text character by character |
| `Generator.ReplaceSdkRootDir` | tools/src/bin/generate-bindings.rs:149-152 | the substituted string never holds a backslash |
| `Generator.ReplaceSdkRootDirUnchanged` | tools/src/bin/generate-bindings.rs:149-152 | a string with no `SDK_ROOT_DIR` and no backslash comes back unchanged |
| `Generator.ReplaceSdkRootDirLeftmost` | tools/src/bin/generate-bindings.rs:149-152 | the leftmost `SDK_ROOT_DIR` becomes the SDK path, with backslashes before it and inside the SDK path turned into slashes, and the rest is substituted the same way |
| `Generator.ReplaceSdkRootDirExample` | tools/src/bin/generate-bindings.rs:149-152 | `-ISDK_ROOT_DIR\inc` with SDK path `C:\fz` becomes `-IC:/fz/inc` |
| `Generator.FunctionItems` | tools/src/bin/generate-bindings.rs:180-182 | one `allowlist_function` call per function name, in order |
| `Generator.VarItems` | tools/src/bin/generate-bindings.rs:184-186 | one `allowlist_var` call per variable name, in order |
| `Generator.ComposeAllowlist` | tools/src/bin/generate-bindings.rs:177-186 | the builder receives `allowlist_var("API_VERSION")`, then the function calls, then the variable calls |
| `Generator.AllowlistNames` | tools/src/bin/generate-bindings.rs:177-186 | the allowed variables are exactly `API_VERSION` followed by the public variables, and the allowed functions are exactly the public functions, in order |
| `Generator.PlanBindings` | tools/src/bin/generate-bindings.rs:149-186 | `PlanBindings` fails exactly on an unacceptable manifest, with the filter's error; otherwise it hands the generator the substituted manifest path and `cc_args`, the synthesised header and an allow-list of exactly `API_VERSION`, the public variables and the public functions |

## Left out

- Reading `api_symbols.csv` through the `csv` crate: file I/O and CSV
  quoting. The records are a parameter. The crate's default check that every
  record has as many fields as the header row is not modelled. A record with
  at least three fields is taken as it is.
- `load_sdk_opts`: opening `sdk.opts` and parsing it with `serde_json`. It is
  I/O plus a foreign parser. `SdkOpts` is a plain record given as a
  parameter.
- Command-line parsing with `clap`, and the `is_dir` checks on the SDK and
  toolchain directories. Also left out are `current_dir`, `Path::join`,
  `to_str().unwrap()` on the SDK path, and the platform-dependent
  `TOOLCHAIN` constant. All of these are I/O or OS path handling. The SDK
  path is a string parameter. `PlanBindings` returns the substituted manifest
  path before it is joined to the SDK directory.
- `shlex::split` of `cc_args`: shell tokenisation in a crate that is not part
  of this model. `PlanBindings` returns `cc_args` after substitution and
  before splitting. When `shlex::split` fails, for example on an unbalanced
  quote, `main` aborts, and `PlanBindings` does not model that failure.
  Nor does it model the other aborts of `main`: `sdk.to_str().unwrap()` on a
  non-UTF-8 SDK path (the SDK path is a string in the model), a failed
  `generate()` and a failed `write_to_file`.
- The other `bindgen` builder settings (clang arguments, `use_core`,
  `ctypes_prefix`, the header name `header.h`), `generate()` and
  `write_to_file`. These belong to an external code generator and file
  output. Only the header contents and the allow-list are modelled.
- The `eprintln!` diagnostics.
- `Generator.ReplaceSdkRootDirLeftmost`: it describes `str::replace` for a
  placeholder occurrence that no earlier occurrence overlaps. It says nothing
  new for occurrences that an SDK path containing `SDK_ROOT_DIR` would create
  after substitution. `str::replace` does not rescan its own output, and
  `Strings.Replace` follows that rule.
- `Strings.Replace` requires a non-empty pattern. Both patterns the tool uses
  (`SDK_ROOT_DIR` and a backslash) are non-empty constants. Rust's behaviour
  for an empty pattern is not modelled.
