/** The symbol filter `load_symbols` (tools/src/bin/generate-bindings.rs:30-74):
    it reads the records of the SDK's symbol manifest and keeps the public API
    version, headers, functions and variables. */
module Symbols {
  import opened Wrappers
  import opened ApiVersion

  /** The visibility marker of a public symbol. */
  const VISIBILITY_PUBLIC := "+"

  /** One manifest record: its fields `name`, `visibility`, `value`, ... */
  type Record = seq<string>

  datatype ApiSymbols = ApiSymbols(
    apiVersion: u32,
    headers: seq<string>,
    functions: seq<string>,
    variables: seq<string>)

  datatype SymbolError =
    | MissingField                                     // `record[0]`, `[1]` or `[2]` is out of range
    | MalformedVersion(value: string, reason: VersionError)

  const NoSymbols := ApiSymbols(0, [], [], [])

  /** The record is public and of the given kind. */
  predicate IsPublicOf(record: Record, kind: string)
  {
    |record| >= 3 && record[1] == VISIBILITY_PUBLIC && record[0] == kind
  }

  /** The record has the fields the loop reads, and it cannot change any list
      or the version: it is not public, or its name is none of the four kinds. */
  predicate IsInert(record: Record)
  {
    |record| >= 3 &&
    (record[1] != VISIBILITY_PUBLIC || record[0] !in {"Version", "Header", "Function", "Variable"})
  }

  /** One iteration of the record loop. */
  function Step(acc: ApiSymbols, record: Record): Result<ApiSymbols, SymbolError>
  {
    if |record| < 3 then Err(MissingField)
    else
      var name, visibility, value := record[0], record[1], record[2];
      if visibility != VISIBILITY_PUBLIC then Ok(acc)
      else if name == "Version" then
        match ParseVersion(value)
        case Err(reason) => Err(MalformedVersion(value, reason))
        case Ok(v) => Ok(acc.(apiVersion := v))
      else if name == "Header" then Ok(acc.(headers := acc.headers + [value]))
      else if name == "Function" then Ok(acc.(functions := acc.functions + [value]))
      else if name == "Variable" then Ok(acc.(variables := acc.variables + [value]))
      else Ok(acc)
  }

  /** What `load_symbols` returns for these records; the first failing record
      aborts the run. */
  function Load(records: seq<Record>): Result<ApiSymbols, SymbolError>
  {
    if records == [] then Ok(NoSymbols)
    else
      match Load(records[..|records| - 1])
      case Err(e) => Err(e)
      case Ok(acc) => Step(acc, records[|records| - 1])
  }

  /** `load_symbols`, record by record. */
  method LoadSymbols(records: seq<Record>) returns (r: Result<ApiSymbols, SymbolError>)
    ensures r == Load(records)
  {
    var apiVersion: u32 := 0;
    var headers: seq<string> := [];
    var functions: seq<string> := [];
    var variables: seq<string> := [];
    var i := 0;
    while i < |records|
      invariant 0 <= i <= |records|
      invariant Load(records[..i]) == Ok(ApiSymbols(apiVersion, headers, functions, variables))
    {
      var record := records[i];
      assert records[..i + 1][..i] == records[..i];
      if |record| < 3 {
        LoadStopsAtError(records, i + 1);
        return Err(MissingField);
      }
      var name, visibility, value := record[0], record[1], record[2];
      if visibility != VISIBILITY_PUBLIC {
        i := i + 1;
        continue;
      }
      if name == "Version" {
        var v := SplitOnce(value, '.');
        if v.None? {
          LoadStopsAtError(records, i + 1);
          return Err(MalformedVersion(value, MissingDot));
        }
        var major := ParseU16(v.value.0);
        if major.None? {
          LoadStopsAtError(records, i + 1);
          return Err(MalformedVersion(value, InvalidMajor));
        }
        var minor := ParseU16(v.value.1);
        if minor.None? {
          LoadStopsAtError(records, i + 1);
          return Err(MalformedVersion(value, InvalidMinor));
        }
        apiVersion := Pack(major.value, minor.value);
      } else if name == "Header" {
        headers := headers + [value];
      } else if name == "Function" {
        functions := functions + [value];
      } else if name == "Variable" {
        variables := variables + [value];
      }
      i := i + 1;
    }
    assert records[..i] == records;
    r := Ok(ApiSymbols(apiVersion, headers, functions, variables));
  }

  /** Once a prefix of the records fails, the whole manifest fails with the same error. */
  lemma {:induction false} LoadStopsAtError(records: seq<Record>, n: nat)
    requires n <= |records| && Load(records[..n]).Err?
    ensures Load(records) == Load(records[..n])
    decreases |records| - n
  {
    if n < |records| {
      assert records[..n + 1][..n] == records[..n];
      LoadStopsAtError(records, n + 1);
    } else {
      assert records[..n] == records;
    }
  }

  /** A record that is not public, or whose name is none of the four kinds,
      changes nothing: the manifest reads as if it were absent. */
  lemma {:induction false} InertRecordIgnored(before: seq<Record>, record: Record, after: seq<Record>)
    requires IsInert(record)
    ensures Load(before + [record] + after) == Load(before + after)
  {
    if after == [] {
      assert (before + [record])[..|before|] == before;
      assert before + [record] + after == before + [record];
      assert before + after == before;
    } else {
      var last := after[|after| - 1];
      var init := after[..|after| - 1];
      InertRecordIgnored(before, record, init);
      assert (before + [record] + after)[..|before| + 1 + |init|] == before + [record] + init;
      assert (before + after)[..|before| + |init|] == before + init;
    }
  }

  /** The values of the public records of one kind, in manifest order, duplicates kept. */
  function PublicValues(records: seq<Record>, kind: string): seq<string>
  {
    if records == [] then []
    else
      (if IsPublicOf(records[0], kind) then [records[0][2]] else [])
      + PublicValues(records[1..], kind)
  }

  lemma {:induction false} PublicValuesAppend(records: seq<Record>, record: Record, kind: string)
    ensures PublicValues(records + [record], kind)
      == PublicValues(records, kind) + (if IsPublicOf(record, kind) then [record[2]] else [])
  {
    if records != [] {
      assert (records + [record])[1..] == records[1..] + [record];
      PublicValuesAppend(records[1..], record, kind);
    }
  }

  /** The record has three fields and, when it is a public version, the version parses. */
  predicate RecordAcceptable(record: Record)
  {
    |record| >= 3 && (IsPublicOf(record, "Version") ==> ParseVersion(record[2]).Ok?)
  }

  /** The manifest is accepted exactly when every record is. */
  predicate Acceptable(records: seq<Record>)
  {
    forall i :: 0 <= i < |records| ==> RecordAcceptable(records[i])
  }

  /** One iteration fails exactly on an unacceptable record, and otherwise
      appends the record's value to the list of its kind when it is public. */
  lemma StepContents(acc: ApiSymbols, record: Record)
    ensures Step(acc, record).Ok? <==> RecordAcceptable(record)
    ensures Step(acc, record).Ok? ==>
      Step(acc, record).value.headers == acc.headers + (if IsPublicOf(record, "Header") then [record[2]] else []) &&
      Step(acc, record).value.functions == acc.functions + (if IsPublicOf(record, "Function") then [record[2]] else []) &&
      Step(acc, record).value.variables == acc.variables + (if IsPublicOf(record, "Variable") then [record[2]] else [])
  {
  }

  lemma AcceptableAppend(init: seq<Record>, last: Record)
    ensures Acceptable(init + [last]) <==> Acceptable(init) && RecordAcceptable(last)
  {
    var all := init + [last];
    assert forall i :: 0 <= i < |init| ==> all[i] == init[i];
    assert all[|init|] == last;
  }

  /** The filter fails exactly on unacceptable manifests, and on the others its
      lists are the values of the public records of each kind, in order. */
  lemma {:induction false} LoadContents(records: seq<Record>)
    ensures Load(records).Ok? <==> Acceptable(records)
    ensures Load(records).Ok? ==>
      Load(records).value.headers == PublicValues(records, "Header") &&
      Load(records).value.functions == PublicValues(records, "Function") &&
      Load(records).value.variables == PublicValues(records, "Variable")
  {
    if records != [] {
      var init, last := records[..|records| - 1], records[|records| - 1];
      assert records == init + [last];
      LoadContents(init);
      AcceptableAppend(init, last);
      if Load(init).Ok? {
        StepContents(Load(init).value, last);
        PublicValuesAppend(init, last, "Header");
        PublicValuesAppend(init, last, "Function");
        PublicValuesAppend(init, last, "Variable");
      }
    }
  }

  /** With no public version record, the version stays 0. */
  lemma {:induction false} VersionDefault(records: seq<Record>)
    requires Load(records).Ok?
    requires forall i :: 0 <= i < |records| ==> !IsPublicOf(records[i], "Version")
    ensures Load(records).value.apiVersion == 0
  {
    if records != [] {
      var init := records[..|records| - 1];
      VersionDefault(init);
    }
  }

  /** The last public version record wins. */
  lemma {:induction false} VersionLastWins(records: seq<Record>, k: nat)
    requires Load(records).Ok?
    requires k < |records| && IsPublicOf(records[k], "Version")
    requires forall i :: k < i < |records| ==> !IsPublicOf(records[i], "Version")
    ensures ParseVersion(records[k][2]).Ok?
    ensures Load(records).value.apiVersion == ParseVersion(records[k][2]).value
  {
    var init := records[..|records| - 1];
    if k < |records| - 1 {
      assert records[k] == init[k];
      VersionLastWins(init, k);
    }
  }

  /** Appending a public record `Version, +, "M.m"` sets the version to the
      packing of `M` and `m` and changes nothing else. */
  lemma VersionRecord(records: seq<Record>, major: u16, minor: u16)
    requires Load(records).Ok?
    ensures Load(records + [["Version", VISIBILITY_PUBLIC, DecimalText(major as nat) + "." + DecimalText(minor as nat)]])
      == Ok(Load(records).value.(apiVersion := Pack(major, minor)))
  {
    var value := DecimalText(major as nat) + "." + DecimalText(minor as nat);
    var record: Record := ["Version", VISIBILITY_PUBLIC, value];
    var all := records + [record];
    assert all[..|all| - 1] == records;
    ParseVersionText(major as nat, minor as nat);
    assert ParseVersion(value) == Ok(Pack(major, minor));
  }
}
