/** The pure parts of `main` (tools/src/bin/generate-bindings.rs:123-196): the
    `SDK_ROOT_DIR` substitution applied to `sdk.opts` strings, the allow-list
    handed to the bindings generator, and the order in which `main` combines
    the symbol filter, the header synthesiser and the substitution. */
module Generator {
  import opened Wrappers
  import opened Strings
  import opened ApiVersion
  import opened Symbols
  import opened BindingsHeader

  const SDK_ROOT_DIR := "SDK_ROOT_DIR"

  /** `s.replace("\\", "/")` */
  function Slashes(s: string): string
  {
    Replace(s, "\\", "/")
  }

  /** The `replace_sdk_root_dir` closure: every `SDK_ROOT_DIR` becomes the SDK
      path, then every backslash becomes a forward slash, so the result never
      holds a backslash. */
  function ReplaceSdkRootDir(sdk: string, s: string): (r: string)
    ensures '\\' !in r
  {
    var substituted := Replace(s, SDK_ROOT_DIR, sdk);
    ReplaceChar(substituted, '\\', '/');
    Slashes(substituted)
  }

  /** A string with no placeholder and no backslash comes back unchanged. */
  lemma ReplaceSdkRootDirUnchanged(sdk: string, s: string)
    requires !Occurs(s, SDK_ROOT_DIR) && '\\' !in s
    ensures ReplaceSdkRootDir(sdk, s) == s
  {
    ReplaceNoOccurrence(s, SDK_ROOT_DIR, sdk);
    ReplaceChar(s, '\\', '/');
  }

  /** The leftmost placeholder is replaced by the SDK path, every backslash up
      to it and inside the SDK path turns into a slash, and the rest of the
      string is handled the same way. */
  lemma ReplaceSdkRootDirLeftmost(sdk: string, before: string, after: string)
    requires forall k: nat :: k < |before| ==> !OccursAt(before + SDK_ROOT_DIR + after, SDK_ROOT_DIR, k)
    ensures ReplaceSdkRootDir(sdk, before + SDK_ROOT_DIR + after)
      == Slashes(before) + Slashes(sdk) + ReplaceSdkRootDir(sdk, after)
  {
    var s := before + SDK_ROOT_DIR + after;
    assert s[..|before|] == before;
    assert s[|before| + |SDK_ROOT_DIR|..] == after;
    assert s[|before|..] == SDK_ROOT_DIR + after;
    ReplaceLeftmost(s, SDK_ROOT_DIR, sdk, |before|);
    var rest := Replace(after, SDK_ROOT_DIR, sdk);
    ReplaceCharAppend(before + sdk, rest, '\\', '/');
    ReplaceCharAppend(before, sdk, '\\', '/');
  }

  lemma SlashesExample()
    ensures Slashes("-I") == "-I" && Slashes("C:\\fz") == "C:/fz"
  {
    ReplaceChar("-I", '\\', '/');
    ReplaceChar("C:\\fz", '\\', '/');
  }

  lemma TailExample()
    ensures ReplaceSdkRootDir("C:\\fz", "\\inc") == "/inc"
  {
    var after := "\\inc";
    assert !Occurs(after, SDK_ROOT_DIR) by {
      forall k: nat | k <= |after| ensures !OccursAt(after, SDK_ROOT_DIR, k) {
      }
    }
    ReplaceNoOccurrence(after, SDK_ROOT_DIR, "C:\\fz");
    ReplaceChar(after, '\\', '/');
  }

  lemma ExampleSplit(sdk: string, flag: string)
    requires flag == "-ISDK_ROOT_DIR\\inc"
    ensures ReplaceSdkRootDir(sdk, flag) == Slashes("-I") + Slashes(sdk) + ReplaceSdkRootDir(sdk, "\\inc")
  {
    var before, after := "-I", "\\inc";
    var s := before + SDK_ROOT_DIR + after;
    assert s == flag;
    forall k: nat | k < |before| ensures !OccursAt(s, SDK_ROOT_DIR, k) {
      assert s[k] != 'S';
    }
    ReplaceSdkRootDirLeftmost(sdk, before, after);
  }

  /** A Windows SDK path in an include flag becomes a forward-slash path. */
  lemma ReplaceSdkRootDirExample(sdk: string, flag: string)
    requires sdk == "C:\\fz" && flag == "-ISDK_ROOT_DIR\\inc"
    ensures ReplaceSdkRootDir(sdk, flag) == "-IC:/fz/inc"
  {
    ExampleSplit(sdk, flag);
    SlashesExample();
    TailExample();
    assert "-I" + "C:/fz" + "/inc" == "-IC:/fz/inc";
  }

  /** One entry of the generator's allow-list. */
  datatype AllowItem = AllowVar(name: string) | AllowFunction(name: string)

  /** The variable names in the allow-list, in call order. */
  function AllowedVars(items: seq<AllowItem>): seq<string>
  {
    if items == [] then []
    else (if items[0].AllowVar? then [items[0].name] else []) + AllowedVars(items[1..])
  }

  /** The function names in the allow-list, in call order. */
  function AllowedFunctions(items: seq<AllowItem>): seq<string>
  {
    if items == [] then []
    else (if items[0].AllowFunction? then [items[0].name] else []) + AllowedFunctions(items[1..])
  }

  lemma {:induction false} AllowedConcat(a: seq<AllowItem>, b: seq<AllowItem>)
    ensures AllowedVars(a + b) == AllowedVars(a) + AllowedVars(b)
    ensures AllowedFunctions(a + b) == AllowedFunctions(a) + AllowedFunctions(b)
  {
    if a != [] {
      assert (a + b)[1..] == a[1..] + b;
      AllowedConcat(a[1..], b);
    } else {
      assert a + b == b;
    }
  }

  /** One `allowlist_function` call per name, in order. */
  function FunctionItems(names: seq<string>): (items: seq<AllowItem>)
    ensures |items| == |names|
    ensures forall i :: 0 <= i < |names| ==> items[i] == AllowFunction(names[i])
  {
    if names == [] then [] else [AllowFunction(names[0])] + FunctionItems(names[1..])
  }

  /** One `allowlist_var` call per name, in order. */
  function VarItems(names: seq<string>): (items: seq<AllowItem>)
    ensures |items| == |names|
    ensures forall i :: 0 <= i < |names| ==> items[i] == AllowVar(names[i])
  {
    if names == [] then [] else [AllowVar(names[0])] + VarItems(names[1..])
  }

  lemma {:induction false} AllowedFunctionItems(names: seq<string>)
    ensures AllowedVars(FunctionItems(names)) == [] && AllowedFunctions(FunctionItems(names)) == names
  {
    if names != [] {
      AllowedFunctionItems(names[1..]);
      assert FunctionItems(names)[1..] == FunctionItems(names[1..]);
    }
  }

  lemma {:induction false} AllowedVarItems(names: seq<string>)
    ensures AllowedVars(VarItems(names)) == names && AllowedFunctions(VarItems(names)) == []
  {
    if names != [] {
      AllowedVarItems(names[1..]);
      assert VarItems(names)[1..] == VarItems(names[1..]);
    }
  }

  /** The allow-list builder calls `main` makes, in order: the variable
      `API_VERSION`, then every public function, then every public variable. */
  function AllowlistCalls(symbols: ApiSymbols): seq<AllowItem>
  {
    [AllowVar("API_VERSION")] + FunctionItems(symbols.functions) + VarItems(symbols.variables)
  }

  /** The loops of `main` that issue those calls on the builder. */
  method ComposeAllowlist(symbols: ApiSymbols) returns (items: seq<AllowItem>)
    ensures items == AllowlistCalls(symbols)
  {
    items := [AllowVar("API_VERSION")];
    var i := 0;
    while i < |symbols.functions|
      invariant 0 <= i <= |symbols.functions|
      invariant items == [AllowVar("API_VERSION")] + FunctionItems(symbols.functions[..i])
    {
      items := items + [AllowFunction(symbols.functions[i])];
      i := i + 1;
      assert FunctionItems(symbols.functions[..i])
        == FunctionItems(symbols.functions[..i - 1]) + [AllowFunction(symbols.functions[i - 1])];
    }
    assert symbols.functions[..i] == symbols.functions;
    var k := 0;
    while k < |symbols.variables|
      invariant 0 <= k <= |symbols.variables|
      invariant items == [AllowVar("API_VERSION")] + FunctionItems(symbols.functions) + VarItems(symbols.variables[..k])
    {
      items := items + [AllowVar(symbols.variables[k])];
      k := k + 1;
      assert VarItems(symbols.variables[..k])
        == VarItems(symbols.variables[..k - 1]) + [AllowVar(symbols.variables[k - 1])];
    }
    assert symbols.variables[..k] == symbols.variables;
  }

  /** The builder is given exactly `API_VERSION` and the public variables as
      variables, and exactly the public functions as functions, each in order. */
  lemma AllowlistNames(symbols: ApiSymbols)
    ensures AllowedVars(AllowlistCalls(symbols)) == ["API_VERSION"] + symbols.variables
    ensures AllowedFunctions(AllowlistCalls(symbols)) == symbols.functions
  {
    var head := [AllowVar("API_VERSION")];
    var functions, variables := FunctionItems(symbols.functions), VarItems(symbols.variables);
    assert AllowlistCalls(symbols) == (head + functions) + variables;
    AllowedConcat(head + functions, variables);
    AllowedConcat(head, functions);
    AllowedFunctionItems(symbols.functions);
    AllowedVarItems(symbols.variables);
    assert AllowedVars(head) == ["API_VERSION"] && AllowedFunctions(head) == [] by {
      assert head[1..] == [];
    }
    assert AllowedVars(head + functions) == ["API_VERSION"];
    assert AllowedFunctions(head + functions) == symbols.functions;
  }

  /** The fields of `sdk.opts` (`SdkOpts`). */
  datatype SdkOpts = SdkOpts(
    sdkSymbols: string,
    ccArgs: string,
    cppArgs: string,
    linkerArgs: string,
    linkerScript: string)

  /** What `main` hands to the bindings generator. */
  datatype BindingsPlan = BindingsPlan(
    symbolsPath: string,      // the manifest path, relative to the SDK root
    apiVersion: u32,
    headerContents: string,   // the synthetic `header.h`
    ccArgs: string,           // `cc_args`, before shell tokenisation
    allowlist: seq<AllowItem>)

  /** `main` from loading the symbols to the allow-list: the manifest records
      are those read from `symbolsPath`; a malformed manifest aborts the run. */
  method PlanBindings(sdk: string, opts: SdkOpts, records: seq<Record>) returns (r: Result<BindingsPlan, SymbolError>)
    ensures r.Ok? <==> Load(records).Ok?
    ensures r.Err? <==> !Acceptable(records)
    ensures r.Err? ==> r == Err(Load(records).error)
    ensures r.Ok? ==> (
      var symbols := Load(records).value;
      r.value.symbolsPath == ReplaceSdkRootDir(sdk, opts.sdkSymbols) &&
      r.value.apiVersion == symbols.apiVersion &&
      r.value.headerContents == Join(HeaderLines(symbols), "\n") &&
      r.value.ccArgs == ReplaceSdkRootDir(sdk, opts.ccArgs) &&
      AllowedVars(r.value.allowlist) == ["API_VERSION"] + PublicValues(records, "Variable") &&
      AllowedFunctions(r.value.allowlist) == PublicValues(records, "Function"))
  {
    LoadContents(records);
    var symbolsPath := ReplaceSdkRootDir(sdk, opts.sdkSymbols);
    var loaded := LoadSymbols(records);
    if loaded.Err? {
      return Err(loaded.error);
    }
    var symbols := loaded.value;
    var header := GenerateBindingsHeader(symbols);
    var ccArgs := ReplaceSdkRootDir(sdk, opts.ccArgs);
    var allowlist := ComposeAllowlist(symbols);
    AllowlistNames(symbols);
    r := Ok(BindingsPlan(symbolsPath, symbols.apiVersion, header, ccArgs, allowlist));
  }
}
