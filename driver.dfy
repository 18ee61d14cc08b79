/**
 * The translation performed by `main`: from the options argparse
 * recognised (`KnownArgs`) and the arguments it did not (`otherArgs`) to
 * the hipcc command line, or to one of the two early exits. The HIP root
 * directory, the value of the `CUCC_VERSION_STRING` environment variable
 * and the `MASQUERADE_AS_NVCC` switch are parameters.
 */
module Driver {
  import opened Wrappers
  import opened PyStrings
  import opened HipPaths
  import opened InputLanguages
  import opened ArgFilter

  /** The namespace argparse returns for the options the driver acts on. */
  datatype KnownArgs = KnownArgs(
    std: Option<string>,
    x: Option<string>,
    defaultStream: Option<string>,
    relocatableDeviceCode: Option<string>,
    deviceC: bool,
    dc: bool,
    version: bool,
    verbose: bool)

  /** How a run of the driver ends. */
  datatype Outcome =
    | ErrorExit(message: string)       // `error_exit`: message on stderr, status 1
    | VersionExit(versionString: string) // the masquerade prints this and exits with 0
    | Launch(hipccArgs: seq<string>)   // hipcc is run with these arguments

  const PerThreadMessage := "per-thread stream function is not implemented."

  /** The values argparse admits through the `choices` of each option. */
  predicate ParsedByArgparse(known: KnownArgs) {
    && (known.std.Some? ==> known.std.value in {"c++03", "c++11", "c++14", "c++17", "c++12"})
    && (known.x.Some? ==> known.x.value in {"c", "c++", "cu"})
    && (known.defaultStream.Some? ==> known.defaultStream.value in {"legacy", "null", "per-thread"})
    && (known.relocatableDeviceCode.Some? ==> known.relocatableDeviceCode.value in {"true", "false"})
  }

  /** `CUCC_VERSION_STRING` is set to a non-empty string. */
  predicate VersionStringSet(cuccVersionString: Option<string>) {
    cuccVersionString.Some? && cuccVersionString.value != ""
  }

  /** The fixed start of every hipcc command line. */
  function Prefix(root: string): seq<string> {
    [Hipcc(root), "-isystem", CudaIncludeDir(root), "-include", CudaRuntimeHeader(root),
     "-D__NVCC__", "-D__CHIP_CUDA_COMPATIBILITY__"]
  }

  /**
   * The inputs count as C only when the scan detected exactly {"c"}; an
   * explicit `-x` string never equals that set, so `-x c` is not C only.
   */
  predicate OnlyC(languages: Languages) {
    languages == Detected({"c"})
  }

  function StdFlag(std: Option<string>, languages: Languages): seq<string> {
    if std.Some? && !OnlyC(languages) then ["-std=" + std.value] else []
  }

  /** The hipcc name of an nvcc `-x` language. */
  function XLanguage(x: string): string {
    if x == "cu" then "hip" else x
  }

  function XFlag(x: Option<string>): seq<string> {
    if x.Some? then ["-x", XLanguage(x.value)] else []
  }

  function VersionFlag(version: bool): seq<string> {
    if version then ["--version"] else []
  }

  function VerboseFlag(verbose: bool, masqueradeAsNvcc: bool): seq<string> {
    if verbose && !masqueradeAsNvcc then ["-v"] else []
  }

  function RdcFlag(known: KnownArgs): seq<string> {
    if known.relocatableDeviceCode == Some("true") || known.deviceC || known.dc then ["-fgpu-rdc"] else []
  }

  function CompileFlag(known: KnownArgs, otherArgs: seq<string>): seq<string> {
    if known.deviceC || known.dc || "-dc" in otherArgs || "--device-c" in otherArgs then ["-c"] else []
  }

  /** The translated options, between the fixed prefix and the pass-through arguments. */
  function TranslatedFlags(known: KnownArgs, languages: Languages, otherArgs: seq<string>, masqueradeAsNvcc: bool): seq<string> {
    StdFlag(known.std, languages) + XFlag(known.x) + VersionFlag(known.version)
      + VerboseFlag(known.verbose, masqueradeAsNvcc) + RdcFlag(known) + CompileFlag(known, otherArgs)
  }

  /** The specification of the command line `main` hands to hipcc. */
  function HipccCommand(root: string, known: KnownArgs, otherArgs: seq<string>, masqueradeAsNvcc: bool): seq<string> {
    Prefix(root) + TranslatedFlags(known, InputLanguagesOf(otherArgs, known.x), otherArgs, masqueradeAsNvcc)
      + Filtered(otherArgs)
  }

  /**
   * `main`, from the parsed arguments to the launch of hipcc: after the
   * per-thread check the command line grows step by step, each step
   * appending the translation of one option (empty when the option does
   * not apply), with the `--version` masquerade exit in between.
   */
  method TranslateCommandLine(root: string, known: KnownArgs, otherArgs: seq<string>,
                              cuccVersionString: Option<string>, masqueradeAsNvcc: bool)
    returns (outcome: Outcome)
    ensures outcome.ErrorExit? <==> known.defaultStream == Some("per-thread")
    ensures outcome.ErrorExit? ==> outcome.message == PerThreadMessage
    ensures outcome.VersionExit? <==>
      known.defaultStream != Some("per-thread") && known.version && masqueradeAsNvcc && VersionStringSet(cuccVersionString)
    ensures outcome.VersionExit? ==> outcome.versionString == cuccVersionString.value
    ensures outcome.Launch? ==> outcome.hipccArgs == HipccCommand(root, known, otherArgs, masqueradeAsNvcc)
  {
    if known.defaultStream == Some("per-thread") {
      return ErrorExit(PerThreadMessage);
    }

    var languages := DetermineInputLanguages(otherArgs, known.x);

    var hipccArgs := [Hipcc(root), "-isystem", CudaIncludeDir(root)];
    hipccArgs := hipccArgs + ["-include"];
    hipccArgs := hipccArgs + [CudaRuntimeHeader(root)];
    hipccArgs := hipccArgs + ["-D__NVCC__"];
    hipccArgs := hipccArgs + ["-D__CHIP_CUDA_COMPATIBILITY__"];
    assert hipccArgs == Prefix(root);

    hipccArgs := hipccArgs + StdFlag(known.std, languages);
    hipccArgs := hipccArgs + XFlag(known.x);

    if known.version && masqueradeAsNvcc && VersionStringSet(cuccVersionString) {
      return VersionExit(cuccVersionString.value);
    }
    hipccArgs := hipccArgs + VersionFlag(known.version);
    hipccArgs := hipccArgs + VerboseFlag(known.verbose, masqueradeAsNvcc);
    hipccArgs := hipccArgs + RdcFlag(known);
    hipccArgs := hipccArgs + CompileFlag(known, otherArgs);

    var filtered := FilterArgsForHipcc(otherArgs);
    hipccArgs := hipccArgs + filtered;
    CommandInOrder(root, known, otherArgs, masqueradeAsNvcc);
    return Launch(hipccArgs);
  }

  lemma ConcatAssoc(a: seq<string>, b: seq<string>, c: seq<string>)
    ensures a + (b + c) == a + b + c
  {
  }

  /** The command line lists the fixed prefix, the flags in source order and the pass-through arguments. */
  lemma CommandInOrder(root: string, known: KnownArgs, otherArgs: seq<string>, masqueradeAsNvcc: bool)
    ensures var languages := InputLanguagesOf(otherArgs, known.x);
      HipccCommand(root, known, otherArgs, masqueradeAsNvcc)
      == Prefix(root) + StdFlag(known.std, languages) + XFlag(known.x)
         + VersionFlag(known.version) + VerboseFlag(known.verbose, masqueradeAsNvcc)
         + RdcFlag(known) + CompileFlag(known, otherArgs) + Filtered(otherArgs)
  {
    var p := Prefix(root);
    var s := StdFlag(known.std, InputLanguagesOf(otherArgs, known.x));
    var x := XFlag(known.x);
    var v := VersionFlag(known.version);
    var b := VerboseFlag(known.verbose, masqueradeAsNvcc);
    var r := RdcFlag(known);
    var c := CompileFlag(known, otherArgs);
    ConcatAssoc(p, s + x + v + b + r, c);
    ConcatAssoc(p, s + x + v + b, r);
    ConcatAssoc(p, s + x + v, b);
    ConcatAssoc(p, s + x, v);
    ConcatAssoc(p, s, x);
  }

  /** At most seven flags are translated. */
  lemma FlagsLength(known: KnownArgs, languages: Languages, otherArgs: seq<string>, masqueradeAsNvcc: bool)
    ensures |TranslatedFlags(known, languages, otherArgs, masqueradeAsNvcc)| <= 7
  {
  }

  /** Every command starts with the fixed prefix and ends with the filtered pass-through arguments. */
  lemma CommandShape(root: string, known: KnownArgs, otherArgs: seq<string>, masqueradeAsNvcc: bool)
    ensures var cmd := HipccCommand(root, known, otherArgs, masqueradeAsNvcc);
      && 7 + |Filtered(otherArgs)| <= |cmd| <= 14 + |Filtered(otherArgs)|
      && cmd[..7] == [root + "/bin/hipcc", "-isystem", root + "/include/cuspv", "-include",
                      root + "/include/cuspv/cuda_runtime.h", "-D__NVCC__", "-D__CHIP_CUDA_COMPATIBILITY__"]
      && cmd[|cmd| - |Filtered(otherArgs)|..] == Filtered(otherArgs)
  {
    var flags := TranslatedFlags(known, InputLanguagesOf(otherArgs, known.x), otherArgs, masqueradeAsNvcc);
    var filtered := Filtered(otherArgs);
    FlagsLength(known, InputLanguagesOf(otherArgs, known.x), otherArgs, masqueradeAsNvcc);
    ConcatAssoc(Prefix(root), flags, filtered);
    assert (Prefix(root) + (flags + filtered))[..7] == Prefix(root);
    assert (Prefix(root) + flags + filtered)[|Prefix(root) + flags|..] == filtered;
    assert CudaRuntimeHeader(root) == root + "/include/cuspv/cuda_runtime.h" by {
      assert root + "/include/cuspv" + "/cuda_runtime.h" == root + "/include/cuspv/cuda_runtime.h";
    }
  }

  /** The flags after the `-std=` piece. */
  function LaterFlags(known: KnownArgs, otherArgs: seq<string>, masqueradeAsNvcc: bool): seq<string> {
    XFlag(known.x) + VersionFlag(known.version) + VerboseFlag(known.verbose, masqueradeAsNvcc)
      + RdcFlag(known) + CompileFlag(known, otherArgs)
  }

  lemma LaterFlagsNotStd(known: KnownArgs, otherArgs: seq<string>, masqueradeAsNvcc: bool, f: string)
    requires ParsedByArgparse(known) && |f| >= 5 && f[1] == 's'
    ensures f !in LaterFlags(known, otherArgs, masqueradeAsNvcc)
  {
  }

  /** No translated flag other than the `-std=` one starts with "-std=". */
  lemma StdFlagIff(known: KnownArgs, languages: Languages, otherArgs: seq<string>, masqueradeAsNvcc: bool,
                   v: string)
    requires ParsedByArgparse(known)
    ensures "-std=" + v in TranslatedFlags(known, languages, otherArgs, masqueradeAsNvcc)
      <==> known.std == Some(v) && !OnlyC(languages)
  {
    var f := "-std=" + v;
    var std := StdFlag(known.std, languages);
    var x := XFlag(known.x);
    var ver := VersionFlag(known.version);
    var b := VerboseFlag(known.verbose, masqueradeAsNvcc);
    var r := RdcFlag(known);
    var c := CompileFlag(known, otherArgs);
    assert TranslatedFlags(known, languages, otherArgs, masqueradeAsNvcc) == std + (x + ver + b + r + c) by {
      ConcatAssoc(std, x + ver + b + r, c);
      ConcatAssoc(std, x + ver + b, r);
      ConcatAssoc(std, x + ver, b);
      ConcatAssoc(std, x, ver);
    }
    LaterFlagsNotStd(known, otherArgs, masqueradeAsNvcc, f);
    if known.std.Some? && f == "-std=" + known.std.value {
      assert v == f[5..] == known.std.value;
    }
  }

  /** `-x` appears exactly when it was given, and is always followed by its hipcc language. */
  lemma XFlagTranslated(known: KnownArgs, languages: Languages, otherArgs: seq<string>, masqueradeAsNvcc: bool)
    requires ParsedByArgparse(known)
    ensures var flags := TranslatedFlags(known, languages, otherArgs, masqueradeAsNvcc);
      && ("-x" in flags <==> known.x.Some?)
      && (known.x == Some("cu") ==> "hip" in flags)
      && forall k :: 0 <= k < |flags| && flags[k] == "-x" ==>
           k + 1 < |flags| && flags[k + 1] == (if known.x.value == "cu" then "hip" else known.x.value)
  {
    var std := StdFlag(known.std, languages);
    var flags := TranslatedFlags(known, languages, otherArgs, masqueradeAsNvcc);
    var rest := VersionFlag(known.version) + VerboseFlag(known.verbose, masqueradeAsNvcc)
      + RdcFlag(known) + CompileFlag(known, otherArgs);
    assert flags == std + XFlag(known.x) + rest by {
      ConcatAssoc(std + XFlag(known.x), VersionFlag(known.version), VerboseFlag(known.verbose, masqueradeAsNvcc));
      ConcatAssoc(std + XFlag(known.x), VersionFlag(known.version) + VerboseFlag(known.verbose, masqueradeAsNvcc), RdcFlag(known));
      ConcatAssoc(std + XFlag(known.x), VersionFlag(known.version) + VerboseFlag(known.verbose, masqueradeAsNvcc) + RdcFlag(known), CompileFlag(known, otherArgs));
    }
    assert "-x" !in std && "-x" !in rest;
    forall k | 0 <= k < |flags| && flags[k] == "-x"
      ensures k + 1 < |flags| && flags[k + 1] == (if known.x.value == "cu" then "hip" else known.x.value)
    {
      assert flags[k] in std + XFlag(known.x) + rest;
    }
  }

  /** In `a + b`, an element found only in `a` comes before one found only in `b`. */
  lemma SplitOrder(a: seq<string>, b: seq<string>, i: int, j: int)
    requires 0 <= i < |a + b| && 0 <= j < |a + b|
    requires (a + b)[i] !in b && (a + b)[j] !in a
    ensures i < j
  {
  }

  /** The `-std=` flag comes before `-x`. */
  lemma StdBeforeX(known: KnownArgs, languages: Languages, otherArgs: seq<string>, masqueradeAsNvcc: bool)
    requires ParsedByArgparse(known)
    ensures var flags := TranslatedFlags(known, languages, otherArgs, masqueradeAsNvcc);
      forall i, j :: 0 <= i < |flags| && 0 <= j < |flags| && StartsWith(flags[i], "-std=") && flags[j] == "-x" ==> i < j
  {
    var flags := TranslatedFlags(known, languages, otherArgs, masqueradeAsNvcc);
    var std := StdFlag(known.std, languages);
    var later := LaterFlags(known, otherArgs, masqueradeAsNvcc);
    assert flags == std + later by {
      var x := XFlag(known.x);
      var ver := VersionFlag(known.version);
      var b := VerboseFlag(known.verbose, masqueradeAsNvcc);
      var r := RdcFlag(known);
      ConcatAssoc(std, x + ver + b + r, CompileFlag(known, otherArgs));
      ConcatAssoc(std, x + ver + b, r);
      ConcatAssoc(std, x + ver, b);
      ConcatAssoc(std, x, ver);
    }
    forall i, j | 0 <= i < |flags| && 0 <= j < |flags| && StartsWith(flags[i], "-std=") && flags[j] == "-x"
      ensures i < j
    {
      LaterFlagsNotStd(known, otherArgs, masqueradeAsNvcc, flags[i]);
      SplitOrder(std, later, i, j);
    }
  }

  /** The flags nvcc's switches translate to after `-x`. */
  const SwitchFlags := {"--version", "-v", "-fgpu-rdc", "-c"}

  lemma SwitchNotInFront(known: KnownArgs, languages: Languages, f: string)
    requires ParsedByArgparse(known) && f in SwitchFlags
    ensures f !in StdFlag(known.std, languages) + XFlag(known.x)
  {
  }

  /** `-x` comes before `--version`, `-v`, `-fgpu-rdc` and `-c`. */
  lemma XBeforeSwitches(known: KnownArgs, languages: Languages, otherArgs: seq<string>, masqueradeAsNvcc: bool)
    requires ParsedByArgparse(known)
    ensures var flags := TranslatedFlags(known, languages, otherArgs, masqueradeAsNvcc);
      forall i, j :: 0 <= i < |flags| && 0 <= j < |flags| && flags[i] == "-x" && flags[j] in SwitchFlags ==> i < j
  {
    var flags := TranslatedFlags(known, languages, otherArgs, masqueradeAsNvcc);
    var front := StdFlag(known.std, languages) + XFlag(known.x);
    var ver := VersionFlag(known.version);
    var b := VerboseFlag(known.verbose, masqueradeAsNvcc);
    var r := RdcFlag(known);
    var c := CompileFlag(known, otherArgs);
    assert flags == front + (ver + b + r + c) by {
      ConcatAssoc(front, ver + b + r, c);
      ConcatAssoc(front, ver + b, r);
      ConcatAssoc(front, ver, b);
    }
    assert "-x" !in ver + b + r + c;
    forall i, j | 0 <= i < |flags| && 0 <= j < |flags| && flags[i] == "-x" && flags[j] in SwitchFlags
      ensures i < j
    {
      SwitchNotInFront(known, languages, flags[j]);
      SplitOrder(front, ver + b + r + c, i, j);
    }
  }

  /** `-fgpu-rdc` comes before `-c`. */
  lemma RdcBeforeCompile(known: KnownArgs, languages: Languages, otherArgs: seq<string>, masqueradeAsNvcc: bool)
    requires ParsedByArgparse(known)
    ensures var flags := TranslatedFlags(known, languages, otherArgs, masqueradeAsNvcc);
      forall i, j :: 0 <= i < |flags| && 0 <= j < |flags| && flags[i] == "-fgpu-rdc" && flags[j] == "-c" ==> i < j
  {
    var flags := TranslatedFlags(known, languages, otherArgs, masqueradeAsNvcc);
    var front := StdFlag(known.std, languages) + XFlag(known.x) + VersionFlag(known.version)
      + VerboseFlag(known.verbose, masqueradeAsNvcc) + RdcFlag(known);
    forall i, j | 0 <= i < |flags| && 0 <= j < |flags| && flags[i] == "-fgpu-rdc" && flags[j] == "-c"
      ensures i < j
    {
      SplitOrder(front, CompileFlag(known, otherArgs), i, j);
    }
  }

  /** `--version` is passed on exactly when it was given (a launch means the masquerade did not exit). */
  lemma VersionFlagIff(known: KnownArgs, languages: Languages, otherArgs: seq<string>, masqueradeAsNvcc: bool)
    requires ParsedByArgparse(known)
    ensures "--version" in TranslatedFlags(known, languages, otherArgs, masqueradeAsNvcc) <==> known.version
  {
  }

  /** `-v` is passed on only when not masquerading as nvcc. */
  lemma VerboseFlagIff(known: KnownArgs, languages: Languages, otherArgs: seq<string>, masqueradeAsNvcc: bool)
    requires ParsedByArgparse(known)
    ensures "-v" in TranslatedFlags(known, languages, otherArgs, masqueradeAsNvcc)
      <==> known.verbose && !masqueradeAsNvcc
  {
  }

  /** `-fgpu-rdc` exactly when relocatable device code is requested or implied by `-dc`/`--device-c`. */
  lemma RdcFlagIff(known: KnownArgs, languages: Languages, otherArgs: seq<string>, masqueradeAsNvcc: bool)
    requires ParsedByArgparse(known)
    ensures "-fgpu-rdc" in TranslatedFlags(known, languages, otherArgs, masqueradeAsNvcc)
      <==> known.relocatableDeviceCode == Some("true") || known.deviceC || known.dc
  {
  }

  /**
   * `-c` exactly when device compilation was requested, through the parsed
   * options or as `-dc`/`--device-c` among the unparsed arguments.
   */
  lemma CompileFlagIff(known: KnownArgs, languages: Languages, otherArgs: seq<string>, masqueradeAsNvcc: bool)
    requires ParsedByArgparse(known)
    ensures "-c" in TranslatedFlags(known, languages, otherArgs, masqueradeAsNvcc)
      <==> known.deviceC || known.dc || "-dc" in otherArgs || "--device-c" in otherArgs
  {
  }

  /** Device compilation implies relocatable device code, but `-dc` among the unparsed arguments gives `-c` alone. */
  lemma DeviceCompileImpliesRdc(known: KnownArgs, languages: Languages, otherArgs: seq<string>, masqueradeAsNvcc: bool)
    requires ParsedByArgparse(known) && (known.deviceC || known.dc)
    ensures var flags := TranslatedFlags(known, languages, otherArgs, masqueradeAsNvcc);
      "-fgpu-rdc" in flags && "-c" in flags
  {
  }

  /**
   * The `-std` test compares the raw `-x` string with the set {"c"}, which
   * never matches: `-x c` still passes `-std=` on. Only a scan that detects
   * C sources and nothing else drops it.
   */
  lemma StdWithExplicitC(known: KnownArgs, otherArgs: seq<string>)
    requires known.x == Some("c") && known.std.Some?
    ensures StdFlag(known.std, InputLanguagesOf(otherArgs, known.x)) == ["-std=" + known.std.value]
  {
  }

  lemma StdWithDetectedLanguages(v: string)
    ensures StdFlag(Some(v), InputLanguagesOf(["-O2", "main.c", "-o", "main"], None)) == []
    ensures StdFlag(Some(v), InputLanguagesOf(["main.c", "kernel.cu"], None)) == ["-std=" + v]
    ensures StdFlag(Some(v), InputLanguagesOf([], None)) == ["-std=" + v]
  {
    DetectedCOnly();
    DetectedMixed();
    assert "cuda" !in {"c"};
  }
}
