# cucc: nvcc command lines translated to hipcc command lines

`cucc` is chipStar's drop-in replacement for NVIDIA's `nvcc`. It lets
argparse pick out the nvcc options it understands. It then assembles a
hipcc command line and runs it. This project models in Dafny the
deterministic part of that translation:

- `ArgFilter`: `filter_args_for_hipcc`. It drops every bare `-Xcompiler`,
  strips a leading `-Xcompiler=` and keeps everything else, in order.
- `InputLanguages`: `determine_input_languages`. An explicit `-x` value is
  returned as the raw string. Otherwise the scan collects languages from
  file extensions into a subset of {"c", "cuda", "c++"}, stopping early once
  all three are found.
- `Driver`: the part of `main` that assembles the hipcc argument list. It
  starts with a fixed prefix, adds the `-std=`, `-x`, `--version`, `-v`,
  `-fgpu-rdc` and `-c` translations, and ends with the filtered
  pass-through arguments. It also covers the two early exits: the
  per-thread default-stream error and the `--version` masquerade.
- `HipPaths`: the installation paths, as strings built on a given HIP root.
- `PyStrings`: the Python primitives the code relies on, each written out
  as an explicit rule. These are `str.startswith`, `str.rfind`, `str.find`,
  `str.replace(old, new, 1)` and POSIX `os.path.splitext`. The extension is
  the suffix from the last '.' of the final path component, and leading
  dots of a file name do not start one.

The imperative parts are Dafny methods with loops:
`ArgFilter.FilterArgsForHipcc`, `InputLanguages.DetermineInputLanguages`
(with its `break`) and `Driver.TranslateCommandLine` (a sequence that grows
step by step). Each one is proved equal to a specification function
(`Filtered`, `InputLanguagesOf`, `HipccCommand`). The lemmas then state
what those functions mean.

Behaviour of the code that is reproduced as written:

- `determine_input_languages` is annotated as returning a set, but for an
  explicit `-x` it returns the string. The `-std` test `languages != {'c'}`
  compares that string with a set, so it holds for `-x c` too. Such a
  command keeps its `-std=` flag (`Driver.StdWithExplicitC`).
- A `.cu` file contributes "cuda", not "cu".
- `-c` is also added when `-dc` or `--device-c` appears among the arguments
  argparse did not recognise. Such an argument still reaches hipcc after
  filtering.

## Model

| member | source | states |
|---|---|---|
| `PyStrings.LastIndexOf` | bin/cucc.py:189 | the result is -1 or an index holding the character, and no later index holds it (the `rfind` that `splitext` uses) |
| `PyStrings.IndexOfFrom` | bin/cucc.py:211 | the result is -1 or an occurrence of the pattern at or after the start, and no earlier occurrence exists (the `find` behind `replace(..., 1)`) |
| `PyStrings.SplitExt` | bin/cucc.py:189 | root and extension concatenate back to the path; a non-empty extension starts with '.', and holds no other '.' and no '/' |
| `PyStrings.SplitExtNonEmptyIff` | bin/cucc.py:189-192 | the extension is non-empty iff some '.' in the final path component is preceded, in that component, by a character other than '.' |
| `PyStrings.SplitExtOfFileName` | bin/cucc.py:189 | for a stem that has a character other than '.' after its last '/', `stem + ext` splits into exactly `(stem, ext)` (so `a..c` gives `(a., .c)`) |
| `HipPaths.Hipcc` | bin/cucc.py:152-155 | the hipcc path extends the root by ten characters |
| `HipPaths.CudaIncludeDir` | bin/cucc.py:157-160 | the include directory extends the root by fourteen characters |
| `HipPaths.CudaLibraryDir` | bin/cucc.py:162-165 | the library directory extends the root by four characters |
| `HipPaths.CudaRuntimeHeader` | bin/cucc.py:231 | the force-included header lies under the CUDA include directory |
| `HipPaths.LocationsDistinct` | bin/cucc.py:152-165 | hipcc, the include directory, the library directory and the runtime header are pairwise different paths for every root (all six pairs) |
| `HipPaths.HipccInjective` | bin/cucc.py:155 | two roots giving the same hipcc path are the same root |
| `ArgFilter.Unwrapped` | bin/cucc.py:210-211 | an argument starting with `-Xcompiler=` loses exactly that prefix; any other argument is unchanged |
| `ArgFilter.FilteredConcat` | bin/cucc.py:206-213 | filtering distributes over concatenation: `Filtered(a + b) == Filtered(a) + Filtered(b)` |
| `ArgFilter.FilteredLength` | bin/cucc.py:207-209 | the output is shorter than the input by exactly the number of bare `-Xcompiler` arguments |
| `ArgFilter.FilteredAt` | bin/cucc.py:207-212 | each kept argument appears unwrapped at its input position minus the number of bare `-Xcompiler` before it, so relative order is preserved |
| `ArgFilter.FilteredIdentity` | bin/cucc.py:207-212 | arguments that are not `-Xcompiler` and do not start with `-Xcompiler=` pass through unchanged |
| `ArgFilter.FilterArgsForHipcc` | bin/cucc.py:203-213 | the loop returns exactly the specified filtering, whose length is the input length minus the bare `-Xcompiler` count |
| `InputLanguages.LanguageOf` | bin/cucc.py:186-199 | an argument contributes a language only if it does not start with '-' and has an extension; the language is one of "c", "cuda", "c++" |
| `InputLanguages.DetectedLanguages` | bin/cucc.py:181-201 | the full scan yields a subset of {"c", "cuda", "c++"} |
| `InputLanguages.DetectedConcat` | bin/cucc.py:182-199 | the detected set of a concatenation is the union of the detected sets |
| `InputLanguages.DetectedMembership` | bin/cucc.py:182-199 | a language is detected iff some argument contributes it |
| `InputLanguages.DetectedOrderIndependent` | bin/cucc.py:182-199 | argument lists that are permutations of each other detect the same set |
| `InputLanguages.AllThreeFound` | bin/cucc.py:183-184 | three detected languages are all of {"c", "cuda", "c++"} |
| `InputLanguages.PrefixSaturated` | bin/cucc.py:182-184 | once a prefix has detected three languages, the whole list detects the same set, so the `break` loses nothing |
| `InputLanguages.DetermineInputLanguages` | bin/cucc.py:167-201 | with `-x` given, the raw value is returned and no argument is inspected; otherwise the scan with its early `break` returns the full-scan set |
| `InputLanguages.LanguageOfFileName` | bin/cucc.py:189-199 | for a file name not starting with '-' whose stem is not only dots, `.c` gives "c", `.cu` gives "cuda", `.cpp` and `.cc` give "c++", and any other extension gives nothing |
| `InputLanguages.NoLanguageWithoutExtension` | bin/cucc.py:186-192 | an option, or a name without an extension, contributes nothing |
| `InputLanguages.HiddenFileHasNoLanguage` | bin/cucc.py:189-192 | a file named `.cu` has no extension and contributes nothing |
| `InputLanguages.DetectedCOnly` | bin/cucc.py:181-201 | `-O2 main.c -o main` detects exactly {"c"} |
| `InputLanguages.DetectedMixed` | bin/cucc.py:181-201 | `main.c kernel.cu` detects {"c", "cuda"} |
| `Driver.TranslateCommandLine` | bin/cucc.py:224-294 | a per-thread default stream is the only way to the error exit; the version exit happens iff `--version` is given while masquerading with a non-empty version string; otherwise hipcc is launched with the specified command |
| `Driver.CommandShape` | bin/cucc.py:229-236 | every command starts with the seven fixed entries built from the root, ends with the filtered pass-through arguments, and has at most seven flags between them |
| `Driver.StdFlagIff` | bin/cucc.py:241-242 | `-std=v` is among the flags iff `std` is `v` and the language result is not the detected set {"c"} |
| `Driver.XFlagTranslated` | bin/cucc.py:246-250 | `-x` is among the flags iff an `-x` value was given, and it is always followed by `hip` for `cu` and by the value itself otherwise |
| `Driver.StdBeforeX` | bin/cucc.py:241-250 | any flag starting with `-std=` stands at a lower index than any `-x` |
| `Driver.XBeforeSwitches` | bin/cucc.py:246-291 | `-x` stands at a lower index than any of `--version`, `-v`, `-fgpu-rdc` and `-c` |
| `Driver.RdcBeforeCompile` | bin/cucc.py:284-291 | `-fgpu-rdc` stands at a lower index than `-c` |
| `Driver.VersionFlagIff` | bin/cucc.py:252-258 | `--version` is among the launched flags iff it was given |
| `Driver.VerboseFlagIff` | bin/cucc.py:260-282 | `-v` is among the flags iff verbose was given and the driver does not masquerade as nvcc |
| `Driver.RdcFlagIff` | bin/cucc.py:285-288 | `-fgpu-rdc` is among the flags iff relocatable device code is `true`, or `--device-c` or `-dc` was parsed |
| `Driver.CompileFlagIff` | bin/cucc.py:290-291 | `-c` is among the flags iff `--device-c` or `-dc` was parsed, or either appears among the unparsed arguments |
| `Driver.DeviceCompileImpliesRdc` | bin/cucc.py:285-291 | a parsed `--device-c` or `-dc` yields both `-fgpu-rdc` and `-c` |
| `Driver.StdWithExplicitC` | bin/cucc.py:175-176 | with `-x c`, the `-std=` flag is still emitted, because the raw string never equals the set {"c"} |
| `Driver.StdWithDetectedLanguages` | bin/cucc.py:241-242 | a command line whose only source is `main.c` drops `-std=`; `main.c kernel.cu`, or no source at all, keeps it |

## Left out

- argparse itself (the option table, `parse_known_args`, the `IgnoredOption` warnings): its parsing is library code. The parsed options (`Driver.KnownArgs`) and the unrecognised arguments are inputs. `Driver.ParsedByArgparse` restates the `choices` restrictions, and only the flag lemmas require it.
- Locating the HIP root from the script's own path (`get_hip_path`): the root is a parameter.
- Environment variables: `CUCC_VERSION_STRING` is a parameter. `CHIP_CUCC_VERBOSE` only controls printing and is left out.
- `MASQUERADE_AS_NVCC` is a parameter, so both settings are modelled. The source fixes it to true.
- All printing: the start-up banner, the argument echoes, the nvcc-style `#$` lines of `--verbose`, and the version text itself. `Driver.Outcome.VersionExit` records which string would be printed.
- Running hipcc (`subprocess.run`) and the exit status: `Driver.Outcome.Launch` carries the argument list that would be run.
- `shlex.quote`: it is used only for diagnostic output.
- `PyStrings.SplitExt` models the POSIX rule only, without the Windows alternative separator.
- Driver.TranslateCommandLine: each conditional append of `main` becomes one append of a piece that is empty when its condition fails. The pieces are `Driver.StdFlag`, `Driver.XFlag` and the others. The resulting list and its order are the same, but the method does not branch around each append.
