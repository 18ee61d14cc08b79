/**
 * `determine_input_languages`: which source languages a command line
 * involves. An explicit `-x` value is returned as the raw string, without
 * looking at any argument; otherwise the file extensions of the
 * non-option arguments are collected into a set drawn from
 * {"c", "cuda", "c++"}.
 */
module InputLanguages {
  import opened Wrappers
  import opened PyStrings

  const AllLanguages: set<string> := {"c", "cuda", "c++"}

  /** The function returns either the `-x` string itself or a detected set. */
  datatype Languages = Explicit(xmode: string) | Detected(modes: set<string>)

  /** The language one argument contributes during the scan, if any. */
  function LanguageOf(arg: string): (r: Option<string>)
    ensures r.Some? ==> r.value in AllLanguages
    ensures r.Some? ==> !StartsWith(arg, "-") && HasExtension(arg)
  {
    if StartsWith(arg, "-") then None
    else
      var ext := SplitExt(arg).1;
      SplitExtNonEmptyIff(arg);
      if ext == "" then None
      else if ext == ".c" then Some("c")
      else if ext == ".cu" then Some("cuda")
      else if ext in {".cpp", ".cc"} then Some("c++")
      else None
  }

  function Contribution(arg: string): set<string> {
    match LanguageOf(arg)
    case Some(l) => {l}
    case None => {}
  }

  /** The full scan, with no early exit. */
  function DetectedLanguages(args: seq<string>): (r: set<string>)
    ensures r <= AllLanguages
  {
    if args == [] then {} else Contribution(args[0]) + DetectedLanguages(args[1..])
  }

  /** The specification of `determine_input_languages`. */
  function InputLanguagesOf(args: seq<string>, xmode: Option<string>): Languages {
    if xmode.Some? then Explicit(xmode.value) else Detected(DetectedLanguages(args))
  }

  lemma {:induction false} DetectedConcat(a: seq<string>, b: seq<string>)
    ensures DetectedLanguages(a + b) == DetectedLanguages(a) + DetectedLanguages(b)
  {
    if a == [] {
      assert a + b == b;
    } else {
      assert (a + b)[1..] == a[1..] + b;
      DetectedConcat(a[1..], b);
    }
  }

  /** A language is detected exactly when some argument contributes it. */
  lemma {:induction false} DetectedMembership(args: seq<string>, l: string)
    ensures l in DetectedLanguages(args) <==> exists a :: a in args && LanguageOf(a) == Some(l)
  {
    if args != [] {
      DetectedMembership(args[1..], l);
      if LanguageOf(args[0]) == Some(l) {
        assert args[0] in args;
      }
      forall a | a in args[1..] ensures a in args {
      }
      forall a | a in args && a != args[0] ensures a in args[1..] {
      }
    }
  }

  /** The detected set does not depend on the order of the arguments. */
  lemma DetectedOrderIndependent(a: seq<string>, b: seq<string>)
    requires multiset(a) == multiset(b)
    ensures DetectedLanguages(a) == DetectedLanguages(b)
  {
    forall l ensures l in DetectedLanguages(a) <==> l in DetectedLanguages(b) {
      DetectedMembership(a, l);
      DetectedMembership(b, l);
      forall x ensures x in a <==> x in b {
        assert x in a <==> x in multiset(a);
        assert x in b <==> x in multiset(b);
      }
    }
  }

  lemma {:induction false} SubsetCardinality(a: set<string>, b: set<string>)
    requires a <= b
    ensures |a| <= |b|
    decreases a
  {
    if a != {} {
      var y :| y in a;
      SubsetCardinality(a - {y}, b - {y});
    }
  }

  /** Three detected languages are all there are: the early `break` loses nothing. */
  lemma AllThreeFound(modes: set<string>)
    requires modes <= AllLanguages && |modes| == 3
    ensures modes == AllLanguages
  {
    assert |AllLanguages| == 3;
    if "c" !in modes {
      SubsetCardinality(modes, AllLanguages - {"c"});
    } else if "cuda" !in modes {
      SubsetCardinality(modes, AllLanguages - {"cuda"});
    } else if "c++" !in modes {
      SubsetCardinality(modes, AllLanguages - {"c++"});
    }
  }

  lemma DetectedStep(args: seq<string>, i: nat)
    requires i < |args|
    ensures DetectedLanguages(args[..i + 1]) == DetectedLanguages(args[..i]) + Contribution(args[i])
  {
    assert args[..i + 1] == args[..i] + [args[i]];
    DetectedConcat(args[..i], [args[i]]);
  }

  /** Once a prefix has produced all three languages, the rest cannot add any. */
  lemma PrefixSaturated(args: seq<string>, i: nat)
    requires i <= |args| && |DetectedLanguages(args[..i])| == 3
    ensures DetectedLanguages(args[..i]) == DetectedLanguages(args)
  {
    AllThreeFound(DetectedLanguages(args[..i]));
    DetectedConcat(args[..i], args[i..]);
    assert args[..i] + args[i..] == args;
  }

  /** The scan of `determine_input_languages`, with its early `break`. */
  method DetermineInputLanguages(argList: seq<string>, xmode: Option<string>) returns (r: Languages)
    ensures r == InputLanguagesOf(argList, xmode)
    ensures xmode == None ==> r.Detected? && r.modes <= AllLanguages
  {
    if xmode.Some? {
      return Explicit(xmode.value);
    }
    var modes: set<string> := {};
    var i := 0;
    while i < |argList|
      invariant 0 <= i <= |argList|
      invariant modes == DetectedLanguages(argList[..i])
    {
      if |modes| == 3 {
        PrefixSaturated(argList, i);
        return Detected(modes);
      }
      var arg := argList[i];
      DetectedStep(argList, i);
      i := i + 1;
      if StartsWith(arg, "-") {
        assert Contribution(arg) == {};
        continue;
      }
      var (_, ext) := SplitExt(arg);
      if ext == "" {
        assert Contribution(arg) == {};
        continue;
      }
      if ext == ".c" {
        assert Contribution(arg) == {"c"};
        modes := modes + {"c"};
      } else if ext == ".cu" {
        assert Contribution(arg) == {"cuda"};
        modes := modes + {"cuda"};
      } else if ext in {".cpp", ".cc"} {
        assert Contribution(arg) == {"c++"};
        modes := modes + {"c++"};
      } else {
        assert Contribution(arg) == {};
      }
    }
    assert argList[..i] == argList;
    return Detected(modes);
  }

  /** How a file name is classified by its extension, when its stem is not only dots. */
  lemma LanguageOfFileName(stem: string, ext: string)
    requires |stem| > 0 && stem[0] != '-' && HasNonDotName(stem)
    requires |ext| > 0 && ext[0] == '.' && '.' !in ext[1..] && '/' !in ext
    ensures ext == ".c" ==> LanguageOf(stem + ext) == Some("c")
    ensures ext == ".cu" ==> LanguageOf(stem + ext) == Some("cuda")
    ensures ext == ".cpp" || ext == ".cc" ==> LanguageOf(stem + ext) == Some("c++")
    ensures ext !in {".c", ".cu", ".cpp", ".cc"} ==> LanguageOf(stem + ext) == None
  {
    SplitExtOfFileName(stem, ext);
    assert (stem + ext)[0] == '-' <==> StartsWith(stem + ext, "-");
  }

  /** Options, hidden files and names whose only dot is in a directory contribute nothing. */
  lemma NoLanguageWithoutExtension(arg: string)
    requires StartsWith(arg, "-") || !HasExtension(arg)
    ensures LanguageOf(arg) == None
  {
  }

  /** A file named ".cu" is a hidden file without extension, not a CUDA source. */
  lemma HiddenFileHasNoLanguage()
    ensures LanguageOf(".cu") == None
  {
  }

  // Sample classifications used by the command-line examples below.

  lemma CSourceName()
    ensures LanguageOf("main.c") == Some("c")
  {
    NonDotLast("main");
    LanguageOfFileName("main", ".c");
    assert "main" + ".c" == "main.c";
  }

  /** The two sources of the mixed command line below. */
  lemma SampleSourceNames()
    ensures LanguageOf("main.c") == Some("c")
    ensures LanguageOf("kernel.cu") == Some("cuda")
  {
    CSourceName();
    NonDotLast("kernel");
    LanguageOfFileName("kernel", ".cu");
    assert "kernel" + ".cu" == "kernel.cu";
  }

  lemma PlainName()
    ensures LanguageOf("main") == None
  {
  }

  /** An option followed by its extension-less value contributes nothing. */
  lemma DetectedOutputOption()
    ensures DetectedLanguages(["-o", "main"]) == {}
  {
    PlainName();
    assert StartsWith("-o", "-");
    var args := ["-o", "main"];
    assert args[1..] == ["main"] && args[1..][1..] == [];
  }

  /** Options and an extension-less output name around one C source: only "c". */
  lemma DetectedCOnly()
    ensures DetectedLanguages(["-O2", "main.c", "-o", "main"]) == {"c"}
  {
    var args := ["-O2", "main.c", "-o", "main"];
    CSourceName();
    DetectedOutputOption();
    assert StartsWith("-O2", "-");
    assert args[1..] == ["main.c", "-o", "main"] && args[1..][1..] == ["-o", "main"];
  }

  /** A C source and a CUDA source together. */
  lemma DetectedMixed()
    ensures DetectedLanguages(["main.c", "kernel.cu"]) == {"c", "cuda"}
  {
    SampleSourceNames();
    var args := ["main.c", "kernel.cu"];
    assert args[1..] == ["kernel.cu"] && args[1..][1..] == [];
  }
}
