/**
 * `filter_args_for_hipcc`: the pass-through arguments on their way to
 * hipcc. A bare `-Xcompiler` is dropped, a leading `-Xcompiler=` is
 * stripped, and every other argument is kept unchanged and in order.
 */
module ArgFilter {
  import opened PyStrings

  const Xcompiler := "-Xcompiler"
  const XcompilerEq := "-Xcompiler="

  /** How many arguments are exactly the bare `-Xcompiler`. */
  function BareCount(args: seq<string>): nat {
    multiset(args)[Xcompiler]
  }

  /** What one kept argument becomes: `arg.replace("-Xcompiler=", "", 1)` when it starts with that prefix. */
  function Unwrapped(arg: string): (r: string)
    ensures StartsWith(arg, XcompilerEq) ==> XcompilerEq + r == arg
    ensures !StartsWith(arg, XcompilerEq) ==> r == arg
  {
    if StartsWith(arg, XcompilerEq) then
      assert OccursAt(arg, XcompilerEq, 0);
      ReplaceFirst(arg, XcompilerEq, "")
    else
      arg
  }

  /** The specification: each argument contributes nothing or its unwrapped self. */
  function Filtered(args: seq<string>): seq<string> {
    if args == [] then []
    else (if args[0] == Xcompiler then [] else [Unwrapped(args[0])]) + Filtered(args[1..])
  }

  lemma {:induction false} FilteredConcat(a: seq<string>, b: seq<string>)
    ensures Filtered(a + b) == Filtered(a) + Filtered(b)
  {
    if a == [] {
      assert a + b == b;
    } else {
      assert (a + b)[1..] == a[1..] + b;
      FilteredConcat(a[1..], b);
    }
  }

  lemma {:induction false} FilteredLength(args: seq<string>)
    ensures |Filtered(args)| == |args| - BareCount(args)
  {
    if args != [] {
      assert args == [args[0]] + args[1..];
      assert multiset(args) == multiset{args[0]} + multiset(args[1..]);
      FilteredLength(args[1..]);
    }
  }

  /**
   * A kept argument `args[i]` lands, unwrapped, at position i minus the
   * number of bare `-Xcompiler` before it: kept arguments keep their order.
   */
  lemma FilteredAt(args: seq<string>, i: nat)
    requires i < |args| && args[i] != Xcompiler
    ensures 0 <= i - BareCount(args[..i]) < |Filtered(args)|
    ensures Filtered(args)[i - BareCount(args[..i])] == Unwrapped(args[i])
  {
    assert args == args[..i] + args[i..];
    assert args[i..] == [args[i]] + args[i + 1..];
    FilteredConcat(args[..i], args[i..]);
    FilteredConcat([args[i]], args[i + 1..]);
    FilteredLength(args[..i]);
    assert Filtered([args[i]]) == [Unwrapped(args[i])];
  }

  /** Arguments that mention no `-Xcompiler` pass through untouched. */
  lemma {:induction false} FilteredIdentity(args: seq<string>)
    requires forall k :: 0 <= k < |args| ==> args[k] != Xcompiler && !StartsWith(args[k], XcompilerEq)
    ensures Filtered(args) == args
  {
    if args != [] {
      FilteredIdentity(args[1..]);
    }
  }

  /** The loop of `filter_args_for_hipcc`. */
  method FilterArgsForHipcc(argList: seq<string>) returns (filtered: seq<string>)
    ensures filtered == Filtered(argList)
    ensures |filtered| == |argList| - BareCount(argList)
  {
    filtered := [];
    var i := 0;
    while i < |argList|
      invariant 0 <= i <= |argList|
      invariant filtered == Filtered(argList[..i])
    {
      var arg := argList[i];
      assert argList[..i + 1] == argList[..i] + [arg];
      FilteredConcat(argList[..i], [arg]);
      i := i + 1;
      if arg == Xcompiler {
        continue;
      }
      if StartsWith(arg, XcompilerEq) {
        arg := ReplaceFirst(arg, XcompilerEq, "");
      }
      filtered := filtered + [arg];
    }
    assert argList[..i] == argList;
    FilteredLength(argList);
  }
}
