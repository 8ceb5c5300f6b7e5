/**
 * The command-line scan that picks out `--resolver <value>` pairs. The flag
 * is matched case-insensitively; its value is trimmed and refused when blank
 * or when it looks like another flag. A flag whose value is refused consumes
 * only itself, and the scan carries on from the refused argument.
 */
module CliParams {
  import opened Wrappers
  import opened Text

  const PARAM_PREFIX: string := "--"
  const PARAM_RESOLVER: string := "--resolver"

  datatype CliParam = Resolver(value: string)

  /** A value the scan can produce: non-empty, trimmed, and not flag-like. */
  predicate IsValidValue(v: string)
  {
    v != [] && IsTrimmed(v) && !StartsWith(v, PARAM_PREFIX)
  }

  /** `CliParam::get_param_value`. */
  function ParamValue(s: string): (r: Option<string>)
    ensures r.None? <==> (Trim(s) == [] || StartsWith(Trim(s), PARAM_PREFIX))
    ensures r.Some? ==> r.value == Trim(s) && IsValidValue(r.value)
  {
    var t := Trim(s);
    if t == [] || StartsWith(t, PARAM_PREFIX) then None else Some(t)
  }

  /** The argument is the resolver flag in any mix of letter case. */
  predicate IsResolverFlag(s: string)
  {
    ToLowerAscii(s) == PARAM_RESOLVER
  }

  /** Whether the scan takes `args[0]` and `args[1]` as a flag and its value. */
  predicate TakesPair(args: seq<string>)
  {
    |args| >= 2 && IsResolverFlag(args[0]) && ParamValue(args[1]).Some?
  }

  /** The parameters the scan of `CliParam::from` finds, as a function of the arguments. */
  function Params(args: seq<string>): seq<CliParam>
    decreases |args|
  {
    if args == [] then []
    else if TakesPair(args) then [Resolver(ParamValue(args[1]).value)] + Params(args[2..])
    else Params(args[1..])
  }

  /** `CliParam::from`: builds its result in a local vector, recursing on the arguments not yet consumed. */
  method From(strings: seq<string>) returns (params: seq<CliParam>)
    ensures params == Params(strings)
    decreases |strings|
  {
    params := [];
    if |strings| == 0 {
      return;
    }
    var nextIndex := 1;
    if ToLowerAscii(strings[0]) == PARAM_RESOLVER {
      if |strings| >= 2 {
        var value := ParamValue(strings[1]);
        if value.Some? {
          params := params + [Resolver(value.value)];
          nextIndex := nextIndex + 1;
        }
      }
    }
    var rest := From(strings[nextIndex..]);
    params := params + rest;
  }

  /**
   * The positions in `args` of the flags whose pairs the scan takes when it
   * starts at `start`, in the order it meets them.
   */
  ghost function FlagIndices(args: seq<string>, start: nat): seq<nat>
    requires start <= |args|
    decreases |args| - start
  {
    if start == |args| then []
    else if TakesPair(args[start..]) then [start] + FlagIndices(args, start + 2)
    else FlagIndices(args, start + 1)
  }

  /**
   * Every parameter comes from a flag followed by the argument it was read
   * from, and the flags are taken left to right, two or more positions apart,
   * so no argument is used twice.
   */
  lemma ParamsComeFromFlags(args: seq<string>)
    ensures FlagsExplainParams(args, FlagIndices(args, 0), Params(args))
  {
    ExplainFrom(args, 0);
    assert args[0..] == args;
  }

  lemma {:induction false} ExplainFrom(args: seq<string>, start: nat)
    requires start <= |args|
    ensures FlagsExplainParams(args, FlagIndices(args, start), Params(args[start..]))
    ensures forall i :: 0 <= i < |FlagIndices(args, start)| ==> start <= FlagIndices(args, start)[i]
    decreases |args| - start
  {
    var rest := args[start..];
    if start == |args| {
    } else if TakesPair(rest) {
      ExplainFrom(args, start + 2);
      assert rest[2..] == args[start + 2..];
      var v := ParamValue(rest[1]).value;
      assert rest[0] == args[start] && rest[1] == args[start + 1];
      assert PairAt(args, start, v);
      var P := (j: nat, p: CliParam) => PairAt(args, j, p.value);
      PrependAll(P, start, Resolver(v), FlagIndices(args, start + 2), Params(args[start + 2..]));
      PrependKeepsGaps(start, FlagIndices(args, start + 2));
    } else {
      ExplainFrom(args, start + 1);
      assert rest[1..] == args[start + 1..];
    }
  }

  /**
   * Conversely, the scan misses no pair: every resolver flag followed by an
   * argument that yields a value is one of the flags it takes. A flag is never
   * swallowed as the value of an earlier flag, since it starts with `--`.
   */
  lemma PairsAreFound(args: seq<string>, k: nat)
    requires k + 1 < |args| && IsResolverFlag(args[k]) && ParamValue(args[k + 1]).Some?
    ensures k in FlagIndices(args, 0)
  {
    FoundFrom(args, 0, k);
  }

  lemma {:induction false} FoundFrom(args: seq<string>, start: nat, k: nat)
    requires start <= k && k + 1 < |args| && IsResolverFlag(args[k]) && ParamValue(args[k + 1]).Some?
    ensures k in FlagIndices(args, start)
    decreases |args| - start
  {
    var rest := args[start..];
    if start == k {
      assert TakesPair(rest) by {
        assert rest[0] == args[k] && rest[1] == args[k + 1];
      }
    } else if TakesPair(rest) {
      assert start + 1 != k by {
        assert rest[1] == args[start + 1];
        FlagNeverAValue(args[k]);
      }
      FoundFrom(args, start + 2, k);
    } else {
      FoundFrom(args, start + 1, k);
    }
  }

  /** The resolver flag, in any letter case, is refused as a value. */
  lemma FlagNeverAValue(s: string)
    requires IsResolverFlag(s)
    ensures ParamValue(s).None?
  {
    FlagShape(s);
    EndsNotWhitespace(s[0], s[9]);
    assert IsTrimmed(s);
    TrimTrimmed(s);
    assert s[..2] == [s[0], s[1]] == PARAM_PREFIX;
  }

  /** A resolver flag is ten characters long, starts with `--` and ends with `r` or `R`. */
  lemma FlagShape(s: string)
    requires IsResolverFlag(s)
    ensures |s| == 10 && s[0] == '-' && s[1] == '-' && (s[9] == 'r' || s[9] == 'R')
  {
    var l := ToLowerAscii(s);
    assert PARAM_RESOLVER[0] == '-' && PARAM_RESOLVER[1] == '-' && PARAM_RESOLVER[9] == 'r';
    assert LowerAscii(s[0]) == '-' && LowerAscii(s[1]) == '-' && LowerAscii(s[9]) == 'r';
  }

  lemma EndsNotWhitespace(first: char, last: char)
    requires first == '-' && (last == 'r' || last == 'R')
    ensures !IsWhitespace(first) && !IsWhitespace(last)
  {
  }

  /** `args[k]` is a resolver flag and the next argument yields the value `v`. */
  ghost predicate PairAt(args: seq<string>, k: nat, v: string)
  {
    k + 1 < |args| && IsResolverFlag(args[k]) && ParamValue(args[k + 1]) == Some(v)
  }

  /**
   * `ix` lists, left to right and at least two apart, the positions of flags
   * in `args`, each followed by the argument its parameter in `ps` was read from.
   */
  ghost predicate FlagsExplainParams(args: seq<string>, ix: seq<nat>, ps: seq<CliParam>)
  {
    && |ix| == |ps|
    && (forall i :: 0 <= i < |ix| ==> PairAt(args, ix[i], ps[i].value))
    && (forall i, j :: 0 <= i < j < |ix| ==> ix[i] + 2 <= ix[j])
  }

  /** A position and parameter put in front of lists that pair up keep them paired up. */
  lemma PrependAll(P: (nat, CliParam) -> bool, k: nat, p: CliParam, ix: seq<nat>, ps: seq<CliParam>)
    requires P(k, p) && |ix| == |ps|
    requires forall i :: 0 <= i < |ix| ==> P(ix[i], ps[i])
    ensures forall i :: 0 <= i <= |ix| ==> P(([k] + ix)[i], ([p] + ps)[i])
  {
    forall i | 0 <= i <= |ix|
      ensures P(([k] + ix)[i], ([p] + ps)[i])
    {
      if i > 0 {
        assert ([k] + ix)[i] == ix[i - 1] && ([p] + ps)[i] == ps[i - 1];
      }
    }
  }

  lemma PrependKeepsGaps(k: nat, ix: seq<nat>)
    requires forall i, j :: 0 <= i < j < |ix| ==> ix[i] + 2 <= ix[j]
    requires forall i :: 0 <= i < |ix| ==> k + 2 <= ix[i]
    ensures var ix' := [k] + ix; forall i, j :: 0 <= i < j < |ix'| ==> ix'[i] + 2 <= ix'[j]
    ensures forall i :: 0 <= i < |[k] + ix| ==> k <= ([k] + ix)[i]
  {
    var ix' := [k] + ix;
    forall i, j | 0 <= i < j < |ix'|
      ensures ix'[i] + 2 <= ix'[j]
    {
      assert ix'[j] == ix[j - 1];
      if i > 0 {
        assert ix'[i] == ix[i - 1];
      }
    }
  }

  /** Each parameter consumes two arguments. */
  lemma {:induction false} ParamsLengthBound(args: seq<string>)
    ensures 2 * |Params(args)| <= |args|
    decreases |args|
  {
    if args == [] {
    } else if TakesPair(args) {
      ParamsLengthBound(args[2..]);
    } else {
      ParamsLengthBound(args[1..]);
    }
  }

  /** Every value the scan produces is trimmed, non-empty and does not start with `--`. */
  lemma {:induction false} ParamsValuesValid(args: seq<string>)
    ensures forall p :: p in Params(args) ==> IsValidValue(p.value)
    decreases |args|
  {
    if args == [] {
    } else if TakesPair(args) {
      ParamsValuesValid(args[2..]);
    } else {
      ParamsValuesValid(args[1..]);
    }
  }

  /** No arguments, no parameters. */
  lemma NoArgsNoParams()
    ensures Params([]) == []
  {
  }

  /** A flag whose next argument is refused consumes only itself: the scan restarts at that argument. */
  lemma RefusedValueIsRescanned(args: seq<string>)
    requires |args| >= 2 && IsResolverFlag(args[0]) && ParamValue(args[1]).None?
    ensures Params(args) == Params(args[1..])
  {
  }

  /** The flag's letter case does not matter. */
  lemma FlagCaseInsensitive(flag: string, flag': string, rest: seq<string>)
    requires ToLowerAscii(flag) == ToLowerAscii(flag')
    ensures Params([flag] + rest) == Params([flag'] + rest)
  {
    var a, a' := [flag] + rest, [flag'] + rest;
    assert a[0] == flag && a'[0] == flag';
    assert a[1..] == rest == a'[1..];
    assert TakesPair(a) == TakesPair(a');
    if TakesPair(a) {
      assert a[1] == a'[1] && a[2..] == a'[2..];
    }
  }

  /** `--RESOLVER v` and `--Resolver v` are read like `--resolver v`. */
  lemma UpperCaseFlags(v: string)
    requires IsValidValue(v)
    ensures Params(["--RESOLVER", v]) == [Resolver(v)]
    ensures Params(["--Resolver", v]) == [Resolver(v)]
  {
    assert ToLowerAscii("--RESOLVER") == PARAM_RESOLVER;
    assert ToLowerAscii("--Resolver") == PARAM_RESOLVER;
    FlagIsLowerCase();
    FlagCaseInsensitive("--RESOLVER", PARAM_RESOLVER, [v]);
    FlagCaseInsensitive("--Resolver", PARAM_RESOLVER, [v]);
    ValidValueAccepted(v);
    var args := [PARAM_RESOLVER, v];
    assert TakesPair(args) && args[2..] == [];
  }

  /** `--resolver --resolver v`: the second flag is refused as a value, then taken with `v`. */
  lemma DoubleFlagExample(v: string)
    requires IsValidValue(v)
    ensures Params([PARAM_RESOLVER, PARAM_RESOLVER, v]) == [Resolver(v)]
  {
    var args := [PARAM_RESOLVER, PARAM_RESOLVER, v];
    FlagIsLowerCase();
    FlagNeverAValue(PARAM_RESOLVER);
    ValidValueAccepted(v);
    assert !TakesPair(args);
    var tail := args[1..];
    assert Params(args) == Params(tail);
    assert tail == [PARAM_RESOLVER, v];
    assert TakesPair(tail);
    assert tail[2..] == [];
    assert Params(tail) == [Resolver(v)] + Params([]);
  }

  /** A valid value is taken unchanged. */
  lemma ValidValueAccepted(v: string)
    requires IsValidValue(v)
    ensures ParamValue(v) == Some(v)
  {
    TrimTrimmed(v);
  }

  lemma FlagIsLowerCase()
    ensures IsResolverFlag(PARAM_RESOLVER)
  {
    assert forall i :: 0 <= i < |PARAM_RESOLVER| ==> !('A' <= PARAM_RESOLVER[i] <= 'Z');
    assert ToLowerAscii(PARAM_RESOLVER) == PARAM_RESOLVER;
  }
}
