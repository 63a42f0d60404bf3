/**
 * Comparing a string with a list of candidates
 * (AmorLib/Utils/Extensions/StringExtensions.cs). A string is a sequence of
 * Unicode scalar values. Ordinal comparison is equality of those sequences;
 * ordinal case-insensitive comparison compares them after a per-character
 * case fold, which is a parameter `fold` here.
 */
module Strings {
  /** Ordinal equality, or equality after folding each character when `ignoreCase`. */
  predicate EqualsMode(a: string, b: string, ignoreCase: bool, fold: char -> char) {
    if ignoreCase then |a| == |b| && forall i | 0 <= i < |a| :: fold(a[i]) == fold(b[i])
    else a == b
  }

  /** Some candidate of `args` is equal to `input` in the given mode. */
  predicate AnyEquals(input: string, args: seq<string>, ignoreCase: bool, fold: char -> char) {
    exists i | 0 <= i < |args| :: EqualsMode(input, args[i], ignoreCase, fold)
  }

  /**
   * Whether `input` equals one of `args`, trying them in order and stopping at
   * the first that is equal.
   */
  method EqualsAny(input: string, ignoreCase: bool, args: seq<string>, fold: char -> char) returns (r: bool)
    ensures r <==> AnyEquals(input, args, ignoreCase, fold)
    ensures args == [] ==> !r
  {
    for i := 0 to |args|
      invariant forall j | 0 <= j < i :: !EqualsMode(input, args[j], ignoreCase, fold)
    {
      if EqualsMode(input, args[i], ignoreCase, fold) {
        return true;
      }
    }
    return false;
  }

  /** Case-insensitive comparison accepts every pair ordinal comparison accepts. */
  lemma OrdinalImpliesIgnoreCase(input: string, args: seq<string>, fold: char -> char)
    ensures AnyEquals(input, args, false, fold) ==> AnyEquals(input, args, true, fold)
  {
    if AnyEquals(input, args, false, fold) {
      var i :| 0 <= i < |args| && input == args[i];
      assert EqualsMode(input, args[i], true, fold);
    }
  }

  /** Without case folding, some candidate is equal exactly when `input` is one of them. */
  lemma OrdinalIsMembership(input: string, args: seq<string>, fold: char -> char)
    ensures AnyEquals(input, args, false, fold) <==> input in args
  {
    if input in args {
      var i :| 0 <= i < |args| && args[i] == input;
      assert EqualsMode(input, args[i], false, fold);
    }
  }

  /** The answer does not depend on the order (or the repetition) of the candidates. */
  lemma OrderIrrelevant(input: string, args: seq<string>, other: seq<string>, ignoreCase: bool, fold: char -> char)
    requires forall a | a in args :: a in other
    requires forall a | a in other :: a in args
    ensures AnyEquals(input, args, ignoreCase, fold) <==> AnyEquals(input, other, ignoreCase, fold)
  {
    if AnyEquals(input, args, ignoreCase, fold) {
      var i :| 0 <= i < |args| && EqualsMode(input, args[i], ignoreCase, fold);
      assert args[i] in other;
      var j :| 0 <= j < |other| && other[j] == args[i];
    }
    if AnyEquals(input, other, ignoreCase, fold) {
      var j :| 0 <= j < |other| && EqualsMode(input, other[j], ignoreCase, fold);
      assert other[j] in args;
      var i :| 0 <= i < |args| && args[i] == other[j];
    }
  }
}
