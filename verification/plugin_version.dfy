/**
 * Version checks against a plugin's declared version
 * (AmorLib/Utils/Extensions/PluginInfoExtensions.cs). The expected version is
 * text that must match `^(\d+)\.(\d+)\.(\d+)$`; each group is parsed as an
 * Int32 and the plugin's semantic version is compared with the release
 * version they form. A missing plugin info, metadata or version and a
 * malformed text both make the comparison null and every check false; a group
 * above Int32Max makes the parse throw.
 */
module PluginVersions {
  import opened Wrappers

  const Int32Max: int := 0x7fff_ffff

  /** A plugin's semantic version: its numbers, and whether it carries a pre-release tag. */
  datatype PluginVersion = PluginVersion(major: nat, minor: nat, patch: nat, preRelease: bool)

  /** The three digit groups of a matched version text. */
  datatype Groups = Groups(major: string, minor: string, patch: string)

  /** The result of CompareVersion: null, the sign of the comparison, or the exception int.Parse throws. */
  datatype Compared = Null | Order(sign: int) | OverflowThrown

  /** The result of a version check: a truth value, or the exception it lets through. */
  datatype Verdict = Holds(value: bool) | Thrown

  predicate IsDigit(c: char) {
    '0' <= c <= '9'
  }

  /** A non-empty run of decimal digits: what `\d+` matches. */
  predicate Digits(s: string) {
    |s| > 0 && forall i | 0 <= i < |s| :: IsDigit(s[i])
  }

  /** The end of the run of digits that starts at `i`. */
  function SpanDigits(s: string, i: nat): (r: nat)
    requires i <= |s|
    ensures i <= r <= |s|
    ensures forall k | i <= k < r :: IsDigit(s[k])
    ensures r == |s| || !IsDigit(s[r])
    decreases |s| - i
  {
    if i < |s| && IsDigit(s[i]) then SpanDigits(s, i + 1) else i
  }

  /**
   * The regular expression `^(\d+)\.(\d+)\.(\d+)$`: three digit runs split by
   * dots, then the end of the text or a final line feed before it.
   */
  function Match(s: string): (r: Option<Groups>)
    ensures r.Some? ==> Digits(r.value.major) && Digits(r.value.minor) && Digits(r.value.patch)
  {
    var i := SpanDigits(s, 0);
    if i == 0 || i == |s| || s[i] != '.' then None
    else
      var j := SpanDigits(s, i + 1);
      if j == i + 1 || j == |s| || s[j] != '.' then None
      else
        var k := SpanDigits(s, j + 1);
        if k == j + 1 then None
        else if k == |s| || (k == |s| - 1 && s[k] == '\n') then
          DigitsSlice(s, 0, i);
          DigitsSlice(s, i + 1, j);
          DigitsSlice(s, j + 1, k);
          Some(Groups(s[..i], s[i + 1..j], s[j + 1..k]))
        else None
  }

  /** The text without one final line feed, which `$` lets the match end before. */
  function Body(s: string): string {
    if |s| > 0 && s[|s| - 1] == '\n' then s[..|s| - 1] else s
  }

  /** Two dots at `i` and `j` split the body of `s` into three digit runs. */
  predicate SplitsAt(s: string, i: int, j: int) {
    0 < i < j < |Body(s)| && Body(s)[i] == '.' && Body(s)[j] == '.' &&
    Digits(Body(s)[..i]) && Digits(Body(s)[i + 1..j]) && Digits(Body(s)[j + 1..])
  }

  /** A slice made only of digits is a digit run. */
  lemma DigitsSlice(s: string, lo: nat, hi: nat)
    requires lo < hi <= |s| && forall n | lo <= n < hi :: IsDigit(s[n])
    ensures Digits(s[lo..hi])
  {
  }

  /**
   * Match accepts exactly the texts whose body is three digit runs split by two
   * dots, and its groups are those runs.
   */
  lemma MatchIff(s: string)
    ensures Match(s).Some? <==> exists i, j :: SplitsAt(s, i, j)
    ensures forall i, j | SplitsAt(s, i, j) ::
              Match(s) == Some(Groups(Body(s)[..i], Body(s)[i + 1..j], Body(s)[j + 1..]))
  {
    forall i, j | SplitsAt(s, i, j)
      ensures Match(s) == Some(Groups(Body(s)[..i], Body(s)[i + 1..j], Body(s)[j + 1..]))
    {
      MatchComplete(s, i, j);
    }
    if Match(s).Some? {
      MatchSound(s);
    }
  }

  /** Two splitting dots are where Match finds the ends of the first two runs. */
  lemma MatchComplete(s: string, i: int, j: int)
    requires SplitsAt(s, i, j)
    ensures Match(s) == Some(Groups(Body(s)[..i], Body(s)[i + 1..j], Body(s)[j + 1..]))
  {
    SplitInText(s, i, j);
  }

  /** The runs of a split body end where SpanDigits stops, and are the text's own slices. */
  lemma SplitInText(s: string, i: int, j: int)
    requires SplitsAt(s, i, j)
    ensures var k := |Body(s)|;
            && (k == |s| || (k == |s| - 1 && s[k] == '\n'))
            && s[i] == '.' && s[j] == '.'
            && SpanDigits(s, 0) == i && SpanDigits(s, i + 1) == j && SpanDigits(s, j + 1) == k
            && Body(s)[..i] == s[..i] && Body(s)[i + 1..j] == s[i + 1..j] && Body(s)[j + 1..] == s[j + 1..k]
  {
    var b := Body(s);
    var k := |b|;
    assert forall n | 0 <= n < k :: b[n] == s[n];
    assert b[..i] == s[..i] && b[i + 1..j] == s[i + 1..j] && b[j + 1..] == s[j + 1..k];
    RunOf(s, 0, i);
    RunOf(s, i + 1, j);
    RunOf(s, j + 1, k);
    SpanStops(s, 0, i);
    SpanStops(s, i + 1, j);
    SpanStops(s, j + 1, k);
  }

  /** The positions of a digit run inside `s` hold digits. */
  lemma RunOf(s: string, lo: nat, hi: nat)
    requires lo < hi <= |s| && Digits(s[lo..hi])
    ensures forall n | lo <= n < hi :: IsDigit(s[n])
  {
    forall n | lo <= n < hi ensures IsDigit(s[n]) {
      assert s[n] == s[lo..hi][n - lo];
    }
  }

  /** Whatever Match accepts is split by the two dots it stops at. */
  lemma MatchSound(s: string)
    requires Match(s).Some?
    ensures SplitsAt(s, SpanDigits(s, 0), SpanDigits(s, SpanDigits(s, 0) + 1))
  {
    var i := SpanDigits(s, 0);
    var j := SpanDigits(s, i + 1);
    var k := SpanDigits(s, j + 1);
    var b := Body(s);
    assert |b| == k;
    assert b == s[..k];
    assert b[..i] == s[..i] && b[i + 1..j] == s[i + 1..j] && b[j + 1..] == s[j + 1..k];
  }

  /** A digit run from `i` up to a non-digit or the end at `k` is exactly what SpanDigits finds. */
  lemma {:induction false} SpanStops(s: string, i: nat, k: nat)
    requires i <= k <= |s|
    requires forall n | i <= n < k :: IsDigit(s[n])
    requires k == |s| || !IsDigit(s[k])
    ensures SpanDigits(s, i) == k
    decreases k - i
  {
    if i < k {
      SpanStops(s, i + 1, k);
    }
  }

  function DigitValue(c: char): nat
    requires IsDigit(c)
  {
    c as int - '0' as int
  }

  /** The number a run of decimal digits denotes (leading zeros allowed). */
  function Value(d: string): nat
    requires forall i | 0 <= i < |d| :: IsDigit(d[i])
  {
    if d == [] then 0 else 10 * Value(d[..|d| - 1]) + DigitValue(d[|d| - 1])
  }

  /** int.Parse on a digit run: its value, or None where it overflows Int32 and throws. */
  function ParseInt32(d: string): (r: Option<int>)
    requires Digits(d)
    ensures r.Some? <==> Value(d) <= Int32Max
    ensures r.Some? ==> r.value == Value(d)
  {
    var v := Value(d);
    if v <= Int32Max then Some(v) else None
  }

  /** The sign of comparing a plugin's version with the release version `major.minor.patch`. */
  function CompareTo(v: PluginVersion, major: nat, minor: nat, patch: nat): int
  {
    if v.major != major then (if v.major > major then 1 else -1)
    else if v.minor != minor then (if v.minor > minor then 1 else -1)
    else if v.patch != patch then (if v.patch > patch then 1 else -1)
    else if v.preRelease then -1
    else 0
  }

  /** `v` orders above the release version `major.minor.patch`: a larger number at the first place they differ. */
  predicate Above(v: PluginVersion, major: nat, minor: nat, patch: nat) {
    v.major > major ||
    (v.major == major && (v.minor > minor ||
      (v.minor == minor && v.patch > patch)))
  }

  lemma CompareToSign(v: PluginVersion, major: nat, minor: nat, patch: nat)
    ensures CompareTo(v, major, minor, patch) == 0 <==>
              v == PluginVersion(major, minor, patch, false)
    ensures CompareTo(v, major, minor, patch) > 0 <==> Above(v, major, minor, patch)
    ensures CompareTo(v, major, minor, patch) in {-1, 0, 1}
  {
  }

  /**
   * CompareVersion: null when the plugin has no version or the text does not
   * match; the exception when a group overflows Int32; otherwise the sign of
   * the comparison.
   */
  function CompareVersion(info: Option<PluginVersion>, text: string): (r: Compared)
    ensures info.None? || Match(text).None? ==> r == Null
    ensures r.Order? ==>
              var g := Match(text).value;
              Value(g.major) <= Int32Max && Value(g.minor) <= Int32Max && Value(g.patch) <= Int32Max &&
              r.sign == CompareTo(info.value, Value(g.major), Value(g.minor), Value(g.patch))
  {
    if info.None? then Null
    else
      match Match(text)
      case None => Null
      case Some(g) =>
        match (ParseInt32(g.major), ParseInt32(g.minor), ParseInt32(g.patch))
        case (Some(major), Some(minor), Some(patch)) => Order(CompareTo(info.value, major, minor, patch))
        case _ => OverflowThrown
  }

  /** The comparison is not null and satisfies `test`. */
  function Check(c: Compared, test: int -> bool): Verdict {
    match c
    case Null => Holds(false)
    case Order(sign) => Holds(test(sign))
    case OverflowThrown => Thrown
  }

  /** The plugin's version is exactly the release version the text names. */
  function VersionEquals(info: Option<PluginVersion>, text: string): (r: Verdict)
    ensures r == Holds(true) <==>
              info.Some? && Match(text).Some? && !info.value.preRelease &&
              var g := Match(text).value;
              Value(g.major) <= Int32Max && Value(g.minor) <= Int32Max && Value(g.patch) <= Int32Max &&
              info.value == PluginVersion(Value(g.major), Value(g.minor), Value(g.patch), false)
  {
    var c := CompareVersion(info, text);
    if c.Order? then
      var g := Match(text).value;
      CompareToSign(info.value, Value(g.major), Value(g.minor), Value(g.patch));
      Check(c, sign => sign == 0)
    else
      Check(c, sign => sign == 0)
  }

  /** The plugin's version orders above the release version the text names. */
  function VersionExceeds(info: Option<PluginVersion>, text: string): (r: Verdict)
    ensures r == Holds(true) <==>
              info.Some? && Match(text).Some? &&
              var g := Match(text).value;
              Value(g.major) <= Int32Max && Value(g.minor) <= Int32Max && Value(g.patch) <= Int32Max &&
              Above(info.value, Value(g.major), Value(g.minor), Value(g.patch))
  {
    var c := CompareVersion(info, text);
    if c.Order? then
      var g := Match(text).value;
      CompareToSign(info.value, Value(g.major), Value(g.minor), Value(g.patch));
      Check(c, sign => sign > 0)
    else
      Check(c, sign => sign > 0)
  }

  /** The plugin's version orders at or above the release version the text names. */
  function VersionAtLeast(info: Option<PluginVersion>, text: string): (r: Verdict)
    ensures r == Holds(true) <==> VersionEquals(info, text) == Holds(true) || VersionExceeds(info, text) == Holds(true)
  {
    var c := CompareVersion(info, text);
    if c.Order? then
      var g := Match(text).value;
      CompareToSign(info.value, Value(g.major), Value(g.minor), Value(g.patch));
      Check(c, sign => sign >= 0)
    else
      Check(c, sign => sign >= 0)
  }

  /** The three checks throw together, on a matched text with a group above Int32Max, and never otherwise. */
  lemma ThrowsTogether(info: Option<PluginVersion>, text: string)
    ensures VersionEquals(info, text) == Thrown <==> VersionExceeds(info, text) == Thrown
    ensures VersionAtLeast(info, text) == Thrown <==> VersionEquals(info, text) == Thrown
    ensures VersionEquals(info, text) == Thrown <==>
              info.Some? && Match(text).Some? &&
              var g := Match(text).value;
              !(Value(g.major) <= Int32Max && Value(g.minor) <= Int32Max && Value(g.patch) <= Int32Max)
  {
  }

  /** The decimal form of `n`, without leading zeros. */
  function Show(n: nat): (d: string)
    ensures Digits(d)
    ensures Value(d) == n
  {
    var last := ['0' + (n % 10) as char];
    if n < 10 then last
    else
      var d := Show(n / 10) + last;
      assert d[..|d| - 1] == Show(n / 10);
      d
  }

  /** The text `major.minor.patch`, optionally followed by a line feed. */
  function VersionText(major: nat, minor: nat, patch: nat, newline: bool): string {
    Show(major) + "." + Show(minor) + "." + Show(patch) + (if newline then "\n" else "")
  }

  /** A version written `major.minor.patch` matches, with its three numbers as the groups. */
  lemma ShowMatches(major: nat, minor: nat, patch: nat, newline: bool)
    ensures Match(VersionText(major, minor, patch, newline)) == Some(Groups(Show(major), Show(minor), Show(patch)))
  {
    var a, b, c := Show(major), Show(minor), Show(patch);
    var text := VersionText(major, minor, patch, newline);
    VersionBody(a, b, c, newline);
    var i, j := |a|, |a| + 1 + |b|;
    assert SplitsAt(text, i, j);
    MatchComplete(text, i, j);
  }

  /** Three digit runs joined by dots, with or without a final line feed, have them as body and parts. */
  lemma VersionBody(a: string, b: string, c: string, newline: bool)
    requires Digits(c)
    ensures var body := a + "." + b + "." + c;
            Body(body + (if newline then "\n" else "")) == body &&
            body[|a|] == '.' && body[|a| + 1 + |b|] == '.' &&
            body[..|a|] == a && body[|a| + 1..|a| + 1 + |b|] == b && body[|a| + 2 + |b|..] == c
  {
    var body := a + "." + b + "." + c;
    assert body[|body| - 1] == c[|c| - 1];
    if newline {
      assert (body + "\n")[..|body|] == body;
    }
  }

  /** Comparing with a version written out from numbers within Int32 compares with those numbers. */
  lemma ShowCompares(v: PluginVersion, major: nat, minor: nat, patch: nat, newline: bool)
    requires major <= Int32Max && minor <= Int32Max && patch <= Int32Max
    ensures CompareVersion(Some(v), VersionText(major, minor, patch, newline)) == Order(CompareTo(v, major, minor, patch))
  {
    ShowMatches(major, minor, patch, newline);
  }
}
