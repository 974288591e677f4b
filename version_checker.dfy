/**
 * The update checker's decision logic: how a version string is cut into numeric parts,
 * how two versions are ordered, and which of the two fetched versions (GitHub or
 * CurseForge) is reported as the update. The fetching itself is not modelled: the two
 * fetched versions are inputs, `None` standing for a failed or empty fetch.
 */
module Versions {
  import opened Wrappers
  import opened JavaText

  // ---------------------------------------------------------------- tokens

  /** One leading lower-case 'v' is dropped (`startsWith("v") ? substring(1) : ...`). */
  function StripV(s: string): (r: string)
    ensures |s| > 0 && s[0] == 'v' ==> r == s[1..]
    ensures !(|s| > 0 && s[0] == 'v') ==> r == s
  {
    if |s| > 0 && s[0] == 'v' then s[1..] else s
  }

  /** The characters of the pattern `[.\-]`. */
  predicate IsSeparator(c: char) { c == '.' || c == '-' }

  predicate HasSeparator(s: string) { exists i :: 0 <= i < |s| && IsSeparator(s[i]) }

  predicate SeparatorFree(s: string) { forall i :: 0 <= i < |s| ==> !IsSeparator(s[i]) }

  /** Every piece between separators, the empty ones included: one more piece than separators. */
  function SplitRaw(s: string): (r: seq<string>)
    ensures |r| >= 1
    ensures forall i :: 0 <= i < |r| ==> SeparatorFree(r[i])
  {
    if |s| == 0 then [""]
    else
      var rest := SplitRaw(s[1..]);
      if IsSeparator(s[0]) then [""] + rest
      else
        var first := [s[0]] + rest[0];
        assert forall j :: 0 < j < |first| ==> first[j] == rest[0][j - 1];
        [first] + rest[1..]
  }

  /** The pieces `String.split` keeps: trailing empty pieces are removed. */
  function DropTrailingEmpty(parts: seq<string>): (r: seq<string>)
    ensures |r| <= |parts| && r == parts[..|r|]
    ensures r == [] || r[|r| - 1] != []
    ensures forall i :: |r| <= i < |parts| ==> parts[i] == []
  {
    if |parts| > 0 && parts[|parts| - 1] == [] then DropTrailingEmpty(parts[..|parts| - 1])
    else parts
  }

  /**
   * `String.split("[.\\-]")`: a string without a separator is returned whole (even when it
   * is empty); otherwise the pieces between separators, less the trailing empty ones.
   */
  function Split(s: string): (r: seq<string>)
    ensures !HasSeparator(s) ==> r == [s]
    ensures HasSeparator(s) ==> r == DropTrailingEmpty(SplitRaw(s))
  {
    if HasSeparator(s) then DropTrailingEmpty(SplitRaw(s)) else [s]
  }

  /** A separator ends the last piece of what precedes it. */
  lemma {:induction false} SplitRawAppend(a: string, sep: char, b: string)
    requires IsSeparator(sep)
    ensures SplitRaw(a + [sep] + b) == SplitRaw(a) + SplitRaw(b)
  {
    if |a| == 0 {
      assert a + [sep] + b == [sep] + b;
      assert ([sep] + b)[1..] == b;
    } else {
      assert (a + [sep] + b)[1..] == a[1..] + [sep] + b;
      SplitRawAppend(a[1..], sep, b);
    }
  }

  /** A string without separators is one piece. */
  lemma {:induction false} SplitRawOfSeparatorFree(s: string)
    requires SeparatorFree(s)
    ensures SplitRaw(s) == [s]
  {
    if |s| > 0 {
      SplitRawOfSeparatorFree(s[1..]);
      assert [s[0]] + s[1..] == s;
    }
  }

  // ---------------------------------------------------------------- part values

  /** The run of digits a part starts with. */
  function LeadingDigits(s: string): (r: string)
    ensures |r| <= |s| && r == s[..|r|] && AllDigits(r)
    ensures |r| < |s| ==> !IsDigit(s[|r|])
  {
    if |s| > 0 && IsDigit(s[0]) then [s[0]] + LeadingDigits(s[1..]) else []
  }

  /** `parseVersionPart`: the leading number, or 0 when there is none or it overflows `int`. */
  function VersionPartValue(part: string): (n: int)
    ensures 0 <= n <= INT_MAX
  {
    var ds := LeadingDigits(part);
    if |ds| == 0 then 0
    else match ParseInt(ds)
      case Some(v) => v
      case None => 0
  }

  /** Digits followed by text that does not start with a digit: the digits are the leading number. */
  lemma {:induction false} LeadingDigitsOf(ds: string, rest: string)
    requires AllDigits(ds)
    requires rest == [] || !IsDigit(rest[0])
    ensures LeadingDigits(ds + rest) == ds
  {
    if |ds| > 0 {
      assert (ds + rest)[1..] == ds[1..] + rest;
      LeadingDigitsOf(ds[1..], rest);
    }
  }

  /** A part "<digits><text>" is worth its digits when they fit in an `int`, and 0 when they overflow. */
  lemma PartValueOfNumber(ds: string, rest: string)
    requires |ds| > 0 && AllDigits(ds)
    requires rest == [] || !IsDigit(rest[0])
    ensures DigitsValue(ds) <= INT_MAX ==> VersionPartValue(ds + rest) == DigitsValue(ds)
    ensures DigitsValue(ds) > INT_MAX ==> VersionPartValue(ds + rest) == 0
  {
    LeadingDigitsOf(ds, rest);
  }

  /** A part that does not start with a digit ("beta", "") is worth 0. */
  lemma PartValueOfText(part: string)
    requires part == [] || !IsDigit(part[0])
    ensures VersionPartValue(part) == 0
  {
  }

  /** The value of every part, in order. */
  function PartValues(parts: seq<string>): (r: seq<int>)
    ensures |r| == |parts|
    ensures forall i :: 0 <= i < |parts| ==> r[i] == VersionPartValue(parts[i])
  {
    if |parts| == 0 then [] else [VersionPartValue(parts[0])] + PartValues(parts[1..])
  }

  /** The numeric parts a version string is compared by. */
  function Tokens(version: string): seq<int>
  {
    PartValues(Split(StripV(version)))
  }

  // ---------------------------------------------------------------- ordering

  /** The `i`-th part, 0 past the end (`i < parts.length ? ... : 0`). */
  function Part(xs: seq<int>, i: nat): (p: int)
    ensures i >= |xs| ==> p == 0
    ensures i < |xs| ==> p == xs[i]
  {
    if i < |xs| then xs[i] else 0
  }

  function MaxLen(a: nat, b: nat): (m: nat)
    ensures m >= a && m >= b && (m == a || m == b)
  {
    if a >= b then a else b
  }

  /** The comparison loop from index `i` up to (not including) `n`: the first unequal part decides. */
  function NewerWithin(xs: seq<int>, ys: seq<int>, i: nat, n: nat): bool
    decreases n - i
  {
    if i >= n then false
    else if Part(xs, i) > Part(ys, i) then true
    else if Part(xs, i) < Part(ys, i) then false
    else NewerWithin(xs, ys, i + 1, n)
  }

  /** `xs` is newer than `ys` over the longer of the two lengths. */
  predicate NewerThan(xs: seq<int>, ys: seq<int>)
  {
    NewerWithin(xs, ys, 0, MaxLen(|xs|, |ys|))
  }

  /** `isNewerVersion`: false when either side is missing, otherwise the part-wise comparison. */
  predicate IsNewer(remote: Option<string>, local: Option<string>)
  {
    remote.Some? && local.Some? && NewerThan(Tokens(remote.value), Tokens(local.value))
  }

  /**
   * The comparison is the lexicographic order on parts: `xs` is newer exactly when, at some
   * index `j` in range, it has the larger part and every part before `j` is equal.
   */
  lemma {:induction false} NewerWithinIsLexicographic(xs: seq<int>, ys: seq<int>, i: nat, n: nat)
    ensures NewerWithin(xs, ys, i, n) <==>
      exists j :: i <= j < n && Part(xs, j) > Part(ys, j) &&
        forall k :: i <= k < j ==> Part(xs, k) == Part(ys, k)
    decreases n - i
  {
    if i < n {
      NewerWithinIsLexicographic(xs, ys, i + 1, n);
      if Part(xs, i) == Part(ys, i) && !NewerWithin(xs, ys, i + 1, n) {
        forall j | i <= j < n && Part(xs, j) > Part(ys, j)
          ensures exists k :: i <= k < j && Part(xs, k) != Part(ys, k)
        {
          assert j != i;
          if forall k :: i + 1 <= k < j ==> Part(xs, k) == Part(ys, k) {
            assert false;
          }
        }
      }
      if Part(xs, i) < Part(ys, i) {
        forall j | i <= j < n && Part(xs, j) > Part(ys, j)
          ensures exists k :: i <= k < j && Part(xs, k) != Part(ys, k)
        {
          assert j != i && Part(xs, i) != Part(ys, i);
        }
      }
    }
  }

  /** Past both lengths every part is 0 on both sides, so nothing there is newer. */
  lemma {:induction false} NothingNewerPastEnd(xs: seq<int>, ys: seq<int>, i: nat, n: nat)
    requires i >= MaxLen(|xs|, |ys|)
    ensures !NewerWithin(xs, ys, i, n)
    decreases n - i
  {
    if i < n {
      NothingNewerPastEnd(xs, ys, i + 1, n);
    }
  }

  /** Any bound at least as long as both versions gives the same answer as the loop's own bound. */
  lemma {:induction false} LongerBoundAgrees(xs: seq<int>, ys: seq<int>, i: nat, n: nat)
    requires n >= MaxLen(|xs|, |ys|)
    ensures NewerWithin(xs, ys, i, n) == NewerWithin(xs, ys, i, MaxLen(|xs|, |ys|))
    decreases n - i
  {
    if i >= MaxLen(|xs|, |ys|) {
      NothingNewerPastEnd(xs, ys, i, n);
    } else {
      LongerBoundAgrees(xs, ys, i + 1, n);
    }
  }

  lemma {:induction false} NewerWithinIrreflexive(xs: seq<int>, i: nat, n: nat)
    ensures !NewerWithin(xs, xs, i, n)
    decreases n - i
  {
    if i < n {
      NewerWithinIrreflexive(xs, i + 1, n);
    }
  }

  lemma {:induction false} NewerWithinAsymmetric(xs: seq<int>, ys: seq<int>, i: nat, n: nat)
    requires NewerWithin(xs, ys, i, n)
    ensures !NewerWithin(ys, xs, i, n)
    decreases n - i
  {
    if i < n && Part(xs, i) == Part(ys, i) {
      NewerWithinAsymmetric(xs, ys, i + 1, n);
    }
  }

  lemma {:induction false} NewerWithinTransitive(xs: seq<int>, ys: seq<int>, zs: seq<int>, i: nat, n: nat)
    requires NewerWithin(xs, ys, i, n) && NewerWithin(ys, zs, i, n)
    ensures NewerWithin(xs, zs, i, n)
    decreases n - i
  {
    if Part(xs, i) == Part(ys, i) && Part(ys, i) == Part(zs, i) {
      NewerWithinTransitive(xs, ys, zs, i + 1, n);
    }
  }

  /** Two part sequences that agree once padded with zeros. */
  ghost predicate SameParts(xs: seq<int>, ys: seq<int>)
  {
    forall k: nat :: Part(xs, k) == Part(ys, k)
  }

  lemma {:induction false} NewerWithinRespectsSameParts(xs: seq<int>, xs': seq<int>, ys: seq<int>, ys': seq<int>, i: nat, n: nat)
    requires SameParts(xs, xs') && SameParts(ys, ys')
    ensures NewerWithin(xs, ys, i, n) == NewerWithin(xs', ys', i, n)
    decreases n - i
  {
    if i < n {
      assert Part(xs, i) == Part(xs', i) && Part(ys, i) == Part(ys', i);
      NewerWithinRespectsSameParts(xs, xs', ys, ys', i + 1, n);
    }
  }

  /** Only the zero-padded parts matter, not how many trailing zeros are written. */
  lemma NewerThanRespectsSameParts(xs: seq<int>, xs': seq<int>, ys: seq<int>, ys': seq<int>)
    requires SameParts(xs, xs') && SameParts(ys, ys')
    ensures NewerThan(xs, ys) == NewerThan(xs', ys')
  {
    var n := MaxLen(MaxLen(|xs|, |ys|), MaxLen(|xs'|, |ys'|));
    LongerBoundAgrees(xs, ys, 0, n);
    LongerBoundAgrees(xs', ys', 0, n);
    NewerWithinRespectsSameParts(xs, xs', ys, ys', 0, n);
  }

  // ---------------------------------------------------------------- properties of isNewerVersion

  /** A missing version is never newer, and nothing is newer than a missing version. */
  lemma MissingIsNeverNewer(v: Option<string>)
    ensures !IsNewer(None, v) && !IsNewer(v, None)
  {
  }

  /** No version is newer than itself. */
  lemma IsNewerIrreflexive(v: Option<string>)
    ensures !IsNewer(v, v)
  {
    if v.Some? {
      var t := Tokens(v.value);
      NewerWithinIrreflexive(t, 0, MaxLen(|t|, |t|));
    }
  }

  /** Of two versions at most one is newer than the other. */
  lemma IsNewerAsymmetric(a: Option<string>, b: Option<string>)
    requires IsNewer(a, b)
    ensures !IsNewer(b, a)
  {
    var ta, tb := Tokens(a.value), Tokens(b.value);
    NewerWithinAsymmetric(ta, tb, 0, MaxLen(|ta|, |tb|));
    assert MaxLen(|ta|, |tb|) == MaxLen(|tb|, |ta|);
  }

  /** Newer-than is transitive, so the versions seen form a strict order. */
  lemma IsNewerTransitive(a: Option<string>, b: Option<string>, c: Option<string>)
    requires IsNewer(a, b) && IsNewer(b, c)
    ensures IsNewer(a, c)
  {
    var ta, tb, tc := Tokens(a.value), Tokens(b.value), Tokens(c.value);
    var n := MaxLen(MaxLen(|ta|, |tb|), |tc|);
    LongerBoundAgrees(ta, tb, 0, n);
    LongerBoundAgrees(tb, tc, 0, n);
    LongerBoundAgrees(ta, tc, 0, n);
    NewerWithinTransitive(ta, tb, tc, 0, n);
  }

  /** One leading 'v' makes no difference on either side. */
  lemma LeadingVIgnored(a: string, other: Option<string>)
    requires !(|a| > 0 && a[0] == 'v')
    ensures IsNewer(Some("v" + a), other) == IsNewer(Some(a), other)
    ensures IsNewer(other, Some("v" + a)) == IsNewer(other, Some(a))
  {
    assert ("v" + a)[1..] == a;
    assert StripV("v" + a) == StripV(a);
  }

  /** Dropping trailing empty pieces drops only parts worth 0. */
  lemma DroppedPartsAreZero(parts: seq<string>)
    ensures SameParts(PartValues(DropTrailingEmpty(parts)), PartValues(parts))
  {
    var kept := DropTrailingEmpty(parts);
    forall k: nat
      ensures Part(PartValues(kept), k) == Part(PartValues(parts), k)
    {
      if |kept| <= k < |parts| {
        PartValueOfText(parts[k]);
      }
    }
  }

  /** `split` and the raw pieces give the same parts once padded with zeros. */
  lemma SplitHasRawParts(s: string)
    ensures SameParts(PartValues(Split(s)), PartValues(SplitRaw(s)))
  {
    if HasSeparator(s) {
      DroppedPartsAreZero(SplitRaw(s));
    } else {
      SplitRawOfSeparatorFree(s);
    }
  }

  /** Appending ".0" commutes with stripping the leading 'v'. */
  lemma StripVOfTrailingZero(v: string)
    ensures StripV(v + ".0") == StripV(v) + ".0"
  {
    var w := v + ".0";
    assert w[0] == (if |v| > 0 then v[0] else '.');
    if |v| > 0 && v[0] == 'v' {
      assert w[1..] == v[1..] + ".0";
    }
  }

  /** Splitting `u + ".0"` gives the raw pieces of `u` and then "0". */
  lemma {:induction false} SplitOfTrailingZero(u: string)
    ensures Split(u + ".0") == SplitRaw(u) + ["0"]
  {
    var w := u + ".0";
    assert w == u + ['.'] + "0";
    SplitRawAppend(u, '.', "0");
    SplitRawOfSeparatorFree("0");
    var raw := SplitRaw(u) + ["0"];
    assert SplitRaw(w) == raw;
    assert w[|u|] == '.';
    assert HasSeparator(w);
    assert raw[|raw| - 1] == "0";
    assert DropTrailingEmpty(raw) == raw;
  }

  /** One more "0" piece adds one more part worth 0. */
  lemma {:induction false} ZeroPieceAppended(pieces: seq<string>)
    ensures SameParts(PartValues(pieces + ["0"]), PartValues(pieces))
  {
    PartValueOfNumber("0", "");
    assert "0" + "" == "0";
    var withZero, without := PartValues(pieces + ["0"]), PartValues(pieces);
    forall k: nat
      ensures Part(withZero, k) == Part(without, k)
    {
      if k < |pieces| {
        assert (pieces + ["0"])[k] == pieces[k];
      } else if k == |pieces| {
        assert (pieces + ["0"])[k] == "0";
      }
    }
  }

  /** The tokens of `v + ".0"` are those of `v` with one more zero part. */
  lemma {:induction false} TrailingZeroTokens(v: string)
    ensures SameParts(Tokens(v + ".0"), Tokens(v))
  {
    var u := StripV(v);
    StripVOfTrailingZero(v);
    SplitOfTrailingZero(u);
    ZeroPieceAppended(SplitRaw(u));
    SplitHasRawParts(u);
    var a, b, c := Tokens(v + ".0"), PartValues(SplitRaw(u)), Tokens(v);
    assert a == PartValues(SplitRaw(u) + ["0"]);
    assert c == PartValues(Split(u));
    forall k: nat
      ensures Part(a, k) == Part(c, k)
    {
      assert Part(a, k) == Part(b, k);
    }
  }

  /** Missing trailing parts count as zero: `v + ".0"` is neither older nor newer than `v`. */
  lemma TrailingZeroIgnored(v: string, other: Option<string>)
    ensures IsNewer(Some(v + ".0"), other) == IsNewer(Some(v), other)
    ensures IsNewer(other, Some(v + ".0")) == IsNewer(other, Some(v))
    ensures !IsNewer(Some(v + ".0"), Some(v)) && !IsNewer(Some(v), Some(v + ".0"))
  {
    TrailingZeroTokens(v);
    if other.Some? {
      var t := Tokens(other.value);
      NewerThanRespectsSameParts(Tokens(v + ".0"), Tokens(v), t, t);
      NewerThanRespectsSameParts(t, t, Tokens(v + ".0"), Tokens(v));
    }
    var tv := Tokens(v);
    NewerThanRespectsSameParts(Tokens(v + ".0"), tv, tv, tv);
    NewerThanRespectsSameParts(tv, tv, Tokens(v + ".0"), tv);
    IsNewerIrreflexive(Some(v));
  }

  /** "1.0" and "1.0.0" are the same version. */
  lemma MissingPartsExample()
    ensures !IsNewer(Some("1.0"), Some("1.0.0")) && !IsNewer(Some("1.0.0"), Some("1.0"))
  {
    assert "1.0" + ".0" == "1.0.0";
    TrailingZeroIgnored("1.0", None);
  }

  /** A word part is worth 0 and a number followed by text is worth the number. */
  lemma PartValueExamples()
    ensures VersionPartValue("beta") == 0
    ensures VersionPartValue("12rc") == 12
  {
    PartValueOfText("beta");
    assert "12rc" == "12" + "rc";
    PartValueOfNumber("12", "rc");
    assert "12"[..1] == "1";
    assert DigitsValue("12") == 12;
  }

  /**
   * A part whose number has ten or more digits and starts with 3 or more (at least
   * 3 000 000 000) overflows `int`: `parseInt` throws and the part is worth 0.
   */
  lemma PartValueOfOverflow(ds: string, rest: string)
    requires |ds| >= 10 && AllDigits(ds) && ds[0] >= '3'
    requires rest == [] || !IsDigit(rest[0])
    ensures VersionPartValue(ds + rest) == 0
  {
    DigitsValueLowerBound(ds);
    var d, p := ds[0] as int - '0' as int, Pow10(|ds| - 1);
    Pow10AtLeast(|ds| - 1, 9);
    assert Pow10(9) == 1_000_000_000;
    assert d >= 3 && p >= 1_000_000_000;
    AtLeastProduct(d, p);
    PartValueOfNumber(ds, rest);
  }

  lemma {:induction false} Pow10AtLeast(n: nat, m: nat)
    requires m <= n
    ensures Pow10(n) >= Pow10(m)
  {
    if m < n {
      Pow10AtLeast(n - 1, m);
    }
  }

  lemma AtLeastProduct(d: int, p: int)
    requires d >= 3 && p >= 1_000_000_000
    ensures d * p >= 3_000_000_000
  {
  }

  // ---------------------------------------------------------------- imperative comparison

  /** A digit at `i` extends the leading digits of the suffix from `i`. */
  lemma LeadingDigitsStep(s: string, i: nat)
    requires i < |s| && IsDigit(s[i])
    ensures LeadingDigits(s[i..]) == [s[i]] + LeadingDigits(s[i + 1..])
  {
    var t := s[i..];
    assert t[0] == s[i];
    assert t[1..] == s[i + 1..];
  }

  /** The leading digits of a suffix that is empty or starts with a non-digit are none. */
  lemma LeadingDigitsStop(s: string, i: nat)
    requires i <= |s| && (i == |s| || !IsDigit(s[i]))
    ensures LeadingDigits(s[i..]) == []
  {
    var t := s[i..];
    assert t == [] || t[0] == s[i];
  }

  /** `parseVersionPart`: collects the leading digits, then parses them; overflow counts as 0. */
  method ParseVersionPart(part: string) returns (n: int)
    ensures n == VersionPartValue(part)
  {
    var numStr := CollectLeadingDigits(part);
    if |numStr| > 0 {
      var parsed := ParseInt(numStr);
      n := if parsed.Some? then parsed.value else 0;
    } else {
      n := 0;
    }
  }

  /** The character loop of `parseVersionPart`: appends digits until the first non-digit. */
  method CollectLeadingDigits(part: string) returns (numStr: string)
    ensures numStr == LeadingDigits(part)
  {
    numStr := "";
    var i := 0;
    while i < |part|
      invariant 0 <= i <= |part|
      invariant LeadingDigits(part) == numStr + LeadingDigits(part[i..])
    {
      if !IsDigit(part[i]) {
        break;
      }
      LeadingDigitsStep(part, i);
      ghost var later := LeadingDigits(part[i + 1..]);
      assert numStr + ([part[i]] + later) == (numStr + [part[i]]) + later;
      numStr := numStr + [part[i]];
      i := i + 1;
    }
    LeadingDigitsStop(part, i);
    assert numStr + [] == numStr;
  }

  /** `isNewerVersion`: missing versions are never newer; otherwise strip, split and compare. */
  method IsNewerVersion(remoteVersion: Option<string>, localVersion: Option<string>) returns (newer: bool)
    ensures newer == IsNewer(remoteVersion, localVersion)
  {
    if remoteVersion.None? || localVersion.None? {
      return false;
    }
    var remoteParts := Split(StripV(remoteVersion.value));
    var localParts := Split(StripV(localVersion.value));
    newer := ComparePartLists(remoteParts, localParts);
  }

  /** The index loop of `isNewerVersion` over the longer part list, missing parts read as 0. */
  method ComparePartLists(remoteParts: seq<string>, localParts: seq<string>) returns (newer: bool)
    ensures newer == NewerThan(PartValues(remoteParts), PartValues(localParts))
  {
    ghost var rs, ls := PartValues(remoteParts), PartValues(localParts);
    var maxLength := MaxLen(|remoteParts|, |localParts|);
    assert MaxLen(|rs|, |ls|) == maxLength;
    var i := 0;
    while i < maxLength
      invariant 0 <= i <= maxLength
      invariant NewerThan(rs, ls) == NewerWithin(rs, ls, i, maxLength)
      decreases maxLength - i
    {
      var remotePart := 0;
      if i < |remoteParts| {
        remotePart := ParseVersionPart(remoteParts[i]);
      }
      var localPart := 0;
      if i < |localParts| {
        localPart := ParseVersionPart(localParts[i]);
      }
      assert remotePart == Part(rs, i) && localPart == Part(ls, i);
      if remotePart > localPart {
        assert NewerWithin(rs, ls, i, maxLength);
        return true;
      } else if remotePart < localPart {
        assert !NewerWithin(rs, ls, i, maxLength);
        return false;
      }
      assert NewerWithin(rs, ls, i, maxLength) == NewerWithin(rs, ls, i + 1, maxLength);
      i := i + 1;
    }
    return false;
  }

  // ---------------------------------------------------------------- choosing the update

  datatype Source = GitHub | CurseForge

  datatype Update = Update(version: string, source: Source)

  /**
   * The selection in `checkForUpdates`: GitHub's version when it is newer than the current
   * one; CurseForge's instead when it is newer than the current one and there is no GitHub
   * pick or it is newer than that pick.
   */
  function SelectNewest(current: Option<string>, github: Option<string>, curseforge: Option<string>): (r: Option<Update>)
    ensures r.Some? && r.value.source == GitHub ==> github == Some(r.value.version)
    ensures r.Some? && r.value.source == CurseForge ==> curseforge == Some(r.value.version)
  {
    var fromGithub := if IsNewer(github, current) then Some(Update(github.value, GitHub)) else None;
    if IsNewer(curseforge, current) && (fromGithub.None? || IsNewer(curseforge, Some(fromGithub.value.version))) then
      Some(Update(curseforge.value, CurseForge))
    else fromGithub
  }

  /** An update is reported exactly when one of the fetched versions is newer than the current one. */
  lemma UpdateFoundIffSomeSourceNewer(current: Option<string>, github: Option<string>, curseforge: Option<string>)
    ensures SelectNewest(current, github, curseforge).Some? <==> IsNewer(github, current) || IsNewer(curseforge, current)
  {
  }

  /** The reported version is newer than the current one. */
  lemma ChosenIsNewerThanCurrent(current: Option<string>, github: Option<string>, curseforge: Option<string>)
    requires SelectNewest(current, github, curseforge).Some?
    ensures IsNewer(Some(SelectNewest(current, github, curseforge).value.version), current)
  {
  }

  /** Neither fetched version is newer than the reported one: the newest of the two is chosen. */
  lemma ChosenIsNewest(current: Option<string>, github: Option<string>, curseforge: Option<string>)
    requires SelectNewest(current, github, curseforge).Some?
    ensures var chosen := Some(SelectNewest(current, github, curseforge).value.version);
      !IsNewer(github, chosen) && !IsNewer(curseforge, chosen)
  {
    var u := SelectNewest(current, github, curseforge).value;
    var chosen := Some(u.version);
    if u.source == GitHub {
      IsNewerIrreflexive(github);
      if IsNewer(curseforge, chosen) {
        IsNewerTransitive(curseforge, chosen, current);
      }
    } else {
      IsNewerIrreflexive(curseforge);
      if IsNewer(github, current) {
        IsNewerAsymmetric(curseforge, github);
      } else if IsNewer(github, chosen) {
        IsNewerTransitive(github, chosen, current);
      }
    }
  }

  /** GitHub wins ties: when CurseForge's version is not newer than GitHub's, GitHub's is reported. */
  lemma GitHubWinsTies(current: Option<string>, github: Option<string>, curseforge: Option<string>)
    requires IsNewer(github, current)
    requires !IsNewer(curseforge, github)
    ensures SelectNewest(current, github, curseforge) == Some(Update(github.value, GitHub))
  {
  }

  /** The same version on both sites is reported as coming from GitHub. */
  lemma SameVersionReportedFromGitHub(current: Option<string>, version: string)
    requires IsNewer(Some(version), current)
    ensures SelectNewest(current, Some(version), Some(version)) == Some(Update(version, GitHub))
  {
    IsNewerIrreflexive(Some(version));
  }

  // ---------------------------------------------------------------- the checker object

  function SourceName(s: Source): string
  {
    match s
    case GitHub => "GitHub"
    case CurseForge => "CurseForge"
  }

  /** How Java's string concatenation shows a possibly-null string. */
  function Shown(s: Option<string>): string
  {
    if s.Some? then s.value else "null"
  }

  function ShownSource(s: Option<Source>): string
  {
    if s.Some? then SourceName(s.value) else "null"
  }

  /** The banner's top and bottom line. */
  const RULE: string := "===================================================="

  /** Where a new release can be downloaded from. */
  const DOWNLOAD_LINKS: string :=
    "  Download links:\n"
    + "  GitHub: https://github.com/Toskan4134/NaturalRegeneration-Hytale/releases\n"
    + "  CurseForge: https://www.curseforge.com/hytale/mods/naturalregeneration\n"

  class VersionChecker {
    const currentVersion: Option<string>
    var latestVersion: Option<string>
    var updateSource: Option<Source>
    var updateAvailable: bool
    var githubVersion: Option<string>
    var curseforgeVersion: Option<string>

    /** An available update names a version newer than the running one, and where it was found. */
    predicate Valid()
      reads this
    {
      updateAvailable ==> latestVersion.Some? && updateSource.Some? && IsNewer(latestVersion, currentVersion)
    }

    constructor (currentVersion: Option<string>)
      ensures this.currentVersion == currentVersion
      ensures latestVersion.None? && updateSource.None? && !updateAvailable
      ensures githubVersion.None? && curseforgeVersion.None?
      ensures Valid()
    {
      this.currentVersion := currentVersion;
      latestVersion := None;
      updateSource := None;
      updateAvailable := false;
      githubVersion := None;
      curseforgeVersion := None;
    }

    /**
     * `checkForUpdates`, given what the two fetches returned. When nothing newer is found
     * only `updateAvailable` is cleared: an earlier `latestVersion` and `updateSource` stay.
     */
    method CheckForUpdates(fetchedGithub: Option<string>, fetchedCurseforge: Option<string>)
      modifies this
      ensures githubVersion == fetchedGithub && curseforgeVersion == fetchedCurseforge
      ensures updateAvailable <==> SelectNewest(currentVersion, fetchedGithub, fetchedCurseforge).Some?
      ensures updateAvailable ==>
        var u := SelectNewest(currentVersion, fetchedGithub, fetchedCurseforge).value;
        latestVersion == Some(u.version) && updateSource == Some(u.source)
      ensures !updateAvailable ==> latestVersion == old(latestVersion) && updateSource == old(updateSource)
      ensures Valid()
    {
      githubVersion := fetchedGithub;
      curseforgeVersion := fetchedCurseforge;

      var newestVersion: Option<string> := None;
      var newestSource: Option<Source> := None;

      var githubNewer := IsNewerVersion(githubVersion, currentVersion);
      if githubNewer {
        newestVersion := githubVersion;
        newestSource := Some(GitHub);
      }

      var curseforgeNewer := IsNewerVersion(curseforgeVersion, currentVersion);
      if curseforgeNewer {
        var beatsGithub := false;
        if newestVersion.Some? {
          beatsGithub := IsNewerVersion(curseforgeVersion, newestVersion);
        }
        if newestVersion.None? || beatsGithub {
          newestVersion := curseforgeVersion;
          newestSource := Some(CurseForge);
        }
      }

      if newestVersion.Some? {
        latestVersion := newestVersion;
        updateSource := newestSource;
        updateAvailable := true;
        ChosenIsNewerThanCurrent(currentVersion, fetchedGithub, fetchedCurseforge);
      } else {
        updateAvailable := false;
      }
    }

    /** `getConsoleMessage`: no message without an update; the banner lists each site's version it has. */
    function ConsoleMessage(): (m: Option<string>)
      reads this
      ensures m.None? <==> !updateAvailable
    {
      if !updateAvailable then None
      else
        var sites :=
          if githubVersion.None? && curseforgeVersion.None? then ""
          else
            "  ---\n"
            + (if githubVersion.Some? then "  GitHub: v" + githubVersion.value + "\n" else "")
            + (if curseforgeVersion.Some? then "  CurseForge: v" + curseforgeVersion.value + "\n" else "")
            + "  ---\n";
        Some(
          RULE + "\n"
          + "  NaturalRegeneration Update Available!\n"
          + "  Current: v" + Shown(currentVersion) + " -> Latest: v" + Shown(latestVersion) + "\n"
          + "  Newest version found on: " + ShownSource(updateSource) + "\n"
          + sites
          + DOWNLOAD_LINKS
          + RULE)
    }

    /** `getPlayerMessage`: no message without an update, otherwise one chat line. */
    function PlayerMessage(): (m: Option<string>)
      reads this
      ensures m.None? <==> !updateAvailable
    {
      if !updateAvailable then None
      else Some("[NaturalRegeneration] Update available! v" + Shown(currentVersion) + " -> v"
        + Shown(latestVersion) + " (Download from " + ShownSource(updateSource) + ")")
    }
  }

  /** Right after a check, a message exists exactly when one of the fetched versions is newer. */
  method CheckThenMessage(checker: VersionChecker, github: Option<string>, curseforge: Option<string>)
    returns (console: Option<string>, player: Option<string>)
    modifies checker
    ensures console.Some? <==> IsNewer(github, checker.currentVersion) || IsNewer(curseforge, checker.currentVersion)
    ensures player.Some? <==> console.Some?
  {
    checker.CheckForUpdates(github, curseforge);
    UpdateFoundIffSomeSourceNewer(checker.currentVersion, github, curseforge);
    console := checker.ConsoleMessage();
    player := checker.PlayerMessage();
  }
}
