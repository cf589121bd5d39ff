/**
  The locator's address list: one XPath per table row, made by putting the
  row number into a template (`generateXPathExpressions`).
 */
module Addresses {
  import opened Text

  /** The token the template carries where the row number goes. */
  const Placeholder: string := "{number}"

  /** `pat` occurs in `s` starting at index `k`. */
  predicate OccursAt(s: string, pat: string, k: nat) {
    k + |pat| <= |s| && s[k..k + |pat|] == pat
  }

  /**
    `s.replace(pat, rep)` with a string pattern: only the first occurrence is
    replaced. `rep` is inserted as it stands, which is what JavaScript does for a
    replacement without `$` patterns, such as the decimal row number.
   */
  function ReplaceFirst(s: string, pat: string, rep: string): string
    decreases |s|
  {
    if |s| < |pat| then s
    else if s[..|pat|] == pat then rep + s[|pat|..]
    else [s[0]] + ReplaceFirst(s[1..], pat, rep)
  }

  /** When the first occurrence of `pat` is at `k`, exactly that occurrence is replaced. */
  lemma {:induction false} ReplaceFirstAt(s: string, pat: string, rep: string, k: nat)
    requires OccursAt(s, pat, k)
    requires forall j :: 0 <= j < k ==> !OccursAt(s, pat, j)
    ensures ReplaceFirst(s, pat, rep) == s[..k] + rep + s[k + |pat|..]
    decreases k
  {
    if k > 0 {
      var tail := s[1..];
      FirstOccurrenceShifts(s, pat, k);
      ReplaceFirstAt(tail, pat, rep, k - 1);
      assert !OccursAt(s, pat, 0);
      assert ReplaceFirst(s, pat, rep) == [s[0]] + ReplaceFirst(tail, pat, rep);
      assert s[..k] == [s[0]] + tail[..k - 1];
      assert tail[k - 1 + |pat|..] == s[k + |pat|..];
    }
  }

  /** Dropping the first character moves the first occurrence one place to the left. */
  lemma FirstOccurrenceShifts(s: string, pat: string, k: nat)
    requires 0 < k && OccursAt(s, pat, k)
    requires forall j :: 0 <= j < k ==> !OccursAt(s, pat, j)
    ensures OccursAt(s[1..], pat, k - 1)
    ensures forall j :: 0 <= j < k - 1 ==> !OccursAt(s[1..], pat, j)
  {
    var tail := s[1..];
    forall j | 0 <= j < k - 1
      ensures !OccursAt(tail, pat, j)
    {
      assert !OccursAt(s, pat, j + 1);
      assert tail[j..j + |pat|] == s[j + 1..j + 1 + |pat|];
    }
    assert tail[k - 1..k - 1 + |pat|] == s[k..k + |pat|];
  }

  /** A template without the pattern comes back unchanged. */
  lemma {:induction false} ReplaceFirstAbsent(s: string, pat: string, rep: string)
    requires forall j :: 0 <= j <= |s| ==> !OccursAt(s, pat, j)
    ensures ReplaceFirst(s, pat, rep) == s
    decreases |s|
  {
    if |s| >= |pat| {
      assert !OccursAt(s, pat, 0);
      forall j | 0 <= j <= |s| - 1
        ensures !OccursAt(s[1..], pat, j)
      {
        assert !OccursAt(s, pat, j + 1);
      }
      ReplaceFirstAbsent(s[1..], pat, rep);
    }
  }

  /** The number of rows in the inclusive range `[startNumber, endNumber]`, zero when it is empty. */
  function RowCount(startNumber: int, endNumber: int): nat {
    if endNumber < startNumber then 0 else endNumber - startNumber + 1
  }

  /** The address of the row numbered `n`. */
  function RowAddress(template: string, n: int): string {
    Trim(ReplaceFirst(template, Placeholder, IntText(n)))
  }

  /** The whole address list, as a value: entry `j` addresses row `startNumber + j`. */
  ghost function Expansion(template: string, startNumber: int, endNumber: int): seq<string> {
    seq(RowCount(startNumber, endNumber), j => RowAddress(template, startNumber + j))
  }

  /**
    `generateXPathExpressions`: one address per row number from `startNumber`
    to `endNumber` inclusive, in ascending order.
   */
  method GenerateXPathExpressions(template: string, startNumber: int, endNumber: int)
    returns (xpaths: seq<string>)
    ensures |xpaths| == RowCount(startNumber, endNumber)
    ensures forall j :: 0 <= j < |xpaths| ==> xpaths[j] == RowAddress(template, startNumber + j)
  {
    xpaths := [];
    var i := startNumber;
    while i <= endNumber
      invariant startNumber <= i <= startNumber + RowCount(startNumber, endNumber)
      invariant |xpaths| == i - startNumber
      invariant forall j :: 0 <= j < |xpaths| ==> xpaths[j] == RowAddress(template, startNumber + j)
      decreases endNumber - i
    {
      var xpath := ReplaceFirst(template, Placeholder, IntText(i));
      assert Trim(xpath) == RowAddress(template, i);
      xpaths := xpaths + [Trim(xpath)];
      i := i + 1;
    }
  }

  /** A string without `{` holds no placeholder. */
  lemma NoPlaceholderWithoutBrace(s: string)
    requires forall k :: 0 <= k < |s| ==> s[k] != '{'
    ensures forall k :: 0 <= k <= |s| ==> !OccursAt(s, Placeholder, k)
  {
    forall k | 0 <= k <= |s|
      ensures !OccursAt(s, Placeholder, k)
    {
      if k + |Placeholder| <= |s| {
        assert s[k..k + |Placeholder|][0] == s[k];
      }
    }
  }

  /** The one placeholder after a `{`-free prefix is the one `replace` substitutes. */
  lemma ReplaceInParts(prefix: string, suffix: string, rep: string)
    requires forall k :: 0 <= k < |prefix| ==> prefix[k] != '{'
    ensures ReplaceFirst(prefix + Placeholder + suffix, Placeholder, rep) == prefix + rep + suffix
  {
    var t := prefix + Placeholder + suffix;
    var p := |prefix|;
    assert t[p..p + |Placeholder|] == Placeholder;
    forall j | 0 <= j < p
      ensures !OccursAt(t, Placeholder, j)
    {
      assert t[j] == prefix[j];
      if j + |Placeholder| <= |t| {
        assert t[j..j + |Placeholder|][0] == t[j];
      }
    }
    ReplaceFirstAt(t, Placeholder, rep, p);
    assert t[..p] == prefix;
    assert t[p + |Placeholder|..] == suffix;
  }

  /**
    When the placeholder occurs once, after a prefix free of `{`, row `n`'s
    address is the prefix, the decimal row number and the suffix, and no
    placeholder is left in it.
   */
  lemma AddressFromParts(prefix: string, suffix: string, n: nat)
    requires forall k :: 0 <= k < |prefix| ==> prefix[k] != '{'
    requires forall k :: 0 <= k < |suffix| ==> suffix[k] != '{'
    requires prefix != [] && !IsWhitespace(prefix[0])
    requires suffix != [] && !IsWhitespace(suffix[|suffix| - 1])
    ensures RowAddress(prefix + Placeholder + suffix, n) == prefix + Decimal(n) + suffix
    ensures forall k :: 0 <= k <= |RowAddress(prefix + Placeholder + suffix, n)| ==>
      !OccursAt(RowAddress(prefix + Placeholder + suffix, n), Placeholder, k)
  {
    var a := prefix + Decimal(n) + suffix;
    ReplaceInParts(prefix, suffix, Decimal(n));
    assert a[0] == prefix[0] && a[|a| - 1] == suffix[|suffix| - 1];
    TrimUnchanged(a);
    assert forall k :: 0 <= k < |Decimal(n)| ==> IsDigit(Decimal(n)[k]);
    NoBraceJoined(prefix, Decimal(n), suffix);
    NoPlaceholderWithoutBrace(a);
  }

  /** Joining three `{`-free texts gives a `{`-free text. */
  lemma NoBraceJoined(prefix: string, mid: string, suffix: string)
    requires forall k :: 0 <= k < |prefix| ==> prefix[k] != '{'
    requires forall k :: 0 <= k < |mid| ==> mid[k] != '{'
    requires forall k :: 0 <= k < |suffix| ==> suffix[k] != '{'
    ensures forall k :: 0 <= k < |prefix + mid + suffix| ==> (prefix + mid + suffix)[k] != '{'
  {
    var a := prefix + mid + suffix;
    forall k | 0 <= k < |a|
      ensures a[k] != '{'
    {
      if k < |prefix| {
        assert a[k] == prefix[k];
      } else if k < |prefix| + |mid| {
        assert a[k] == mid[k - |prefix|];
      } else {
        assert a[k] == suffix[k - |prefix| - |mid|];
      }
    }
  }

  /** Row numbers that differ give addresses that differ, when the suffix starts with a non-digit. */
  lemma AddressesDistinct(prefix: string, suffix: string, m: nat, n: nat)
    requires suffix != [] && !IsDigit(suffix[0])
    requires m != n
    ensures prefix + Decimal(m) + suffix != prefix + Decimal(n) + suffix
  {
    var a := prefix + Decimal(m) + suffix;
    var b := prefix + Decimal(n) + suffix;
    if a == b {
      assert a[|prefix|..] == Decimal(m) + suffix;
      assert b[|prefix|..] == Decimal(n) + suffix;
      DigitPrefixCancel(Decimal(m), suffix, Decimal(n), suffix);
      DecimalInjective(m, n);
    }
  }

  /** The template the script ships with, split at its one placeholder (the prefix in short pieces). */
  const TemplatePrefix: string :=
    "/html/body/table/" + "tbody/tr[3]/td/" + "table/tbody/tr/" + "td/table/tbody/" + "tr/td/div[2]/" + "div[3]/div[3]/" + "div/table/tbody/" + "tr["
  const TemplateSuffix: string := "]/td[12]"
  const Template: string := TemplatePrefix + Placeholder + TemplateSuffix
  const StartNumber: int := 2
  const EndNumber: int := 600

  /** The pieces around the placeholder satisfy what `AddressFromParts` and `AddressesDistinct` ask of them. */
  lemma TemplateParts()
    ensures forall k :: 0 <= k < |TemplatePrefix| ==> TemplatePrefix[k] != '{'
    ensures forall k :: 0 <= k < |TemplateSuffix| ==> TemplateSuffix[k] != '{'
    ensures TemplatePrefix != [] && !IsWhitespace(TemplatePrefix[0])
    ensures TemplateSuffix != [] && !IsWhitespace(TemplateSuffix[|TemplateSuffix| - 1]) && !IsDigit(TemplateSuffix[0])
  {
    assert '{' !in "/html/body/table/" && '{' !in "tbody/tr[3]/td/" && '{' !in "table/tbody/tr/" && '{' !in "td/table/tbody/";
    assert '{' !in "tr/td/div[2]/" && '{' !in "div[3]/div[3]/" && '{' !in "div/table/tbody/" && '{' !in "tr[";
    assert '{' !in TemplateSuffix;
    assert TemplatePrefix[0] == '/' && TemplateSuffix[0] == ']' && TemplateSuffix[|TemplateSuffix| - 1] == ']';
  }

  /**
    Every configured address is the template with the decimal row number in
    place of the placeholder; none keeps a placeholder, and no two coincide.
   */
  lemma ConfiguredAddresses(m: nat, n: nat)
    ensures RowAddress(Template, n) == TemplatePrefix + Decimal(n) + TemplateSuffix
    ensures forall k :: 0 <= k <= |RowAddress(Template, n)| ==> !OccursAt(RowAddress(Template, n), Placeholder, k)
    ensures m != n ==> RowAddress(Template, m) != RowAddress(Template, n)
  {
    TemplateParts();
    AddressFromParts(TemplatePrefix, TemplateSuffix, m);
    AddressFromParts(TemplatePrefix, TemplateSuffix, n);
    if m != n {
      AddressesDistinct(TemplatePrefix, TemplateSuffix, m, n);
    }
  }
}
