/** `getChromeVersion` (main.js): the answer of the browser's `Browser.getVersion`
    command, extended with the major version ("milestone") read out of its
    product string by the regular expression `/\/(\d+)/` and `parseInt`. */
module ChromeVersion {
  import opened Basics

  /** The fields `Browser.getVersion` answers with. */
  datatype VersionInfo = VersionInfo(
    protocolVersion: string,
    product: string,
    revision: string,
    userAgent: string,
    jsVersion: string)

  /** The version descriptor of one experiment: the browser's answer, the milestone
      added to it, and the catalog revision `r` that the revision loop sets later. */
  datatype Version = Version(info: VersionInfo, milestone: nat, r: Option<int>)

  /** `\d` in a JavaScript regular expression: an ASCII decimal digit only. */
  predicate IsDigit(c: char)
  {
    '0' <= c <= '9'
  }

  function DigitValue(c: char): (d: nat)
    requires IsDigit(c)
    ensures d < 10
  {
    c as int - '0' as int
  }

  function DigitChar(d: nat): (c: char)
    requires d < 10
    ensures IsDigit(c) && DigitValue(c) == d
  {
    ('0' as int + d) as char
  }

  predicate AllDigits(s: string)
  {
    forall i :: 0 <= i < |s| ==> IsDigit(s[i])
  }

  /** The pattern `\/\d` starts at index `i`: a slash directly followed by a digit. */
  predicate SlashDigitAt(s: string, i: int)
  {
    0 <= i < |s| - 1 && s[i] == '/' && IsDigit(s[i + 1])
  }

  /** Where the regular expression's leftmost match begins, searching from `from`. */
  function FindSlashDigit(s: string, from: nat): (k: Option<nat>)
    ensures k.Some? ==>
      from <= k.value && SlashDigitAt(s, k.value) &&
      forall j :: from <= j < k.value ==> !SlashDigitAt(s, j)
    ensures k.None? ==> forall j :: from <= j ==> !SlashDigitAt(s, j)
    decreases |s| - from
  {
    if from + 1 >= |s| then None
    else if SlashDigitAt(s, from) then Some(from)
    else FindSlashDigit(s, from + 1)
  }

  /** The greedy group `(\d+)`: the longest run of digits that starts at `from`. */
  function DigitRun(s: string, from: nat): (d: string)
    requires from <= |s|
    ensures from + |d| <= |s| && d == s[from..from + |d|]
    ensures AllDigits(d)
    ensures from + |d| == |s| || !IsDigit(s[from + |d|])
    decreases |s| - from
  {
    if from < |s| && IsDigit(s[from]) then [s[from]] + DigitRun(s, from + 1) else []
  }

  /** `parseInt` of a string of decimal digits (leading zeros add nothing). */
  function DigitsValue(ds: string): nat
    requires AllDigits(ds)
  {
    if ds == [] then 0 else 10 * DigitsValue(ds[..|ds| - 1]) + DigitValue(ds[|ds| - 1])
  }

  /** The shortest decimal numeral of `n`, as `String(n)` writes it. */
  function Decimal(n: nat): (ds: string)
    ensures |ds| > 0 && AllDigits(ds)
  {
    if n < 10 then [DigitChar(n)] else Decimal(n / 10) + [DigitChar(n % 10)]
  }

  /** `match ? parseInt(match[1]) : 0` for the match of `/\/(\d+)/` in `product`. */
  function Milestone(product: string): (m: nat)
    ensures (forall j :: !SlashDigitAt(product, j)) ==> m == 0
  {
    match FindSlashDigit(product, 0)
    case None => 0
    case Some(k) => DigitsValue(DigitRun(product, k + 1))
  }

  /** `getChromeVersion`: every field of the browser's answer is kept, the milestone of
      its product string is added, and no revision is attached yet. */
  function GetChromeVersion(info: VersionInfo): (v: Version)
    ensures v.info == info && v.r.None?
    ensures v.milestone == Milestone(info.product)
  {
    Version(info, Milestone(info.product), None)
  }

  /** Reading back a printed number gives the number. */
  lemma {:induction false} DecimalValue(n: nat)
    ensures DigitsValue(Decimal(n)) == n
  {
    if n >= 10 {
      var ds := Decimal(n);
      assert ds[..|ds| - 1] == Decimal(n / 10);
      DecimalValue(n / 10);
    }
  }

  /** A run of digits that nothing but a non-digit or the end of the string follows
      is exactly what the greedy group `(\d+)` captures there. */
  lemma {:induction false} DigitRunOf(s: string, from: nat, d: string)
    requires AllDigits(d) && from + |d| <= |s|
    requires s[from..] == d + s[from + |d|..]
    requires from + |d| == |s| || !IsDigit(s[from + |d|])
    ensures DigitRun(s, from) == d
    decreases |d|
  {
    if d != [] {
      assert s[from] == d[0];
      assert s[from + 1..] == d[1..] + s[from + 1 + |d[1..]|..] by {
        assert s[from + 1..] == s[from..][1..];
      }
      DigitRunOf(s, from + 1, d[1..]);
    }
  }

  /** After a prefix free of slash-digit pairs, a slash and a digit are the leftmost match. */
  lemma FirstMatchAfter(prefix: string, rest: string)
    requires forall j :: !SlashDigitAt(prefix, j)
    requires |rest| >= 2 && rest[0] == '/' && IsDigit(rest[1])
    ensures FindSlashDigit(prefix + rest, 0) == Some(|prefix|)
  {
    var s := prefix + rest;
    var at := |prefix|;
    assert SlashDigitAt(s, at);
    forall j | 0 <= j < at
      ensures !SlashDigitAt(s, j)
    {
      if j < at - 1 {
        assert s[j] == prefix[j] && s[j + 1] == prefix[j + 1];
        assert !SlashDigitAt(prefix, j);
      } else {
        assert s[j + 1] == '/';
      }
    }
  }

  /** The milestone is the value of the digits right after the first slash that a digit
      follows: for a product string `prefix + "/" + d + suffix`, where `prefix` holds no
      slash-digit pair, `d` is a non-empty run of digits (leading zeros allowed, as
      `parseInt` reads them) and `suffix` does not continue the digits, it is the value of `d`. */
  lemma MilestoneOfDigits(prefix: string, d: string, suffix: string)
    requires forall j :: !SlashDigitAt(prefix, j)
    requires d != [] && AllDigits(d)
    requires suffix == [] || !IsDigit(suffix[0])
    ensures Milestone(prefix + "/" + d + suffix) == DigitsValue(d)
  {
    var rest := "/" + d + suffix;
    assert prefix + "/" + d + suffix == prefix + rest;
    var s := prefix + rest;
    FirstMatchAfter(prefix, rest);
    var from := |prefix| + 1;
    assert s[from..] == d + suffix;
    assert s[from + |d|..] == suffix;
    DigitRunOf(s, from, d);
  }

  /** For a product string `prefix + "/" + String(n) + suffix` of the same shape, the
      milestone is `n`. */
  lemma MilestoneOfProduct(prefix: string, n: nat, suffix: string)
    requires forall j :: !SlashDigitAt(prefix, j)
    requires suffix == [] || !IsDigit(suffix[0])
    ensures Milestone(prefix + "/" + Decimal(n) + suffix) == n
  {
    MilestoneOfDigits(prefix, Decimal(n), suffix);
    DecimalValue(n);
  }

  /** "Chrome" holds no slash at all. */
  lemma NoSlashInChrome()
    ensures forall j :: !SlashDigitAt("Chrome", j)
  {
    forall j | 0 <= j < 6
      ensures "Chrome"[j] != '/'
    {
    }
  }

  lemma DecimalOf71()
    ensures Decimal(71) == "71"
  {
    assert Decimal(7) == "7";
  }

  /** The product string quoted beside the regular expression gives milestone 71. */
  lemma MilestoneOfQuotedProduct()
    ensures Milestone("Chrome/71.0.3577.0") == 71
  {
    NoSlashInChrome();
    DecimalOf71();
    assert "Chrome" + "/" + Decimal(71) + ".0.3577.0" == "Chrome/71.0.3577.0";
    MilestoneOfProduct("Chrome", 71, ".0.3577.0");
  }

  /** Leading zeros in the captured digits do not count: `parseInt("078")` is 78. */
  lemma MilestoneWithLeadingZero()
    ensures Milestone("Chrome/078.1") == 78
  {
    NoSlashInChrome();
    assert "078"[..2] == "07" && "07"[..1] == "0";
    assert DigitsValue("078") == 78;
    assert "Chrome" + "/" + "078" + ".1" == "Chrome/078.1";
    MilestoneOfDigits("Chrome", "078", ".1");
  }

  /** A product string without a slash-digit pair gives milestone 0. */
  lemma MilestoneWithoutMatch()
    ensures Milestone("Chrome") == 0
    ensures Milestone("Chrome/beta") == 0
  {
    assert forall j :: !SlashDigitAt("Chrome", j);
    assert forall j :: !SlashDigitAt("Chrome/beta", j);
  }
}
