/**
 * The badge endpoint's decisions: which precision the coverage label gets,
 * which colour tier a coverage value falls in, and what the badge shows for
 * the latest stored report of a user/repo/branch. The SVG template itself is
 * not modelled; only the values handed to it are.
 */
module Badge {
  import opened Tables

  /**
   * A piece of label text: literal characters, or `value` printed with
   * `digits` fractional digits (the "%.1f" and "%.2f" conversions, whose
   * digits are not modelled).
   */
  datatype Piece = Chars(s: string) | Fixed(value: real, digits: nat)

  type Text = seq<Piece>

  /** The suffix of every numeric label: a thin space (U+2009, written as an XML character reference) and '%'. */
  const PercentSuffix := "&#8201;%"

  /** The label of a badge for which no report is stored. */
  const NotAvailable: Text := [Chars("N/A")]

  /** The colour tiers and their palette. */
  const Colormap: map<string, string> := map[
    "green" := "#97ca00",
    "orange" := "#fe7d37",
    "red" := "#e05d44"
  ]

  /** The fixed geometry passed to the badge template. */
  const LeftWidth := 60
  const RightWidth := 54
  const Padding := 4

  /** The default thresholds of the badge endpoint. */
  const DefaultError := 5.0
  const DefaultWarn := 80.0

  /** The number of fractional digits a numeral piece shows ("100" shows none). */
  function Digits(p: Piece): nat {
    match p
    case Chars(_) => 0
    case Fixed(_, d) => d
  }

  /** The label numeral of a coverage value: "100", one fractional digit or two. */
  function CoveragePrecision(cov: real): (p: Piece)
    ensures p == Chars("100") <==> 99.95 <= cov
    ensures p.Chars? ==> p.s == "100"
    ensures p.Fixed? ==> p.value == cov
    ensures Digits(p) == 0 <==> 99.95 <= cov
    ensures Digits(p) == 1 <==> 9.995 <= cov < 99.95
    ensures Digits(p) == 2 <==> cov < 9.995
  {
    if cov >= 99.95 then Chars("100")
    else if cov >= 9.995 then Fixed(cov, 1)
    else Fixed(cov, 2)
  }

  /** The label of a stored coverage value: its numeral followed by the percent suffix. */
  function FormatCoverage(cov: real): (t: Text)
    ensures |t| == 2 && t[0] == CoveragePrecision(cov) && t[1] == Chars(PercentSuffix)
    ensures t != NotAvailable
  {
    [CoveragePrecision(cov)] + [Chars(PercentSuffix)]
  }

  // A reference for the precision tiers: a numeral printed with d fractional
  // digits shows RoundedUnits(x, d) units of 10^-d (rounding half up). The
  // tier boundaries 9.995 and 99.95 are exactly where one more digit would
  // need a fourth significant digit.

  function Scale(digits: nat): real {
    if digits == 0 then 1.0 else 10.0 * Scale(digits - 1)
  }

  function RoundedUnits(x: real, digits: nat): int {
    (x * Scale(digits) + 0.5).Floor
  }

  /**
   * For 0 <= x < 999.5: x printed with `digits` fractional digits has at
   * most three significant digits. (A negative x always passes this test,
   * whatever the length of its numeral; from 999.5 on no width passes.)
   */
  predicate FitsThreeDigits(x: real, digits: nat) {
    RoundedUnits(x, digits) < 1000
  }

  /**
   * For 0 <= x < 999.5: the most fractional digits, up to two, that keep x
   * within three significant digits; 0 when no width passes the test.
   */
  function WidestFit(x: real): nat {
    if FitsThreeDigits(x, 2) then 2
    else if FitsThreeDigits(x, 1) then 1
    else 0
  }

  /** The chosen precision is the widest one whose rounded numeral has at most three significant digits. */
  lemma PrecisionIsWidestFit(cov: real)
    ensures Digits(CoveragePrecision(cov)) == WidestFit(cov)
  {
    assert Scale(1) == 10.0;
    assert Scale(2) == 100.0;
  }

  /** Up to 100.5, the literal "100" is the coverage rounded to a whole percent. */
  lemma HundredIsRounded(cov: real)
    requires 99.95 <= cov < 100.5
    ensures CoveragePrecision(cov) == Chars("100")
    ensures RoundedUnits(cov, 0) == 100
  {
    assert Scale(0) == 1.0;
  }

  /** A higher coverage never gets more fractional digits. */
  lemma PrecisionMonotone(lo: real, hi: real)
    requires lo <= hi
    ensures Digits(CoveragePrecision(hi)) <= Digits(CoveragePrecision(lo))
  {
  }

  /** The colour tier of a coverage value: the first of red, orange, green whose condition holds. */
  function RenderColor(cov: real, warn: real, error: real): (c: string)
    ensures c in Colormap
    ensures c == "red" <==> cov <= error
    ensures c == "orange" <==> error < cov <= warn
    ensures c == "green" <==> error < cov && warn < cov
  {
    if cov <= error then "red"
    else if cov <= warn then "orange"
    else "green"
  }

  /** The order of the tiers, worst first. */
  function Rank(c: string): nat {
    if c == "red" then 0 else if c == "orange" then 1 else 2
  }

  /** Raising the coverage never lowers the tier. */
  lemma ColorMonotone(lo: real, hi: real, warn: real, error: real)
    requires lo <= hi
    ensures Rank(RenderColor(lo, warn, error)) <= Rank(RenderColor(hi, warn, error))
  {
  }

  /** Raising either threshold never raises the tier. */
  lemma ColorAntitone(cov: real, warn: real, error: real, warn': real, error': real)
    requires warn <= warn' && error <= error'
    ensures Rank(RenderColor(cov, warn', error')) <= Rank(RenderColor(cov, warn, error))
  {
  }

  /** Red is decided first: when the error threshold is not below the warning one, orange never appears. */
  lemma RedHasPriority(cov: real, warn: real, error: real)
    requires warn <= error
    ensures RenderColor(cov, warn, error) != "orange"
  {
  }

  /** The values handed to the badge template. */
  datatype Badge = Badge(w1: nat, w2: nat, pad: nat, coverage: Text, color: string)

  /** The response of the badge endpoint: a badge, or 400 for a threshold that does not parse. */
  datatype BadgeResponse = Svg(badge: Badge) | BadThreshold {
    function Status(): (s: Status)
      ensures Svg? <==> s == Ok
      ensures BadThreshold? <==> s == BadRequest
    {
      if Svg? then Ok else BadRequest
    }
  }

  /**
   * A threshold query argument: its float conversion when present (None when
   * that conversion fails), the default otherwise.
   */
  function Threshold(args: map<string, string>, key: string, default: real, floatOf: string -> Option<real>)
    : (r: Option<real>)
    ensures key !in args ==> r == Some(default)
    ensures key in args ==> r == floatOf(args[key])
  {
    if key in args then floatOf(args[key]) else Some(default)
  }

  /**
   * The badge for user/repo/branch given the query arguments and the stored
   * reports; `floatOf` is the float conversion of a query string.
   */
  function GetCoverageSvg(args: map<string, string>, records: seq<CoverageInfo>,
                          user: string, repo: string, branch: string,
                          floatOf: string -> Option<real>): (r: BadgeResponse)
    ensures r.BadThreshold? <==>
      Threshold(args, "error", DefaultError, floatOf).None? || Threshold(args, "warn", DefaultWarn, floatOf).None?
    ensures r.Svg? ==> r.badge.w1 == 60 && r.badge.w2 == 54 && r.badge.pad == 4
    ensures r.Svg? ==> r.badge.color in Colormap.Values
    ensures r.Svg? ==> (r.badge.coverage == NotAvailable <==> Latest(records, user, repo, branch).None?)
    ensures r.Svg? && Latest(records, user, repo, branch).None? ==> r.badge.color == Colormap["red"]
    ensures r.Svg? && Latest(records, user, repo, branch).Some? ==>
      var cov := Latest(records, user, repo, branch).value.coverage;
      && r.badge.coverage == FormatCoverage(cov)
      && r.badge.color == Colormap[RenderColor(cov, Threshold(args, "warn", DefaultWarn, floatOf).value,
                                                    Threshold(args, "error", DefaultError, floatOf).value)]
  {
    var error := Threshold(args, "error", DefaultError, floatOf);
    var warn := Threshold(args, "warn", DefaultWarn, floatOf);
    if error.None? || warn.None? then BadThreshold
    else
      match Latest(records, user, repo, branch)
      case Some(c) =>
        Svg(Badge(LeftWidth, RightWidth, Padding, FormatCoverage(c.coverage),
                  Colormap[RenderColor(c.coverage, warn.value, error.value)]))
      case None =>
        Svg(Badge(LeftWidth, RightWidth, Padding, NotAvailable, Colormap["red"]))
  }
}
