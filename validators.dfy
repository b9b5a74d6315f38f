/**
 * The pure helpers of the portal: the Aadhar-number check and its display mask,
 * the inline contact-number rule of registration, the priority normalisation of
 * complaint filing, and the shape of a generated complaint number.
 */
module Validators {
  import opened Wrappers
  import opened Text

  // ---------------------------------------------------------------- Aadhar

  /** `is_valid_aadhar`: the stripped input is exactly twelve decimal digits. */
  predicate IsValidAadhar(aadhar: Option<string>) {
    var a := Strip(aadhar.GetOr(""));
    |a| == 12 && AllDigits(a)
  }

  /** Whitespace, then the slice `v[i..j]` of exactly twelve digits, then whitespace. */
  predicate TwelveDigitsPaddedAt(v: string, i: int, j: int) {
    0 <= i <= j <= |v| && j - i == 12 && AllSpace(v[..i]) && AllDigits(v[i..j]) && AllSpace(v[j..])
  }

  /** Every accepted value is a padded run of twelve digits. */
  lemma AadharValidShape(aadhar: Option<string>) returns (i: nat, j: nat)
    requires IsValidAadhar(aadhar)
    ensures aadhar.Some? && TwelveDigitsPaddedAt(aadhar.value, i, j)
  {
    i, j := StripIsInfix(aadhar.GetOr(""));
  }

  /** Every padded run of twelve digits is accepted. */
  lemma AadharAcceptsPadded(v: string, i: int, j: int)
    requires TwelveDigitsPaddedAt(v, i, j)
    ensures IsValidAadhar(Some(v))
  {
    DigitsAreNotSpace(v[i..j]);
    StripPadded(v[..i], v[i..j], v[j..]);
    assert v == v[..i] + v[i..j] + v[j..];
  }

  /**
   * An independent description of the accepted inputs: a present string made of
   * whitespace, then exactly twelve digits, then whitespace. So `None`, `""`,
   * eleven or thirteen digits, and any other character inside are all rejected.
   */
  lemma AadharValidIff(aadhar: Option<string>)
    ensures IsValidAadhar(aadhar) <==>
      aadhar.Some? && exists i, j :: TwelveDigitsPaddedAt(aadhar.value, i, j)
  {
    if IsValidAadhar(aadhar) {
      var i, j := AadharValidShape(aadhar);
    }
    if aadhar.Some? && exists i, j :: TwelveDigitsPaddedAt(aadhar.value, i, j) {
      var i, j :| TwelveDigitsPaddedAt(aadhar.value, i, j);
      AadharAcceptsPadded(aadhar.value, i, j);
    }
  }

  /** `"X" * n` */
  function Repeat(c: char, n: nat): (r: string)
    ensures |r| == n && forall i :: 0 <= i < n ==> r[i] == c
  {
    seq(n, _ => c)
  }

  /** How many trailing characters the fallback mask shows: Python's `a[-4:]` keeps `min(4, len(a))`. */
  function Shown(a: string): nat {
    if |a| < 4 then |a| else 4
  }

  /** `mask_aadhar`: `XXXX-XXXX-` and the last four digits, or a partial mask for malformed input. */
  function MaskAadhar(aadhar: Option<string>): (r: string)
    ensures aadhar.None? || aadhar == Some("") ==> r == ""
  {
    if aadhar.None? || aadhar.value == "" then "" else MaskStripped(Strip(aadhar.value))
  }

  /** The two branches of `mask_aadhar` once the value has been stripped. */
  function MaskStripped(a: string): string {
    if |a| == 12 && AllDigits(a) then "XXXX-XXXX-" + a[8..]
    else Repeat('X', |a| - Shown(a)) + a[|a| - Shown(a)..]
  }

  /** The shape of the mask of a stripped value, on either branch. */
  lemma MaskStrippedShape(a: string)
    ensures var r := MaskStripped(a);
      && |r| == (if |a| == 12 && AllDigits(a) then 14 else |a|)
      && r[|r| - Shown(a)..] == a[|a| - Shown(a)..]
      && (|a| == 12 && AllDigits(a) ==> r[..10] == "XXXX-XXXX-" && r[10..] == a[8..])
      && (!(|a| == 12 && AllDigits(a)) ==> forall i :: 0 <= i < |r| - Shown(a) ==> r[i] == 'X')
  {
    var r := MaskStripped(a);
    if !(|a| == 12 && AllDigits(a)) {
      var xs := Repeat('X', |a| - Shown(a));
      assert r == xs + a[|a| - Shown(a)..];
      assert forall i :: 0 <= i < |xs| ==> r[i] == xs[i];
    }
  }

  /** On a stripped value: the display form comes out exactly for twelve digits. */
  lemma MaskStrippedFormatIff(a: string)
    ensures var r := MaskStripped(a);
      |a| == 12 && AllDigits(a) <==> (|r| == 14 && r[..10] == "XXXX-XXXX-" && AllDigits(r[10..]))
  {
    var r := MaskStripped(a);
    MaskStrippedShape(a);
    if |a| == 12 && AllDigits(a) {
      assert forall i :: 0 <= i < |r[10..]| ==> r[10..][i] == a[8..][i];
    } else if |a| == 14 {
      assert r[..10][4] == r[4] == 'X';
      assert "XXXX-XXXX-"[4] == '-';
    }
  }

  /**
   * The display form `XXXX-XXXX-dddd` (fourteen characters) comes out exactly for
   * the valid Aadhar numbers, and then its four digits are the input's last four.
   */
  lemma MaskFormatIff(aadhar: Option<string>)
    ensures var r := MaskAadhar(aadhar);
      IsValidAadhar(aadhar) <==> (|r| == 14 && r[..10] == "XXXX-XXXX-" && AllDigits(r[10..]))
    ensures IsValidAadhar(aadhar) ==> MaskAadhar(aadhar)[10..] == Strip(aadhar.value)[8..]
  {
    if aadhar.Some? && aadhar.value != "" {
      MaskStrippedShape(Strip(aadhar.value));
      MaskStrippedFormatIff(Strip(aadhar.value));
    }
  }

  /**
   * The fallback for a present, malformed value keeps the stripped length, hides
   * all but the last four characters behind `X`, and returns an input of at most
   * four characters unchanged.
   */
  lemma MaskFallback(aadhar: Option<string>)
    requires aadhar.Some? && aadhar.value != "" && !IsValidAadhar(aadhar)
    ensures var a, r := Strip(aadhar.value), MaskAadhar(aadhar);
      && |r| == |a|
      && (forall i :: 0 <= i < |a| - 4 ==> r[i] == 'X')
      && (forall i :: 0 <= i < |a| && |a| - 4 <= i ==> r[i] == a[i])
      && (|a| <= 4 ==> r == a)
  {
    var a, r := Strip(aadhar.value), MaskAadhar(aadhar);
    MaskStrippedShape(a);
    var k := |a| - Shown(a);
    assert forall i :: k <= i < |a| ==> r[i] == r[k..][i - k] && a[i] == a[k..][i - k];
  }

  /** Whatever the input, the mask reveals nothing but the stripped input's last (up to) four characters. */
  lemma MaskRevealsOnlyLastFour(aadhar: Option<string>)
    requires aadhar.Some?
    ensures var a, r := Strip(aadhar.value), MaskAadhar(aadhar);
      && |r| >= Shown(a)
      && r[|r| - Shown(a)..] == a[|a| - Shown(a)..]
      && forall i :: 0 <= i < |r| - Shown(a) ==> r[i] == 'X' || r[i] == '-'
  {
    var a, r := Strip(aadhar.value), MaskAadhar(aadhar);
    if aadhar.value == "" {
      assert a == [];
    } else {
      MaskStrippedShape(a);
      if |a| == 12 && AllDigits(a) {
        assert forall i :: 0 <= i < 10 ==> r[i] == r[..10][i];
      }
    }
  }

  /** A bare twelve-digit number is shown as `XXXX-XXXX-` and its last four digits. */
  lemma MaskOfTwelveDigits(d: string)
    requires |d| == 12 && AllDigits(d)
    ensures MaskAadhar(Some(d)) == "XXXX-XXXX-" + d[8..]
  {
    DigitsAreNotSpace(d);
    StripPadded([], d, []);
    assert [] + d + [] == d;
  }

  // ---------------------------------------------------------------- contact

  /** The inline rule of `register`: a contact number is exactly ten decimal digits. */
  predicate IsValidContact(contact: string) {
    |contact| == 10 && AllDigits(contact)
  }

  // ---------------------------------------------------------------- priority

  datatype Priority = Normal | Urgent | Critical

  const PriorityNames: set<string> := {"Normal", "Urgent", "Critical"}

  /** The string the database column holds for a priority. */
  function PriorityName(p: Priority): (s: string)
    ensures s in PriorityNames
  {
    match p
    case Normal => "Normal"
    case Urgent => "Urgent"
    case Critical => "Critical"
  }

  /** `if priority not in [...]: priority = "Normal"`: the three names stand for themselves, anything else for Normal. */
  function NormalizePriority(priority: string): (p: Priority)
    ensures PriorityName(p) == priority <==> priority in PriorityNames
    ensures priority !in PriorityNames ==> p == Normal
  {
    if priority !in PriorityNames then Normal
    else if priority == "Urgent" then Urgent
    else if priority == "Critical" then Critical
    else Normal
  }

  /** Naming a priority and normalising the name gives the priority back, so normalising is idempotent. */
  lemma PriorityRoundTrip(p: Priority, s: string)
    ensures NormalizePriority(PriorityName(p)) == p
    ensures NormalizePriority(PriorityName(NormalizePriority(s))) == NormalizePriority(s)
  {
  }

  // ---------------------------------------------------------------- complaint number

  /** The bounds of `random.randint(100000, 999999)` in `_generate_complaint_no`. */
  const DrawLow: nat := 100000
  const DrawHigh: nat := 999999

  /** A complaint number: six decimal digits, the first not zero. */
  predicate IsComplaintNo(s: string) {
    |s| == 6 && AllDigits(s) && s[0] != '0'
  }

  /** Every draw renders as a complaint number that reads back as the draw. */
  lemma DrawIsComplaintNo(n: nat)
    requires DrawLow <= n <= DrawHigh
    ensures IsComplaintNo(DecimalString(n))
    ensures ParseDecimal(DecimalString(n)) == n
  {
    assert Pow10(5) == DrawLow && Pow10(6) == DrawHigh + 1;
    DecimalLength(n, 6);
    ParseDecimalString(n);
  }
}
