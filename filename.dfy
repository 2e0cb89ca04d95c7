/**
 * `extract_year_from_filename`: the year is the first run of four decimal
 * digits in the uploaded file's name (`re.search(r'\d{4}', name)`), read as a
 * decimal number; a name without one gives no year.
 */
module FileName {
  import opened Wrappers

  predicate IsDigit(c: char) {
    '0' <= c <= '9'
  }

  /** Four consecutive digits start at position `i` of `s`. */
  predicate FourDigitsAt(s: string, i: int) {
    0 <= i && i + 4 <= |s|
    && IsDigit(s[i]) && IsDigit(s[i + 1]) && IsDigit(s[i + 2]) && IsDigit(s[i + 3])
  }

  function DigitValue(c: char): nat
    requires IsDigit(c)
  {
    c as int - '0' as int
  }

  /** `int()` of the four digits at `i`. */
  function FourDigitValue(s: string, i: int): nat
    requires FourDigitsAt(s, i)
  {
    1000 * DigitValue(s[i]) + 100 * DigitValue(s[i + 1]) + 10 * DigitValue(s[i + 2]) + DigitValue(s[i + 3])
  }

  /** The left-to-right scan of the regular-expression search, from position `i` on. */
  function FindFourDigits(s: string, i: nat): (r: Option<nat>)
    ensures r.Some? ==> i <= r.value && FourDigitsAt(s, r.value)
    ensures r.Some? ==> forall j :: i <= j < r.value ==> !FourDigitsAt(s, j)
    ensures r.None? ==> forall j :: i <= j ==> !FourDigitsAt(s, j)
    decreases |s| - i
  {
    if i + 4 > |s| then None
    else if FourDigitsAt(s, i) then Some(i)
    else FindFourDigits(s, i + 1)
  }

  /** The year in a file name: the value of its leftmost four-digit run, if any. */
  function ExtractYear(name: string): (y: Option<nat>)
    ensures y.None? <==> forall i :: !FourDigitsAt(name, i)
    ensures y.Some? ==> y.value <= 9999
    ensures y.Some? ==> exists i :: FourDigitsAt(name, i) && y.value == FourDigitValue(name, i)
                                   && forall j :: 0 <= j < i ==> !FourDigitsAt(name, j)
  {
    match FindFourDigits(name, 0)
    case Some(i) => Some(FourDigitValue(name, i))
    case None => None
  }

  /** Examples: the year is found after other text, and a longer run gives its first four digits. */
  lemma ExtractYearExamples()
    ensures ExtractYear("rain_2019_data.xlsx") == Some(2019)
    ensures ExtractYear("x12345") == Some(1234)
    ensures ExtractYear("rain.xlsx") == None
  {
    assert FourDigitsAt("rain_2019_data.xlsx", 5);
    assert FourDigitsAt("x12345", 1);
  }
}
