/**
 * The validated value slots of a contact: Name, Phone, Birthday and Email.
 * A field object is modelled as its value; assigning to a field goes through
 * `Assign`, which stores the new value only when validation succeeded.
 */
module Fields {
  import opened Errors
  import opened Text
  import opened Dates

  /** Name and Phone store whatever they are given; their display form is the raw string. */
  datatype Name = Name(value: string)
  datatype Phone = Phone(value: string)

  /** A Birthday holds a real calendar date. */
  datatype Birthday = Birthday(value: CalendarDate)

  /** An Email holds the accepted string unchanged. */
  datatype Email = Email(value: string)

  /** The field after an assignment, and the exception the setter raised, if any. */
  datatype Assigned<T> = Assigned(field: T, raised: Option<Exception>)

  /**
   * Validate-then-assign: `attempt` is what the setter's validation produced
   * from the new input. On success the field takes the new value; on failure
   * the exception propagates and the field keeps its previous value.
   */
  function Assign<T>(current: T, attempt: Result<T>): (r: Assigned<T>)
    ensures attempt.Ok? ==> r == Assigned(attempt.value, None)
    ensures attempt.Err? ==> r == Assigned(current, Some(attempt.error))
  {
    match attempt
    case Ok(v) => Assigned(v, None)
    case Err(e) => Assigned(current, Some(e))
  }

  // ---------------------------------------------------------------------------
  // Birthday: strptime(value, "%d-%m-%Y") and strftime("%d-%m-%Y")
  // ---------------------------------------------------------------------------

  /** The texts the `%d` directive accepts: `3[01]`, `[12]\d`, `0[1-9]`, `[1-9]` or a space and `[1-9]`. */
  predicate IsDayToken(t: string)
  {
    || (|t| == 1 && IsNonZeroDigit(t[0]))
    || (|t| == 2 && (t[0] == '0' || t[0] == ' ') && IsNonZeroDigit(t[1]))
    || (|t| == 2 && (t[0] == '1' || t[0] == '2') && IsDigit(t[1]))
    || (|t| == 2 && t[0] == '3' && (t[1] == '0' || t[1] == '1'))
  }

  /** The texts the `%m` directive accepts: `1[0-2]`, `0[1-9]` or `[1-9]`. */
  predicate IsMonthToken(t: string)
  {
    || (|t| == 1 && IsNonZeroDigit(t[0]))
    || (|t| == 2 && t[0] == '0' && IsNonZeroDigit(t[1]))
    || (|t| == 2 && t[0] == '1' && '0' <= t[1] <= '2')
  }

  /** The texts the `%Y` directive accepts: exactly four digits. */
  predicate IsYearToken(t: string)
  {
    |t| == 4 && IsDigit(t[0]) && IsDigit(t[1]) && IsDigit(t[2]) && IsDigit(t[3])
  }

  /** `int()` of a one- or two-character day or month token; a leading space counts as nothing. */
  function SmallValue(t: string): nat
    requires IsDayToken(t) || IsMonthToken(t)
  {
    if |t| == 1 then DigitValue(t[0])
    else (if t[0] == ' ' then 0 else DigitValue(t[0])) * 10 + DigitValue(t[1])
  }

  function YearValue(t: string): nat
    requires IsYearToken(t)
  {
    DigitValue(t[0]) * 1000 + DigitValue(t[1]) * 100 + DigitValue(t[2]) * 10 + DigitValue(t[3])
  }

  /** The first position at or after `from` that holds `c`. */
  function IndexOf(s: string, c: char, from: nat): (r: Option<nat>)
    requires from <= |s|
    ensures r.Some? ==> from <= r.value < |s| && s[r.value] == c
    ensures r.Some? ==> forall k :: from <= k < r.value ==> s[k] != c
    ensures r.None? ==> forall k :: from <= k < |s| ==> s[k] != c
    decreases |s| - from
  {
    if from == |s| then None
    else if s[from] == c then Some(from)
    else IndexOf(s, c, from + 1)
  }

  /**
   * `datetime.strptime(s, "%d-%m-%Y").date()`: the whole string must be a day
   * token, '-', a month token, '-', a year token, and the three must name an
   * existing date; anything else raises `ValueError`.
   */
  function ParseDate(s: string): (r: Result<CalendarDate>)
    ensures r.Err? ==> r.error == ValueError
  {
    match IndexOf(s, '-', 0)
    case None => Err(ValueError)
    case Some(i) =>
      match IndexOf(s, '-', i + 1)
      case None => Err(ValueError)
      case Some(j) =>
        if IsDayToken(s[..i]) && IsMonthToken(s[i + 1..j]) && IsYearToken(s[j + 1..]) then
          var d := Date(YearValue(s[j + 1..]), SmallValue(s[i + 1..j]), SmallValue(s[..i]));
          if IsValid(d) then Ok(d) else Err(ValueError)
        else Err(ValueError)
  }

  /** `s` splits at positions `i` and `j` into day, month and year tokens that spell `d`. */
  ghost predicate SpellsDate(s: string, i: int, j: int, d: Date)
  {
    && 0 <= i < j < |s| && s[i] == '-' && s[j] == '-'
    && IsDayToken(s[..i]) && IsMonthToken(s[i + 1..j]) && IsYearToken(s[j + 1..])
    && d == Date(YearValue(s[j + 1..]), SmallValue(s[i + 1..j]), SmallValue(s[..i]))
  }

  /** The Birthday setter's parse accepts exactly the `DD-MM-YYYY` spellings of existing dates. */
  lemma ParseDateMeaning(s: string, d: Date)
    ensures ParseDate(s) == Ok(d) <==> IsValid(d) && exists i, j :: SpellsDate(s, i, j, d)
  {
    if IsValid(d) && exists i, j :: SpellsDate(s, i, j, d) {
      var i, j :| SpellsDate(s, i, j, d);
      assert forall k :: 0 <= k < i ==> s[k] == s[..i][k];
      assert forall k :: i + 1 <= k < j ==> s[k] == s[i + 1..j][k - i - 1];
      assert IndexOf(s, '-', 0) == Some(i);
      assert IndexOf(s, '-', i + 1) == Some(j);
    }
    if ParseDate(s) == Ok(d) {
      var i := IndexOf(s, '-', 0).value;
      var j := IndexOf(s, '-', i + 1).value;
      assert SpellsDate(s, i, j, d);
    }
  }

  /** `%d` and `%m` in strftime: two digits, zero-padded. */
  function Pad2(n: nat): (t: string)
    requires n < 100
  {
    [DigitChar(n / 10), DigitChar(n % 10)]
  }

  /** `%Y` in strftime: four digits, zero-padded. */
  function Pad4(n: nat): (t: string)
    requires n < 10000
  {
    [DigitChar(n / 1000), DigitChar(n / 100 % 10), DigitChar(n / 10 % 10), DigitChar(n % 10)]
  }

  /** `Birthday.__str__`: `strftime("%d-%m-%Y")`. */
  function FormatDate(d: CalendarDate): (s: string)
    ensures |s| == 10 && s[2] == '-' && s[5] == '-'
    ensures forall k :: 0 <= k < 10 && k != 2 && k != 5 ==> IsDigit(s[k])
  {
    Pad2(d.day) + "-" + Pad2(d.month) + "-" + Pad4(d.year)
  }

  lemma Pad2Value(n: nat)
    requires n < 100
    ensures SmallDigits(Pad2(n)) == n
  {
  }

  lemma Pad4Value(n: nat)
    requires n < 10000
    ensures IsYearToken(Pad4(n)) && YearValue(Pad4(n)) == n
  {
    var t := Pad4(n);
    assert DigitValue(t[0]) == n / 1000 && DigitValue(t[1]) == n / 100 % 10;
    assert DigitValue(t[2]) == n / 10 % 10 && DigitValue(t[3]) == n % 10;
    var r1, r2 := n / 10, n / 100;
    assert n == r1 * 10 + n % 10;
    assert r2 == r1 / 10 && r1 == r2 * 10 + r1 % 10;
    assert n / 1000 == r2 / 10 && r2 == n / 1000 * 10 + r2 % 10;
  }

  /** Two digits read as a number. */
  function SmallDigits(t: string): nat
    requires |t| == 2 && IsDigit(t[0]) && IsDigit(t[1])
  {
    DigitValue(t[0]) * 10 + DigitValue(t[1])
  }

  lemma DigitsPad2(t: string)
    requires |t| == 2 && IsDigit(t[0]) && IsDigit(t[1])
    ensures Pad2(SmallDigits(t)) == t
  {
    var n := SmallDigits(t);
    assert n / 10 == DigitValue(t[0]) && n % 10 == DigitValue(t[1]);
  }

  lemma PlaceValues(a: int, b: int, c: int, e: int)
    requires 0 <= a < 10 && 0 <= b < 10 && 0 <= c < 10 && 0 <= e < 10
    ensures var n := a * 1000 + b * 100 + c * 10 + e;
      n / 1000 == a && n / 100 % 10 == b && n / 10 % 10 == c && n % 10 == e
  {
    var n := a * 1000 + b * 100 + c * 10 + e;
    assert n / 10 == a * 100 + b * 10 + c;
    assert n / 100 == a * 10 + b;
  }

  lemma DigitsPad4(t: string)
    requires IsYearToken(t)
    ensures Pad4(YearValue(t)) == t
  {
    PlaceValues(DigitValue(t[0]), DigitValue(t[1]), DigitValue(t[2]), DigitValue(t[3]));
  }

  /** Printing a birthday and parsing the text back gives the same date. */
  lemma FormatThenParse(d: CalendarDate)
    ensures ParseDate(FormatDate(d)) == Ok(d)
  {
    var s := FormatDate(d);
    var dd, mm, yy := Pad2(d.day), Pad2(d.month), Pad4(d.year);
    assert s[..2] == dd && s[3..5] == mm && s[6..] == yy;
    Pad2Value(d.day);
    Pad2Value(d.month);
    Pad4Value(d.year);
    assert IsDayToken(dd) && SmallValue(dd) == d.day;
    assert IsMonthToken(mm) && SmallValue(mm) == d.month;
    assert SpellsDate(s, 2, 5, d);
    ParseDateMeaning(s, d);
  }

  /** A zero-padded text is ten characters long and starts with a digit. */
  predicate IsZeroPadded(s: string)
  {
    |s| == 10 && s[0] != ' '
  }

  /** Parsing a zero-padded `DD-MM-YYYY` text and printing the date gives back the text. */
  lemma ParseThenFormat(s: string)
    requires ParseDate(s).Ok? && IsZeroPadded(s)
    ensures FormatDate(ParseDate(s).value) == s
  {
    var d := ParseDate(s).value;
    ParseDateMeaning(s, d);
    var i, j :| SpellsDate(s, i, j, d);
    var dd, mm, yy := s[..i], s[i + 1..j], s[j + 1..];
    assert |yy| == 4 && |dd| <= 2 && |mm| <= 2;
    assert i == 2 && j == 5;
    assert dd[0] == s[0];
    assert SmallValue(dd) == SmallDigits(dd) && SmallValue(mm) == SmallDigits(mm);
    DigitsPad2(dd);
    DigitsPad2(mm);
    DigitsPad4(yy);
    assert s == dd + "-" + mm + "-" + yy;
  }

  /** The Birthday constructor: the parsed date, or the setter's `ValueError` ("Birthday must be in 'DD-MM-YYYY' format"). */
  function NewBirthday(input: string): (r: Result<Birthday>)
    ensures r.Ok? <==> ParseDate(input).Ok?
    ensures r.Ok? ==> r.value.value == ParseDate(input).value
    ensures r.Err? ==> r.error == ValueError
  {
    match ParseDate(input)
    case Ok(d) => Ok(Birthday(d))
    case Err(_) => Err(ValueError)
  }

  /** Assigning a text to an existing Birthday: the new date, or the old one kept and a `ValueError`. */
  function SetBirthday(current: Birthday, input: string): (r: Assigned<Birthday>)
    ensures r.raised.None? <==> ParseDate(input).Ok?
    ensures r.raised.None? ==> r.field == Birthday(ParseDate(input).value)
    ensures r.raised.Some? ==> r.field == current && r.raised == Some(ValueError)
  {
    Assign(current, NewBirthday(input))
  }

  function BirthdayText(b: Birthday): string
  {
    FormatDate(b.value)
  }

  // ---------------------------------------------------------------------------
  // Email: re.findall(r"\b[A-Za-z][\w+.]+@\w+[.][a-z]{2,3}", value)
  // ---------------------------------------------------------------------------

  /** The character class `[\w+.]` of the local part. */
  predicate IsLocalChar(c: char)
  {
    IsWordChar(c) || c == '+' || c == '.'
  }

  /** The end of the longest run of characters satisfying `p` that starts at `from`. */
  function RunEnd(s: string, from: nat, p: char -> bool): (e: nat)
    requires from <= |s|
    ensures from <= e <= |s|
    ensures forall t :: from <= t < e ==> p(s[t])
    ensures e < |s| ==> !p(s[e])
    decreases |s| - from
  {
    if from == |s| || !p(s[from]) then from else RunEnd(s, from + 1, p)
  }

  /** `\b` in front of a word character: the start of the text or a non-word character before it. */
  predicate StartsWord(s: string, i: int)
    requires 0 <= i < |s|
  {
    i == 0 || !IsWordChar(s[i - 1])
  }

  /**
   * The pattern matches at `i`, decided the way a backtracking matcher would:
   * `[\w+.]+` and `\w+` can only stop where the following literal ('@', '.') is,
   * which is the end of their longest run; `[a-z]{2,3}` needs two lower-case letters.
   */
  predicate MatchAt(s: string, i: int)
    requires 0 <= i < |s|
    ensures MatchAt(s, i) ==> i + 6 < |s| && IsAsciiLetter(s[i])
  {
    && StartsWord(s, i) && IsAsciiLetter(s[i])
    && var j := RunEnd(s, i + 1, IsLocalChar);
       && i + 2 <= j < |s| && s[j] == '@'
       && var k := RunEnd(s, j + 1, IsWordChar);
          && j + 2 <= k && k + 2 < |s| && s[k] == '.'
          && IsLowerLetter(s[k + 1]) && IsLowerLetter(s[k + 2])
  }

  /** `re.findall` returns a non-empty list: some position starts a match. */
  predicate EmailAccepts(s: string)
    ensures EmailAccepts(s) ==> |s| >= 7
  {
    exists i | 0 <= i < |s| :: MatchAt(s, i)
  }

  /** The pattern's pieces laid out on `s`: a letter at `i`, local part up to the '@' at `j`, domain up to the '.' at `k`, two lower-case letters. */
  ghost predicate PatternSpans(s: string, i: int, j: int, k: int)
  {
    && 0 <= i && i + 2 <= j && j + 2 <= k && k + 2 < |s|
    && IsAsciiLetter(s[i])
    && (forall t :: i + 1 <= t < j ==> IsLocalChar(s[t]))
    && s[j] == '@'
    && (forall t :: j + 1 <= t < k ==> IsWordChar(s[t]))
    && s[k] == '.'
    && IsLowerLetter(s[k + 1]) && IsLowerLetter(s[k + 2])
  }

  /** The regular expression matches (as a search, not anchored at the end) starting at `i`. */
  ghost predicate PatternAt(s: string, i: int)
  {
    0 <= i < |s| && StartsWord(s, i) && exists j, k :: PatternSpans(s, i, j, k)
  }

  lemma MatchAtMeaning(s: string, i: int)
    requires 0 <= i < |s|
    ensures MatchAt(s, i) <==> PatternAt(s, i)
  {
    if PatternAt(s, i) {
      var j, k :| PatternSpans(s, i, j, k);
      var j' := RunEnd(s, i + 1, IsLocalChar);
      assert !IsLocalChar(s[j]);
      assert j' == j;
      var k' := RunEnd(s, j + 1, IsWordChar);
      assert !IsWordChar(s[k]);
      assert k' == k;
    }
    if MatchAt(s, i) {
      var j := RunEnd(s, i + 1, IsLocalChar);
      var k := RunEnd(s, j + 1, IsWordChar);
      assert PatternSpans(s, i, j, k);
    }
  }

  /** The Email setter accepts a string exactly when some position in it starts a match of the pattern. */
  lemma EmailAcceptsMeaning(s: string)
    ensures EmailAccepts(s) <==> exists i :: PatternAt(s, i)
  {
    if EmailAccepts(s) {
      var i :| 0 <= i < |s| && MatchAt(s, i);
      MatchAtMeaning(s, i);
    }
    if exists i :: PatternAt(s, i) {
      var i :| PatternAt(s, i);
      MatchAtMeaning(s, i);
    }
  }

  /** The Email constructor: the string unchanged, or the setter's `ValueError` ("Wrong format"). */
  function NewEmail(input: string): (r: Result<Email>)
    ensures r.Ok? <==> EmailAccepts(input)
    ensures r.Ok? ==> r.value.value == input
    ensures r.Err? ==> r.error == ValueError
  {
    if EmailAccepts(input) then Ok(Email(input)) else Err(ValueError)
  }

  /** Assigning a string to an existing Email: stored unchanged, or the old one kept and a `ValueError`. */
  function SetEmail(current: Email, input: string): (r: Assigned<Email>)
    ensures r.raised.None? <==> EmailAccepts(input)
    ensures r.raised.None? ==> r.field == Email(input)
    ensures r.raised.Some? ==> r.field == current && r.raised == Some(ValueError)
  {
    Assign(current, NewEmail(input))
  }

  /** Examples at the edges of the pattern: a match may start inside the text and run past the suffix. */
  lemma EmailAcceptedPlain()
    ensures EmailAccepts("jo.d@mail.com")
  {
    var a := "jo.d@mail.com";
    assert PatternSpans(a, 0, 4, 9);
    assert PatternAt(a, 0);
    EmailAcceptsMeaning(a);
  }

  lemma EmailAcceptedInside()
    ensures EmailAccepts("to jd@ma.comx")
  {
    var b := "to jd@ma.comx";
    assert StartsWord(b, 3);
    assert PatternSpans(b, 3, 5, 8);
    assert PatternAt(b, 3);
    EmailAcceptsMeaning(b);
  }

  /** The local part needs at least two characters. */
  lemma EmailRejected()
    ensures !EmailAccepts("j@mail.com")
  {
  }
}
