/** Day 4: which numbers are valid passwords, and how many in a range are.
    A password's digits are those of its decimal display; part one asks for
    digits that never decrease and some two adjacent ones equal, part two for
    digits that never decrease and some digit repeated exactly twice in a
    row. All of `src/bin/day4/main.rs`. */
module Passwords {
  import opened Results
  import opened Arith
  import opened Text

  /** Where the source panics: `to_digit(10).unwrap()` on a character that
      is not a digit (the `-` of a negative number), and an index past the
      end of a digit list shorter than six. */
  datatype PasswordError = NotADigit(c: char) | IndexOutOfRange(index: nat)

  /** The value of a list of decimal digits, most significant first. */
  function Value(digits: seq<nat>): nat
    decreases |digits|
  {
    if |digits| == 0 then 0 else 10 * Value(digits[..|digits| - 1]) + digits[|digits| - 1]
  }

  /** `chars().map(|x| x.to_digit(10).unwrap()).collect()`: the value of
      each character, or the first character that is not a digit. */
  function DigitsOf(s: string): (r: Result<seq<nat>, PasswordError>)
    ensures r.Ok? <==> AllDigits(s)
    ensures r.Ok? ==> |r.value| == |s| && forall i | 0 <= i < |s| :: r.value[i] < 10 && DigitChar(r.value[i]) == s[i]
    // The panic is at the first character that is not a digit.
    ensures r.Err? ==> exists i | 0 <= i < |s| :: !IsDigit(s[i]) && AllDigits(s[..i]) && r.error == NotADigit(s[i])
    decreases |s|
  {
    if |s| == 0 then Ok([])
    else
      match DigitValue(s[0])
      case None =>
        assert AllDigits(s[..0]);
        Err(NotADigit(s[0]))
      case Some(d) =>
        match DigitsOf(s[1..])
        case Err(e) =>
          var j :| 0 <= j < |s| - 1 && !IsDigit(s[1..][j]) && AllDigits(s[1..][..j]) && e == NotADigit(s[1..][j]);
          var prefix := s[..j + 1];
          assert AllDigits(prefix) by {
            forall k | 0 <= k < |prefix| ensures IsDigit(prefix[k]) {
              if k > 0 { assert prefix[k] == s[1..][..j][k - 1]; }
            }
          }
          assert s[1..][j] == s[j + 1];
          Err(e)
        case Ok(rest) =>
          assert forall i | 1 <= i < |s| :: s[i] == s[1..][i - 1];
          Ok([d] + rest)
  }

  /** Digits whose characters are those of a digit string have its value. */
  lemma {:induction false} ValueOfDigits(s: string, digits: seq<nat>)
    requires AllDigits(s) && |digits| == |s|
    requires forall i | 0 <= i < |s| :: digits[i] < 10 && DigitChar(digits[i]) == s[i]
    ensures Value(digits) == DigitsValue(s)
    decreases |s|
  {
    if |s| > 0 {
      var n := |s| - 1;
      assert AllDigits(s[..n]);
      ValueOfDigits(s[..n], digits[..n]);
    }
  }

  /** The digits of a password's display: `pw.to_string()` mapped through
      `to_digit`. A negative password has none: its `-` is not a digit. */
  function Digits(pw: int): (r: Result<seq<nat>, PasswordError>)
    ensures r.Ok? <==> pw >= 0
    ensures r.Err? ==> r.error == NotADigit('-')
    ensures r.Ok? ==> |r.value| >= 1 && Value(r.value) == pw
    ensures r.Ok? ==> forall i | 0 <= i < |r.value| :: r.value[i] < 10
    // The display is not padded: only zero itself starts with a 0.
    ensures r.Ok? && |r.value| > 1 ==> r.value[0] != 0
  {
    var s := Show(pw);
    var r := DigitsOf(s);
    if pw < 0 then
      assert !IsDigit(s[0]);
      assert forall i | 1 <= i < |s| :: IsDigit(s[i]) by {
        assert s[1..] == ShowNat(-pw);
        assert forall i | 1 <= i < |s| :: s[i] == s[1..][i - 1];
      }
      r
    else
      ValueOfDigits(s, r.value);
      r
  }

  /** `windows(2).all(|x| x[0] <= x[1])`: each digit is at most the next. */
  function Ascending(digits: seq<nat>): (b: bool)
    decreases |digits|
  {
    |digits| < 2 || (digits[0] <= digits[1] && Ascending(digits[1..]))
  }

  /** Every digit is at most every later one. */
  predicate Sorted(digits: seq<nat>) {
    forall i, j | 0 <= i < j < |digits| :: digits[i] <= digits[j]
  }

  /** Some digit equals the one before it. */
  predicate HasDouble(digits: seq<nat>) {
    exists i | 0 < i < |digits| :: digits[i - 1] == digits[i]
  }

  /** Adjacent digits in order is the whole list in order. */
  lemma {:induction false} AscendingSorted(digits: seq<nat>)
    ensures Ascending(digits) <==> Sorted(digits)
    decreases |digits|
  {
    if |digits| >= 2 {
      var rest := digits[1..];
      AscendingSorted(rest);
      assert forall i | 1 <= i < |digits| :: digits[i] == rest[i - 1];
      if Ascending(digits) {
        forall i, j | 0 <= i < j < |digits| ensures digits[i] <= digits[j] {
          if i > 0 {
            assert rest[i - 1] <= rest[j - 1];
          } else {
            assert digits[0] <= digits[1];
            assert j == 1 || rest[0] <= rest[j - 1];
          }
        }
      }
    }
  }

  /** `windows(2).any(|x| x[0] == x[1])`: some digit equals the next. */
  function AnyAdjacentEqual(digits: seq<nat>): (b: bool)
    ensures b <==> HasDouble(digits)
    decreases |digits|
  {
    if |digits| < 2 then false
    else
      assert forall i | 1 <= i < |digits| :: digits[i] == digits[1..][i - 1];
      digits[0] == digits[1] || AnyAdjacentEqual(digits[1..])
  }

  /** `is_valid_password_part1`: ordered digits with a doubled one. */
  function IsValidPart1(pw: int): (r: Result<bool, PasswordError>)
    ensures r.Ok? <==> pw >= 0
    ensures r.Err? ==> r.error == NotADigit('-')
    ensures r.Ok? ==> (r.value <==> Sorted(Digits(pw).value) && HasDouble(Digits(pw).value))
  {
    var digits :- Digits(pw);
    AscendingSorted(digits);
    Ok(Ascending(digits) && AnyAdjacentEqual(digits))
  }

  /** How many digits before position `i` equal it in an unbroken run: the
      `count` of `has_any_entry_repeated_exactly_once` once it has compared
      position `i` with the one before. */
  function RunBefore(digits: seq<nat>, i: nat): nat
    requires i < |digits|
  {
    if i == 0 then 0
    else if digits[i] == digits[i - 1] then RunBefore(digits, i - 1) + 1
    else 0
  }

  /** The loop of `has_any_entry_repeated_exactly_once` from position `i`
      with the count so far: it compares positions 1 to 5 with the one
      before each, answers `true` as soon as a run of exactly two ends, and
      after position 5 answers whether the last run has exactly two. */
  function Scan(digits: seq<nat>, i: nat, count: nat): (r: Result<bool, PasswordError>)
    requires 1 <= i <= 6
    // It panics only on fewer than six digits, indexing one past the last.
    ensures r.Err? ==> |digits| < 6 && r.error == IndexOutOfRange(if i > |digits| then i else |digits|)
    decreases 6 - i
  {
    if i == 6 then Ok(count == 1)
    else if i >= |digits| then Err(IndexOutOfRange(i))
    else if digits[i] == digits[i - 1] then Scan(digits, i + 1, count + 1)
    else if count == 1 then Ok(true)
    else Scan(digits, i + 1, 0)
  }

  /** A run of exactly two equal digits ending at position `j`, followed by
      the end of the first six positions or by a different digit. */
  predicate PairEndsAt(digits: seq<nat>, j: nat) {
    j < |digits| && j < 6 && RunBefore(digits, j) == 1 &&
    (j == 5 || (j + 1 < |digits| && digits[j + 1] != digits[j]))
  }

  /** What the loop answers from position `i` on: `true` when a run of
      exactly two ends at or after `i - 1`, else `false` after six digits,
      else the panic of indexing past the end. */
  lemma {:induction false} ScanFinds(digits: seq<nat>, i: nat)
    requires 1 <= i <= 6 && i - 1 < |digits|
    ensures Scan(digits, i, RunBefore(digits, i - 1)) ==
              if exists j | i - 1 <= j < |digits| :: PairEndsAt(digits, j) then Ok(true)
              else if |digits| >= 6 then Ok(false)
              else Err(IndexOutOfRange(|digits|))
    decreases 6 - i
  {
    if i < 6 && i < |digits| {
      ScanFinds(digits, i + 1);
      assert forall j | i <= j < |digits| :: PairEndsAt(digits, j) ==> i - 1 <= j;
      if digits[i] == digits[i - 1] {
        assert !PairEndsAt(digits, i - 1);
      } else if RunBefore(digits, i - 1) == 1 {
        assert PairEndsAt(digits, i - 1);
      } else {
        assert !PairEndsAt(digits, i - 1);
        assert RunBefore(digits, i) == 0;
      }
      assert forall j | i - 1 <= j < |digits| :: PairEndsAt(digits, j) ==> j == i - 1 || i <= j;
    } else if i < 6 {
      assert i == |digits| && Scan(digits, i, RunBefore(digits, i - 1)) == Err(IndexOutOfRange(i));
      assert !PairEndsAt(digits, i - 1);
      assert !exists j | i - 1 <= j < |digits| :: PairEndsAt(digits, j);
    } else {
      assert PairEndsAt(digits, 5) <==> RunBefore(digits, 5) == 1;
      assert forall j | 5 < j < |digits| :: !PairEndsAt(digits, j);
    }
  }

  /** Digit `j` closes a run of exactly two equal digits of `w`: it equals
      the one before, the one before that (if any) differs, and so does the
      one after (if any). */
  predicate ExactPair(w: seq<nat>, j: nat) {
    0 < j < |w| && w[j - 1] == w[j] && (j == 1 || w[j - 2] != w[j]) && (j + 1 == |w| || w[j + 1] != w[j])
  }

  /** Some digit of `w` closes a run of exactly two. */
  predicate HasExactPair(w: seq<nat>) {
    exists j | 0 < j < |w| :: ExactPair(w, j)
  }

  /** A run of equal digits ending at `j` has exactly two when the digit
      equals the one before and the one before that differs. */
  lemma RunOfTwo(digits: seq<nat>, j: nat)
    requires j < |digits|
    ensures RunBefore(digits, j) == 1 <==> 0 < j && digits[j - 1] == digits[j] && (j == 1 || digits[j - 2] != digits[j])
  {
    if j >= 2 && digits[j] == digits[j - 1] && digits[j - 1] == digits[j - 2] {
      assert RunBefore(digits, j - 1) >= 1;
    }
  }

  /** `has_any_entry_repeated_exactly_once`. It looks at the first six
      digits only. On six or more it answers whether some digit among those
      six closes a run of exactly two; on fewer it answers `true` if such a
      run ends before the last digit and panics otherwise, never answering
      `false`. */
  function RepeatedExactlyOnce(digits: seq<nat>): (r: Result<bool, PasswordError>)
    ensures |digits| >= 6 ==> r == Ok(HasExactPair(digits[..6]))
    ensures |digits| < 6 ==> r == if exists j | 0 <= j < |digits| - 1 :: ExactPair(digits, j) then Ok(true)
                                  else Err(IndexOutOfRange(if |digits| == 0 then 1 else |digits|))
  {
    if |digits| == 0 then Err(IndexOutOfRange(1))
    else
      ScanFinds(digits, 1);
      assert forall j | 0 <= j < |digits| :: PairEndsAt(digits, j) <==>
               (if |digits| >= 6 then j < 6 && ExactPair(digits[..6], j) else j + 1 < |digits| && ExactPair(digits, j)) by {
        forall j | 0 <= j < |digits|
          ensures PairEndsAt(digits, j) <==>
                  (if |digits| >= 6 then j < 6 && ExactPair(digits[..6], j) else j + 1 < |digits| && ExactPair(digits, j))
        {
          RunOfTwo(digits, j);
        }
      }
      Scan(digits, 1, 0)
  }

  /** `is_valid_password_part2`: ordered digits with a run of exactly two.
      `&&` stops at unordered digits, so only ordered ones reach the scan and
      its panic. */
  function IsValidPart2(pw: int): (r: Result<bool, PasswordError>)
    ensures pw < 0 ==> r == Err(NotADigit('-'))
    ensures r.Ok? && r.value ==> pw >= 0 && Sorted(Digits(pw).value)
    ensures pw >= 0 && |Digits(pw).value| >= 6 ==>
              r == Ok(Sorted(Digits(pw).value) && HasExactPair(Digits(pw).value[..6]))
    // Below six digits: unordered digits are invalid before the scan runs;
    // ordered ones get the scan's answer or its panic.
    ensures pw >= 0 && !Sorted(Digits(pw).value) ==> r == Ok(false)
    ensures pw >= 0 && Sorted(Digits(pw).value) ==> r == RepeatedExactlyOnce(Digits(pw).value)
  {
    var digits :- Digits(pw);
    AscendingSorted(digits);
    if !Ascending(digits) then Ok(false) else RepeatedExactlyOnce(digits)
  }

  /** A list of decimal digits has a value below ten to the power of its
      length. */
  lemma {:induction false} ValueBelow(digits: seq<nat>)
    requires forall i | 0 <= i < |digits| :: digits[i] < 10
    ensures Value(digits) < Pow10(|digits|)
    decreases |digits|
  {
    if |digits| > 0 {
      ValueBelow(digits[..|digits| - 1]);
    }
  }

  /** A password of at least 100000 has at least six digits. */
  lemma SixDigits(pw: int)
    requires pw >= 100000
    ensures Digits(pw).Ok? && |Digits(pw).value| >= 6
  {
    var digits := Digits(pw).value;
    ValueBelow(digits);
    assert Pow10(5) == 100000;
    if |digits| < 6 {
      Pow10Monotone(|digits|, 5);
    }
  }

  /** On passwords of at least six digits, every password valid for part
      two is valid for part one: a run of exactly two is a doubled digit. */
  lemma Part2ImpliesPart1(pw: int)
    requires pw >= 100000
    ensures IsValidPart1(pw).Ok? && IsValidPart2(pw).Ok?
    ensures IsValidPart2(pw).value ==> IsValidPart1(pw).value
  {
    SixDigits(pw);
    var digits := Digits(pw).value;
    assert IsValidPart1(pw) == Ok(Sorted(digits) && HasDouble(digits));
    assert IsValidPart2(pw) == Ok(Sorted(digits) && HasExactPair(digits[..6]));
    ExactPairIsDouble(digits);
  }

  /** A run of exactly two among the first six digits is a doubled digit. */
  lemma ExactPairIsDouble(digits: seq<nat>)
    requires |digits| >= 6
    ensures HasExactPair(digits[..6]) ==> HasDouble(digits)
  {
    if HasExactPair(digits[..6]) {
      var j :| 0 < j < 6 && ExactPair(digits[..6], j);
      assert digits[j - 1] == digits[j];
    }
  }

  /** `range.filter(valid).count()`: how many numbers from `lo` up to but
      not including `hi` are valid, checked in increasing order; the first
      check that panics ends the count. */
  function CountValid(lo: int, hi: int, valid: int -> Result<bool, PasswordError>): (r: Result<nat, PasswordError>)
    ensures r.Err? <==> exists x | lo <= x < hi :: valid(x).Err?
    ensures r.Ok? ==> r.value == |Accepted(lo, hi, valid)|
    ensures r.Ok? ==> r.value <= if lo < hi then hi - lo else 0
    decreases hi - lo
  {
    if lo >= hi then
      assert Accepted(lo, hi, valid) == {};
      Ok(0)
    else
      var ok :- valid(lo);
      var rest :- CountValid(lo + 1, hi, valid);
      AcceptedFrom(lo, hi, valid);
      Ok((if ok then 1 else 0) + rest)
  }

  /** The numbers from `lo` up to but not including `hi` that `valid`
      accepts: what the count counts, independent of the order it runs in. */
  ghost function Accepted(lo: int, hi: int, valid: int -> Result<bool, PasswordError>): set<int> {
    set x | lo <= x < hi && valid(x) == Ok(true)
  }

  /** The accepted numbers of a range are those of its tail, plus its first
      number if that is accepted. */
  lemma AcceptedFrom(lo: int, hi: int, valid: int -> Result<bool, PasswordError>)
    requires lo < hi
    ensures lo !in Accepted(lo + 1, hi, valid)
    ensures |Accepted(lo, hi, valid)| == |Accepted(lo + 1, hi, valid)| + if valid(lo) == Ok(true) then 1 else 0
  {
    if valid(lo) == Ok(true) {
      assert Accepted(lo, hi, valid) == Accepted(lo + 1, hi, valid) + {lo};
    } else {
      assert Accepted(lo, hi, valid) == Accepted(lo + 1, hi, valid);
    }
  }

  /** Counting over two adjacent ranges adds up. */
  lemma {:induction false} CountSplit(lo: int, mid: int, hi: int, valid: int -> Result<bool, PasswordError>)
    requires lo <= mid <= hi
    requires CountValid(lo, hi, valid).Ok?
    ensures CountValid(lo, mid, valid).Ok? && CountValid(mid, hi, valid).Ok?
    ensures CountValid(lo, hi, valid).value == CountValid(lo, mid, valid).value + CountValid(mid, hi, valid).value
    decreases mid - lo
  {
    if lo < mid {
      CountSplit(lo + 1, mid, hi, valid);
    }
  }

  /** A validity that holds wherever another does counts at least as many. */
  lemma {:induction false} CountMonotone(lo: int, hi: int, weak: int -> Result<bool, PasswordError>,
                                         strong: int -> Result<bool, PasswordError>)
    requires forall x | lo <= x < hi :: weak(x).Ok? && strong(x).Ok? && (strong(x).value ==> weak(x).value)
    ensures CountValid(lo, hi, weak).Ok? && CountValid(lo, hi, strong).Ok?
    ensures CountValid(lo, hi, strong).value <= CountValid(lo, hi, weak).value
    decreases hi - lo
  {
    if lo < hi {
      CountMonotone(lo + 1, hi, weak, strong);
    }
  }

  /** `part1`: it panics exactly when the range holds a negative number. */
  function Part1(lo: int, hi: int): (r: Result<nat, PasswordError>)
    ensures r.Err? <==> lo < hi && lo < 0
    ensures r.Ok? ==> r.value == |Accepted(lo, hi, IsValidPart1)|
    ensures r.Ok? ==> r.value <= if lo < hi then hi - lo else 0
  {
    assert lo < hi && lo < 0 ==> IsValidPart1(lo).Err?;
    CountValid(lo, hi, IsValidPart1)
  }

  /** `part2`. */
  function Part2(lo: int, hi: int): (r: Result<nat, PasswordError>)
    ensures lo < hi && lo < 0 ==> r.Err?
    ensures r.Ok? ==> r.value == |Accepted(lo, hi, IsValidPart2)|
    ensures r.Ok? ==> r.value <= if lo < hi then hi - lo else 0
  {
    assert lo < hi && lo < 0 ==> IsValidPart2(lo).Err?;
    CountValid(lo, hi, IsValidPart2)
  }

  /** Over numbers of six digits or more, neither part panics, and part two
      counts no more passwords than part one, which counts no more than the
      range holds. */
  lemma Part2AtMostPart1(lo: int, hi: int)
    requires lo >= 100000
    ensures Part1(lo, hi).Ok? && Part2(lo, hi).Ok?
    ensures Part2(lo, hi).value <= Part1(lo, hi).value
  {
    forall x | lo <= x < hi
      ensures IsValidPart1(x).Ok? && IsValidPart2(x).Ok? && (IsValidPart2(x).value ==> IsValidPart1(x).value)
    {
      Part2ImpliesPart1(x);
    }
    CountMonotone(lo, hi, IsValidPart1, IsValidPart2);
  }

  /** A string of digit characters maps to the digits they display. */
  lemma DigitsOfChars(s: string, digits: seq<nat>)
    requires |digits| == |s| && forall i | 0 <= i < |s| :: digits[i] < 10 && DigitChar(digits[i]) == s[i]
    ensures DigitsOf(s) == Ok(digits)
  {
    assert AllDigits(s);
    var r := DigitsOf(s).value;
    assert forall i | 0 <= i < |s| :: r[i] == s[i] as int - '0' as int == digits[i];
    assert r == digits;
  }

  /** Appending a digit to a positive number appends its character to the
      display. */
  lemma ShowNatAppend(m: nat, d: nat)
    requires m >= 1 && d < 10
    ensures ShowNat(10 * m + d) == ShowNat(m) + [DigitChar(d)]
  {
    DivUnique(10 * m + d, 10, m, d);
  }

  /** The display of a six-digit number is its six digit characters. */
  lemma SixDigitDisplay(a: nat, b: nat, c: nat, d: nat, e: nat, f: nat)
    requires 1 <= a < 10 && b < 10 && c < 10 && d < 10 && e < 10 && f < 10
    ensures Show(100000 * a + 10000 * b + 1000 * c + 100 * d + 10 * e + f) ==
              [DigitChar(a), DigitChar(b), DigitChar(c), DigitChar(d), DigitChar(e), DigitChar(f)]
  {
    var n2, n3, n4, n5 := 10 * a + b, 100 * a + 10 * b + c, 1000 * a + 100 * b + 10 * c + d,
                          10000 * a + 1000 * b + 100 * c + 10 * d + e;
    assert ShowNat(a) == [DigitChar(a)];
    ShowNatAppend(a, b);
    assert ShowNat(n2) == [DigitChar(a), DigitChar(b)];
    ShowNatAppend(n2, c);
    assert ShowNat(n3) == [DigitChar(a), DigitChar(b), DigitChar(c)];
    ShowNatAppend(n3, d);
    assert ShowNat(n4) == [DigitChar(a), DigitChar(b), DigitChar(c), DigitChar(d)];
    ShowNatAppend(n4, e);
    assert ShowNat(n5) == [DigitChar(a), DigitChar(b), DigitChar(c), DigitChar(d), DigitChar(e)];
    ShowNatAppend(n5, f);
    assert 10 * n5 + f == 100000 * a + 10000 * b + 1000 * c + 100 * d + 10 * e + f;
  }

  /** The digits of a six-digit number are its six decimal digits. */
  lemma SixDigitDigits(pw: int, a: nat, b: nat, c: nat, d: nat, e: nat, f: nat)
    requires 1 <= a < 10 && b < 10 && c < 10 && d < 10 && e < 10 && f < 10
    requires pw == 100000 * a + 10000 * b + 1000 * c + 100 * d + 10 * e + f
    ensures Digits(pw) == Ok([a, b, c, d, e, f])
  {
    SixDigitDisplay(a, b, c, d, e, f);
    DigitsOfChars([DigitChar(a), DigitChar(b), DigitChar(c), DigitChar(d), DigitChar(e), DigitChar(f)], [a, b, c, d, e, f]);
  }

  /** Part one's validity of a password whose digits are known. */
  lemma Part1Of(pw: int, digits: seq<nat>)
    requires Digits(pw) == Ok(digits)
    ensures IsValidPart1(pw) == Ok(Ascending(digits) && AnyAdjacentEqual(digits))
  {
  }

  /** Part two's validity of a password whose digits are known. */
  lemma Part2Of(pw: int, digits: seq<nat>)
    requires Digits(pw) == Ok(digits)
    ensures IsValidPart2(pw) == if Ascending(digits) then RepeatedExactlyOnce(digits) else Ok(false)
  {
  }

  /** The examples of `test_is_valid_password_part1`: 111111 and 111123 are
      valid, 223450 decreases at its end and 123789 has no doubled digit. */
  lemma Part1Examples()
    ensures IsValidPart1(111111) == Ok(true) && IsValidPart1(111123) == Ok(true)
    ensures IsValidPart1(223450) == Ok(false) && IsValidPart1(123789) == Ok(false)
  {
    SixDigitDigits(111111, 1, 1, 1, 1, 1, 1);
    Part1Of(111111, [1, 1, 1, 1, 1, 1]);
    SixDigitDigits(111123, 1, 1, 1, 1, 2, 3);
    Part1Of(111123, [1, 1, 1, 1, 2, 3]);
    Part1InvalidExamples();
  }

  /** The two invalid examples of part one. */
  lemma Part1InvalidExamples()
    ensures IsValidPart1(223450) == Ok(false) && IsValidPart1(123789) == Ok(false)
  {
    SixDigitDigits(223450, 2, 2, 3, 4, 5, 0);
    Part1Of(223450, [2, 2, 3, 4, 5, 0]);
    assert !Ascending([2, 2, 3, 4, 5, 0]);
    SixDigitDigits(123789, 1, 2, 3, 7, 8, 9);
    Part1Of(123789, [1, 2, 3, 7, 8, 9]);
    NoDoubleExample();
  }

  /** 123789 has no two equal adjacent digits. */
  lemma NoDoubleExample()
    ensures !AnyAdjacentEqual([1, 2, 3, 7, 8, 9])
  {
    var digits: seq<nat> := [1, 2, 3, 7, 8, 9];
    assert forall i | 0 < i < 6 :: digits[i - 1] < digits[i];
  }

  /** The examples of `test_has_any_entry_repeated_exactly_once`, and the
      digits of two of part two's examples. */
  lemma RepeatedExactlyOnceExamples()
    ensures RepeatedExactlyOnce([1, 1, 2, 3, 4, 5]) == Ok(true)
    ensures RepeatedExactlyOnce([1, 2, 3, 4, 5, 5]) == Ok(true)
    ensures RepeatedExactlyOnce([1, 2, 3, 3, 4, 5]) == Ok(true)
    ensures RepeatedExactlyOnce([1, 2, 3, 4, 5, 6]) == Ok(false)
    ensures RepeatedExactlyOnce([1, 1, 1, 2, 3, 4]) == Ok(false)
    ensures RepeatedExactlyOnce([1, 2, 3, 4, 4, 4]) == Ok(false)
    ensures RepeatedExactlyOnce([1, 1, 2, 2, 3, 4]) == Ok(true)
    ensures RepeatedExactlyOnce([1, 1, 1, 2, 2, 5]) == Ok(true)
    ensures RepeatedExactlyOnce([1, 1, 2, 2, 3, 3]) == Ok(true)
    ensures RepeatedExactlyOnce([1, 1, 1, 1, 2, 2]) == Ok(true)
  {
  }

  /** The examples of `test_is_valid_password_part2`: 112233 and 111122
      are valid, 123444 has only a run of three. */
  lemma Part2Examples()
    ensures IsValidPart2(112233) == Ok(true) && IsValidPart2(123444) == Ok(false)
    ensures IsValidPart2(111122) == Ok(true)
  {
    RepeatedExactlyOnceExamples();
    SixDigitDigits(112233, 1, 1, 2, 2, 3, 3);
    Part2Of(112233, [1, 1, 2, 2, 3, 3]);
    SixDigitDigits(123444, 1, 2, 3, 4, 4, 4);
    Part2Of(123444, [1, 2, 3, 4, 4, 4]);
    SixDigitDigits(111122, 1, 1, 1, 1, 2, 2);
    Part2Of(111122, [1, 1, 1, 1, 2, 2]);
  }
}
