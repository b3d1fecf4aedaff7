/** The pieces of Rust's standard library the puzzles lean on for text:
    `i32`'s `Display` (`to_string`), `str::parse::<i32>`, `char::to_digit(10)`
    and `str::split` on a single character. Strings are sequences of
    characters; every character the puzzles care about is ASCII. */
module Text {
  import opened Results

  predicate IsDigit(c: char) {
    '0' <= c <= '9'
  }

  predicate AllDigits(s: string) {
    forall i | 0 <= i < |s| :: IsDigit(s[i])
  }

  /** The character that displays a single decimal digit. */
  function DigitChar(n: nat): (c: char)
    requires n < 10
    ensures IsDigit(c)
    ensures c as int - '0' as int == n
  {
    ('0' as int + n) as char
  }

  /** `char::to_digit(10)`: the value of a decimal digit character, if it is one. */
  function DigitValue(c: char): (r: Option<nat>)
    ensures r.Some? <==> IsDigit(c)
    ensures r.Some? ==> r.value < 10 && DigitChar(r.value) == c
  {
    if IsDigit(c) then Some(c as int - '0' as int) else None
  }

  /** The value of a string of decimal digits, most significant first; leading
      zeros are allowed. */
  function DigitsValue(s: string): nat
    requires AllDigits(s)
    decreases |s|
  {
    if |s| == 0 then 0
    else 10 * DigitsValue(s[..|s| - 1]) + (s[|s| - 1] as int - '0' as int)
  }

  /** The decimal display of a natural number: the shortest digit string, so
      with no leading zero. */
  function ShowNat(n: nat): (s: string)
    ensures |s| >= 1 && AllDigits(s)
    ensures |s| > 1 ==> s[0] != '0'
    ensures DigitsValue(s) == n
    decreases n
  {
    if n < 10 then [DigitChar(n)]
    else
      var prefix := ShowNat(n / 10);
      var s := prefix + [DigitChar(n % 10)];
      assert s[..|s| - 1] == prefix;
      s
  }

  /** `i32`'s `Display`: a minus sign for a negative value, then the magnitude.
      Parsing the display back gives the value (its partner, `ParseInt`). */
  function Show(n: int): (s: string)
    ensures |s| >= 1
    ensures s[0] == '-' <==> n < 0
    // No padding: a leading zero only for zero itself, never after the sign.
    ensures n >= 0 ==> AllDigits(s) && (|s| > 1 ==> s[0] != '0')
    ensures n < 0 ==> |s| >= 2 && s[1] != '0'
    ensures ',' !in s
    ensures ParseInt(s) == Ok(n)
  {
    if n < 0 then
      var s := "-" + ShowNat(-n);
      assert s[1..] == ShowNat(-n);
      s
    else ShowNat(n)
  }

  datatype ParseIntError = Empty | InvalidDigit

  /** What `str::parse::<i32>` accepts, apart from its range check: an optional
      `+` or `-`, then at least one decimal digit. */
  predicate WellFormedInt(s: string) {
    |s| > 0 &&
    if s[0] == '+' || s[0] == '-' then |s| > 1 && AllDigits(s[1..]) else AllDigits(s)
  }

  /** `str::parse::<i32>` on unbounded integers. */
  function ParseInt(s: string): (r: Result<int, ParseIntError>)
    ensures r.Ok? <==> WellFormedInt(s)
    ensures r.Err? ==> (r.error == Empty <==> |s| == 0)
    ensures r.Ok? && AllDigits(s) ==> r.value == DigitsValue(s)
    ensures r.Ok? && s[0] == '+' ==> r.value == DigitsValue(s[1..])
    ensures r.Ok? && s[0] == '-' ==> r.value == 0 - DigitsValue(s[1..]) as int
  {
    if |s| == 0 then Err(Empty)
    else if s[0] == '+' || s[0] == '-' then
      if |s| == 1 || !AllDigits(s[1..]) then Err(InvalidDigit)
      else if s[0] == '-' then Ok(0 - DigitsValue(s[1..]) as int)
      else Ok(DigitsValue(s[1..]))
    else if !AllDigits(s) then Err(InvalidDigit)
    else Ok(DigitsValue(s))
  }

  /** A leading zero does not change a digit string's value. */
  lemma {:induction false} LeadingZeroValue(s: string)
    requires AllDigits(s)
    ensures AllDigits("0" + s) && DigitsValue("0" + s) == DigitsValue(s)
    decreases |s|
  {
    var t := "0" + s;
    assert AllDigits(t) by {
      forall i | 0 <= i < |t| ensures IsDigit(t[i]) {
        if i > 0 { assert t[i] == s[i - 1]; }
      }
    }
    if |s| > 0 {
      assert t[..|t| - 1] == "0" + s[..|s| - 1];
      LeadingZeroValue(s[..|s| - 1]);
    }
  }

  /** `parse` accepts leading zeros: `"07"` reads as 7. */
  lemma LeadingZeroParse(s: string)
    requires |s| > 0 && AllDigits(s)
    ensures ParseInt("0" + s) == ParseInt(s)
  {
    LeadingZeroValue(s);
  }

  /** The index of the first occurrence of `c` in `s`. */
  function IndexOf(s: string, c: char): (i: nat)
    requires c in s
    ensures i < |s| && s[i] == c && c !in s[..i]
  {
    if s[0] == c then 0
    else
      var i := 1 + IndexOf(s[1..], c);
      assert s[..i] == [s[0]] + s[1..][..i - 1];
      i
  }

  /** `str::split(sep).collect()`: the pieces between separators, empty ones
      included, so the empty string splits into one empty piece. */
  function Split(s: string, sep: char): (pieces: seq<string>)
    ensures |pieces| >= 1
    ensures forall i | 0 <= i < |pieces| :: sep !in pieces[i]
    ensures Join(pieces, sep) == s
    decreases |s|
  {
    if sep !in s then [s]
    else
      var i := IndexOf(s, sep);
      assert s == s[..i] + [sep] + s[i + 1..];
      [s[..i]] + Split(s[i + 1..], sep)
  }

  /** The inverse of `Split`: the pieces with one separator between neighbours. */
  function Join(pieces: seq<string>, sep: char): string
    requires |pieces| >= 1
  {
    if |pieces| == 1 then pieces[0]
    else pieces[0] + [sep] + Join(pieces[1..], sep)
  }

  /** Splitting undoes joining, for pieces that do not contain the separator. */
  lemma {:induction false} SplitJoin(pieces: seq<string>, sep: char)
    requires |pieces| >= 1
    requires forall i | 0 <= i < |pieces| :: sep !in pieces[i]
    ensures Split(Join(pieces, sep), sep) == pieces
    decreases |pieces|
  {
    var s := Join(pieces, sep);
    if |pieces| == 1 {
    } else {
      var head := pieces[0];
      var rest := Join(pieces[1..], sep);
      assert s == head + [sep] + rest;
      assert sep in s by { assert s[|head|] == sep; }
      var i := IndexOf(s, sep);
      assert i == |head| by {
        if i < |head| {
          assert false;
        }
        if i > |head| {
          assert false;
        }
      }
      assert s[..i] == head;
      assert s[i + 1..] == rest;
      SplitJoin(pieces[1..], sep);
      assert Split(s, sep) == [head] + pieces[1..];
    }
  }
}
