/** Small shared vocabulary: an optional value and a few facts about sequences. */
module Common {

  /** Python's `None` or a value. */
  datatype Option<T> = None | Some(value: T)

  /** No element occurs twice. */
  predicate Distinct<T(==)>(s: seq<T>)
  {
    forall i, j :: 0 <= i < j < |s| ==> s[i] != s[j]
  }

  /** `n` copies of `x`, like Python's `[x for _ in range(n)]`. */
  function Repeat<T>(x: T, n: nat): (r: seq<T>)
    ensures |r| == n
    ensures forall i :: 0 <= i < n ==> r[i] == x
  {
    seq(n, _ => x)
  }

  /** The number of `true` entries of a flag list. */
  function CountTrue(flags: seq<bool>): (r: nat)
    ensures r <= |flags|
  {
    if flags == [] then 0 else (if flags[0] then 1 else 0) + CountTrue(flags[1..])
  }

  /** Setting one false flag to true adds exactly one to the count. */
  lemma {:induction false} CountTrueSet(flags: seq<bool>, i: nat)
    requires i < |flags| && !flags[i]
    ensures CountTrue(flags[i := true]) == CountTrue(flags) + 1
  {
    if i > 0 {
      assert flags[i := true][1..] == flags[1..][i - 1 := true];
      CountTrueSet(flags[1..], i - 1);
    } else {
      assert flags[i := true][1..] == flags[1..];
    }
  }

  /** The count reaches the length only when every flag is set. */
  lemma {:induction false} CountTrueFull(flags: seq<bool>)
    requires CountTrue(flags) == |flags|
    ensures forall i :: 0 <= i < |flags| ==> flags[i]
  {
    if flags != [] {
      assert CountTrue(flags[1..]) <= |flags| - 1;
      CountTrueFull(flags[1..]);
      forall i | 0 < i < |flags| ensures flags[i] { assert flags[i] == flags[1..][i - 1]; }
    }
  }

  /** An all-false list counts zero. */
  lemma {:induction false} CountTrueNone(n: nat)
    ensures CountTrue(Repeat(false, n)) == 0
  {
    if n > 0 {
      assert Repeat(false, n)[1..] == Repeat(false, n - 1);
      CountTrueNone(n - 1);
    }
  }

  /** The number of occurrences of `x` in `s`. */
  function Count<T(==)>(s: seq<T>, x: T): (r: nat)
    ensures r <= |s|
    ensures r == multiset(s)[x]
  {
    if s == [] then 0
    else
      assert s == [s[0]] + s[1..];
      (if s[0] == x then 1 else 0) + Count(s[1..], x)
  }

  // ---------------------------------------------------------------------
  // Numbers as text
  // ---------------------------------------------------------------------

  /** An ASCII decimal digit. */
  predicate IsDigit(c: char)
  {
    '0' <= c <= '9'
  }

  /** `str.isnumeric` on decimal digits: a non-empty string of digits. */
  predicate IsNumeric(s: string)
  {
    |s| > 0 && forall i :: 0 <= i < |s| ==> IsDigit(s[i])
  }

  /** `int(s)` for a string of decimal digits; leading zeros are allowed. */
  function ParseNat(s: string): nat
    requires forall i :: 0 <= i < |s| ==> IsDigit(s[i])
  {
    if s == [] then 0
    else
      assert IsDigit(s[|s| - 1]);
      10 * ParseNat(s[..|s| - 1]) + (s[|s| - 1] as int - '0' as int)
  }

  /** `str(n)`: the decimal digits of a number, most significant first; `0` is `"0"`. */
  function Digits(n: nat): (s: string)
    ensures IsNumeric(s)
  {
    if n < 10 then [(n + '0' as int) as char] else Digits(n / 10) + [(n % 10 + '0' as int) as char]
  }

  /** `int` reads back the digits of a number. */
  lemma {:induction false} ParseDigits(n: nat)
    ensures ParseNat(Digits(n)) == n
  {
    if n >= 10 {
      var s := Digits(n);
      assert s[..|s| - 1] == Digits(n / 10);
      ParseDigits(n / 10);
    }
  }

  /** A leading zero does not change the number: `int("0" + s) == int(s)`. */
  lemma {:induction false} ParseLeadingZero(s: string)
    requires forall i :: 0 <= i < |s| ==> IsDigit(s[i])
    ensures ParseNat("0" + s) == ParseNat(s)
  {
    if s != [] {
      var t := "0" + s;
      assert t[..|t| - 1] == "0" + s[..|s| - 1];
      ParseLeadingZero(s[..|s| - 1]);
    }
  }
}
