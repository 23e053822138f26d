/**
 * Snapshot-number parsing: `read_num` and `read_nums` of client/snapper.cc,
 * and the decimal rendering the client uses when it prints a number.
 */
module Numbers {
  import opened Common

  predicate IsDigit(c: char) {
    '0' <= c <= '9'
  }

  predicate AllDigits(s: string) {
    forall i :: 0 <= i < |s| ==> IsDigit(s[i])
  }

  function DigitValue(c: char): nat
    requires IsDigit(c)
  {
    (c as int) - ('0' as int)
  }

  /** The decimal value of a digit string, most significant digit first (leading zeros allowed). */
  function Value(s: string): nat
    requires AllDigits(s)
  {
    if |s| == 0 then 0 else Value(s[..|s| - 1]) * 10 + DigitValue(s[|s| - 1])
  }

  function DigitChar(d: nat): (c: char)
    requires d < 10
    ensures IsDigit(c) && DigitValue(c) == d
  {
    ('0' as int + d) as char
  }

  /** The text `cout << n` produces: shortest decimal notation, no sign, no leading zero. */
  function Decimal(n: nat): (s: string)
    ensures |s| > 0 && AllDigits(s)
    ensures Value(s) == n
    ensures |s| > 1 ==> s[0] != '0'
  {
    if n < 10 then [DigitChar(n)]
    else
      var s := Decimal(n / 10) + [DigitChar(n % 10)];
      assert s[..|s| - 1] == Decimal(n / 10);
      s
  }

  /** Appending one digit multiplies the value read so far by ten and adds the digit. */
  lemma ValueSnoc(s: string, i: nat)
    requires i < |s| && AllDigits(s)
    ensures AllDigits(s[..i]) && AllDigits(s[..i + 1])
    ensures Value(s[..i + 1]) == Value(s[..i]) * 10 + DigitValue(s[i])
  {
    assert s[..i + 1][..i] == s[..i];
  }

  /** The value of a prefix never exceeds the value of the whole digit string. */
  lemma {:induction false} ValuePrefixBound(s: string, i: nat)
    requires i <= |s| && AllDigits(s)
    ensures AllDigits(s[..i])
    ensures Value(s[..i]) <= Value(s)
    decreases |s| - i
  {
    if i < |s| {
      ValueSnoc(s, i);
      ValuePrefixBound(s, i + 1);
    } else {
      assert s[..i] == s;
    }
  }

  /**
   * The numeric extraction of `istringstream >> unsigned int`: consume digits
   * left to right from position `i`, with `acc` the value of `s[..i]`,
   * failing as soon as the value leaves the range of `unsigned int` or a
   * character that is not a digit is left unconsumed (`!s.eof()`).
   */
  function Scan(s: string, i: nat, acc: Num): (r: Option<Num>)
    requires i <= |s| && AllDigits(s[..i]) && acc == Value(s[..i])
    ensures r.Some? <==> AllDigits(s) && Value(s) <= UINT_MAX
    ensures r.Some? ==> r.value == Value(s)
    decreases |s| - i
  {
    if i == |s| then
      assert s[..i] == s;
      Some(acc)
    else if !IsDigit(s[i]) then
      None
    else
      var next := acc * 10 + DigitValue(s[i]);
      assert s[..i + 1] == s[..i] + [s[i]];
      assert AllDigits(s[..i + 1]);
      assert s[..i + 1][..i] == s[..i];
      if next > UINT_MAX then
        assert AllDigits(s) ==> Value(s) > UINT_MAX by {
          if AllDigits(s) {
            ValuePrefixBound(s, i + 1);
          }
        }
        None
      else
        Scan(s, i + 1, next)
  }

  /**
   * `read_num`: the whole string must be consumed as one unsigned int.
   * The empty string, a non-digit anywhere ("12x", "12 ") and a value above
   * UINT_MAX are rejected with the offending text.
   */
  function ReadNum(s: string): (r: Result<Num>)
    ensures r.Success? <==> |s| > 0 && AllDigits(s) && Value(s) <= UINT_MAX
    ensures r.Success? ==> r.value == Value(s)
    ensures r.Failure? ==> r.error == InvalidSnapshot(s)
  {
    if |s| == 0 then Failure(InvalidSnapshot(s))
    else
      match Scan(s, 0, 0)
      case Some(n) => Success(n)
      case None => Failure(InvalidSnapshot(s))
  }

  /** The printed form of every snapshot number reads back as that number. */
  lemma ReadNumDecimal(n: Num)
    ensures ReadNum(Decimal(n)) == Success(n)
  {
  }

  /** `..` starts at position `j` of `s`. */
  predicate DotsAt(s: string, j: int) {
    0 <= j && j + 1 < |s| && s[j] == '.' && s[j + 1] == '.'
  }

  /** `string::find("..")` from position `i` onwards. */
  function FindDots(s: string, i: nat): (r: Option<nat>)
    requires i <= |s|
    ensures r.Some? ==> i <= r.value && DotsAt(s, r.value)
    ensures r.Some? ==> forall j :: i <= j < r.value ==> !DotsAt(s, j)
    ensures r.None? ==> forall j :: i <= j ==> !DotsAt(s, j)
    decreases |s| - i
  {
    if i + 1 >= |s| then None
    else if s[i] == '.' && s[i + 1] == '.' then Some(i)
    else FindDots(s, i + 1)
  }

  /** `..` first occurs at position `p` of `s`. */
  predicate FirstDots(s: string, p: int) {
    DotsAt(s, p) && forall j :: 0 <= j < p ==> !DotsAt(s, j)
  }

  /**
   * `read_nums`: split at the FIRST `..`, read both halves with `read_num`,
   * refuse equal endpoints. Either endpoint may be the larger one. An
   * unreadable half is reported with its own text, the first half first.
   */
  function ReadNums(s: string): (r: Result<(Num, Num)>)
    ensures (forall j :: !DotsAt(s, j)) <==> r == Failure(InvalidSnapshots)
    ensures forall p :: FirstDots(s, p) && ReadNum(s[..p]).Failure? ==> r == Failure(InvalidSnapshot(s[..p]))
    ensures forall p :: FirstDots(s, p) && ReadNum(s[..p]).Success? && ReadNum(s[p + 2..]).Failure? ==>
              r == Failure(InvalidSnapshot(s[p + 2..]))
    ensures forall p :: FirstDots(s, p) && ReadNum(s[..p]).Success? && ReadNum(s[p + 2..]).Success?
                        && ReadNum(s[..p]).value != ReadNum(s[p + 2..]).value ==>
              r == Success((ReadNum(s[..p]).value, ReadNum(s[p + 2..]).value))
    ensures r.Success? ==> r.value.0 != r.value.1
    ensures r.Success? ==>
              exists p :: FirstDots(s, p) && ReadNum(s[..p]) == Success(r.value.0)
                                          && ReadNum(s[p + 2..]) == Success(r.value.1)
    ensures r == Failure(IdenticalSnapshots) <==>
              exists p :: FirstDots(s, p) && ReadNum(s[..p]).Success? && ReadNum(s[p + 2..]).Success?
                                          && ReadNum(s[..p]).value == ReadNum(s[p + 2..]).value
  {
    match FindDots(s, 0)
    case None => Failure(InvalidSnapshots)
    case Some(p) =>
      assert FirstDots(s, p);
      assert forall q :: FirstDots(s, q) ==> q == p;
      var first :- ReadNum(s[..p]);
      var second :- ReadNum(s[p + 2..]);
      if first == second then Failure(IdenticalSnapshots) else Success((first, second))
  }

  /** `Decimal` text never holds a dot, so `a..b` splits exactly between the numbers. */
  lemma DecimalRangeFirstDots(a: nat, b: nat)
    ensures FirstDots(Decimal(a) + ".." + Decimal(b), |Decimal(a)|)
  {
    var s := Decimal(a) + ".." + Decimal(b);
    forall j | 0 <= j < |Decimal(a)|
      ensures !DotsAt(s, j)
    {
      assert s[j] == Decimal(a)[j];
    }
  }

  /**
   * Round trip of the range syntax: the text `a..b` that `snapper create
   * --print-number` prints for a pre/post pair reads back as `(a, b)` in input
   * order, unless the two numbers are equal.
   */
  lemma {:induction false} ReadNumsRange(a: Num, b: Num)
    ensures a != b ==> ReadNums(Decimal(a) + ".." + Decimal(b)) == Success((a, b))
    ensures a == b ==> ReadNums(Decimal(a) + ".." + Decimal(b)) == Failure(IdenticalSnapshots)
  {
    var s := Decimal(a) + ".." + Decimal(b);
    var p := |Decimal(a)|;
    DecimalRangeFirstDots(a, b);
    assert s[..p] == Decimal(a);
    assert s[p + 2..] == Decimal(b);
    ReadNumDecimal(a);
    ReadNumDecimal(b);
    var q := FindDots(s, 0).value;
    assert !(q < p) && !(p < q);
  }
}
