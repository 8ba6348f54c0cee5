/** Decimal text, record key names and field names (core/core_workload.h, core/core_workload.cc). */
module KeyNames {
  import opened MachineInts
  import Fnv

  // ----- Decimal numbers (std::to_string) -----

  function Digit(d: nat): char
    requires d < 10
  {
    "0123456789"[d]
  }

  function DigitValue(c: char): nat {
    if '0' <= c <= '9' then c as nat - '0' as nat else 0
  }

  function Decimal(n: nat): string {
    if n < 10 then [Digit(n)] else Decimal(n / 10) + [Digit(n % 10)]
  }

  /** The number a digit string denotes, leading zeros allowed. */
  function NumberOf(s: string): nat {
    if s == "" then 0 else 10 * NumberOf(s[..|s| - 1]) + DigitValue(s[|s| - 1])
  }

  function Zeros(n: nat): string {
    seq(n, _ => '0')
  }

  predicate IsDigits(s: string) {
    forall i :: 0 <= i < |s| ==> '0' <= s[i] <= '9'
  }

  lemma {:induction false} ZerosAreZero(n: nat)
    ensures NumberOf(Zeros(n)) == 0
  {
    if n > 0 {
      assert Zeros(n)[..n - 1] == Zeros(n - 1);
      ZerosAreZero(n - 1);
    }
  }

  lemma {:induction false} PaddedDecimal(zeros: nat, n: nat)
    ensures NumberOf(Zeros(zeros) + Decimal(n)) == n
    decreases n
  {
    hide NumberOf;
    if n < 10 {
      ZerosAreZero(zeros);
      Appended(Zeros(zeros), n);
      assert Decimal(n) == [Digit(n)];
    } else {
      PaddedDecimal(zeros, n / 10);
      Appended(Zeros(zeros) + Decimal(n / 10), n % 10);
      assert Zeros(zeros) + Decimal(n) == Zeros(zeros) + Decimal(n / 10) + [Digit(n % 10)];
    }
  }

  /** One more digit behind a number. */
  lemma Appended(s: string, d: nat)
    requires d < 10
    ensures NumberOf(s + [Digit(d)]) == 10 * NumberOf(s) + d
  {
    assert (s + [Digit(d)])[..|s|] == s;
  }

  lemma {:induction false} DecimalIsDigits(n: nat)
    ensures IsDigits(Decimal(n)) && Decimal(n) != ""
  {
    if n >= 10 {
      DecimalIsDigits(n / 10);
    }
  }

  lemma DecimalInjective(m: nat, n: nat)
    requires Decimal(m) == Decimal(n)
    ensures m == n
  {
    PaddedDecimal(0, m);
    PaddedDecimal(0, n);
    assert Zeros(0) + Decimal(m) == Decimal(m) && Zeros(0) + Decimal(n) == Decimal(n);
  }

  /** No number starts with a zero but 0 itself. */
  lemma {:induction false} NoLeadingZero(n: nat)
    ensures Decimal(n) != "" && (Decimal(n)[0] == '0' <==> n == 0)
    ensures |Decimal(n)| == 1 <==> n < 10
  {
    if n >= 10 {
      NoLeadingZero(n / 10);
    }
  }

  lemma SmallNumbers()
    ensures [Decimal(0), Decimal(1), Decimal(2), Decimal(3), Decimal(4)] == ["0", "1", "2", "3", "4"]
    ensures [Decimal(5), Decimal(6), Decimal(7), Decimal(8), Decimal(9)] == ["5", "6", "7", "8", "9"]
  {
  }

  function Pow10(n: nat): nat {
    if n == 0 then 1 else 10 * Pow10(n - 1)
  }

  /** As many digits as it takes. */
  lemma {:induction false} DigitCount(n: nat, k: nat)
    requires k > 0
    ensures |Decimal(n)| <= k <==> n < Pow10(k)
  {
    if n >= 10 && k > 1 {
      DigitCount(n / 10, k - 1);
    } else if k == 1 {
      NoLeadingZero(n);
    } else {
      PowersGrow(k);
    }
  }

  lemma {:induction false} PowersGrow(k: nat)
    requires k > 0
    ensures Pow10(k) >= 10
  {
    if k > 1 {
      PowersGrow(k - 1);
    }
  }

  // ----- Record keys -----

  /**
   * How many zeros are put in front: the difference is taken in unsigned 64-bit arithmetic and then cut to an int.
   */
  function PaddingOf(zeroPadding: int32, length: nat): nat {
    var zeros := Truncate32(Wrap64(zeroPadding - length));
    if zeros < 0 then 0 else zeros
  }

  function Padded(zeroPadding: int32, n: nat): string {
    Zeros(PaddingOf(zeroPadding, |Decimal(n)|)) + Decimal(n)
  }

  function KeyName(ordered: bool, zeroPadding: int32, keyNum: uint64): string {
    "user" + Padded(zeroPadding, if ordered then keyNum else Fnv.Hash(keyNum))
  }

  lemma PaddedInjective(zeroPadding: int32, m: nat, n: nat)
    ensures Padded(zeroPadding, m) == Padded(zeroPadding, n) <==> m == n
  {
    PaddedDecimal(PaddingOf(zeroPadding, |Decimal(m)|), m);
    PaddedDecimal(PaddingOf(zeroPadding, |Decimal(n)|), n);
  }

  lemma SamePrefix(prefix: string, a: string, b: string)
    ensures prefix + a == prefix + b <==> a == b
  {
    assert (prefix + a)[|prefix|..] == a && (prefix + b)[|prefix|..] == b;
  }

  /** Two record numbers get the same name exactly when they are equal, or when their hashes are in hashed mode. */
  lemma KeyNameDetermines(ordered: bool, zeroPadding: int32, a: uint64, b: uint64)
    ensures KeyName(ordered, zeroPadding, a) == KeyName(ordered, zeroPadding, b)
            <==> (if ordered then a == b else Fnv.Hash(a) == Fnv.Hash(b))
  {
    var m, n := if ordered then a else Fnv.Hash(a), if ordered then b else Fnv.Hash(b);
    PaddedInjective(zeroPadding, m, n);
    SamePrefix("user", Padded(zeroPadding, m), Padded(zeroPadding, n));
  }

  /** Key numbers whose names are known to differ whenever the numbers do. */
  predicate Separable(ordered: bool, a: uint64, b: uint64) {
    ordered || a / TWO_TO_32 == b / TWO_TO_32
  }

  lemma KeyNameInjective(ordered: bool, zeroPadding: int32, a: uint64, b: uint64)
    requires Separable(ordered, a, b)
    ensures KeyName(ordered, zeroPadding, a) == KeyName(ordered, zeroPadding, b) <==> a == b
  {
    KeyNameDetermines(ordered, zeroPadding, a, b);
    if !ordered {
      Fnv.HashInjective(a, b);
    }
  }

  lemma ZerosAreDigits(n: nat, s: string)
    requires IsDigits(s)
    ensures IsDigits(Zeros(n) + s)
  {
  }

  /**
   * A name is "user" and digits that denote the number, or in hashed mode its hash.  There are as many digits as the
   * padding says or the number needs, but for paddings close to the least int, where the difference wraps.
   */
  lemma KeyNameIs(ordered: bool, zeroPadding: int32, keyNum: uint64)
    ensures var name, n := KeyName(ordered, zeroPadding, keyNum), if ordered then keyNum else Fnv.Hash(keyNum);
            var digits := |Decimal(n)|;
            && |name| > 4 && name[..4] == "user" && IsDigits(name[4..]) && NumberOf(name[4..]) == n
            && |name| == 4 + if zeroPadding - digits < -0x8000_0000 then zeroPadding + 0x1_0000_0000
                             else if zeroPadding > digits then zeroPadding else digits
  {
    var n := if ordered then keyNum else Fnv.Hash(keyNum);
    var digits := |Decimal(n)|;
    FewDigits(n);
    PaddingIs(zeroPadding, digits);
    DecimalIsDigits(n);
    ZerosAreDigits(PaddingOf(zeroPadding, digits), Decimal(n));
    PaddedDecimal(PaddingOf(zeroPadding, digits), n);
    assert ("user" + Padded(zeroPadding, n))[4..] == Padded(zeroPadding, n);
    assert ("user" + Padded(zeroPadding, n))[..4] == "user";
  }

  lemma PaddingIs(zeroPadding: int32, digits: nat)
    requires digits <= 20
    ensures PaddingOf(zeroPadding, digits)
            == if zeroPadding - digits < -0x8000_0000 then zeroPadding - digits + 0x1_0000_0000
               else if zeroPadding > digits then zeroPadding - digits else 0
  {
  }

  lemma FewDigits(n: uint64)
    ensures |Decimal(n)| <= 20
  {
    assert Pow10(5) == 100000;
    assert Pow10(10) == 100000 * Pow10(5);
    assert Pow10(15) == 100000 * Pow10(10);
    assert Pow10(20) == 100000 * Pow10(15);
    DigitCount(n, 20);
  }

  // ----- Field names -----

  function FieldName(n: nat): string {
    "field" + Decimal(n)
  }

  lemma FieldNameInjective(m: nat, n: nat)
    ensures FieldName(m) == FieldName(n) <==> m == n
  {
    SamePrefix("field", Decimal(m), Decimal(n));
    if FieldName(m) == FieldName(n) {
      DecimalInjective(m, n);
    }
  }

  /** A field name is "field" and the number without leading zeros. */
  lemma FieldNameIs(n: nat)
    ensures |FieldName(n)| > 5 && FieldName(n)[..5] == "field" && NumberOf(FieldName(n)[5..]) == n
    ensures IsDigits(FieldName(n)[5..]) && (FieldName(n)[5] == '0' ==> n == 0 && |FieldName(n)| == 6)
  {
    NoLeadingZero(n);
    DecimalIsDigits(n);
    PaddedDecimal(0, n);
    assert Zeros(0) + Decimal(n) == Decimal(n);
    assert FieldName(n)[5..] == Decimal(n);
  }

  /**
   * A single-field read or scan puts "field" before a name that already starts with it (client.h:80, 95, 116), so
   * it asks for a column no table of the workload has.
   */
  lemma SingleFieldRequestMatchesNoColumn(requested: nat, column: nat)
    ensures "field" + FieldName(requested) != FieldName(column)
  {
    DecimalIsDigits(column);
    assert "field" + FieldName(requested) == "field" + ("field" + Decimal(requested));
    SamePrefix("field", "field" + Decimal(requested), Decimal(column));
    assert ("field" + Decimal(requested))[0] == 'f';
  }

  /** The values of a new record: one pair a column, the values being whatever the length and letter sources give. */
  method BuildValues(fieldCount: nat, value: nat -> string) returns (values: seq<(string, string)>)
    ensures |values| == fieldCount
    ensures forall i :: 0 <= i < fieldCount ==> values[i] == (FieldName(i), value(i))
    ensures forall i, j :: 0 <= i < j < fieldCount ==> values[i].0 != values[j].0
  {
    values := [];
    for i := 0 to fieldCount
      invariant |values| == i
      invariant forall j :: 0 <= j < i ==> values[j] == (FieldName(j), value(j))
    {
      values := values + [(FieldName(i), value(i))];
    }
    forall i, j | 0 <= i < j < fieldCount
      ensures values[i].0 != values[j].0
    {
      FieldNameInjective(i, j);
    }
  }
}
