/** The character mapper and the factor-pair dimension planner
    (dist/utilities.js). */
module Utilities {
  import opened Types
  import opened Arith
  import opened Divisors

  /** The default `limit`: one 8-bit channel. */
  const DefaultLimit := 256

  /** `convertCharToInt`: the code unit reduced modulo `limit`, with 0 (the
      terminator sentinel) replaced by 1. The code unit is never negative, so
      JavaScript's truncating `%` agrees with the remainder by `|limit|`. */
  function CharToInt(c: CodeUnit, limit: int): (v: int)
    requires limit != 0
    ensures v >= 1
    ensures Abs(limit) >= 2 ==> v <= Abs(limit) - 1
    ensures 1 <= c < Abs(limit) ==> v == c
    ensures c % Abs(limit) == 0 ==> v == 1
    ensures c % Abs(limit) != 0 ==> v % Abs(limit) == c % Abs(limit)
  {
    var value := c % Abs(limit);
    DivModUnique(value, Abs(limit), 0, value);
    if value == 0 then 1 else value
  }

  /** The pixel count `getImageSize` plans for: the text plus two null
      terminators when its length is even, one when it is odd. */
  function TrueLength(textLength: nat): (t: nat)
    ensures t % 2 == 0
    ensures t >= 2
    ensures t > textLength
    ensures t - textLength == 1 || t - textLength == 2
    ensures t - textLength == 2 <==> textLength % 2 == 0
  {
    if textLength % 2 == 0 then textLength + 2 else textLength + 1
  }

  /** `getImageSize`: width and height are the middle divisor of the padded
      length (a perfect square) or its middle pair, the larger one the width. */
  function GetImageSize(textLength: nat): (size: (nat, nat))
    ensures size.0 * size.1 == TrueLength(textLength)
    ensures 1 <= size.1 <= size.0
    ensures size.0 == size.1 <==> IsPerfectSquare(TrueLength(textLength))
  {
    var trueLength := TrueLength(textLength);
    MiddleDivisors(trueLength);
    var factors := FactorList(trueLength);
    assert factors[|factors| / 2] in factors;
    if |factors| % 2 != 0 then
      var mid := |factors| / 2;
      (factors[mid], factors[mid])
    else
      assert factors[|factors| / 2 - 1] in factors;
      (factors[|factors| / 2], factors[|factors| / 2 - 1])
  }

  /** The planned size is as square as the divisors allow: no divisor of the
      padded length lies strictly between height and width. */
  lemma ImageSizeNearSquare(textLength: nat, d: int)
    requires IsDivisor(d, TrueLength(textLength))
    ensures d <= GetImageSize(textLength).1 || d >= GetImageSize(textLength).0
  {
    var n := TrueLength(textLength);
    var f := FactorList(n);
    MiddleDivisors(n);
    var j :| 0 <= j < |f| && f[j] == d;
    var m := |f| / 2;
    if |f| % 2 != 0 {
      assert j == m || f[j] < f[m] || f[m] < f[j];
    } else {
      assert j == m - 1 || j == m || (j < m - 1 && f[j] < f[m - 1]) || (j > m && f[m] < f[j]);
    }
  }

  /** Four characters pad to 6 = 1 * 2 * 3, whose middle divisors give a
      3 wide, 2 high canvas. */
  lemma ImageSizeOfFour()
    ensures GetImageSize(4) == (3, 2)
  {
    var size := GetImageSize(4);
    assert TrueLength(4) == 6;
    ImageSizeNearSquare(4, 2);
    assert size.1 == 1 || size.1 == 2;
  }
}
