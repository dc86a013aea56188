/** The GitHub star count shown in the site's navigation bar. */
module Navbar {
  import opened Strings

  /** A non-empty run of decimal digits. */
  predicate IsDecimal(s: string) {
    |s| >= 1 && forall k :: 0 <= k < |s| ==> IsDigit(s[k])
  }

  /** `(count / 1000).toFixed(1)`: the count in thousands with one digit after
      the point. The tenth is rounded half up. */
  function ThousandsToFixed1(count: nat): (r: string)
    ensures |r| >= 3 && r[|r| - 2] == '.' && IsDigit(r[|r| - 1])
    ensures IsDecimal(r[..|r| - 2])
    ensures r[0] == '0' ==> r[..|r| - 2] == "0"
    ensures var tenths := DecimalValue(r[..|r| - 2]) * 10 + DigitValue(r[|r| - 1]);
      count - 50 <= 100 * tenths <= count + 50
  {
    var tenths := (count + 50) / 100;
    var whole := NatToDecimal(tenths / 10);
    var r := whole + "." + [DigitChar(tenths % 10)];
    assert r[..|r| - 2] == whole;
    assert r[0] == whole[0];
    r
  }

  /** `formatStars`: counts below a thousand in full, then thousands with one
      decimal below ten thousand, then whole thousands, each with a "k". */
  function FormatStars(count: nat): (r: string)
    ensures |r| >= 1
    ensures r[|r| - 1] == 'k' <==> count >= 1000
    ensures count < 1000 ==> IsDecimal(r) && DecimalValue(r) == count && (r[0] == '0' ==> r == "0")
    ensures 1000 <= count < 10000 ==>
      var q := r[..|r| - 1];
      && |q| >= 3 && q[|q| - 2] == '.' && IsDigit(q[|q| - 1]) && IsDecimal(q[..|q| - 2])
      && q[0] != '0'
      && 1 <= DecimalValue(q[..|q| - 2]) <= 10
      && var tenths := DecimalValue(q[..|q| - 2]) * 10 + DigitValue(q[|q| - 1]);
         count - 50 <= 100 * tenths <= count + 50
    ensures count >= 10000 ==>
      var q := r[..|r| - 1];
      IsDecimal(q) && q[0] != '0' && 1000 * DecimalValue(q) - 500 <= count < 1000 * DecimalValue(q) + 500
  {
    if count < 1000 then
      NatToDecimal(count)
    else if count < 10000 then
      var q := ThousandsToFixed1(count);
      var r := q + "k";
      assert r[..|r| - 1] == q;
      assert q[|q| - 1] != 'k';
      r
    else
      var q := NatToDecimal((count + 500) / 1000);
      var r := q + "k";
      assert r[..|r| - 1] == q;
      assert q[|q| - 1] != 'k';
      r
  }
}
