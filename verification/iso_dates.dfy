/** Dates as the page holds them: "YYYY-MM-DD" strings, from the date inputs
    and from `toISOString().split('T')[0]`. Comparing two such strings with
    the string operators orders them by calendar date; this module proves it. */
module IsoDates {
  import opened JsStrings

  predicate IsDigit(c: char) { '0' <= c <= '9' }

  function DigitValue(c: char): (d: nat)
    requires IsDigit(c)
    ensures d <= 9
  {
    c as int - '0' as int
  }

  ghost predicate AllDigits(s: string)
  {
    forall i :: 0 <= i < |s| ==> IsDigit(s[i])
  }

  /** A "YYYY-MM-DD" string. */
  ghost predicate IsIsoDate(s: string)
  {
    && |s| == 10 && s[4] == '-' && s[7] == '-'
    && AllDigits(s[..4]) && AllDigits(s[5..7]) && AllDigits(s[8..])
  }

  function Pow10(n: nat): nat
  {
    if n == 0 then 1 else 10 * Pow10(n - 1)
  }

  /** The number a string of decimal digits spells, most significant first;
      it is below ten to the power of the string's length. */
  function Number(s: string): (n: nat)
    requires AllDigits(s)
    ensures n < Pow10(|s|)
  {
    if s == [] then 0
    else
      var init := s[..|s| - 1];
      assert AllDigits(init) by {
        forall i | 0 <= i < |init| ensures IsDigit(init[i]) { assert init[i] == s[i]; }
      }
      10 * Number(init) + DigitValue(s[|s| - 1])
  }

  /** Year, month and day combined into one number that orders dates by calendar. */
  ghost function DateKey(s: string): (k: nat)
    requires IsIsoDate(s)
  {
    Number(s[..4]) * 10000 + Number(s[5..7]) * 100 + Number(s[8..])
  }

  /** Two strings of equal length compared ahead of what follows them. */
  lemma {:induction false} LessAppend(x: string, r: string, y: string, q: string)
    requires |x| == |y|
    ensures Less(x + r, y + q) <==> Less(x, y) || (x == y && Less(r, q))
  {
    if x == [] {
      assert x + r == r && y + q == q;
    } else {
      assert (x + r)[0] == x[0] && (y + q)[0] == y[0];
      assert (x + r)[1..] == x[1..] + r && (y + q)[1..] == y[1..] + q;
      if x[0] == y[0] {
        LessAppend(x[1..], r, y[1..], q);
        assert x == y <==> x[1..] == y[1..] by {
          assert x == [x[0]] + x[1..] && y == [y[0]] + y[1..];
        }
      } else {
        assert x != y;
      }
    }
  }

  /** One more digit at the end: the longer numbers compare as their
      prefixes do, and as the last digits do when the prefixes are equal. */
  lemma AppendDigitOrder(nx: nat, ny: nat, dx: nat, dy: nat)
    requires dx <= 9 && dy <= 9
    ensures 10 * nx + dx < 10 * ny + dy <==> nx < ny || (nx == ny && dx < dy)
    ensures 10 * nx + dx == 10 * ny + dy <==> nx == ny && dx == dy
  {
  }

  /** On digit strings of equal length, string order is numeric order. */
  lemma {:induction false} DigitOrderIsNumericOrder(x: string, y: string)
    requires |x| == |y| && AllDigits(x) && AllDigits(y)
    ensures Less(x, y) <==> Number(x) < Number(y)
    ensures x == y <==> Number(x) == Number(y)
  {
    if x != [] {
      var n := |x| - 1;
      var px, py := x[..n], y[..n];
      var lx, ly := [x[n]], [y[n]];
      assert x == px + lx && y == py + ly;
      DigitOrderIsNumericOrder(px, py);
      LessAppend(px, lx, py, ly);
      assert Less(lx, ly) <==> DigitValue(x[n]) < DigitValue(y[n]);
      AppendDigitOrder(Number(px), Number(py), DigitValue(x[n]), DigitValue(y[n]));
    }
  }

  /** Year, then month, then day: ordering the parts lexicographically is
      ordering their combined key, when month and day stay below 100. */
  lemma KeyOrder(y1: nat, m1: nat, d1: nat, y2: nat, m2: nat, d2: nat)
    requires m1 < 100 && d1 < 100 && m2 < 100 && d2 < 100
    ensures y1 * 10000 + m1 * 100 + d1 < y2 * 10000 + m2 * 100 + d2
            <==> y1 < y2 || (y1 == y2 && (m1 < m2 || (m1 == m2 && d1 < d2)))
    ensures y1 * 10000 + m1 * 100 + d1 == y2 * 10000 + m2 * 100 + d2
            <==> y1 == y2 && m1 == m2 && d1 == d2
  {
  }

  /** Comparing ISO dates as strings compares them as calendar dates. */
  lemma IsoDateOrder(a: string, b: string)
    requires IsIsoDate(a) && IsIsoDate(b)
    ensures Less(a, b) <==> DateKey(a) < DateKey(b)
    ensures a == b <==> DateKey(a) == DateKey(b)
  {
    var ya, ma, da := a[..4], a[5..7], a[8..];
    var yb, mb, db := b[..4], b[5..7], b[8..];
    var dash := a[4..5];
    assert dash == b[4..5] == a[7..8] == b[7..8] == "-";
    var ta, tb := dash + da, dash + db;
    var ra, rb := dash + (ma + ta), dash + (mb + tb);
    assert a == ya + ra && b == yb + rb;
    LessAppend(ya, ra, yb, rb);
    LessAppend(dash, ma + ta, dash, mb + tb);
    LessAppend(ma, ta, mb, tb);
    LessAppend(dash, da, dash, db);
    LessIrreflexive(dash);
    DigitOrderIsNumericOrder(ya, yb);
    DigitOrderIsNumericOrder(ma, mb);
    DigitOrderIsNumericOrder(da, db);
    assert Pow10(2) == 100;
    KeyOrder(Number(ya), Number(ma), Number(da), Number(yb), Number(mb), Number(db));
  }

  /** `from <= date` as strings is `from` on or before `date` in the calendar. */
  lemma IsoDateAtMost(a: string, b: string)
    requires IsIsoDate(a) && IsIsoDate(b)
    ensures AtMost(a, b) <==> DateKey(a) <= DateKey(b)
  {
    IsoDateOrder(b, a);
  }
}
