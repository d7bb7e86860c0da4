/** The date key a calendar cell and a task's `date` are compared by: the date part of
  * `Date.prototype.toISOString`, the ISO 8601 extended calendar date `YYYY-MM-DD`
  * (with the expanded `±YYYYYY` year outside 0..9999, as ECMA-262 prints it). */
module IsoKey {
  import opened Text
  import opened CivilDate

  /** The year field: four digits for years 0..9999, otherwise a sign and at least six digits. */
  function YearText(y: int): (s: string)
    ensures |s| >= 4
  {
    if 0 <= y <= 9999 then ZeroPadded(y, 4)
    else (if y < 0 then "-" else "+") + ZeroPadded(if y < 0 then -y else y, 6)
  }

  /** Different years print differently. */
  lemma YearTextInjective(a: int, b: int)
    ensures YearText(a) == YearText(b) <==> a == b
  {
    if YearText(a) == YearText(b) {
      var s := YearText(a);
      if 0 <= a <= 9999 {
        assert IsDigit(s[0]);
        if 0 <= b <= 9999 {
          ZeroPaddedInjective(a, b, 4);
        }
      } else {
        assert !IsDigit(s[0]);
        var ma, mb := if a < 0 then -a else a, if b < 0 then -b else b;
        assert s[1..] == ZeroPadded(ma, 6) == ZeroPadded(mb, 6);
        ZeroPaddedInjective(ma, mb, 6);
      }
    }
  }

  /** The `YYYY-MM-DD` text of a calendar date (month printed 1-based). */
  function CivilKey(c: Civil): string
    requires ValidCivil(c)
  {
    YearText(c.year) + "-" + ZeroPadded(c.month + 1, 2) + "-" + ZeroPadded(c.day, 2)
  }

  /** `date.toISOString().split('T')[0]`. */
  function Key(n: Day): string {
    CivilKey(Decode(n))
  }

  lemma SplitFields(y1: string, m1: string, d1: string, y2: string, m2: string, d2: string)
    requires |m1| == 2 && |m2| == 2 && |d1| == 2 && |d2| == 2
    requires y1 + "-" + m1 + "-" + d1 == y2 + "-" + m2 + "-" + d2
    ensures y1 == y2 && m1 == m2 && d1 == d2
  {
    var s := y1 + "-" + m1 + "-" + d1;
    var t := y2 + "-" + m2 + "-" + d2;
    assert |y1| == |y2|;
    var k := |y1|;
    assert y1 == s[..k] && y2 == t[..k];
    assert m1 == s[k + 1..k + 3] && m2 == t[k + 1..k + 3];
    assert d1 == s[k + 4..] && d2 == t[k + 4..];
  }

  lemma TwoDigitFields(c: Civil)
    requires ValidCivil(c)
    ensures |ZeroPadded(c.month + 1, 2)| == 2 && |ZeroPadded(c.day, 2)| == 2
  {
    assert Pow10(2) == 100;
    ZeroPaddedLength(c.month + 1, 2);
    ZeroPaddedLength(c.day, 2);
  }

  /** Distinct valid dates print differently. */
  lemma CivilKeyInjective(a: Civil, b: Civil)
    requires ValidCivil(a) && ValidCivil(b) && CivilKey(a) == CivilKey(b)
    ensures a == b
  {
    var ya, ma, da := YearText(a.year), ZeroPadded(a.month + 1, 2), ZeroPadded(a.day, 2);
    var yb, mb, db := YearText(b.year), ZeroPadded(b.month + 1, 2), ZeroPadded(b.day, 2);
    assert ya == yb && ma == mb && da == db by {
      TwoDigitFields(a);
      TwoDigitFields(b);
      SplitFields(ya, ma, da, yb, mb, db);
    }
    assert a.year == b.year by {
      YearTextInjective(a.year, b.year);
    }
    assert a.month == b.month by {
      ZeroPaddedInjective(a.month + 1, b.month + 1, 2);
    }
    assert a.day == b.day by {
      ZeroPaddedInjective(a.day, b.day, 2);
    }
  }

  /** Two days share a key exactly when they are the same day, so a task's `date`
    * matches at most one calendar cell. */
  lemma KeyInjective(a: Day, b: Day)
    ensures Key(a) == Key(b) <==> a == b
  {
    if Key(a) == Key(b) {
      CivilKeyInjective(Decode(a), Decode(b));
    }
  }

  lemma FieldsShape(y: string, m: string, d: string)
    requires |y| == 4 && |m| == 2 && |d| == 2
    requires forall i :: 0 <= i < 4 ==> IsDigit(y[i])
    requires forall i :: 0 <= i < 2 ==> IsDigit(m[i]) && IsDigit(d[i])
    ensures var k := y + "-" + m + "-" + d;
      |k| == 10 && k[4] == '-' && k[7] == '-' &&
      forall i :: 0 <= i < 10 && i != 4 && i != 7 ==> IsDigit(k[i])
  {
    var k := y + "-" + m + "-" + d;
    forall i | 0 <= i < 10 && i != 4 && i != 7 ensures IsDigit(k[i]) {
      if i < 4 { assert k[i] == y[i]; }
      else if i < 7 { assert k[i] == m[i - 5]; }
      else { assert k[i] == d[i - 8]; }
    }
  }

  /** For years 0..9999 the key has the fixed shape `YYYY-MM-DD`. */
  lemma KeyShape(n: Day)
    requires 0 <= YearOf(n) <= 9999
    ensures |Key(n)| == 10 && Key(n)[4] == '-' && Key(n)[7] == '-'
    ensures forall i :: 0 <= i < 10 && i != 4 && i != 7 ==> IsDigit(Key(n)[i])
  {
    var c := Decode(n);
    var y, m, d := ZeroPadded(c.year, 4), ZeroPadded(c.month + 1, 2), ZeroPadded(c.day, 2);
    assert |y| == 4 by {
      assert Pow10(4) == 10000;
      ZeroPaddedLength(c.year, 4);
    }
    TwoDigitFields(c);
    assert Key(n) == y + "-" + m + "-" + d;
    FieldsShape(y, m, d);
  }
}
