/** JavaScript string behaviour the task list relies on: `String.prototype.trim`
    and the relational operator `<` on strings, plus the fact that `<` orders
    zero-padded `YYYY-MM-DD` dates chronologically. */
module Text {

  /** The code points `trim` removes: ECMAScript WhiteSpace (tab, vertical tab,
      form feed, space, no-break space, byte order mark and the category Zs)
      and LineTerminator (line feed, carriage return, U+2028, U+2029). */
  predicate IsWhitespace(c: char) {
    || c == '\t' || c == '\n' || c == '\U{000B}' || c == '\U{000C}' || c == '\r'
    || c == ' ' || c == '\U{00A0}' || c == '\U{1680}'
    || ('\U{2000}' <= c <= '\U{200A}')
    || c == '\U{2028}' || c == '\U{2029}' || c == '\U{202F}' || c == '\U{205F}'
    || c == '\U{3000}' || c == '\U{FEFF}'
  }

  /** How many whitespace characters `s` starts with. */
  function LeadingSpace(s: string): (n: nat)
    ensures n <= |s|
  {
    if s != [] && IsWhitespace(s[0]) then 1 + LeadingSpace(s[1..]) else 0
  }

  /** How many whitespace characters `s` ends with. */
  function TrailingSpace(s: string): (n: nat)
    ensures n <= |s|
  {
    if s != [] && IsWhitespace(s[|s| - 1]) then 1 + TrailingSpace(s[..|s| - 1]) else 0
  }

  /** The leading run is all whitespace and is followed by a character that
      is not, or by the end of the string. */
  lemma {:induction false} LeadingSpaceMaximal(s: string)
    ensures var n := LeadingSpace(s);
      && (forall i :: 0 <= i < n ==> IsWhitespace(s[i]))
      && (n < |s| ==> !IsWhitespace(s[n]))
  {
    if s != [] && IsWhitespace(s[0]) {
      var t := s[1..];
      LeadingSpaceMaximal(t);
      forall i | 1 <= i < LeadingSpace(s)
        ensures IsWhitespace(s[i])
      {
        assert s[i] == t[i - 1];
      }
      if LeadingSpace(s) < |s| {
        assert s[LeadingSpace(s)] == t[LeadingSpace(t)];
      }
    }
  }

  /** The trailing run is all whitespace and is preceded by a character that
      is not, or by the start of the string. */
  lemma {:induction false} TrailingSpaceMaximal(s: string)
    ensures var n := TrailingSpace(s);
      && (forall i :: |s| - n <= i < |s| ==> IsWhitespace(s[i]))
      && (n < |s| ==> !IsWhitespace(s[|s| - n - 1]))
  {
    if s != [] && IsWhitespace(s[|s| - 1]) {
      var t := s[..|s| - 1];
      TrailingSpaceMaximal(t);
      forall i | |s| - TrailingSpace(s) <= i < |s| - 1
        ensures IsWhitespace(s[i])
      {
        assert s[i] == t[i];
      }
      if TrailingSpace(s) < |s| {
        assert s[|s| - TrailingSpace(s) - 1] == t[|t| - TrailingSpace(t) - 1];
      }
    }
  }

  /** `trimStart`: drops the leading whitespace. */
  function TrimStart(s: string): string {
    s[LeadingSpace(s)..]
  }

  /** `trimEnd`: drops the trailing whitespace. */
  function TrimEnd(s: string): string {
    s[..|s| - TrailingSpace(s)]
  }

  /** `String.prototype.trim`. */
  function Trim(s: string): string {
    TrimEnd(TrimStart(s))
  }

  /** Trim keeps a contiguous slice of its input, removes only whitespace on
      either side, and leaves no whitespace at either end. */
  lemma TrimSlice(s: string)
    ensures var r, lo := Trim(s), LeadingSpace(s);
      && lo + |r| <= |s| && r == s[lo..lo + |r|]
      && (forall i :: 0 <= i < lo ==> IsWhitespace(s[i]))
      && (forall i :: lo + |r| <= i < |s| ==> IsWhitespace(s[i]))
      && (r == [] || (!IsWhitespace(r[0]) && !IsWhitespace(r[|r| - 1])))
  {
    TrimIsSlice(s);
    TrimDropsWhitespace(s);
    TrimLeavesNoWhitespace(s);
  }

  lemma TrimIsSlice(s: string)
    ensures var r, lo := Trim(s), LeadingSpace(s);
      lo + |r| <= |s| && r == s[lo..lo + |r|]
  {
    var lo := LeadingSpace(s);
    var t := s[lo..];
    var hi := |t| - TrailingSpace(t);
    assert Trim(s) == t[..hi];
    assert t[..hi] == s[lo..lo + hi];
  }

  lemma TrimDropsWhitespace(s: string)
    ensures var r, lo := Trim(s), LeadingSpace(s);
      && (forall i :: 0 <= i < lo ==> IsWhitespace(s[i]))
      && (forall i :: lo + |r| <= i < |s| ==> IsWhitespace(s[i]))
  {
    var lo := LeadingSpace(s);
    var t := s[lo..];
    LeadingSpaceMaximal(s);
    TrailingSpaceMaximal(t);
    WhitespaceAfterSlice(s, t, |t| - TrailingSpace(t), lo);
    assert |Trim(s)| == |t| - TrailingSpace(t);
  }

  /** Whitespace at the end of a suffix of `s` is whitespace at the end of `s`. */
  lemma WhitespaceAfterSlice(s: string, t: string, n: nat, lo: nat)
    requires lo <= |s| && t == s[lo..] && n <= |t|
    requires forall i :: n <= i < |t| ==> IsWhitespace(t[i])
    ensures forall i :: lo + n <= i < |s| ==> IsWhitespace(s[i])
  {
    forall i | lo + n <= i < |s|
      ensures IsWhitespace(s[i])
    {
      assert s[i] == t[i - lo];
    }
  }

  lemma TrimLeavesNoWhitespace(s: string)
    ensures var r := Trim(s);
      r == [] || (!IsWhitespace(r[0]) && !IsWhitespace(r[|r| - 1]))
  {
    var lo := LeadingSpace(s);
    var t := s[lo..];
    var hi := |t| - TrailingSpace(t);
    var r := t[..hi];
    assert Trim(s) == r;
    LeadingSpaceMaximal(s);
    TrailingSpaceMaximal(t);
    if r != [] {
      assert r[0] == s[lo];
      assert r[hi - 1] == t[hi - 1];
    }
  }

  /** A string with no whitespace at either end is its own trim; in particular
      trimming is idempotent. */
  lemma TrimFixedPoint(s: string)
    requires s == [] || (!IsWhitespace(s[0]) && !IsWhitespace(s[|s| - 1]))
    ensures Trim(s) == s
  {
    assert LeadingSpace(s) == 0;
    assert TrimStart(s) == s;
    assert TrailingSpace(s) == 0;
  }

  lemma TrimIdempotent(s: string)
    ensures Trim(Trim(s)) == Trim(s)
  {
    TrimSlice(s);
    TrimFixedPoint(Trim(s));
  }

  /** JavaScript `a < b` on strings: lexicographic by character, a proper prefix
      being smaller. (Dafny's own `<` on sequences means "proper prefix".) */
  predicate LexLess(a: string, b: string)
  {
    if a == [] then b != []
    else if b == [] then false
    else if a[0] != b[0] then a[0] < b[0]
    else LexLess(a[1..], b[1..])
  }

  lemma {:induction false} LexLessIrreflexive(a: string)
    ensures !LexLess(a, a)
  {
    if a != [] {
      LexLessIrreflexive(a[1..]);
    }
  }

  lemma {:induction false} LexLessAsymmetric(a: string, b: string)
    ensures LexLess(a, b) ==> !LexLess(b, a)
  {
    if a != [] && b != [] && a[0] == b[0] {
      LexLessAsymmetric(a[1..], b[1..]);
    }
  }

  lemma {:induction false} LexLessTransitive(a: string, b: string, c: string)
    requires LexLess(a, b) && LexLess(b, c)
    ensures LexLess(a, c)
  {
    if a != [] && b != [] && c != [] && a[0] == b[0] && b[0] == c[0] {
      LexLessTransitive(a[1..], b[1..], c[1..]);
    }
  }

  lemma {:induction false} LexLessTotal(a: string, b: string)
    requires a != b
    ensures LexLess(a, b) || LexLess(b, a)
  {
    if a != [] && b != [] && a[0] == b[0] {
      assert a == [a[0]] + a[1..] && b == [b[0]] + b[1..];
      LexLessTotal(a[1..], b[1..]);
    }
  }

  /** On strings of equal length, comparing a concatenation compares the first
      parts and, when they are equal, the second parts. */
  lemma {:induction false} LexLessConcat(a1: string, a2: string, b1: string, b2: string)
    requires |a1| == |b1|
    ensures LexLess(a1 + a2, b1 + b2) <==> LexLess(a1, b1) || (a1 == b1 && LexLess(a2, b2))
  {
    if a1 == [] {
      assert a1 + a2 == a2 && b1 + b2 == b2;
    } else {
      assert (a1 + a2)[1..] == a1[1..] + a2 && (b1 + b2)[1..] == b1[1..] + b2;
      LexLessConcat(a1[1..], a2, b1[1..], b2);
      if a1[0] == b1[0] && a1[1..] == b1[1..] {
        assert a1 == [a1[0]] + a1[1..] && b1 == [b1[0]] + b1[1..];
      }
      if a1 == b1 {
        LexLessIrreflexive(a1);
      }
    }
  }

  predicate IsDigit(c: char) { '0' <= c <= '9' }

  predicate AllDigits(s: string) { forall i :: 0 <= i < |s| ==> IsDigit(s[i]) }

  /** The decimal value of a string of digits. */
  function DecimalValue(s: string): (n: nat)
    requires AllDigits(s)
  {
    if s == [] then 0 else DecimalValue(s[..|s| - 1]) * 10 + (s[|s| - 1] as int - '0' as int)
  }

  function Pow10(n: nat): (p: nat)
    ensures p >= 1
  {
    if n == 0 then 1 else 10 * Pow10(n - 1)
  }

  lemma {:induction false} DecimalValueBound(s: string)
    requires AllDigits(s)
    ensures DecimalValue(s) < Pow10(|s|)
  {
    if s != [] {
      DecimalValueBound(s[..|s| - 1]);
    }
  }

  /** For digit strings of one length, string order is numeric order. */
  lemma {:induction false} LexLessDigits(a: string, b: string)
    requires AllDigits(a) && AllDigits(b) && |a| == |b|
    ensures LexLess(a, b) <==> DecimalValue(a) < DecimalValue(b)
    decreases |a|
  {
    if a != [] {
      var n := |a| - 1;
      var a', b' := a[..n], b[..n];
      assert a == a' + [a[n]] && b == b' + [b[n]];
      assert IsDigit(a[n]) && IsDigit(b[n]);
      assert AllDigits(a') && AllDigits(b');
      LexLessConcat(a', [a[n]], b', [b[n]]);
      LexLessDigits(a', b');
      var x, y := DecimalValue(a'), DecimalValue(b');
      var da, db := a[n] as int - '0' as int, b[n] as int - '0' as int;
      assert DecimalValue(a) == x * 10 + da && DecimalValue(b) == y * 10 + db;
      assert 0 <= da <= 9 && 0 <= db <= 9;
      if a' != b' {
        LexLessTotal(a', b');
        LexLessAsymmetric(a', b');
        LexLessDigits(b', a');
        assert LexLess(a, b) <==> x < y;
        assert x < y ==> x * 10 + 9 < y * 10;
        assert y < x ==> y * 10 + 9 < x * 10;
      } else {
        assert LexLess(a, b) <==> LexLess([a[n]], [b[n]]);
        assert LexLess([a[n]], [b[n]]) <==> a[n] < b[n] by {
          assert [a[n]][1..] == [] && [b[n]][1..] == [];
        }
      }
    }
  }

  /** A calendar date as `<input type="date">` produces it: `YYYY-MM-DD`. */
  predicate IsIsoDate(s: string) {
    && |s| == 10 && s[4] == '-' && s[7] == '-'
    && AllDigits(s[..4]) && AllDigits(s[5..7]) && AllDigits(s[8..])
  }

  /** The date as the number YYYYMMDD, whose order is chronological order. */
  function DateNumber(s: string): (n: nat)
    requires IsIsoDate(s)
  {
    DecimalValue(s[..4]) * 10000 + DecimalValue(s[5..7]) * 100 + DecimalValue(s[8..])
  }

  /** Comparing two `YYYY-MM-DD` dates as strings compares them as dates. */
  lemma DateOrder(a: string, b: string)
    requires IsIsoDate(a) && IsIsoDate(b)
    ensures LexLess(a, b) <==> DateNumber(a) < DateNumber(b)
  {
    var ya, ma, da := a[..4], a[5..7], a[8..];
    var yb, mb, db := b[..4], b[5..7], b[8..];
    assert a == ya + (['-'] + (ma + (['-'] + da)));
    assert b == yb + (['-'] + (mb + (['-'] + db)));
    LexLessConcat(ya, ['-'] + (ma + (['-'] + da)), yb, ['-'] + (mb + (['-'] + db)));
    LexLessConcat(['-'], ma + (['-'] + da), ['-'], mb + (['-'] + db));
    LexLessIrreflexive(['-']);
    LexLessConcat(ma, ['-'] + da, mb, ['-'] + db);
    LexLessConcat(['-'], da, ['-'], db);
    assert LexLess(a, b) <==>
      LexLess(ya, yb) || (ya == yb && (LexLess(ma, mb) || (ma == mb && LexLess(da, db))));
    DigitsEqualOrOrdered(ya, yb);
    DigitsEqualOrOrdered(ma, mb);
    LexLessDigits(da, db);
    DecimalValueBound(ma);
    DecimalValueBound(mb);
    DecimalValueBound(da);
    DecimalValueBound(db);
    assert Pow10(2) == 100;
  }

  /** Equal-length digit strings are equal exactly when their values are, and
      otherwise string order is numeric order. */
  lemma DigitsEqualOrOrdered(a: string, b: string)
    requires AllDigits(a) && AllDigits(b) && |a| == |b|
    ensures a == b <==> DecimalValue(a) == DecimalValue(b)
    ensures LexLess(a, b) <==> DecimalValue(a) < DecimalValue(b)
  {
    LexLessDigits(a, b);
    LexLessDigits(b, a);
    if a != b {
      LexLessTotal(a, b);
    }
  }
}
