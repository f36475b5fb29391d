/** Printing, parsing and comparing dates and times.

    Lines are those of mysql++/include/datetime.cpp. */
module DateTimes {
  import opened Options

  type Short = x: int | 0 <= x < 0x1_0000
  type UChar = x: int | 0 <= x < 0x100

  /** The fields of a `DateTime`; those of a `Date` and a `Time` are the first and the last three.
      `now` says that no value was ever given. */
  datatype Stamp = Stamp(year: Short, month: UChar, day: UChar, hour: UChar, minute: UChar, second: UChar, now: bool) {
    /** Only the default constructor sets `now`, with all fields zero, and every other member that
        writes a field clears it. */
    predicate Valid()
    {
      now ==> this == NOW
    }

    /** The fields fit the widths they are printed with. */
    predicate InWidth()
    {
      year <= 9999 && month <= 99 && day <= 99 && hour <= 99 && minute <= 99 && second <= 99
    }
  }

  const NOW := Stamp(0, 0, 0, 0, 0, 0, true)

  // ----- printing -----

  function Digit(n: nat): (c: char)
    requires n < 10
    ensures '0' <= c <= '9' && (c - '0') as int == n
  {
    '0' + n as char
  }

  /** A number in decimal. */
  function Decimal(n: nat): (s: string)
    ensures |s| >= 1
  {
    if n < 10 then [Digit(n)] else Decimal(n / 10) + [Digit(n % 10)]
  }

  function Zeros(n: nat): (s: string)
    ensures |s| == n
  {
    if n == 0 then "" else "0" + Zeros(n - 1)
  }

  /** A number printed with fill character zero, to the right, at least `w` wide. */
  function Padded(n: nat, w: nat): (s: string)
    ensures |s| >= w && |s| >= 1
  {
    var s := Decimal(n);
    if |s| < w then Zeros(w - |s|) + s else s
  }

  /** A separator, or nothing. */
  function Sep(on: bool, c: char): string { if on then [c] else "" }

  function DateText(t: Stamp, on: bool): string
  {
    Padded(t.year, 4) + (Sep(on, '-') + (Padded(t.month, 2) + (Sep(on, '-') + Padded(t.day, 2))))
  }

  function TimeText(t: Stamp, on: bool): string
  {
    Padded(t.hour, 2) + (Sep(on, ':') + (Padded(t.minute, 2) + (Sep(on, ':') + Padded(t.second, 2))))
  }

  /** What `operator<<` prints; with `on` false, the same without separators. */
  function Text(t: Stamp, on: bool): string
  {
    if t.now then "NOW()" else DateText(t, on) + (Sep(on, ' ') + TimeText(t, on))
  }

  // ----- decimal digits of fixed width -----

  function Pow10(w: nat): (p: nat)
    ensures p >= 1
  {
    if w == 0 then 1 else 10 * Pow10(w - 1)
  }

  /** The lowest `w` digits. */
  function Fixed(n: nat, w: nat): (s: string)
    ensures |s| == w && forall i :: 0 <= i < w ==> '0' <= s[i] <= '9'
  {
    if w == 0 then "" else Fixed(n / 10, w - 1) + [Digit(n % 10)]
  }

  lemma {:induction false} DecimalWidth(n: nat, w: nat)
    requires w >= 1
    ensures |Decimal(n)| <= w <==> n < Pow10(w)
    decreases w
  {
    if n >= 10 {
      if w == 1 {
        assert Pow10(1) == 10 by { assert Pow10(0) == 1; }
      } else {
        DecimalWidth(n / 10, w - 1);
      }
    } else {
      assert Pow10(w) == 10 * Pow10(w - 1);
    }
  }

  lemma {:induction false} FixedOfZero(w: nat)
    ensures Fixed(0, w) == Zeros(w)
  {
    if w > 0 {
      FixedOfZero(w - 1);
      ZerosBack(w - 1);
    }
  }

  lemma {:induction false} ZerosBack(w: nat)
    ensures Zeros(w) + "0" == Zeros(w + 1)
  {
    if w > 0 {
      ZerosBack(w - 1);
      assert Zeros(w) + "0" == "0" + (Zeros(w - 1) + "0");
    } else {
      assert Zeros(1) == "0" + Zeros(0);
    }
  }

  lemma {:induction false} PaddedIsFixed(n: nat, w: nat)
    requires w >= 1 && n < Pow10(w)
    ensures Padded(n, w) == Fixed(n, w)
    decreases w
  {
    DecimalWidth(n, w);
    if n < 10 {
      FixedOfZero(w - 1);
      assert n / 10 == 0;
    } else {
      PaddedIsFixed(n / 10, w - 1);
      DecimalWidth(n / 10, w - 1);
      var s := Decimal(n / 10);
      assert (Zeros(w - 1 - |s|) + s) + [Digit(n % 10)] == Zeros(w - 1 - |s|) + Decimal(n);
    }
  }

  // ----- order -----

  function Sign(x: int): int { if x < 0 then -1 else if x == 0 then 0 else 1 }

  /** The lexicographic order of two texts: negative, zero or positive. */
  function Lex(s: string, t: string): int
  {
    if s == "" && t == "" then 0
    else if s == "" then -1
    else if t == "" then 1
    else if s[0] != t[0] then Sign(s[0] as int - t[0] as int)
    else Lex(s[1..], t[1..])
  }

  lemma {:induction false} LexOfParts(s: string, t: string, x: string, y: string)
    requires |s| == |t|
    ensures Lex(s + x, t + y) == if Lex(s, t) != 0 then Lex(s, t) else Lex(x, y)
    decreases |s|
  {
    if s == "" {
      assert s + x == x && t + y == y;
    } else {
      assert (s + x)[1..] == s[1..] + x && (t + y)[1..] == t[1..] + y;
      LexOfParts(s[1..], t[1..], x, y);
    }
  }

  lemma LexOfDigits(m: nat, n: nat)
    requires m < 10 && n < 10
    ensures Lex([Digit(m)], [Digit(n)]) == Sign(m - n)
  {
    assert [Digit(m)][1..] == "" && [Digit(n)][1..] == "";
  }

  lemma QuotientOrder(m: nat, n: nat)
    ensures Sign(m - n) == if m / 10 != n / 10 then Sign(m / 10 - n / 10) else Sign(m % 10 - n % 10)
  {
  }

  lemma {:induction false} LexOfFixed(m: nat, n: nat, w: nat)
    requires m < Pow10(w) && n < Pow10(w)
    ensures Lex(Fixed(m, w), Fixed(n, w)) == Sign(m - n)
  {
    if w > 0 {
      LexOfFixed(m / 10, n / 10, w - 1);
      LexOfParts(Fixed(m / 10, w - 1), Fixed(n / 10, w - 1), [Digit(m % 10)], [Digit(n % 10)]);
      LexOfDigits(m % 10, n % 10);
      QuotientOrder(m, n);
    }
  }

  lemma LexSame(c: string, x: string, y: string)
    ensures Lex(c + x, c + y) == Lex(x, y)
  {
    LexOfParts(c, c, x, y);
    LexEqual(c);
  }

  lemma {:induction false} LexEqual(s: string)
    ensures Lex(s, s) == 0
  {
    if s != "" {
      LexEqual(s[1..]);
    }
  }

  // ----- comparing -----

  function CompareDate(a: Stamp, b: Stamp): int
  {
    if a.year != b.year then a.year - b.year
    else if a.month != b.month then a.month - b.month
    else a.day - b.day
  }

  function CompareTime(a: Stamp, b: Stamp): int
  {
    if a.hour != b.hour then a.hour - b.hour
    else if a.minute != b.minute then a.minute - b.minute
    else a.second - b.second
  }

  function Compare(a: Stamp, b: Stamp): int
  {
    if a.now && b.now then 0
    else if CompareDate(a, b) != 0 then CompareDate(a, b)
    else CompareTime(a, b)
  }

  /** One printed field in front of the rest. */
  lemma FieldOrder(m: nat, n: nat, w: nat, c: string, x: string, y: string)
    requires w >= 1 && m < Pow10(w) && n < Pow10(w)
    ensures Lex(Padded(m, w) + (c + x), Padded(n, w) + (c + y)) == if m != n then Sign(m - n) else Lex(x, y)
  {
    PaddedIsFixed(m, w);
    PaddedIsFixed(n, w);
    LexOfFixed(m, n, w);
    LexOfParts(Fixed(m, w), Fixed(n, w), c + x, c + y);
    LexSame(c, x, y);
  }

  lemma LastFieldOrder(m: nat, n: nat, w: nat)
    requires w >= 1 && m < Pow10(w) && n < Pow10(w)
    ensures Lex(Padded(m, w), Padded(n, w)) == Sign(m - n)
  {
    PaddedIsFixed(m, w);
    PaddedIsFixed(n, w);
    LexOfFixed(m, n, w);
  }

  lemma Pow10Values()
    ensures Pow10(2) == 100 && Pow10(4) == 10000
  {
    assert Pow10(1) == 10 by { assert Pow10(0) == 1; }
    assert Pow10(3) == 10 * Pow10(2);
  }

  lemma TimeOrder(a: Stamp, b: Stamp, on: bool)
    requires a.InWidth() && b.InWidth()
    ensures Lex(TimeText(a, on), TimeText(b, on)) == Sign(CompareTime(a, b))
  {
    hide Padded, Lex, Pow10;
    Pow10Values();
    var c := Sep(on, ':');
    FieldOrder(a.hour, b.hour, 2, c, Padded(a.minute, 2) + (c + Padded(a.second, 2)),
               Padded(b.minute, 2) + (c + Padded(b.second, 2)));
    FieldOrder(a.minute, b.minute, 2, c, Padded(a.second, 2), Padded(b.second, 2));
    LastFieldOrder(a.second, b.second, 2);
  }

  lemma DateOrder(a: Stamp, b: Stamp, on: bool)
    requires a.InWidth() && b.InWidth()
    ensures |DateText(a, on)| == |DateText(b, on)|
    ensures Lex(DateText(a, on), DateText(b, on)) == Sign(CompareDate(a, b))
  {
    hide Padded, Lex, Pow10;
    Pow10Values();
    PaddedIsFixed(a.year, 4);
    PaddedIsFixed(b.year, 4);
    PaddedIsFixed(a.month, 2);
    PaddedIsFixed(b.month, 2);
    PaddedIsFixed(a.day, 2);
    PaddedIsFixed(b.day, 2);
    var c := Sep(on, '-');
    FieldOrder(a.year, b.year, 4, c, Padded(a.month, 2) + (c + Padded(a.day, 2)),
               Padded(b.month, 2) + (c + Padded(b.day, 2)));
    FieldOrder(a.month, b.month, 2, c, Padded(a.day, 2), Padded(b.day, 2));
    LastFieldOrder(a.day, b.day, 2);
  }

  /** The sign of `compare` is the lexicographic order of what is printed, exactly when none or both
      of the two are NOW(): compared as the fields it does not have, NOW() comes first, but it is
      printed after every digit. */
  lemma CompareIsPrintedOrder(a: Stamp, b: Stamp)
    requires a.Valid() && b.Valid() && a.InWidth() && b.InWidth()
    ensures Sign(Compare(a, b)) == Lex(Text(a, true), Text(b, true)) <==> a.now == b.now
  {
    if a.now && b.now {
      LexEqual("NOW()");
    } else if a.now {
      NowIsLast(b);
    } else if b.now {
      NowIsLast(a);
    } else {
      hide DateText, TimeText, Lex;
      DateOrder(a, b, true);
      TimeOrder(a, b, true);
      LexOfParts(DateText(a, true), DateText(b, true), " " + TimeText(a, true), " " + TimeText(b, true));
      LexSame(" ", TimeText(a, true), TimeText(b, true));
    }
  }

  /** The six fields as one number, the digits in base 256. */
  function Rank(t: Stamp): nat
  {
    t.year * 0x100_0000_0000 + t.month * 0x1_0000_0000 + t.day * 0x100_0000
      + t.hour * 0x1_0000 + t.minute * 0x100 + t.second
  }

  /** `compare` orders all stamps by one number, so it is a total order, in width or not. NOW() has the
      number zero: against any other stamp it is compared by its fields, and it comes first unless the
      other one is all zero too. */
  lemma CompareIsRank(a: Stamp, b: Stamp)
    requires a.Valid() && b.Valid()
    ensures Sign(Compare(a, b)) == Sign(Rank(a) - Rank(b))
  {
  }

  lemma NowIsLast(t: Stamp)
    requires !t.now && t.InWidth()
    ensures Lex("NOW()", Text(t, true)) == 1 && Lex(Text(t, true), "NOW()") == -1
    ensures Compare(NOW, t) <= 0 && Compare(t, NOW) >= 0
  {
    Pow10Values();
    PaddedIsFixed(t.year, 4);
    hide Padded;
    assert Text(t, true)[0] == Fixed(t.year, 4)[0];
  }

  /** A field wider than its width prints before the largest number that fits. */
  lemma WideFieldPrintsEarlier(n: nat, w: nat, x: string, y: string)
    requires w >= 1 && Pow10(w) <= n < 10 * (Pow10(w) - 1)
    ensures Lex(Padded(n, w) + x, Padded(Pow10(w) - 1, w) + y) < 0
  {
    var m := n / 10;
    DecimalWidth(n, w);
    WideFront(n, w);
    PaddedIsFixed(Pow10(w) - 1, w);
    LexOfFixed(m, Pow10(w) - 1, w);
    assert Padded(n, w) + x == Fixed(m, w) + ([Digit(n % 10)] + x);
    LexOfParts(Fixed(m, w), Fixed(Pow10(w) - 1, w), [Digit(n % 10)] + x, y);
  }

  lemma WideFront(n: nat, w: nat)
    requires w >= 1 && Pow10(w) <= n < 10 * Pow10(w)
    ensures Padded(n, w) == Fixed(n / 10, w) + [Digit(n % 10)]
  {
    var m := n / 10;
    assert Pow10(w) == 10 * Pow10(w - 1);
    assert Pow10(w - 1) <= m < Pow10(w);
    DecimalWidth(n, w);
    PaddedIsFixed(m, w);
    DecimalWidth(m, w);
    if w > 1 {
      DecimalWidth(m, w - 1);
    }
  }

  /** Equal pieces in front do not matter. */
  lemma LexBehind(p: string, c: string, x: string, y: string)
    ensures Lex(p + (c + x), p + (c + y)) == Lex(x, y)
  {
    LexSame(p, c + x, c + y);
    LexSame(c, x, y);
  }

  lemma WideTimeSortsElsewhere(t: Stamp) returns (u: Stamp)
    requires t.hour > 99 || t.minute > 99 || t.second > 99
    ensures u.hour <= 99 && u.minute <= 99 && u.second <= 99
    ensures u.(hour := t.hour, minute := t.minute, second := t.second) == t
    ensures CompareTime(t, u) > 0 && Lex(TimeText(t, true), TimeText(u, true)) < 0
  {
    hide Padded, Lex, Pow10;
    Pow10Values();
    var sm, ss := ":" + (Padded(t.minute, 2) + (":" + Padded(t.second, 2))), ":" + Padded(t.second, 2);
    if t.hour > 99 {
      u := t.(hour := 99, minute := 0, second := 0);
      WideFieldPrintsEarlier(t.hour, 2, sm, ":" + (Padded(0, 2) + (":" + Padded(0, 2))));
    } else if t.minute > 99 {
      u := t.(minute := 99, second := 0);
      WideFieldPrintsEarlier(t.minute, 2, ss, ":" + Padded(0, 2));
      LexBehind(Padded(t.hour, 2), ":", Padded(t.minute, 2) + ss, Padded(99, 2) + (":" + Padded(0, 2)));
    } else {
      u := t.(second := 99);
      WideFieldPrintsEarlier(t.second, 2, "", "");
      assert Padded(t.second, 2) + "" == Padded(t.second, 2) && Padded(99, 2) + "" == Padded(99, 2);
      LexBehind(Padded(t.minute, 2), ":", Padded(t.second, 2), Padded(99, 2));
      LexBehind(Padded(t.hour, 2), ":", Padded(t.minute, 2) + ss, Padded(t.minute, 2) + (":" + Padded(99, 2)));
    }
  }

  lemma DateTextAndRest(t: Stamp, rest: string)
    ensures DateText(t, true) + rest ==
            Padded(t.year, 4) + ("-" + (Padded(t.month, 2) + ("-" + (Padded(t.day, 2) + rest))))
  {
    hide Padded;
  }

  lemma WideDateSortsElsewhere(t: Stamp, rest: string, other: string) returns (u: Stamp)
    requires t.year > 9999 || t.month > 99 || t.day > 99
    ensures u.year <= 9999 && u.month <= 99 && u.day <= 99
    ensures u.(year := t.year, month := t.month, day := t.day) == t
    ensures CompareDate(t, u) > 0 && Lex(DateText(t, true) + rest, DateText(u, true) + other) < 0
  {
    hide Padded, Lex, Pow10, DateText;
    Pow10Values();
    DateTextAndRest(t, rest);
    var td := Padded(t.day, 2) + rest;
    if t.year > 9999 {
      u := t.(year := 9999, month := 0, day := 0);
      DateTextAndRest(u, other);
      var ud := Padded(0, 2) + other;
      WideFieldPrintsEarlier(t.year, 4, "-" + (Padded(t.month, 2) + ("-" + td)), "-" + (Padded(0, 2) + ("-" + ud)));
    } else if t.month > 99 {
      u := t.(month := 99, day := 0);
      DateTextAndRest(u, other);
      var ud := Padded(0, 2) + other;
      WideFieldPrintsEarlier(t.month, 2, "-" + td, "-" + ud);
      LexBehind(Padded(t.year, 4), "-", Padded(t.month, 2) + ("-" + td), Padded(99, 2) + ("-" + ud));
    } else {
      u := t.(day := 99);
      DateTextAndRest(u, other);
      var ud := Padded(99, 2) + other;
      WideFieldPrintsEarlier(t.day, 2, rest, other);
      LexBehind(Padded(t.month, 2), "-", td, ud);
      LexBehind(Padded(t.year, 4), "-", Padded(t.month, 2) + ("-" + td), Padded(t.month, 2) + ("-" + ud));
    }
  }

  /** The sign of `compare` is the order of the printed texts. */
  predicate SortsAsPrinted(a: Stamp, b: Stamp)
  {
    Sign(Compare(a, b)) == Lex(Text(a, true), Text(b, true))
  }

  /** For a stamp with a wide field, one in width that it follows and prints before. */
  lemma WideSortsElsewhere(t: Stamp) returns (u: Stamp)
    requires !t.now && !t.InWidth()
    ensures u.InWidth() && !u.now && !SortsAsPrinted(t, u)
  {
    hide DateText, TimeText, Lex;
    if t.year > 9999 || t.month > 99 || t.day > 99 {
      var v := t.(hour := 0, minute := 0, second := 0);
      u := WideDateSortsElsewhere(v, " " + TimeText(t, true), " " + TimeText(v, true));
      assert DateText(v, true) == DateText(t, true) by { SameDateText(v, t); }
      assert TimeText(u, true) == TimeText(v, true) by { SameTimeText(u, v); }
    } else {
      u := WideTimeSortsElsewhere(t);
      SameDateText(t, u);
      LexBehind(DateText(t, true), " ", TimeText(t, true), TimeText(u, true));
    }
  }

  lemma SameDateText(t: Stamp, u: Stamp)
    requires t.year == u.year && t.month == u.month && t.day == u.day
    ensures DateText(t, true) == DateText(u, true)
  {
  }

  lemma SameTimeText(t: Stamp, u: Stamp)
    requires t.hour == u.hour && t.minute == u.minute && t.second == u.second
    ensures TimeText(t, true) == TimeText(u, true)
  {
  }

  /** Exactly: a stamp other than NOW() sorts as printed among all stamps that fit the widths if and
      only if it fits them itself. */
  lemma SortsAsPrintedIff(t: Stamp)
    requires !t.now
    ensures (forall u: Stamp :: u.InWidth() && !u.now ==> SortsAsPrinted(t, u)) <==> t.InWidth()
  {
    hide Compare, Text;
    if t.InWidth() {
      forall u: Stamp | u.InWidth() && !u.now ensures SortsAsPrinted(t, u) {
        CompareIsPrintedOrder(t, u);
      }
    } else {
      var u := WideSortsElsewhere(t);
    }
  }

  /** Beyond the widths the two orders part: 100 hours are more than 99, and are printed before. */
  lemma WideHoursPrintEarlier(t: Stamp, u: Stamp)
    requires t.hour == 100 && u.hour == 99
    ensures CompareTime(t, u) > 0 && Lex(TimeText(t, true), TimeText(u, true)) < 0
  {
    assert Decimal(100) == "100" by { assert Decimal(10) == "10"; }
    assert Decimal(99) == "99";
    assert TimeText(t, true)[0] == '1' && TimeText(u, true)[0] == '9';
  }

  // ----- the layout -----

  lemma TwoDigits(n: nat)
    requires n <= 99
    ensures Padded(n, 2) == [Digit(n / 10), Digit(n % 10)]
  {
    Pow10Values();
    PaddedIsFixed(n, 2);
    assert Fixed(n, 2) == Fixed(n / 10, 1) + [Digit(n % 10)];
    assert Fixed(n / 10, 1) == Fixed(n / 100, 0) + [Digit(n / 10)];
  }

  lemma FourDigits(n: nat)
    requires n <= 9999
    ensures Padded(n, 4) == [Digit(n / 1000), Digit(n / 100 % 10), Digit(n / 10 % 10), Digit(n % 10)]
  {
    Pow10Values();
    PaddedIsFixed(n, 4);
    var a, b, c := n / 10, n / 10 / 10, n / 10 / 10 / 10;
    assert b == n / 100 && c == n / 1000;
    assert Fixed(n, 4) == Fixed(a, 3) + [Digit(n % 10)];
    assert Fixed(a, 3) == Fixed(b, 2) + [Digit(a % 10)];
    assert Fixed(b, 2) == Fixed(c, 1) + [Digit(b % 10)];
    assert Fixed(c, 1) == Fixed(c / 10, 0) + [Digit(c)];
  }

  /** The digits are those of '0' to '9' in order. */
  lemma DigitsListed(n: nat)
    requires n < 10
    ensures Digit(n) == "0123456789"[n]
  {
  }

  /** A value in width is printed as YYYY-MM-DD hh:mm:ss. */
  lemma TextLayout(t: Stamp)
    requires !t.now && t.InWidth()
    ensures Text(t, true) ==
            [Digit(t.year / 1000), Digit(t.year / 100 % 10), Digit(t.year / 10 % 10), Digit(t.year % 10), '-',
             Digit(t.month / 10), Digit(t.month % 10), '-', Digit(t.day / 10), Digit(t.day % 10), ' ',
             Digit(t.hour / 10), Digit(t.hour % 10), ':', Digit(t.minute / 10), Digit(t.minute % 10), ':',
             Digit(t.second / 10), Digit(t.second % 10)]
  {
    hide Padded, Digit;
    FourDigits(t.year);
    TwoDigits(t.month);
    TwoDigits(t.day);
    TwoDigits(t.hour);
    TwoDigits(t.minute);
    TwoDigits(t.second);
  }

  // ----- parsing -----

  predicate IsBlank(c: char) { c == ' ' || '\t' <= c <= '\r' }

  predicate IsDecimalDigit(c: char) { '0' <= c <= '9' }

  function ValueOf(c: char): (n: nat)
    requires IsDecimalDigit(c)
    ensures n < 10
  {
    (c - '0') as int
  }

  /** The digits at the front, as a number, after `acc`. */
  function Digits(s: string, acc: nat): (r: nat)
  {
    if s == "" || !IsDecimalDigit(s[0]) then acc else Digits(s[1..], 10 * acc + ValueOf(s[0]))
  }

  /** `strtol` in base ten: blanks, a sign, digits; zero if there are no digits. */
  function Strtol(s: string): int
  {
    if s == "" then 0
    else if IsBlank(s[0]) then Strtol(s[1..])
    else if s[0] == '-' then (var d: int := Digits(s[1..], 0); -d)
    else if s[0] == '+' then Digits(s[1..], 0)
    else Digits(s, 0)
  }

  /** Three fields read one after the other, and what follows them. */
  datatype Three = Three(a: int, b: int, c: int, rest: string)

  /** `convert` copies a fixed number of characters without looking for the end of the text. `s` is
      the memory from the current character on, terminator included; None stands for a read past
      it. */
  function TakeField(s: string, n: nat): (r: Option<(int, string)>)
  {
    if n <= |s| then Some((Strtol(s[..n]), s[n..])) else None
  }

  function SkipSep(s: string, c: char): (r: Option<string>)
  {
    if s == "" then None else Some(if s[0] == c then s[1..] else s)
  }

  /** A field of two characters, kept in an unsigned char, after an optional separator. */
  function NextField(s: string, sep: char): (r: Option<(UChar, string)>)
  {
    var t := SkipSep(s, sep);
    if t.None? then None
    else
      var f := TakeField(t.value, 2);
      if f.None? then None else Some((f.value.0 % 0x100, f.value.1))
  }

  /** A first field of `w` characters, cast to a type of `m` values, and two more fields. */
  function Parse3(s: string, w: nat, m: nat, sep: char): (r: Option<Three>)
    requires m > 0
    ensures r.Some? ==> 0 <= r.value.a < m && 0 <= r.value.b < 0x100 && 0 <= r.value.c < 0x100
    ensures r.Some? ==> |r.value.rest| <= |s|
  {
    var a := TakeField(s, w);
    if a.None? then None
    else
      var b := NextField(a.value.1, sep);
      if b.None? then None
      else
        var c := NextField(b.value.1, sep);
        if c.None? then None else Some(Three(a.value.0 % m, b.value.0, c.value.0, c.value.1))
  }

  function ParseDate(s: string): Option<Three> { Parse3(s, 4, 0x1_0000, '-') }

  function ParseTime(s: string): Option<Three> { Parse3(s, 2, 0x100, ':') }

  /** A date, an optional blank, a time. */
  function Parse(s: string): Option<(Stamp, string)>
  {
    var d := ParseDate(s);
    if d.None? then None
    else
      var t0 := SkipSep(d.value.rest, ' ');
      if t0.None? then None
      else
        var t := ParseTime(t0.value);
        if t.None? then None
        else Some((Stamp(d.value.a, d.value.b, d.value.c, t.value.a, t.value.b, t.value.c, false), t.value.rest))
  }

  // ----- `convert` -----

  class Date {
    var year: Short
    var month: UChar
    var day: UChar

    constructor ()
      ensures year == 0 && month == 0 && day == 0
    {
      year, month, day := 0, 0, 0;
    }

    /** Lines 138-163. `ok` is false where the text is read past its end. */
    method Convert(s: string, at: nat) returns (ok: bool, to: nat)
      requires at <= |s|
      modifies this
      ensures ok == ParseDate(s[at..]).Some? && to <= |s|
      ensures ok ==> Three(year, month, day, s[to..]) == ParseDate(s[at..]).value
    {
      hide Strtol;
      ok, to := false, at;
      if to + 4 > |s| { return; }
      year := Strtol(s[to..to + 4]) % 0x1_0000;
      assert s[at..][..4] == s[to..to + 4] && s[at..][4..] == s[to + 4..];
      to := to + 4;
      var month1, day1;
      ok, month1, to := TwoChars(s, to, '-');
      if !ok { return; }
      month := month1;
      ok, day1, to := TwoChars(s, to, '-');
      if !ok { return; }
      day := day1;
    }
  }

  class Time {
    var hour: UChar
    var minute: UChar
    var second: UChar

    constructor ()
      ensures hour == 0 && minute == 0 && second == 0
    {
      hour, minute, second := 0, 0, 0;
    }

    /** Lines 166-189. */
    method Convert(s: string, at: nat) returns (ok: bool, to: nat)
      requires at <= |s|
      modifies this
      ensures ok == ParseTime(s[at..]).Some? && to <= |s|
      ensures ok ==> Three(hour, minute, second, s[to..]) == ParseTime(s[at..]).value
    {
      hide Strtol;
      ok, to := false, at;
      if to + 2 > |s| { return; }
      hour := Strtol(s[to..to + 2]) % 0x100;
      assert s[at..][..2] == s[to..to + 2] && s[at..][2..] == s[to + 2..];
      to := to + 2;
      var minute1, second1;
      ok, minute1, to := TwoChars(s, to, ':');
      if !ok { return; }
      minute := minute1;
      ok, second1, to := TwoChars(s, to, ':');
      if !ok { return; }
      second := second1;
    }
  }

  /** Skip a separator if it is there, then read two characters as a number. */
  method TwoChars(s: string, at: nat, sep: char) returns (ok: bool, n: UChar, to: nat)
    requires at <= |s|
    ensures ok == NextField(s[at..], sep).Some? && to <= |s|
    ensures ok ==> (n, s[to..]) == NextField(s[at..], sep).value
  {
    hide Strtol;
    ok, n, to := false, 0, at;
    if to == |s| { return; }
    ghost var here := s[at..];
    if s[to] == sep {
      to := to + 1;
      assert s[to..] == here[1..];
    }
    assert SkipSep(here, sep) == Some(s[to..]);
    if to + 2 > |s| { return; }
    assert s[to..][..2] == s[to..to + 2] && s[to..][2..] == s[to + 2..];
    n := Strtol(s[to..to + 2]) % 0x100;
    ok, to := true, to + 2;
  }

  class DateTime {
    var stamp: Stamp

    constructor ()
      ensures stamp == NOW
    {
      stamp := NOW;
    }

    /** Lines 192-212. */
    method Convert(s: string) returns (ok: bool, to: nat)
      modifies this
      ensures ok == Parse(s).Some? && to <= |s|
      ensures ok ==> (stamp, s[to..]) == Parse(s).value && stamp.Valid()
    {
      hide Parse3;
      var d := new Date();
      assert s[0..] == s;
      ok, to := d.Convert(s, 0);
      if !ok { return; }
      if to == |s| {
        return false, to;
      }
      ghost var here := s[to..];
      if s[to] == ' ' {
        to := to + 1;
        assert s[to..] == here[1..];
      }
      var t := new Time();
      ok, to := t.Convert(s, to);
      if !ok { return; }
      stamp := Stamp(d.year, d.month, d.day, t.hour, t.minute, t.second, false);
    }
  }

  // ----- parsing what was printed -----

  predicate AllDigits(s: string)
  {
    forall i :: 0 <= i < |s| ==> IsDecimalDigit(s[i])
  }

  lemma {:induction false} DigitsAtEnd(s: string, c: char, acc: nat)
    requires AllDigits(s) && IsDecimalDigit(c)
    ensures Digits(s + [c], acc) == 10 * Digits(s, acc) + ValueOf(c)
    decreases |s|
  {
    if s == "" {
      assert ("" + [c])[1..] == "";
    } else {
      assert (s + [c])[1..] == s[1..] + [c];
      DigitsAtEnd(s[1..], c, 10 * acc + ValueOf(s[0]));
    }
  }

  lemma {:induction false} DigitsOfFixed(n: nat, w: nat)
    requires n < Pow10(w)
    ensures AllDigits(Fixed(n, w)) && Digits(Fixed(n, w), 0) == n
  {
    if w > 0 {
      DigitsOfFixed(n / 10, w - 1);
      DigitsAtEnd(Fixed(n / 10, w - 1), Digit(n % 10), 0);
    }
  }

  lemma {:induction false} DigitsBound(s: string)
    requires AllDigits(s)
    ensures Digits(s, 0) < Pow10(|s|)
    decreases |s|
  {
    if s != "" {
      var n := |s| - 1;
      DigitsBound(s[..n]);
      DigitsAtEnd(s[..n], s[n], 0);
      assert s == s[..n] + [s[n]];
    }
  }

  lemma {:induction false} PaddedDigits(n: nat, w: nat)
    ensures AllDigits(Padded(n, w))
  {
    DecimalDigits(n);
    if |Decimal(n)| < w {
      ZerosDigits(w - |Decimal(n)|);
    }
  }

  lemma {:induction false} DecimalDigits(n: nat)
    ensures AllDigits(Decimal(n))
  {
    if n >= 10 {
      DecimalDigits(n / 10);
    }
  }

  lemma {:induction false} ZerosDigits(n: nat)
    ensures AllDigits(Zeros(n))
  {
    if n > 0 {
      ZerosDigits(n - 1);
    }
  }

  /** The first `w` characters of a printed field give the field back exactly if it is not wider. */
  lemma FieldIff(n: nat, w: nat, x: string)
    requires w >= 1
    ensures TakeField(Padded(n, w) + x, w).Some?
    ensures var (v, rest) := TakeField(Padded(n, w) + x, w).value;
            && 0 <= v < Pow10(w) && (v == n <==> n < Pow10(w))
            && (v == n ==> rest == x)
  {
    var p := Padded(n, w);
    PaddedDigits(n, w);
    var front := p[..w];
    assert (p + x)[..w] == front;
    assert AllDigits(front);
    DigitsBound(front);
    assert Strtol(front) == Digits(front, 0) by { assert IsDecimalDigit(front[0]); }
    if n < Pow10(w) {
      PaddedIsFixed(n, w);
      DigitsOfFixed(n, w);
      assert front == p && (p + x)[w..] == x;
    }
  }

  lemma SepSkipped(on: bool, sep: char, n: nat, x: string)
    requires !IsDecimalDigit(sep)
    ensures SkipSep(Sep(on, sep) + (Padded(n, 2) + x), sep) == Some(Padded(n, 2) + x)
  {
    PaddedDigits(n, 2);
    assert IsDecimalDigit(Padded(n, 2)[0]);
    hide Padded, IsDecimalDigit;
    if !on {
      assert Sep(on, sep) + (Padded(n, 2) + x) == Padded(n, 2) + x;
    }
  }

  lemma NextFieldIff(on: bool, sep: char, n: UChar, x: string)
    requires !IsDecimalDigit(sep)
    ensures NextField(Sep(on, sep) + (Padded(n, 2) + x), sep).Some?
    ensures var (v, rest) := NextField(Sep(on, sep) + (Padded(n, 2) + x), sep).value;
            && (v == n <==> n <= 99) && (v == n ==> rest == x)
  {
    hide TakeField, SkipSep, Padded, Sep;
    SepSkipped(on, sep, n, x);
    FieldIff(n, 2, x);
    Pow10Values();
  }

  function Text3(a: nat, w: nat, b: UChar, c: UChar, sep: char, on: bool): string
  {
    Padded(a, w) + (Sep(on, sep) + (Padded(b, 2) + (Sep(on, sep) + Padded(c, 2))))
  }

  lemma Parse3Iff(a: nat, w: nat, m: nat, b: UChar, c: UChar, sep: char, on: bool, x: string)
    requires w >= 1 && a < m && Pow10(w) <= m && !IsDecimalDigit(sep)
    ensures var r := Parse3(Text3(a, w, b, c, sep, on) + x, w, m, sep);
            && (r.Some? && r.value.a == a && r.value.b == b && r.value.c == c
                <==> a < Pow10(w) && b <= 99 && c <= 99)
            && (a < Pow10(w) && b <= 99 && c <= 99 ==> r == Some(Three(a, b, c, x)))
  {
    hide TakeField, NextField, Padded, Sep, Pow10, IsDecimalDigit;
    var x2 := Sep(on, sep) + (Padded(c, 2) + x);
    var x1 := Sep(on, sep) + (Padded(b, 2) + x2);
    assert Text3(a, w, b, c, sep, on) + x == Padded(a, w) + x1;
    FieldIff(a, w, x1);
    var v := TakeField(Padded(a, w) + x1, w).value.0;
    assert v % m == v;
    NextFieldIff(on, sep, b, x2);
    NextFieldIff(on, sep, c, x);
  }

  lemma PartsOfText(t: Stamp, on: bool, rest: string)
    requires !t.now
    ensures Text(t, on) + rest ==
            Text3(t.year, 4, t.month, t.day, '-', on)
            + (Sep(on, ' ') + (Text3(t.hour, 2, t.minute, t.second, ':', on) + rest))
  {
    hide Padded, Sep;
  }

  lemma BlankSkipped(t: Stamp, on: bool, rest: string)
    ensures var time := Text3(t.hour, 2, t.minute, t.second, ':', on);
            SkipSep(Sep(on, ' ') + (time + rest), ' ') == Some(time + rest)
  {
    hide Padded;
    var x := Sep(on, ':') + (Padded(t.minute, 2) + (Sep(on, ':') + Padded(t.second, 2)));
    assert Text3(t.hour, 2, t.minute, t.second, ':', on) + rest == Padded(t.hour, 2) + (x + rest);
    SepSkipped(on, ' ', t.hour, x + rest);
  }

  lemma FieldsUndoPrintIff(t: Stamp, on: bool, rest: string)
    requires !t.now
    ensures Parse(Text(t, on) + rest) == Some((t, rest)) <==> t.InWidth()
  {
    hide Text, Text3, Parse3, Sep, SkipSep, Pow10;
    Pow10Values();
    PartsOfText(t, on, rest);
    BlankSkipped(t, on, rest);
    var time := Text3(t.hour, 2, t.minute, t.second, ':', on) + rest;
    Parse3Iff(t.year, 4, 0x1_0000, t.month, t.day, '-', on, Sep(on, ' ') + time);
    Parse3Iff(t.hour, 2, 0x100, t.minute, t.second, ':', on, rest);
  }

  lemma ParsedIsNotNow(s: string)
    ensures Parse(s).Some? ==> !Parse(s).value.0.now
  {
    hide Parse3, SkipSep;
  }

  /** Parsing undoes printing, with separators and without, exactly for a value other than NOW() whose
      year is at most 9999 and whose other fields are at most 99; what follows the text is left over. */
  lemma ParseUndoesPrintIff(t: Stamp, on: bool, rest: string)
    ensures Parse(Text(t, on) + rest) == Some((t, rest)) <==> !t.now && t.InWidth()
  {
    hide Text, Parse;
    ParsedIsNotNow(Text(t, on) + rest);
    if !t.now {
      FieldsUndoPrintIff(t, on, rest);
    }
  }

  /** The text of NOW() cannot be read back: its terminator is passed in the second field. */
  lemma NowIsNotRead()
    ensures Parse(Text(NOW, true) + "\0") == None
  {
    var s := "NOW()" + "\0";
    assert TakeField(s, 4).value.1 == ")\0";
    assert NextField(")\0", '-').value.1 == "";
  }

  /** The same for a date or a time alone. */
  lemma DateAndTimeAlone(t: Stamp, on: bool, rest: string)
    ensures ParseDate(DateText(t, on) + rest) == Some(Three(t.year, t.month, t.day, rest))
            <==> t.year <= 9999 && t.month <= 99 && t.day <= 99
    ensures ParseTime(TimeText(t, on) + rest) == Some(Three(t.hour, t.minute, t.second, rest))
            <==> t.hour <= 99 && t.minute <= 99 && t.second <= 99
  {
    hide Padded, Sep, Parse3, Pow10;
    Pow10Values();
    Parse3Iff(t.year, 4, 0x1_0000, t.month, t.day, '-', on, rest);
    Parse3Iff(t.hour, 2, 0x100, t.minute, t.second, ':', on, rest);
  }

  // ----- strtol -----

  /** Blanks in front are skipped, a sign counts, and what follows the digits is not looked at. */
  lemma {:induction false} StrtolReads(blanks: string, sign: string, n: nat, w: nat, rest: string)
    requires (forall i :: 0 <= i < |blanks| ==> IsBlank(blanks[i])) && sign in {"", "+", "-"}
    requires w >= 1 && n < Pow10(w) && (rest == "" || !IsDecimalDigit(rest[0]))
    ensures var v: int := n; Strtol(blanks + (sign + (Fixed(n, w) + rest))) == if sign == "-" then -v else v
    decreases |blanks|
  {
    hide Fixed;
    var s := sign + (Fixed(n, w) + rest);
    DigitsOfFixed(n, w);
    DigitsStop(Fixed(n, w), rest, 0);
    if blanks == "" {
      assert blanks + s == s;
      if sign == "" {
        assert s == Fixed(n, w) + rest && IsDecimalDigit(s[0]);
      } else {
        assert s[1..] == Fixed(n, w) + rest;
      }
    } else {
      assert (blanks + s)[1..] == blanks[1..] + s;
      StrtolReads(blanks[1..], sign, n, w, rest);
    }
  }

  lemma {:induction false} DigitsStop(s: string, rest: string, acc: nat)
    requires AllDigits(s) && (rest == "" || !IsDecimalDigit(rest[0]))
    ensures Digits(s + rest, acc) == Digits(s, acc)
    decreases |s|
  {
    if s == "" {
      assert s + rest == rest;
    } else {
      assert (s + rest)[1..] == s[1..] + rest;
      DigitsStop(s[1..], rest, 10 * acc + ValueOf(s[0]));
    }
  }

  /** A sign is taken for a character of the field, and the cast makes a large number of a negative one. */
  lemma NegativeField(n: nat, sep: char, rest: string)
    requires n < 10
    ensures NextField([sep] + (['-', Digit(n)] + rest), sep) == Some((if n == 0 then 0 else 0x100 - n, rest))
  {
    OneDigit(n);
    assert Pow10(1) == 10 by { assert Pow10(0) == 1; }
    hide Fixed, Strtol, Pow10, IsDecimalDigit, IsBlank, Digit;
    StrtolReads("", "-", n, 1, "");
    var t := ['-', Digit(n)] + rest;
    assert ([sep] + t)[1..] == t;
    assert t[2..] == rest && t[..2] == "" + ("-" + (Fixed(n, 1) + ""));
  }

  lemma OneDigit(n: nat)
    requires n < 10
    ensures Fixed(n, 1) == [Digit(n)]
  {
    assert Fixed(n / 10, 0) == "";
  }

  /** Without digits the number is zero, and a blank is one of the six that C knows. */
  lemma StrtolOfNone(s: string)
    requires s == "" || (!IsBlank(s[0]) && !IsDecimalDigit(s[0]) && s[0] != '-' && s[0] != '+')
    ensures Strtol(s) == 0
  {
  }

  lemma BlanksListed(c: char)
    ensures IsBlank(c) <==> c as int in {9, 10, 11, 12, 13, 32}
  {
  }

}
