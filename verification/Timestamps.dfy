/**
 Moments in UTC as the gateway prints them, in RFC 3339 with the shortest of no, three, six or nine
 fraction digits, and when comparing two such texts compares the moments.
 */
module Timestamps {
  import opened StringOrder

  datatype Stamp = Stamp(year: nat, month: nat, day: nat, hour: nat, minute: nat, second: nat, nanos: nat)

  // ---------------------------------------------------------------- numbers of fixed width

  function Pow10(w: nat): (p: nat)
    ensures p >= 1
  {
    if w == 0 then 1 else 10 * Pow10(w - 1)
  }

  function Digit(d: nat): char
    requires d < 10
  {
    ('0' as int + d) as char
  }

  predicate AllDigits(s: string)
  {
    forall i | 0 <= i < |s| :: '0' <= s[i] <= '9'
  }

  /** The last w decimal digits of a number, with leading zeros. */
  function Digits(n: nat, w: nat): (s: string)
    ensures |s| == w && AllDigits(s)
  {
    if w == 0 then [] else Digits(n / 10, w - 1) + [Digit(n % 10)]
  }

  /** After beginnings of equal length, the beginnings decide, and the rest only when they are the same. */
  lemma {:induction false} BeforeConcat(p: string, q: string, s: string, t: string)
    requires |p| == |q|
    ensures Before(p + s, q + t) <==> Before(p, q) || (p == q && Before(s, t))
    ensures p + s == q + t <==> p == q && s == t
  {
    if p == [] {
      assert p + s == s && q + t == t;
    } else {
      var p', q' := p[1..], q[1..];
      BeforeConcat(p', q', s, t);
      assert (p + s)[1..] == p' + s && (q + t)[1..] == q' + t;
      HeadDecides(p, q);
      HeadDecides(p + s, q + t);
    }
  }

  lemma HeadDecides(a: string, b: string)
    requires a != [] && b != []
    ensures Before(a, b) <==> a[0] < b[0] || (a[0] == b[0] && Before(a[1..], b[1..]))
    ensures a == b <==> a[0] == b[0] && a[1..] == b[1..]
  {
    assert a == [a[0]] + a[1..] && b == [b[0]] + b[1..];
  }

  /** Numbers of one width are ordered as their digits are. */
  lemma {:induction false} DigitsOrder(n: nat, m: nat, w: nat)
    requires n < Pow10(w) && m < Pow10(w)
    ensures Before(Digits(n, w), Digits(m, w)) <==> n < m
    ensures Digits(n, w) == Digits(m, w) <==> n == m
  {
    if w > 0 {
      DigitsOrder(n / 10, m / 10, w - 1);
      BeforeConcat(Digits(n / 10, w - 1), Digits(m / 10, w - 1), [Digit(n % 10)], [Digit(m % 10)]);
      HeadDecides([Digit(n % 10)], [Digit(m % 10)]);
    }
  }

  function Zeros(j: nat): (s: string)
    ensures |s| == j && forall i | 0 <= i < j :: s[i] == '0'
  {
    seq(j, _ => '0')
  }

  /** Whole multiples end in zeros. */
  lemma {:induction false} DigitsOfMultiple(a: nat, w: nat, j: nat)
    ensures Digits(a * Pow10(j), w + j) == Digits(a, w) + Zeros(j)
  {
    if j > 0 {
      var n := a * Pow10(j);
      MultipleOfTen(a, j);
      DigitsOfMultiple(a, w, j - 1);
      assert Zeros(j) == Zeros(j - 1) + ['0'];
    }
  }

  lemma MultipleOfTen(a: nat, j: nat)
    requires j > 0
    ensures a * Pow10(j) / 10 == a * Pow10(j - 1) && a * Pow10(j) % 10 == 0
  {
    assert a * Pow10(j) == 10 * (a * Pow10(j - 1));
  }

  lemma {:induction false} ZerosLeast(r: string)
    requires AllDigits(r)
    ensures !Before(r, Zeros(|r|))
  {
    if r != [] {
      ZerosLeast(r[1..]);
      HeadDecides(r, Zeros(|r|));
      assert Zeros(|r|)[1..] == Zeros(|r| - 1);
    }
  }

  // ---------------------------------------------------------------- the fraction of a second

  const SECOND: nat := 1_000_000_000

  function Precision(nanos: nat): nat
  {
    if nanos == 0 then 0 else if nanos % 1_000_000 == 0 then 3 else if nanos % 1_000 == 0 then 6 else 9
  }

  function Fraction(nanos: nat): (x: string)
    ensures |x| == Precision(nanos) && AllDigits(x)
  {
    match Precision(nanos)
    case 0 => ""
    case 3 => Digits(nanos / 1_000_000, 3)
    case 6 => Digits(nanos / 1_000, 6)
    case _ => Digits(nanos, 9)
  }

  /** What follows the seconds. */
  function Tail(nanos: nat): string
  {
    if nanos == 0 then "Z" else "." + Fraction(nanos) + "Z"
  }

  /** One fraction is printed with fewer digits than the other, and these begin the other. */
  predicate CutShort(n: nat, m: nat)
  {
    Precision(n) < Precision(m) && Fraction(n) == Fraction(m)[..Precision(n)]
  }

  lemma Powers()
    ensures Pow10(3) == 1_000 && Pow10(6) == 1_000_000 && Pow10(9) == SECOND
  {
    assert Pow10(1) == 10 && Pow10(2) == 100 && Pow10(3) == 1_000;
    assert Pow10(4) == 10_000 && Pow10(5) == 100_000 && Pow10(6) == 1_000_000;
    assert Pow10(7) == 10_000_000 && Pow10(8) == 100_000_000;
  }

  lemma WholeUnits(n: nat, unit: nat)
    requires unit > 0 && n % unit == 0
    ensures n / unit * unit == n
  {
  }

  /** A number of whole units, printed with the digits that units leave. */
  lemma FilledUnits(n: nat, w: nat, j: nat)
    requires n % Pow10(j) == 0
    ensures Digits(n, w + j) == Digits(n / Pow10(j), w) + Zeros(j)
  {
    WholeUnits(n, Pow10(j));
    DigitsOfMultiple(n / Pow10(j), w, j);
  }

  /** Filled up with zeros, the fraction is the number of nanoseconds. */
  lemma FractionFilled(nanos: nat)
    ensures Digits(nanos, 9) == Filled(nanos)
  {
    Powers();
    match Precision(nanos) {
      case 0 => FilledUnits(0, 0, 9);
      case 3 => FilledUnits(nanos, 3, 6);
      case 6 => FilledUnits(nanos, 6, 3);
      case _ => assert Zeros(0) == [];
    }
  }

  function Filled(nanos: nat): string
  {
    Fraction(nanos) + Zeros(9 - Precision(nanos))
  }

  /** What follows the first k digits of the filled-up fraction. */
  function Rest(nanos: nat, k: nat): (s: string)
    requires k <= Precision(nanos)
    ensures |s| == 9 - k && AllDigits(s)
  {
    Fraction(nanos)[k..] + Zeros(9 - Precision(nanos))
  }

  lemma FilledSplit(nanos: nat, k: nat)
    requires k <= Precision(nanos)
    ensures Filled(nanos) == Fraction(nanos)[..k] + Rest(nanos, k)
  {
    var y := Fraction(nanos);
    assert y == y[..k] + y[k..];
  }

  /** The nanoseconds compare as the filled-up fractions do. */
  lemma NanosOrder(n: nat, m: nat)
    requires n < SECOND && m < SECOND
    ensures n < m <==> Before(Filled(n), Filled(m))
  {
    Powers();
    DigitsOrder(n, m, 9);
    FractionFilled(n);
    FractionFilled(m);
  }

  lemma TailSplit(m: nat, k: nat)
    requires 0 < k <= Precision(m)
    ensures Tail(m) == ("." + Fraction(m)[..k]) + (Fraction(m)[k..] + "Z")
  {
    var y := Fraction(m);
    assert y == y[..k] + y[k..];
  }

  lemma DotBeforeZ(s: string)
    ensures Before("." + s, "Z") && !Before("Z", "." + s)
  {
    HeadDecides("." + s, "Z");
    HeadDecides("Z", "." + s);
  }

  lemma DigitBeforeZ(s: string)
    requires s != [] && AllDigits(s)
    ensures Before(s + "Z", "Z") && !Before("Z", s + "Z")
  {
    HeadDecides(s + "Z", "Z");
    HeadDecides("Z", s + "Z");
  }

  /** A cut-short fraction is the earlier moment and the later text. */
  lemma CutShortReverses(n: nat, m: nat)
    requires n < SECOND && m < SECOND && CutShort(n, m)
    ensures n < m && Before(Tail(m), Tail(n)) && !Before(Tail(n), Tail(m))
  {
    CutShortIsEarlier(n, m);
    var x, y, k := Fraction(n), Fraction(m), Precision(n);
    if k == 0 {
      DotBeforeZ(y + "Z");
      assert Tail(m) == "." + (y + "Z");
    } else {
      TailSplit(m, k);
      DigitBeforeZ(y[k..]);
      BeforeConcat("." + x, "." + x, "Z", y[k..] + "Z");
      BeforeConcat("." + x, "." + x, y[k..] + "Z", "Z");
      BeforeIrreflexiveTotal("." + x, "." + x);
    }
  }

  lemma CutShortIsEarlier(n: nat, m: nat)
    requires n < SECOND && m < SECOND && CutShort(n, m)
    ensures n < m
  {
    var x, y, k := Fraction(n), Fraction(m), Precision(n);
    NanosOrder(m, n);
    FilledSplit(m, k);
    BeforeConcat(x, x, Rest(m, k), Zeros(9 - k));
    ZerosLeast(Rest(m, k));
    BeforeIrreflexiveTotal(x, x);
  }

  /** Fractions of one precision compare as texts. */
  lemma SamePrecision(n: nat, m: nat)
    requires n < SECOND && m < SECOND && Precision(n) == Precision(m)
    ensures Before(Tail(n), Tail(m)) <==> n < m
  {
    var x, y, z := Fraction(n), Fraction(m), Zeros(9 - Precision(n));
    NanosOrder(n, m);
    BeforeConcat(x, y, z, z);
    BeforeIrreflexiveTotal(z, z);
    BeforeIrreflexiveTotal("Z", "Z");
    if Precision(n) > 0 {
      BeforeConcat("." + x, "." + y, "Z", "Z");
      BeforeAfterPrefix(".", x, y);
    }
  }

  /** So do fractions of different precision that differ within the shorter one. */
  lemma DifferentPrecision(n: nat, m: nat)
    requires n < SECOND && m < SECOND && Precision(n) < Precision(m) && !CutShort(n, m)
    ensures Before(Tail(n), Tail(m)) <==> n < m
    ensures Before(Tail(m), Tail(n)) <==> m < n
  {
    var x, y, k := Fraction(n), Fraction(m), Precision(n);
    var y1 := y[..k];
    assert k > 0;
    NanosOrder(n, m);
    NanosOrder(m, n);
    FilledSplit(m, k);
    BeforeConcat(x, y1, Zeros(9 - k), Rest(m, k));
    BeforeConcat(y1, x, Rest(m, k), Zeros(9 - k));
    DifferentTails(n, m);
  }

  lemma DifferentTails(n: nat, m: nat)
    requires 0 < Precision(n) < Precision(m) && !CutShort(n, m)
    ensures Before(Tail(n), Tail(m)) <==> Before(Fraction(n), Fraction(m)[..Precision(n)])
    ensures Before(Tail(m), Tail(n)) <==> Before(Fraction(m)[..Precision(n)], Fraction(n))
  {
    var x, y, k := Fraction(n), Fraction(m), Precision(n);
    var y1 := y[..k];
    TailSplit(m, k);
    assert Tail(n) == ("." + x) + "Z";
    assert ("." + x)[1..] == x && ("." + y1)[1..] == y1;
    BeforeConcat("." + x, "." + y1, "Z", y[k..] + "Z");
    BeforeConcat("." + y1, "." + x, y[k..] + "Z", "Z");
    BeforeAfterPrefix(".", x, y1);
    BeforeAfterPrefix(".", y1, x);
  }

  lemma TailOrderIff(n: nat, m: nat)
    requires n < SECOND && m < SECOND
    ensures (Before(Tail(n), Tail(m)) <==> n < m) <==> !CutShort(n, m) && !CutShort(m, n)
  {
    if CutShort(n, m) {
      CutShortReverses(n, m);
    } else if CutShort(m, n) {
      CutShortReverses(m, n);
    } else if Precision(n) == Precision(m) {
      SamePrecision(n, m);
    } else if Precision(n) < Precision(m) {
      DifferentPrecision(n, m);
    } else {
      DifferentPrecision(m, n);
    }
  }

  // ---------------------------------------------------------------- whole timestamps

  datatype Field = Field(width: nat, after: string)

  const FORMAT: seq<Field> := [Field(4, "-"), Field(2, "-"), Field(2, "T"), Field(2, ":"), Field(2, ":"), Field(2, "")]

  function Fields(s: Stamp): seq<nat>
  {
    [s.year, s.month, s.day, s.hour, s.minute, s.second]
  }

  predicate Fit(vs: seq<nat>, format: seq<Field>)
  {
    |vs| == |format| && forall i | 0 <= i < |vs| :: vs[i] < Pow10(format[i].width)
  }

  function FieldsText(vs: seq<nat>, format: seq<Field>): string
    requires |vs| == |format|
  {
    if vs == [] then "" else Digits(vs[0], format[0].width) + (format[0].after + FieldsText(vs[1..], format[1..]))
  }

  predicate FieldsEarlier(vs: seq<nat>, us: seq<nat>)
    requires |vs| == |us|
  {
    vs != [] && (vs[0] < us[0] || (vs[0] == us[0] && FieldsEarlier(vs[1..], us[1..])))
  }

  lemma FieldDecides(v: nat, u: nat, w: nat, after: string, s: string, t: string)
    requires v < Pow10(w) && u < Pow10(w)
    ensures var a, b := Digits(v, w) + (after + s), Digits(u, w) + (after + t);
            && (Before(a, b) <==> v < u || (v == u && Before(s, t)))
            && (a == b <==> v == u && s == t)
  {
    DigitsOrder(v, u, w);
    BeforeConcat(after, after, s, t);
    BeforeIrreflexiveTotal(after, after);
    BeforeConcat(Digits(v, w), Digits(u, w), after + s, after + t);
  }

  lemma FitRest(vs: seq<nat>, format: seq<Field>)
    requires Fit(vs, format) && vs != []
    ensures Fit(vs[1..], format[1..])
  {
  }

  /** Fields of fixed widths compare as their texts do. */
  lemma {:induction false} FieldsOrder(vs: seq<nat>, us: seq<nat>, format: seq<Field>)
    requires Fit(vs, format) && Fit(us, format)
    ensures |FieldsText(vs, format)| == |FieldsText(us, format)|
    ensures Before(FieldsText(vs, format), FieldsText(us, format)) <==> FieldsEarlier(vs, us)
    ensures FieldsText(vs, format) == FieldsText(us, format) <==> vs == us
  {
    if vs != [] {
      var v', u', f' := vs[1..], us[1..], format[1..];
      FitRest(vs, format);
      FitRest(us, format);
      FieldsOrder(v', u', f');
      FieldDecides(vs[0], us[0], format[0].width, format[0].after, FieldsText(v', f'), FieldsText(u', f'));
      assert vs == [vs[0]] + v' && us == [us[0]] + u';
    }
  }

  /** A year of four digits and so on; a leap second has the number 60. */
  predicate InRange(s: Stamp)
  {
    && s.year < 10_000 && s.month < 100 && s.day < 100 && s.hour < 100 && s.minute < 100 && s.second < 100
    && s.nanos < SECOND
  }

  lemma RangeFits(s: Stamp)
    requires InRange(s)
    ensures Fit(Fields(s), FORMAT)
  {
    assert Pow10(1) == 10 && Pow10(2) == 100 && Pow10(3) == 1_000 && Pow10(4) == 10_000;
  }

  function Text(s: Stamp): string
  {
    FieldsText(Fields(s), FORMAT) + Tail(s.nanos)
  }

  /** Time order. */
  predicate Earlier(a: Stamp, b: Stamp)
  {
    FieldsEarlier(Fields(a), Fields(b)) || (Fields(a) == Fields(b) && a.nanos < b.nanos)
  }

  /** Two moments of one second, the first printed with a fraction that begins the second's. */
  predicate CutsShort(a: Stamp, b: Stamp)
  {
    Fields(a) == Fields(b) && CutShort(a.nanos, b.nanos)
  }

  lemma TextOrder(a: Stamp, b: Stamp)
    requires InRange(a) && InRange(b)
    ensures Before(Text(a), Text(b)) <==>
            FieldsEarlier(Fields(a), Fields(b)) || (Fields(a) == Fields(b) && Before(Tail(a.nanos), Tail(b.nanos)))
  {
    RangeFits(a);
    RangeFits(b);
    FieldsOrder(Fields(a), Fields(b), FORMAT);
    BeforeConcat(FieldsText(Fields(a), FORMAT), FieldsText(Fields(b), FORMAT), Tail(a.nanos), Tail(b.nanos));
  }

  lemma {:induction false} FieldsIrreflexive(vs: seq<nat>)
    ensures !FieldsEarlier(vs, vs)
  {
    if vs != [] {
      FieldsIrreflexive(vs[1..]);
    }
  }

  lemma {:induction false} FieldsTotal(vs: seq<nat>, us: seq<nat>)
    requires |vs| == |us|
    ensures vs == us || FieldsEarlier(vs, us) || FieldsEarlier(us, vs)
  {
    if vs != [] {
      FieldsTotal(vs[1..], us[1..]);
      assert vs == [vs[0]] + vs[1..] && us == [us[0]] + us[1..];
    }
  }

  lemma EarlierTotal(a: Stamp, b: Stamp)
    ensures a == b || Earlier(a, b) || Earlier(b, a)
  {
    FieldsTotal(Fields(a), Fields(b));
    if Fields(a) == Fields(b) {
      SameFields(a, b);
    }
  }

  lemma SameFields(a: Stamp, b: Stamp)
    requires Fields(a) == Fields(b)
    ensures a == b.(nanos := a.nanos)
  {
    assert Fields(a)[0] == Fields(b)[0] && Fields(a)[1] == Fields(b)[1] && Fields(a)[2] == Fields(b)[2];
    assert Fields(a)[3] == Fields(b)[3] && Fields(a)[4] == Fields(b)[4] && Fields(a)[5] == Fields(b)[5];
  }

  /**
   Comparing two texts compares the moments if and only if it is not the case that both lie in one
   second and one of the fractions, possibly none at all, is a proper beginning of the other.
   */
  lemma TextOrderIsTimeOrderIff(a: Stamp, b: Stamp)
    requires InRange(a) && InRange(b)
    ensures (Before(Text(a), Text(b)) <==> Earlier(a, b)) <==> !CutsShort(a, b) && !CutsShort(b, a)
  {
    TextOrder(a, b);
    TailOrderIff(a.nanos, b.nanos);
    FieldsIrreflexive(Fields(a));
  }

  /** In that case the earlier moment has the later text. */
  lemma CutsShortReverses(a: Stamp, b: Stamp)
    requires InRange(a) && InRange(b) && CutsShort(a, b)
    ensures Earlier(a, b) && Before(Text(b), Text(a))
  {
    CutShortReverses(a.nanos, b.nanos);
    TextOrder(b, a);
  }

  // ---------------------------------------------------------------- the text, written out

  /** What the digits of a fixed-width number say. */
  function NumberOf(s: string): int
  {
    if s == [] then 0 else 10 * NumberOf(s[..|s| - 1]) + (s[|s| - 1] as int - '0' as int)
  }

  lemma {:induction false} DigitsAre(n: nat, w: nat)
    requires n < Pow10(w)
    ensures NumberOf(Digits(n, w)) == n
  {
    if w > 0 {
      DigitsAre(n / 10, w - 1);
      var s := Digits(n, w);
      assert s[..|s| - 1] == Digits(n / 10, w - 1);
    }
  }

  lemma FieldsTextCons(v: nat, vs: seq<nat>, f: Field, format: seq<Field>)
    requires |vs| == |format|
    ensures FieldsText([v] + vs, [f] + format) == Digits(v, f.width) + (f.after + FieldsText(vs, format))
  {
    assert ([v] + vs)[1..] == vs && ([f] + format)[1..] == format;
  }

  /** How the time of day is written: two digits each, with colons between. */
  lemma TimeText(hour: nat, minute: nat, second: nat)
    ensures FieldsText([hour, minute, second], [Field(2, ":"), Field(2, ":"), Field(2, "")])
            == Digits(hour, 2) + (":" + (Digits(minute, 2) + (":" + Digits(second, 2))))
  {
    FieldsTextCons(second, [], Field(2, ""), []);
    assert Digits(second, 2) + ("" + "") == Digits(second, 2);
    assert [second] == [second] + [] && [Field(2, "")] == [Field(2, "")] + [];
    FieldsTextCons(minute, [second], Field(2, ":"), [Field(2, "")]);
    assert [minute, second] == [minute] + [second] && [Field(2, ":"), Field(2, "")] == [Field(2, ":")] + [Field(2, "")];
    FieldsTextCons(hour, [minute, second], Field(2, ":"), [Field(2, ":"), Field(2, "")]);
    assert [hour, minute, second] == [hour] + [minute, second];
  }

  /** How a date is written, in front of a time of day. */
  lemma DateText(year: nat, month: nat, day: nat, vs: seq<nat>, f: seq<Field>)
    requires |vs| == |f|
    ensures FieldsText([year] + ([month] + ([day] + vs)), [Field(4, "-")] + ([Field(2, "-")] + ([Field(2, "T")] + f)))
            == Digits(year, 4) + ("-" + (Digits(month, 2) + ("-" + (Digits(day, 2) + ("T" + FieldsText(vs, f))))))
  {
    FieldsTextCons(day, vs, Field(2, "T"), f);
    FieldsTextCons(month, [day] + vs, Field(2, "-"), [Field(2, "T")] + f);
    FieldsTextCons(year, [month] + ([day] + vs), Field(4, "-"), [Field(2, "-")] + ([Field(2, "T")] + f));
  }

  lemma FieldsSplit(s: Stamp)
    ensures Fields(s) == [s.year] + ([s.month] + ([s.day] + [s.hour, s.minute, s.second]))
    ensures FORMAT == [Field(4, "-")] + ([Field(2, "-")] + ([Field(2, "T")] + [Field(2, ":"), Field(2, ":"), Field(2, "")]))
  {
  }

  /** How a moment is written: date, `T`, time of day, and what follows the seconds. */
  lemma TextIs(s: Stamp)
    ensures var time := Digits(s.hour, 2) + (":" + (Digits(s.minute, 2) + (":" + Digits(s.second, 2))));
            var date := Digits(s.year, 4) + ("-" + (Digits(s.month, 2) + ("-" + (Digits(s.day, 2) + ("T" + time)))));
            Text(s) == date + Tail(s.nanos)
  {
    TimeText(s.hour, s.minute, s.second);
    DateText(s.year, s.month, s.day, [s.hour, s.minute, s.second], [Field(2, ":"), Field(2, ":"), Field(2, "")]);
    FieldsSplit(s);
  }

  /** The fraction has the fewest of three, six and nine digits that lose nothing. */
  lemma FractionIs(nanos: nat)
    requires 0 < nanos < SECOND
    ensures Tail(nanos) == "." + Fraction(nanos) + "Z" && Tail(0) == "Z"
    ensures |Fraction(nanos)| == (if nanos % 1_000_000 == 0 then 3 else if nanos % 1_000 == 0 then 6 else 9)
    ensures NumberOf(Fraction(nanos)) * Pow10(9 - |Fraction(nanos)|) == nanos
  {
    Powers();
    assert Pow10(0) == 1;
    match Precision(nanos) {
      case 3 => DigitsAre(nanos / 1_000_000, 3); WholeUnits(nanos, 1_000_000);
      case 6 => DigitsAre(nanos / 1_000, 6); WholeUnits(nanos, 1_000);
      case _ => DigitsAre(nanos, 9);
    }
  }
}
