/** URL-safe base64 with padding (section 5 of RFC 4648). */
module Base64 {
  import opened Wrappers
  import opened Digits

  function CharOf(d: nat): char
    requires d < 64
  {
    if d < 26 then 'A' + d as char
    else if d < 52 then 'a' + (d - 26) as char
    else if d < 62 then '0' + (d - 52) as char
    else if d == 62 then '-'
    else '_'
  }

  function ValueOf(c: char): Option<nat> {
    if 'A' <= c <= 'Z' then Some(c as nat - 'A' as nat)
    else if 'a' <= c <= 'z' then Some(c as nat - 'a' as nat + 26)
    else if '0' <= c <= '9' then Some(c as nat - '0' as nat + 52)
    else if c == '-' then Some(62)
    else if c == '_' then Some(63)
    else None
  }

  /** Two numbers side by side, `low` below `base`. */
  function Join(high: nat, base: nat, low: nat): nat {
    high * base + low
  }

  /** Three bytes as four six-bit numbers. */
  function Sextets(a: nat, b: nat, c: nat): (q: seq<nat>)
    requires a < 256 && b < 256 && c < 256
    ensures |q| == 4 && AreDigits(64, q)
  {
    [a / 4, Join(a % 4, 16, b / 16), Join(b % 16, 4, c / 64), c % 64]
  }

  /** Three bytes as four characters. */
  function Quad(a: nat, b: nat, c: nat): (q: string)
    requires a < 256 && b < 256 && c < 256
    ensures |q| == 4
  {
    var s := Sextets(a, b, c);
    [CharOf(s[0]), CharOf(s[1]), CharOf(s[2]), CharOf(s[3])]
  }

  function Encode(bs: seq<nat>): string
    requires AreDigits(256, bs)
  {
    if bs == [] then ""
    else if |bs| == 1 then Quad(bs[0], 0, 0)[..2] + "=="
    else if |bs| == 2 then Quad(bs[0], bs[1], 0)[..3] + "="
    else Quad(bs[0], bs[1], bs[2]) + Encode(bs[3..])
  }

  function Octets(w: nat, x: nat, y: nat, z: nat): seq<nat> {
    [Join(w, 4, x / 16), Join(x % 16, 16, y / 4), Join(y % 4, 64, z)]
  }

  /** Four characters as three bytes. */
  function Triple(q: string): Option<seq<nat>>
    requires |q| == 4
  {
    var w, x, y, z := ValueOf(q[0]), ValueOf(q[1]), ValueOf(q[2]), ValueOf(q[3]);
    if w.Some? && x.Some? && y.Some? && z.Some? then
      Some(Octets(w.value, x.value, y.value, z.value))
    else None
  }

  /** Padding stands only at the very end. */
  function DecodeQuads(s: string): Option<seq<nat>> {
    if s == "" then Some([])
    else if |s| < 4 then None
    else if |s| == 4 && s[2] == '=' && s[3] == '=' then
      var t := Triple(s[..2] + "AA");
      if t.Some? then Some(t.value[..1]) else None
    else if |s| == 4 && s[3] == '=' then
      var t := Triple(s[..3] + "A");
      if t.Some? then Some(t.value[..2]) else None
    else
      var t, rest := Triple(s[..4]), DecodeQuads(s[4..]);
      if t.Some? && rest.Some? then Some(t.value + rest.value) else None
  }

  /** Line breaks are skipped. */
  function StripBreaks(s: string): string {
    if s == "" then ""
    else if s[0] == '\n' || s[0] == '\r' then StripBreaks(s[1..])
    else [s[0]] + StripBreaks(s[1..])
  }

  function Decode(s: string): Option<seq<nat>> {
    DecodeQuads(StripBreaks(s))
  }

  lemma CharRoundTrip(d: nat)
    requires d < 64
    ensures ValueOf(CharOf(d)) == Some(d)
    ensures CharOf(d) != '=' && CharOf(d) != '\n' && CharOf(d) != '\r'
  {
  }

  lemma OctetsOfSextets(a: nat, b: nat, c: nat)
    requires a < 256 && b < 256 && c < 256
    ensures var s := Sextets(a, b, c); Octets(s[0], s[1], s[2], s[3]) == [a, b, c]
  {
    var x, y := Join(a % 4, 16, b / 16), Join(b % 16, 4, c / 64);
    assert x / 16 == a % 4 && x % 16 == b / 16;
    assert y / 4 == b % 16 && y % 4 == c / 64;
    assert Join(a / 4, 4, a % 4) == a && Join(b / 16, 16, b % 16) == b && Join(c / 64, 64, c % 64) == c;
  }

  lemma TripleOfQuad(a: nat, b: nat, c: nat)
    requires a < 256 && b < 256 && c < 256
    ensures Triple(Quad(a, b, c)) == Some([a, b, c])
    ensures forall i :: 0 <= i < 4 ==> Quad(a, b, c)[i] != '=' && Quad(a, b, c)[i] != '\n' && Quad(a, b, c)[i] != '\r'
  {
    hide Sextets, Octets, CharOf, ValueOf;
    var s := Sextets(a, b, c);
    CharRoundTrip(s[0]);
    CharRoundTrip(s[1]);
    CharRoundTrip(s[2]);
    CharRoundTrip(s[3]);
    OctetsOfSextets(a, b, c);
  }

  predicate Unbroken(s: string) {
    forall i :: 0 <= i < |s| ==> s[i] != '\n' && s[i] != '\r'
  }

  lemma {:induction false} NothingToStrip(s: string)
    requires Unbroken(s)
    ensures StripBreaks(s) == s
  {
    if s != "" {
      NothingToStrip(s[1..]);
    }
  }

  lemma {:induction false} EncodeUnbroken(bs: seq<nat>)
    requires AreDigits(256, bs)
    ensures Unbroken(Encode(bs)) && (bs != [] ==> Encode(bs) != "")
  {
    if |bs| == 1 {
      TripleOfQuad(bs[0], 0, 0);
    } else if |bs| == 2 {
      TripleOfQuad(bs[0], bs[1], 0);
    } else if |bs| >= 3 {
      TripleOfQuad(bs[0], bs[1], bs[2]);
      EncodeUnbroken(bs[3..]);
    }
  }

  /** A single byte leaves its last two six-bit numbers at zero, two bytes the last. */
  lemma ShortQuads(a: nat, b: nat)
    requires a < 256 && b < 256
    ensures Quad(a, 0, 0)[2] == 'A' && Quad(a, 0, 0)[3] == 'A' && Quad(a, b, 0)[3] == 'A'
  {
  }

  lemma OneByte(a: nat)
    requires a < 256
    ensures DecodeQuads(Quad(a, 0, 0)[..2] + "==") == Some([a])
  {
    hide Quad, Triple;
    var q := Quad(a, 0, 0);
    var s := q[..2] + "==";
    TripleOfQuad(a, 0, 0);
    ShortQuads(a, 0);
    assert s[..2] + "AA" == q;
    assert [a, 0, 0][..1] == [a];
  }

  lemma TwoBytes(a: nat, b: nat)
    requires a < 256 && b < 256
    ensures DecodeQuads(Quad(a, b, 0)[..3] + "=") == Some([a, b])
  {
    hide Quad, Triple;
    var q := Quad(a, b, 0);
    var s := q[..3] + "=";
    TripleOfQuad(a, b, 0);
    ShortQuads(a, b);
    assert s[2] == q[2] && s[..3] + "A" == q;
    assert [a, b, 0][..2] == [a, b];
  }

  lemma {:induction false} QuadsRoundTrip(bs: seq<nat>)
    requires AreDigits(256, bs)
    ensures DecodeQuads(Encode(bs)) == Some(bs)
  {
    hide Quad, Triple;
    if |bs| == 1 {
      OneByte(bs[0]);
      assert bs == [bs[0]];
    } else if |bs| == 2 {
      TwoBytes(bs[0], bs[1]);
      assert bs == [bs[0], bs[1]];
    } else if |bs| >= 3 {
      var q := Quad(bs[0], bs[1], bs[2]);
      TripleOfQuad(bs[0], bs[1], bs[2]);
      QuadsRoundTrip(bs[3..]);
      LongQuad(q, Encode(bs[3..]));
      assert bs == [bs[0], bs[1], bs[2]] + bs[3..];
    }
  }

  lemma LongQuad(q: string, rest: string)
    requires |q| == 4 && q[3] != '='
    ensures DecodeQuads(q + rest)
         == if Triple(q).Some? && DecodeQuads(rest).Some? then Some(Triple(q).value + DecodeQuads(rest).value) else None
  {
    var s := q + rest;
    assert s[..4] == q && s[4..] == rest && s[3] == q[3];
  }

  /** Decoding what was encoded gives the bytes. */
  lemma RoundTrip(bs: seq<nat>)
    requires AreDigits(256, bs)
    ensures Decode(Encode(bs)) == Some(bs)
  {
    EncodeUnbroken(bs);
    NothingToStrip(Encode(bs));
    QuadsRoundTrip(bs);
  }
}

/** Timestamps as text (section 5.6 of RFC 3339), with up to nine fractional digits and no
    trailing zeros. */
module Timestamps {
  import opened Wrappers
  import opened Digits

  /** Civil time with an offset from UTC in minutes. */
  datatype Timestamp = Timestamp(
    year: nat, month: nat, day: nat, hour: nat, minute: nat, second: nat, nano: nat, offset: int)

  function DaysIn(year: nat, month: nat): nat {
    if month == 2 then (if year % 4 == 0 && (year % 100 != 0 || year % 400 == 0) then 29 else 28)
    else if month == 4 || month == 6 || month == 9 || month == 11 then 30
    else 31
  }

  predicate Valid(t: Timestamp) {
    && t.year < 10000 && 1 <= t.month <= 12 && 1 <= t.day <= DaysIn(t.year, t.month)
    && t.hour < 24 && t.minute < 60 && t.second < 60 && t.nano < 1_000_000_000
    && -1440 < t.offset < 1440
  }

  /** Days in the years before this one, and in the months of this year before this one. */
  function DaysBeforeYear(year: nat): nat {
    if year == 0 then 0 else DaysBeforeYear(year - 1) + if DaysIn(year - 1, 2) == 29 then 366 else 365
  }

  function DaysBeforeMonth(year: nat, month: nat): nat {
    if month <= 1 then 0 else DaysBeforeMonth(year, month - 1) + DaysIn(year, month - 1)
  }

  /** The moment a civil time names, in nanoseconds. */
  function Instant(t: Timestamp): int {
    var days := DaysBeforeYear(t.year) + DaysBeforeMonth(t.year, t.month) + t.day - 1;
    var minutes := days * 1440 + t.hour * 60 + t.minute - t.offset;
    (minutes * 60 + t.second) * 1_000_000_000 + t.nano
  }

  function DigitChars(ds: seq<nat>): (s: string)
    requires AreDigits(10, ds)
    ensures |s| == |ds| && forall i :: 0 <= i < |s| ==> s[i] == '0' + ds[i] as char
  {
    seq(|ds|, i requires 0 <= i < |ds| => '0' + ds[i] as char)
  }

  function Decimal(n: nat, w: nat): (s: string)
    ensures |s| == w && forall i :: 0 <= i < w ==> IsDigit(s[i])
  {
    DigitChars(ToDigits(10, n, w))
  }

  predicate IsDigit(c: char) {
    '0' <= c <= '9'
  }

  function DigitValue(c: char): (d: nat)
    requires IsDigit(c)
    ensures d < 10
  {
    c as nat - '0' as nat
  }

  function DigitValues(s: string): (ds: seq<nat>)
    requires forall i :: 0 <= i < |s| ==> IsDigit(s[i])
    ensures |ds| == |s| && AreDigits(10, ds) && forall i :: 0 <= i < |s| ==> ds[i] == DigitValue(s[i])
  {
    seq(|s|, i requires 0 <= i < |s| => DigitValue(s[i]))
  }

  function ParseDecimal(s: string): Option<nat> {
    if forall i :: 0 <= i < |s| ==> IsDigit(s[i]) then Some(FromDigits(10, DigitValues(s))) else None
  }

  lemma DecimalRoundTrip(n: nat, w: nat)
    requires n < Pow(10, w)
    ensures ParseDecimal(Decimal(n, w)) == Some(n)
  {
    assert DigitValues(Decimal(n, w)) == ToDigits(10, n, w);
    FromTo(10, n, w);
  }

  function Trim(ds: seq<nat>): seq<nat> {
    if ds != [] && ds[|ds| - 1] == 0 then Trim(ds[..|ds| - 1]) else ds
  }

  function Zeros(n: nat): seq<nat> {
    seq(n, i => 0)
  }

  lemma {:induction false} TrimSpec(ds: seq<nat>)
    ensures |Trim(ds)| <= |ds| && Trim(ds) + Zeros(|ds| - |Trim(ds)|) == ds
    ensures AreDigits(10, ds) ==> AreDigits(10, Trim(ds))
  {
    if ds != [] && ds[|ds| - 1] == 0 {
      var init := ds[..|ds| - 1];
      TrimSpec(init);
      assert Zeros(|ds| - |Trim(ds)|) == Zeros(|init| - |Trim(init)|) + [0];
      assert ds == init + [0];
    }
  }

  /** A fraction of a second; nothing at all when it is zero. */
  function Fraction(nano: nat): string {
    if nano == 0 then "" else
      TrimSpec(ToDigits(10, nano, 9));
      "." + DigitChars(Trim(ToDigits(10, nano, 9)))
  }

  /** Digits after the point, read as nanoseconds; digits past the ninth are dropped. */
  function Scale(ds: seq<nat>): nat {
    FromDigits(10, if |ds| < 9 then ds + Zeros(9 - |ds|) else ds[..9])
  }

  function Zone(offset: int): string {
    var abs := if offset < 0 then -offset else offset;
    if offset == 0 then "Z" else (if offset < 0 then "-" else "+") + Decimal(abs / 60, 2) + ":" + Decimal(abs % 60, 2)
  }

  function ParseZone(s: string): Option<int> {
    if s == "Z" then Some(0)
    else if |s| == 6 && (s[0] == '+' || s[0] == '-') && s[3] == ':' then
      var h, m := ParseDecimal(s[1..3]), ParseDecimal(s[4..6]);
      if h.Some? && m.Some? && h.value < 24 && m.value < 60 then
        var abs := h.value * 60 + m.value;
        Some(if s[0] == '-' then -abs else abs)
      else None
    else None
  }

  function DigitRun(s: string): (n: nat)
    ensures n <= |s| && forall i :: 0 <= i < n ==> IsDigit(s[i])
  {
    if s != "" && IsDigit(s[0]) then 1 + DigitRun(s[1..]) else 0
  }

  /** Fraction and zone. */
  function ParseTail(s: string): Option<(nat, int)> {
    if s != "" && s[0] == '.' then
      var n := DigitRun(s[1..]);
      var zone := ParseZone(s[1 + n..]);
      if n > 0 && zone.Some? then Some((Scale(DigitValues(s[1..1 + n])), zone.value)) else None
    else
      var zone := ParseZone(s);
      if zone.Some? then Some((0, zone.value)) else None
  }

  /** Three numbers with one-character separators: `w`, two and two digits. */
  function Fields(x: nat, w: nat, y: nat, z: nat, sep: char): (s: string)
    ensures |s| == w + 6
  {
    Decimal(x, w) + [sep] + Decimal(y, 2) + [sep] + Decimal(z, 2)
  }

  function ParseFields(s: string, w: nat, sep: char): Option<(nat, nat, nat)> {
    if |s| == w + 6 && s[w] == sep && s[w + 3] == sep then
      var x, y, z := ParseDecimal(s[..w]), ParseDecimal(s[w + 1..w + 3]), ParseDecimal(s[w + 4..]);
      if x.Some? && y.Some? && z.Some? then Some((x.value, y.value, z.value)) else None
    else None
  }

  function Format(t: Timestamp): string {
    Fields(t.year, 4, t.month, t.day, '-') + "T" + Fields(t.hour, 2, t.minute, t.second, ':')
    + (Fraction(t.nano) + Zone(t.offset))
  }

  function Parse(s: string): Option<Timestamp> {
    if |s| < 20 || s[10] != 'T' then None else
      var date, clock, tail := ParseFields(s[..10], 4, '-'), ParseFields(s[11..19], 2, ':'), ParseTail(s[19..]);
      if date.Some? && clock.Some? && tail.Some? then
        var d, c := date.value, clock.value;
        var t := Timestamp(d.0, d.1, d.2, c.0, c.1, c.2, tail.value.0, tail.value.1);
        if Valid(t) then Some(t) else None
      else None
  }

  lemma Powers()
    ensures Pow(10, 2) == 100 && Pow(10, 4) == 10000 && Pow(10, 9) == 1_000_000_000
  {
    assert Pow(10, 1) == 10 && Pow(10, 2) == 100 && Pow(10, 3) == 1000;
    assert Pow(10, 4) == 10000 && Pow(10, 5) == 100000 && Pow(10, 6) == 1000000;
    assert Pow(10, 7) == 10000000 && Pow(10, 8) == 100000000;
  }

  lemma FieldsRoundTrip(x: nat, w: nat, y: nat, z: nat, sep: char)
    requires x < Pow(10, w) && y < 100 && z < 100
    ensures ParseFields(Fields(x, w, y, z, sep), w, sep) == Some((x, y, z))
  {
    Powers();
    var s := Fields(x, w, y, z, sep);
    assert s[..w] == Decimal(x, w) && s[w + 1..w + 3] == Decimal(y, 2) && s[w + 4..] == Decimal(z, 2);
    DecimalRoundTrip(x, w);
    DecimalRoundTrip(y, 2);
    DecimalRoundTrip(z, 2);
  }

  lemma Pieces(s: string, a: string, b: string, c: string)
    requires s == a + b + c
    ensures s[..|a|] == a && s[|a|..|a| + |b|] == b && s[|a| + |b|..] == c
  {
  }

  lemma ZonePieces(sign: string, hh: string, mm: string)
    requires |sign| == 1 && |hh| == 2 && |mm| == 2
    ensures var s := sign + hh + ":" + mm;
            |s| == 6 && s[0] == sign[0] && s[3] == ':' && s[1..3] == hh && s[4..6] == mm
  {
    var s := sign + hh + ":" + mm;
    assert s == sign + hh + (":" + mm);
    Pieces(s, sign, hh, ":" + mm);
    Pieces(s, sign + hh, ":", mm);
  }

  lemma ZoneText(sign: string, h: nat, m: nat)
    requires (sign == "+" || sign == "-") && h < 24 && m < 60
    ensures ParseZone(sign + Decimal(h, 2) + ":" + Decimal(m, 2))
         == Some(if sign == "-" then -(h * 60 + m) else h * 60 + m)
  {
    Powers();
    DecimalRoundTrip(h, 2);
    DecimalRoundTrip(m, 2);
    ZonePieces(sign, Decimal(h, 2), Decimal(m, 2));
    hide Decimal, ParseDecimal, Pow, ParseZone;
    ZoneOf(sign + Decimal(h, 2) + ":" + Decimal(m, 2), h, m);
  }

  lemma ZoneOf(s: string, h: nat, m: nat)
    requires |s| == 6 && (s[0] == '+' || s[0] == '-') && s[3] == ':' && h < 24 && m < 60
    requires ParseDecimal(s[1..3]) == Some(h) && ParseDecimal(s[4..6]) == Some(m)
    ensures ParseZone(s) == Some(if s[0] == '-' then -(h * 60 + m) else h * 60 + m)
  {
    hide ParseDecimal;
  }

  lemma ZoneRoundTrip(offset: int)
    requires -1440 < offset < 1440
    ensures ParseZone(Zone(offset)) == Some(offset)
    ensures Zone(offset) != "" && !IsDigit(Zone(offset)[0]) && Zone(offset)[0] != '.'
  {
    var abs := if offset < 0 then -offset else offset;
    if offset != 0 {
      ZoneText(if offset < 0 then "-" else "+", abs / 60, abs % 60);
    }
  }

  lemma {:induction false} RunOfDigits(a: string, b: string)
    requires forall i :: 0 <= i < |a| ==> IsDigit(a[i])
    requires b == "" || !IsDigit(b[0])
    ensures DigitRun(a + b) == |a|
  {
    if a == "" {
      assert a + b == b;
    } else {
      assert (a + b)[1..] == a[1..] + b;
      RunOfDigits(a[1..], b);
    }
  }

  lemma {:induction false} AllZeros(n: nat)
    ensures FromDigits(10, Zeros(n)) == 0
  {
    if n > 0 {
      assert Zeros(n)[..n - 1] == Zeros(n - 1);
      AllZeros(n - 1);
    }
  }

  lemma TrimKeepsSomething(ds: seq<nat>)
    requires FromDigits(10, ds) > 0
    ensures Trim(ds) != []
  {
    TrimSpec(ds);
    AllZeros(|ds|);
    var zeros := Zeros(|ds|);
    assert [] + zeros == zeros;
  }

  lemma FractionSpec(nano: nat) returns (kept: seq<nat>)
    requires 0 < nano < 1_000_000_000
    ensures AreDigits(10, kept) && 0 < |kept| <= 9
    ensures Fraction(nano) == "." + DigitChars(kept) && Scale(kept) == nano
  {
    var ds := ToDigits(10, nano, 9);
    Powers();
    FromTo(10, nano, 9);
    hide Pow, ToDigits, FromDigits, Trim, DigitChars, Scale;
    TrimSpec(ds);
    kept := Trim(ds);
    TrimKeepsSomething(ds);
    ScaleOfTrim(ds);
  }

  /** Trailing zeros do not change the fraction. */
  lemma ScaleOfTrim(ds: seq<nat>)
    requires |ds| == 9
    ensures Scale(Trim(ds)) == FromDigits(10, ds)
  {
    hide FromDigits, Trim;
    TrimSpec(ds);
    var kept := Trim(ds);
    assert |kept| == 9 ==> kept + Zeros(0) == kept == kept[..9];
  }

  lemma TailWithFraction(kept: seq<nat>, zone: string, offset: int)
    requires AreDigits(10, kept) && 0 < |kept|
    requires zone != "" && !IsDigit(zone[0]) && ParseZone(zone) == Some(offset)
    ensures ParseTail("." + DigitChars(kept) + zone) == Some((Scale(kept), offset))
  {
    var digits := DigitChars(kept);
    var s := "." + digits + zone;
    assert s[1..] == digits + zone;
    RunOfDigits(digits, zone);
    assert s[1..1 + |digits|] == digits && s[1 + |digits|..] == zone;
    assert DigitValues(digits) == kept;
  }

  lemma TailRoundTrip(nano: nat, offset: int)
    requires nano < 1_000_000_000 && -1440 < offset < 1440
    ensures ParseTail(Fraction(nano) + Zone(offset)) == Some((nano, offset))
  {
    ZoneRoundTrip(offset);
    if nano == 0 {
      assert Fraction(nano) + Zone(offset) == Zone(offset);
    } else {
      var kept := FractionSpec(nano);
      TailWithFraction(kept, Zone(offset), offset);
    }
  }

  /** Parsing what was formatted gives the timestamp. */
  lemma RoundTrip(t: Timestamp)
    requires Valid(t)
    ensures Parse(Format(t)) == Some(t)
  {
    hide Fields, ParseFields, Fraction, Zone, ParseTail;
    Powers();
    var date, clock := Fields(t.year, 4, t.month, t.day, '-'), Fields(t.hour, 2, t.minute, t.second, ':');
    var tail := Fraction(t.nano) + Zone(t.offset);
    FieldsRoundTrip(t.year, 4, t.month, t.day, '-');
    FieldsRoundTrip(t.hour, 2, t.minute, t.second, ':');
    TailRoundTrip(t.nano, t.offset);
    ZoneRoundTrip(t.offset);
    var s := Format(t);
    assert s == date + "T" + (clock + tail);
    Pieces(s, date, "T", clock + tail);
    Pieces(s, date + "T", clock, tail);
  }

  /** The text is plain ASCII without a vertical bar. */
  predicate Plain(s: string) {
    forall i :: 0 <= i < |s| ==> s[i] < 128 as char && s[i] != '|'
  }

  lemma PlainConcat(a: string, b: string)
    requires Plain(a) && Plain(b)
    ensures Plain(a + b)
  {
  }

  lemma DigitsPlain(s: string)
    requires forall i :: 0 <= i < |s| ==> IsDigit(s[i])
    ensures Plain(s)
  {
  }

  lemma FieldsPlain(x: nat, w: nat, y: nat, z: nat, sep: char)
    requires sep < 128 as char && sep != '|'
    ensures Plain(Fields(x, w, y, z, sep))
  {
    DigitsPlain(Decimal(x, w));
    DigitsPlain(Decimal(y, 2));
    DigitsPlain(Decimal(z, 2));
  }

  lemma FractionPlain(nano: nat)
    ensures Plain(Fraction(nano))
  {
    if nano != 0 {
      TrimSpec(ToDigits(10, nano, 9));
      DigitsPlain(DigitChars(Trim(ToDigits(10, nano, 9))));
    }
  }

  lemma ZonePlain(offset: int)
    ensures Plain(Zone(offset))
  {
    var abs := if offset < 0 then -offset else offset;
    DigitsPlain(Decimal(abs / 60, 2));
    DigitsPlain(Decimal(abs % 60, 2));
  }

  lemma FormatPlain(t: Timestamp)
    ensures Plain(Format(t))
  {
    var date, clock := Fields(t.year, 4, t.month, t.day, '-'), Fields(t.hour, 2, t.minute, t.second, ':');
    FieldsPlain(t.year, 4, t.month, t.day, '-');
    FieldsPlain(t.hour, 2, t.minute, t.second, ':');
    FractionPlain(t.nano);
    ZonePlain(t.offset);
    PlainConcat(date, "T");
    PlainConcat(date + "T", clock);
    PlainConcat(Fraction(t.nano), Zone(t.offset));
    PlainConcat(date + "T" + clock, Fraction(t.nano) + Zone(t.offset));
  }
}

/** Opaque pagination cursors: timestamp and id, encrypted and base64-encoded. */
module Cursors {
  import opened Wrappers
  import opened Digits
  import Uuids
  import Base64
  import Timestamps

  type Bytes = seq<nat>

  /** An authenticated cipher, as far as the cursor uses it. */
  datatype Aead = Aead(nonceSize: nat, seal: (Bytes, Bytes) -> Bytes, open: (Bytes, Bytes) -> Option<Bytes>)

  /** Opening inverts sealing. */
  ghost predicate Lawful(aead: Aead) {
    && aead.nonceSize > 0
    && forall nonce, plain :: |nonce| == aead.nonceSize ==>
         AreDigits(256, aead.seal(nonce, plain)) && aead.open(nonce, aead.seal(nonce, plain)) == Some(plain)
  }

  datatype CursorError = ErrInvalidCursor | ErrInvalidUuid

  function ToBytes(s: string): Bytes {
    seq(|s|, i requires 0 <= i < |s| => s[i] as nat)
  }

  /** Bytes taken as characters, one by one. */
  function FromBytes(bs: Bytes): string {
    seq(|bs|, i requires 0 <= i < |bs| => (if bs[i] < 256 then bs[i] else 0) as char)
  }

  function BarIndex(s: string): (n: nat)
    ensures n <= |s|
  {
    if s == "" || s[0] == '|' then 0 else 1 + BarIndex(s[1..])
  }

  function Encode(aead: Aead, nonce: Bytes, t: Timestamps.Timestamp, id: string): string
    requires AreDigits(256, nonce) && AreDigits(256, aead.seal(nonce, ToBytes(Timestamps.Format(t) + "|" + id)))
  {
    var plaintext := ToBytes(Timestamps.Format(t) + "|" + id);
    Base64.Encode(nonce + aead.seal(nonce, plaintext))
  }

  /** The empty cursor decodes to no position. */
  function Decode(aead: Aead, encoded: string): Result<Option<(Timestamps.Timestamp, string)>, CursorError> {
    if encoded == "" then Success(None) else
      var ciphertext := Base64.Decode(encoded);
      if ciphertext.None? || |ciphertext.value| < aead.nonceSize then Failure(ErrInvalidCursor) else
        var plaintext := aead.open(ciphertext.value[..aead.nonceSize], ciphertext.value[aead.nonceSize..]);
        if plaintext.None? then Failure(ErrInvalidCursor) else
          var text := FromBytes(plaintext.value);
          var bar := BarIndex(text);
          if bar == |text| then Failure(ErrInvalidCursor) else
            var t := Timestamps.Parse(text[..bar]);
            if t.None? then Failure(ErrInvalidCursor) else Success(Some((t.value, text[bar + 1..])))
  }

  function Parse(aead: Aead, cursor: string): Result<Option<(Timestamps.Timestamp, Uuids.Uuid)>, CursorError> {
    match Decode(aead, cursor)
    case Failure(e) => Failure(e)
    case Success(None) => Success(None)
    case Success(Some((t, idText))) =>
      var id := Uuids.Parse(idText);
      if id.None? then Failure(ErrInvalidUuid) else Success(Some((t, id.value)))
  }

  lemma {:induction false} BarAfter(a: string, b: string)
    requires Timestamps.Plain(a)
    ensures BarIndex(a + "|" + b) == |a|
  {
    var s := a + "|" + b;
    if a != "" {
      assert s[1..] == a[1..] + "|" + b;
      BarAfter(a[1..], b);
    }
  }

  lemma BytesRoundTrip(s: string)
    requires forall i :: 0 <= i < |s| ==> s[i] < 128 as char
    ensures FromBytes(ToBytes(s)) == s
  {
  }

  lemma HexPlain(s: string, ds: seq<nat>)
    requires AreDigits(16, ds) && s == Uuids.HexString(ds)
    ensures Timestamps.Plain(s)
  {
    forall i | 0 <= i < |s|
      ensures s[i] < 128 as char && s[i] != '|'
    {
      assert s[i] == Uuids.HEX[ds[i]];
    }
  }

  lemma GroupPlain(h: string)
    requires |h| == 32 && Timestamps.Plain(h)
    ensures Timestamps.Plain(Uuids.Group(h))
  {
    Timestamps.PlainConcat(h[..8], "-");
    Timestamps.PlainConcat(h[..8] + "-", h[8..12]);
    Timestamps.PlainConcat(h[..8] + "-" + h[8..12], "-");
    Timestamps.PlainConcat(h[..8] + "-" + h[8..12] + "-", h[12..16]);
    Timestamps.PlainConcat(h[..8] + "-" + h[8..12] + "-" + h[12..16], "-");
    Timestamps.PlainConcat(h[..8] + "-" + h[8..12] + "-" + h[12..16] + "-", h[16..20]);
    Timestamps.PlainConcat(h[..8] + "-" + h[8..12] + "-" + h[12..16] + "-" + h[16..20], "-");
    Timestamps.PlainConcat(h[..8] + "-" + h[8..12] + "-" + h[12..16] + "-" + h[16..20] + "-", h[20..]);
  }

  lemma UuidPlain(u: Uuids.Uuid)
    ensures Timestamps.Plain(Uuids.ToString(u))
  {
    var ds := ToDigits(16, u, 32);
    HexPlain(Uuids.HexString(ds), ds);
    GroupPlain(Uuids.HexString(ds));
  }

  /** What the decoded text says, once it has been opened. */
  lemma TextRoundTrip(t: Timestamps.Timestamp, u: Uuids.Uuid)
    requires Timestamps.Valid(t)
    ensures var stamp, id := Timestamps.Format(t), Uuids.ToString(u);
            var text := stamp + "|" + id;
            && FromBytes(ToBytes(text)) == text && BarIndex(text) == |stamp| < |text|
            && Timestamps.Parse(text[..|stamp|]) == Some(t) && text[|stamp| + 1..] == id
  {
    var stamp, id := Timestamps.Format(t), Uuids.ToString(u);
    var text := stamp + "|" + id;
    hide Timestamps.Format, Timestamps.Parse, Uuids.ToString;
    Timestamps.FormatPlain(t);
    UuidPlain(u);
    BytesRoundTrip(text);
    BarAfter(stamp, id);
    assert text[..|stamp|] == stamp && text[|stamp| + 1..] == id;
    Timestamps.RoundTrip(t);
  }

  /** Opening what was sealed under a nonce that stands in front of it. */
  lemma OpensSealed(aead: Aead, nonce: Bytes, plain: Bytes)
    requires Lawful(aead) && |nonce| == aead.nonceSize && AreDigits(256, nonce)
    ensures AreDigits(256, aead.seal(nonce, plain))
    ensures var encoded := Base64.Encode(nonce + aead.seal(nonce, plain));
            var bytes := Base64.Decode(encoded);
            && encoded != "" && bytes.Some? && |bytes.value| >= aead.nonceSize
            && aead.open(bytes.value[..aead.nonceSize], bytes.value[aead.nonceSize..]) == Some(plain)
  {
    var sealed := aead.seal(nonce, plain);
    Base64.EncodeUnbroken(nonce + sealed);
    Base64.RoundTrip(nonce + sealed);
    assert (nonce + sealed)[..aead.nonceSize] == nonce && (nonce + sealed)[aead.nonceSize..] == sealed;
  }

  /** Cursor round trip: parsing an encoded cursor gives back exactly the timestamp and the
      id, for every valid timestamp, every uuid and every nonce. */
  lemma RoundTrip(aead: Aead, nonce: Bytes, t: Timestamps.Timestamp, u: Uuids.Uuid)
    requires Lawful(aead) && |nonce| == aead.nonceSize && AreDigits(256, nonce) && Timestamps.Valid(t)
    ensures AreDigits(256, aead.seal(nonce, ToBytes(Timestamps.Format(t) + "|" + Uuids.ToString(u))))
    ensures var cursor := Encode(aead, nonce, t, Uuids.ToString(u));
            cursor != "" && Parse(aead, cursor) == Success(Some((t, u)))
  {
    OpensSealed(aead, nonce, ToBytes(Timestamps.Format(t) + "|" + Uuids.ToString(u)));
    TextRoundTrip(t, u);
    Uuids.RoundTrip(u);
    var cursor := Encode(aead, nonce, t, Uuids.ToString(u));
    assert Decode(aead, cursor) == Success(Some((t, Uuids.ToString(u))));
  }
}
