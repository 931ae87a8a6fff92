/** What the texts look like that leave the program: cache keys, uuids, cursors. */
module TextForms {
  import opened Wrappers
  import opened Digits
  import Uuids
  import Base64
  import Timestamps
  import Cursors
  import AlbumCache
  import CacheStore

  /** The keys of the album cache. */
  lemma CacheKeys(id: Uuids.Uuid, slug: string)
    ensures CacheStore.KeyText(AlbumCache.EntityKey(id)) == "c:a:" + Uuids.ToString(id)
    ensures CacheStore.KeyText(AlbumCache.SlugKey(id, slug)) == "c:a_m:" + Uuids.ToString(id) + ":" + slug
    ensures CacheStore.KeyText(AlbumCache.TokenKey(id)) == "c:a_dtm:" + Uuids.ToString(id)
  {
  }

  /** Where the i-th of the 32 digits of a uuid stands in its text. */
  function DigitPlace(i: nat): nat {
    if i < 8 then i else if i < 12 then i + 1 else if i < 16 then i + 2 else if i < 20 then i + 3 else i + 4
  }

  /** A uuid is written with its hexadecimal digits in lower case, most significant first,
      in groups of 8, 4, 4, 4 and 12 between hyphens. */
  lemma UuidText(ds: seq<nat>, u: Uuids.Uuid, i: nat)
    requires |ds| == 32 && AreDigits(16, ds) && u == FromDigits(16, ds) && i < 32
    ensures var s := Uuids.ToString(u);
            && |s| == 36 && s[8] == s[13] == s[18] == s[23] == '-'
            && s[DigitPlace(i)] == "0123456789abcdef"[ds[i]]
  {
    ToFrom(16, ds);
    var h := Uuids.HexString(ds);
    Uuids.GroupRoundTrip(h);
    assert h[i] == "0123456789abcdef"[ds[i]];
    Grouped(h, i);
  }

  lemma Grouped(h: string, i: nat)
    requires |h| == 32 && i < 32
    ensures Uuids.Group(h)[DigitPlace(i)] == h[i]
  {
    var a, b, c, d, e := h[..8], h[8..12], h[12..16], h[16..20], h[20..];
    assert Uuids.Group(h) == a + "-" + b + "-" + c + "-" + d + "-" + e;
  }

  /** The URL-safe alphabet (table 2 in section 5 of RFC 4648): capital letters, small
      letters, digits, the hyphen and the underscore. */
  lemma Alphabet(d: nat)
    requires d < 64
    ensures var c := Base64.CharOf(d) as nat;
            if d < 26 then c == 'A' as nat + d
            else if d < 52 then c == 'a' as nat + d - 26
            else if d < 62 then c == '0' as nat + d - 52
            else Base64.CharOf(d) == if d == 62 then '-' else '_'
  {
  }

  /** The four six-bit numbers of a group spell, in base 64, the number that its three bytes
      spell in base 256. */
  lemma SextetsSpell(a: nat, b: nat, c: nat)
    requires a < 256 && b < 256 && c < 256
    ensures var s := Base64.Sextets(a, b, c);
            ((s[0] * 64 + s[1]) * 64 + s[2]) * 64 + s[3] == (a * 256 + b) * 256 + c
  {
    Spell(a / 4, a % 4, b / 16, b % 16, c / 64, c % 64);
  }

  lemma Spell(a1: nat, a0: nat, b1: nat, b0: nat, c1: nat, c0: nat)
    ensures ((a1 * 64 + (a0 * 16 + b1)) * 64 + (b0 * 4 + c1)) * 64 + c0
         == ((a1 * 4 + a0) * 256 + (b1 * 16 + b0)) * 256 + (c1 * 64 + c0)
  {
  }

  /** A group of one byte ends in two padding characters, one of two bytes in one. */
  lemma Padding(a: nat, b: nat)
    requires a < 256 && b < 256
    ensures Base64.Encode([a]) == Base64.Quad(a, 0, 0)[..2] + "=="
    ensures Base64.Encode([a, b]) == Base64.Quad(a, b, 0)[..3] + "="
  {
    hide Base64.Quad;
  }

  /** The bytes of a cursor are its nonce and, after it, the sealed text of the timestamp, a
      vertical bar and the id. */
  lemma CursorBytes(aead: Cursors.Aead, nonce: Cursors.Bytes, t: Timestamps.Timestamp, id: string)
    requires Cursors.Lawful(aead) && |nonce| == aead.nonceSize && AreDigits(256, nonce)
    ensures var sealed := aead.seal(nonce, Cursors.ToBytes(Timestamps.Format(t) + "|" + id));
            AreDigits(256, sealed) && Base64.Decode(Cursors.Encode(aead, nonce, t, id)) == Some(nonce + sealed)
  {
    hide Base64.Encode, Base64.Decode, Timestamps.Format;
    var sealed := aead.seal(nonce, Cursors.ToBytes(Timestamps.Format(t) + "|" + id));
    assert AreDigits(256, sealed);
    Base64.RoundTrip(nonce + sealed);
  }

  /** A cursor that is not empty is refused when it is not base64, is too short for a nonce,
      or does not open under its nonce; the empty one stands for the beginning. */
  lemma CursorRefused(aead: Cursors.Aead, cursor: string)
    ensures Cursors.Parse(aead, "") == Success(None)
    ensures var bytes := Base64.Decode(cursor);
            (cursor != ""
             && (bytes.None? || |bytes.value| < aead.nonceSize
                 || aead.open(bytes.value[..aead.nonceSize], bytes.value[aead.nonceSize..]).None?)) ==>
              Cursors.Parse(aead, cursor) == Failure(Cursors.ErrInvalidCursor)
  {
  }

  lemma TwoDigits(a: nat, b: nat)
    requires a < 10 && b < 10
    ensures Timestamps.Decimal(10 * a + b, 2) == ['0' + a as char, '0' + b as char]
  {
    ToFrom(10, [a, b]);
    assert [a, b][..1] == [a] && [a][..0] == [];
    assert FromDigits(10, [a]) == a;
    assert FromDigits(10, [a, b]) == 10 * a + b;
    hide ToDigits, FromDigits;
  }

  /** The fields of a timestamp stand where they should, year first, with their separators,
      and are followed by the fraction and the zone. */
  lemma TimestampText(t: Timestamps.Timestamp)
    ensures var s := Timestamps.Format(t);
            && |s| >= 19 && s[4] == s[7] == '-' && s[10] == 'T' && s[13] == s[16] == ':'
            && s[..4] == Timestamps.Decimal(t.year, 4)
            && s[5..7] == Timestamps.Decimal(t.month, 2) && s[8..10] == Timestamps.Decimal(t.day, 2)
            && s[11..13] == Timestamps.Decimal(t.hour, 2) && s[14..16] == Timestamps.Decimal(t.minute, 2)
            && s[17..19] == Timestamps.Decimal(t.second, 2)
            && s[19..] == Timestamps.Fraction(t.nano) + Timestamps.Zone(t.offset)
  {
    var y, m, d := Timestamps.Decimal(t.year, 4), Timestamps.Decimal(t.month, 2), Timestamps.Decimal(t.day, 2);
    var h, i, e := Timestamps.Decimal(t.hour, 2), Timestamps.Decimal(t.minute, 2), Timestamps.Decimal(t.second, 2);
    var tail := Timestamps.Fraction(t.nano) + Timestamps.Zone(t.offset);
    hide Timestamps.Decimal, Timestamps.Fraction, Timestamps.Zone;
    assert Timestamps.Format(t) == Joined(y, m, d, h, i, e, tail) by {
      hide *;
      FormatIsJoined(t);
    }
    JoinedPieces(y, m, d, h, i, e, tail);
    hide Timestamps.Format, Joined;
  }

  function Joined(y: string, m: string, d: string, h: string, i: string, e: string, tail: string): string {
    y + "-" + m + "-" + d + "T" + h + ":" + i + ":" + e + tail
  }

  lemma FormatIsJoined(t: Timestamps.Timestamp)
    ensures Timestamps.Format(t)
         == Joined(Timestamps.Decimal(t.year, 4), Timestamps.Decimal(t.month, 2), Timestamps.Decimal(t.day, 2),
                   Timestamps.Decimal(t.hour, 2), Timestamps.Decimal(t.minute, 2), Timestamps.Decimal(t.second, 2),
                   Timestamps.Fraction(t.nano) + Timestamps.Zone(t.offset))
  {
    hide Timestamps.Decimal, Timestamps.Fraction, Timestamps.Zone;
  }

  lemma JoinedPieces(y: string, m: string, d: string, h: string, i: string, e: string, tail: string)
    requires |y| == 4 && |m| == |d| == |h| == |i| == |e| == 2
    ensures var s := Joined(y, m, d, h, i, e, tail);
            && |s| == 19 + |tail| && s[4] == s[7] == '-' && s[10] == 'T' && s[13] == s[16] == ':'
            && s[..4] == y && s[5..7] == m && s[8..10] == d && s[11..13] == h && s[14..16] == i && s[17..19] == e
            && s[19..] == tail
  {
  }

  /** Zones as they are written, half a second, and a full one. */
  lemma ZoneTexts(hours: nat, minutes: nat)
    requires hours < 24 && minutes < 60 && hours + minutes > 0
    ensures Timestamps.Zone(0) == "Z"
    ensures Timestamps.Zone(hours * 60 + minutes)
         == "+" + Timestamps.Decimal(hours, 2) + ":" + Timestamps.Decimal(minutes, 2)
    ensures Timestamps.Zone(-(hours * 60 + minutes))
         == "-" + Timestamps.Decimal(hours, 2) + ":" + Timestamps.Decimal(minutes, 2)
  {
    hide Timestamps.Decimal;
  }

  lemma HalfSecond(nano: nat)
    requires nano == 500_000_000
    ensures Timestamps.Fraction(nano) == ".5" && Timestamps.Fraction(0) == ""
  {
    var ds := [5] + Timestamps.Zeros(8);
    Shifted(8);
    ToFrom(10, ds);
    Trimmed(8);
    hide ToDigits, FromDigits, Pow, Timestamps.Trim;
    assert ToDigits(10, nano, 9) == ds;
    assert Timestamps.DigitChars([5]) == "5";
  }

  lemma {:induction false} Shifted(n: nat)
    ensures FromDigits(10, [5] + Timestamps.Zeros(n)) == 5 * Pow(10, n)
    ensures n == 8 ==> 5 * Pow(10, n) == 500_000_000
  {
    var ds := [5] + Timestamps.Zeros(n);
    if n == 0 {
      assert ds[..0] == [];
    } else {
      Shifted(n - 1);
      assert ds[..n] == [5] + Timestamps.Zeros(n - 1);
    }
    Timestamps.Powers();
  }

  lemma {:induction false} Trimmed(n: nat)
    ensures Timestamps.Trim([5] + Timestamps.Zeros(n)) == [5]
  {
    var ds := [5] + Timestamps.Zeros(n);
    if n > 0 {
      Trimmed(n - 1);
      assert ds[..n] == [5] + Timestamps.Zeros(n - 1);
    }
  }

  /** Moments: an hour east of UTC is an hour earlier, and a second is a second. */
  lemma OffsetMoment(t: Timestamps.Timestamp)
    ensures Timestamps.Instant(t.(offset := 60)) == Timestamps.Instant(t.(offset := 0)) - 3600 * 1_000_000_000
    ensures Timestamps.Instant(t.(second := t.second + 1)) == Timestamps.Instant(t) + 1_000_000_000
    ensures Timestamps.Instant(t.(nano := t.nano + 1)) == Timestamps.Instant(t) + 1
  {
    hide Timestamps.DaysBeforeYear, Timestamps.DaysBeforeMonth;
  }

  function Midnight(year: nat, month: nat, day: nat): int {
    Timestamps.Instant(Timestamps.Timestamp(year, month, day, 0, 0, 0, 0, 0))
  }

  /** Days are 24 hours long: within a month, over the end of February, which has a 29th in
      leap years, and over the end of every year. */
  lemma DayMoments(year: nat, month: nat, day: nat)
    requires 1 <= month
    ensures Midnight(year, month, day + 1) - Midnight(year, month, day) == 86_400 * 1_000_000_000
    ensures var leap := year % 4 == 0 && (year % 100 != 0 || year % 400 == 0);
            Midnight(year, 3, 1) - Midnight(year, 2, 28) == (if leap then 2 else 1) * 86_400 * 1_000_000_000
    ensures Midnight(year + 1, 1, 1) - Midnight(year, 12, 31) == 86_400 * 1_000_000_000
  {
    MonthsOf(year);
    assert Timestamps.DaysBeforeMonth(year, 3) == Timestamps.DaysBeforeMonth(year, 2) + Timestamps.DaysIn(year, 2);
    assert Timestamps.DaysBeforeMonth(year + 1, 1) == 0;
    assert Timestamps.DaysBeforeYear(year + 1)
        == Timestamps.DaysBeforeYear(year) + if Timestamps.DaysIn(year, 2) == 29 then 366 else 365;
    hide Timestamps.DaysBeforeYear, Timestamps.DaysBeforeMonth;
  }

  lemma MonthStep(year: nat, month: nat)
    requires 1 <= month
    ensures Timestamps.DaysBeforeMonth(year, month + 1)
         == Timestamps.DaysBeforeMonth(year, month) + Timestamps.DaysIn(year, month)
  {
    hide Timestamps.DaysIn;
  }

  lemma MonthsOf(year: nat)
    ensures Timestamps.DaysBeforeMonth(year, 12) + 31 == if Timestamps.DaysIn(year, 2) == 29 then 366 else 365
  {
    assert Timestamps.DaysBeforeMonth(year, 1) == 0;
    hide Timestamps.DaysBeforeMonth;
    MonthStep(year, 1);
    MonthStep(year, 2);
    MonthStep(year, 3);
    MonthStep(year, 4);
    MonthStep(year, 5);
    MonthStep(year, 6);
    MonthStep(year, 7);
    MonthStep(year, 8);
    MonthStep(year, 9);
    MonthStep(year, 10);
    MonthStep(year, 11);
  }
}
