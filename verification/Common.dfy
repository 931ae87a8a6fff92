/** Option and Result, as used by every module below. */
module Wrappers {
  datatype Option<+T> = None | Some(value: T)

  datatype Result<+R, +E> = Success(value: R) | Failure(error: E)
}

/** Fixed-width positional notation in any base: hexadecimal for uuids,
    decimal for timestamps, 256 and 64 for base64. */
module Digits {

  function Pow(b: nat, w: nat): (p: nat)
    requires b > 0
    ensures p > 0
  {
    if w == 0 then 1 else Pow(b, w - 1) * b
  }

  predicate AreDigits(b: nat, ds: seq<nat>) {
    forall i :: 0 <= i < |ds| ==> ds[i] < b
  }

  /** Quotient and remainder, kept apart so that the proofs below stay linear. */
  function Split(n: nat, b: nat): (r: (nat, nat))
    requires b > 0
    ensures n == r.0 * b + r.1 && r.1 < b
  {
    var q := n / b;
    assert n % b < b && n == q * b + n % b;
    (q, n % b)
  }

  lemma MulMonotone(x: nat, y: nat, b: nat)
    requires x <= y
    ensures x * b <= y * b
  {
  }

  lemma MulStep(x: nat, y: nat, b: nat)
    requires x < y
    ensures x * b + b <= y * b
  {
    MulMonotone(x + 1, y, b);
    assert (x + 1) * b == x * b + b;
  }

  lemma NoGreater(x: nat, s: nat, q: nat, r: nat, b: nat)
    requires x * b + s == q * b + r && r < b
    ensures x <= q
  {
    if x > q {
      MulStep(q, x, b);
      assert false;
    }
  }

  lemma SplitUnique(n: nat, b: nat, q: nat, r: nat)
    requires b > 0 && n == q * b + r && r < b
    ensures Split(n, b) == (q, r)
  {
    var s := Split(n, b);
    NoGreater(s.0, s.1, q, r, b);
    NoGreater(q, r, s.0, s.1, b);
  }

  /** The last `w` digits of `n`, most significant first. */
  function ToDigits(b: nat, n: nat, w: nat): (ds: seq<nat>)
    requires b > 0
    ensures |ds| == w && AreDigits(b, ds)
    decreases w
  {
    if w == 0 then [] else
      var s := Split(n, b);
      ToDigits(b, s.0, w - 1) + [s.1]
  }

  function FromDigits(b: nat, ds: seq<nat>): nat {
    if ds == [] then 0 else FromDigits(b, ds[..|ds| - 1]) * b + ds[|ds| - 1]
  }

  /** Reading back what was written gives the number. */
  lemma {:induction false} FromTo(b: nat, n: nat, w: nat)
    requires b > 0 && n < Pow(b, w)
    ensures FromDigits(b, ToDigits(b, n, w)) == n
    decreases w
  {
    if w > 0 {
      var s := Split(n, b);
      if s.0 >= Pow(b, w - 1) {
        MulMonotone(Pow(b, w - 1), s.0, b);
        assert false;
      }
      FromTo(b, s.0, w - 1);
      var ds := ToDigits(b, n, w);
      assert ds[..|ds| - 1] == ToDigits(b, s.0, w - 1);
    }
  }

  lemma AppendBelow(x: nat, p: nat, b: nat, d: nat)
    requires x < p && d < b
    ensures x * b + d < p * b
  {
    MulMonotone(x + 1, p, b);
  }

  lemma {:induction false} FromDigitsBelow(b: nat, ds: seq<nat>)
    requires b > 0 && AreDigits(b, ds)
    ensures FromDigits(b, ds) < Pow(b, |ds|)
    decreases |ds|
  {
    if ds != [] {
      var init, last := ds[..|ds| - 1], ds[|ds| - 1];
      FromDigitsBelow(b, init);
      AppendBelow(FromDigits(b, init), Pow(b, |init|), b, last);
    }
  }

  /** Writing back what was read gives the digits. */
  lemma {:induction false} ToFrom(b: nat, ds: seq<nat>)
    requires b > 0 && AreDigits(b, ds)
    ensures ToDigits(b, FromDigits(b, ds), |ds|) == ds
    decreases |ds|
  {
    if ds != [] {
      var init, last := ds[..|ds| - 1], ds[|ds| - 1];
      ToFrom(b, init);
      SplitUnique(FromDigits(b, ds), b, FromDigits(b, init), last);
      assert ds == init + [last];
    }
  }
}

/** Uuids are 128-bit numbers, compared as PostgreSQL compares them, and written as
    32 lower-case hexadecimal digits in groups of 8, 4, 4, 4 and 12. */
module Uuids {
  import opened Wrappers
  import opened Digits

  type Uuid = x: nat | x < Pow(16, 32) witness 0

  const NIL: Uuid := 0

  const HEX: string := "0123456789abcdef"

  function HexChar(d: nat): char
    requires d < 16
  {
    HEX[d]
  }

  function HexValue(c: char): Option<nat> {
    if '0' <= c <= '9' then Some(c as nat - '0' as nat)
    else if 'a' <= c <= 'f' then Some(c as nat - 'a' as nat + 10)
    else if 'A' <= c <= 'F' then Some(c as nat - 'A' as nat + 10)
    else None
  }

  function HexString(ds: seq<nat>): (s: string)
    requires AreDigits(16, ds)
    ensures |s| == |ds|
  {
    seq(|ds|, i requires 0 <= i < |ds| => HexChar(ds[i]))
  }

  function ParseHex(s: string): (r: Option<seq<nat>>)
    ensures r.Some? ==> |r.value| == |s| && AreDigits(16, r.value)
  {
    if forall i :: 0 <= i < |s| ==> HexValue(s[i]).Some? then
      Some(seq(|s|, i requires 0 <= i < |s| => HexValue(s[i]).value))
    else
      None
  }

  /** Puts the four hyphens between the groups. */
  function Group(h: string): (s: string)
    requires |h| == 32
    ensures |s| == 36
  {
    h[..8] + "-" + h[8..12] + "-" + h[12..16] + "-" + h[16..20] + "-" + h[20..]
  }

  function Ungroup(s: string): (h: string)
    requires |s| == 36
    ensures |h| == 32
  {
    s[..8] + s[9..13] + s[14..18] + s[19..23] + s[24..]
  }

  function ToString(u: Uuid): (s: string)
    ensures |s| == 36
  {
    Group(HexString(ToDigits(16, u, 32)))
  }

  function Parse(s: string): Option<Uuid> {
    if |s| == 36 && s[8] == '-' && s[13] == '-' && s[18] == '-' && s[23] == '-' then
      var ds := ParseHex(Ungroup(s));
      if ds.Some? then
        FromDigitsBelow(16, ds.value);
        Some(FromDigits(16, ds.value))
      else
        None
    else
      None
  }

  lemma HexRoundTrip(ds: seq<nat>)
    requires AreDigits(16, ds)
    ensures ParseHex(HexString(ds)) == Some(ds)
  {
    var s := HexString(ds);
    forall i | 0 <= i < |ds|
      ensures HexValue(s[i]) == Some(ds[i])
    {
      var d := ds[i];
      assert HEX[d] == if d < 10 then '0' + d as char else 'a' + (d - 10) as char;
    }
    assert ParseHex(s).value == ds;
  }

  lemma GroupRoundTrip(h: string)
    requires |h| == 32
    ensures Ungroup(Group(h)) == h
    ensures var s := Group(h); s[8] == '-' && s[13] == '-' && s[18] == '-' && s[23] == '-'
  {
    var s := Group(h);
    assert s[..8] == h[..8];
    assert s[9..13] == h[8..12];
    assert s[14..18] == h[12..16];
    assert s[19..23] == h[16..20];
    assert s[24..] == h[20..];
  }

  /** The text form determines the uuid. */
  lemma RoundTrip(u: Uuid)
    ensures Parse(ToString(u)) == Some(u)
  {
    var ds := ToDigits(16, u, 32);
    HexRoundTrip(ds);
    GroupRoundTrip(HexString(ds));
    FromTo(16, u, 32);
  }

  lemma ToStringInjective(u: Uuid, v: Uuid)
    requires ToString(u) == ToString(v)
    ensures u == v
  {
    RoundTrip(u);
    RoundTrip(v);
  }
}
