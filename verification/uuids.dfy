/**
  `uuid::Uuid` as a 128-bit number, and its `Display` form (lower-case,
  hyphenated), which names the fragment files in the build directory.
  Parsing (`Uuid::from_str`) accepts several textual forms and is left to an
  oracle of type `UuidParser`.
 */
module Uuids {
  import opened Wrappers

  function Pow16(n: nat): (r: nat)
    ensures r >= 1
  {
    if n == 0 then 1 else 16 * Pow16(n - 1)
  }

  /** 2^128: a UUID is a 128-bit value. */
  const UuidLimit: nat := Pow16(32)

  type Uuid = x: nat | x < UuidLimit

  lemma {:induction false} Pow16Add(a: nat, b: nat)
    ensures Pow16(a + b) == Pow16(a) * Pow16(b)
  {
    if a > 0 {
      Pow16Add(a - 1, b);
    }
  }

  /** The limit written out, so that UUID literals can be checked against it. */
  lemma LimitValue()
    ensures UuidLimit == 0x1_0000_0000_0000_0000_0000_0000_0000_0000
  {
    assert Pow16(4) == 0x1_0000;
    Pow16Add(4, 4);
    Pow16Add(8, 8);
    Pow16Add(16, 16);
  }

  /** `uuid::Error`, opaque. */
  datatype UuidError = UuidError(reason: string)

  /** `Uuid::from_str`. */
  type UuidParser = string -> Result<Uuid, UuidError>

  function HexDigit(d: nat): (c: char)
    requires d < 16
  {
    if d < 10 then '0' + d as char else 'a' + (d - 10) as char
  }

  predicate IsHexDigit(c: char) {
    '0' <= c <= '9' || 'a' <= c <= 'f'
  }

  function DigitValue(c: char): (d: nat)
    requires IsHexDigit(c)
    ensures d < 16 && HexDigit(d) == c
  {
    if c <= '9' then (c - '0') as nat else (c - 'a') as nat + 10
  }

  lemma DivBelow(x: nat, n: nat)
    requires n >= 1 && x < Pow16(n)
    ensures x / 16 < Pow16(n - 1)
  {
  }

  /** The `n` lower-case hexadecimal digits of `x`, most significant first. */
  function Hex(x: nat, n: nat): (r: string)
    requires x < Pow16(n)
    ensures |r| == n
    ensures forall k :: 0 <= k < |r| ==> IsHexDigit(r[k])
  {
    if n == 0 then ""
    else
      DivBelow(x, n);
      Hex(x / 16, n - 1) + [HexDigit(x % 16)]
  }

  /** The number a string of hexadecimal digits denotes. */
  function HexValue(s: string): nat
    requires forall k :: 0 <= k < |s| ==> IsHexDigit(s[k])
  {
    if s == [] then 0 else 16 * HexValue(s[..|s| - 1]) + DigitValue(s[|s| - 1])
  }

  lemma {:induction false} HexRoundTrip(x: nat, n: nat)
    requires x < Pow16(n)
    ensures HexValue(Hex(x, n)) == x
  {
    if n > 0 {
      DivBelow(x, n);
      var r := Hex(x, n);
      assert r[..|r| - 1] == Hex(x / 16, n - 1);
      HexRoundTrip(x / 16, n - 1);
    }
  }

  /** `format!("{}", u)`: 8-4-4-4-12 lower-case hexadecimal digits. */
  function Hyphenated(u: Uuid): (r: string)
    ensures |r| == 36
    ensures r[8] == '-' && r[13] == '-' && r[18] == '-' && r[23] == '-'
  {
    var h := Hex(u, 32);
    var a := h[..8] + "-";
    var b := a + h[8..12] + "-";
    var c := b + h[12..16] + "-";
    var d := c + h[16..20] + "-";
    assert |a| == 9 && |b| == 14 && |c| == 19 && |d| == 24;
    assert a[8] == '-' && b[8] == a[8] && b[13] == '-';
    assert c[8] == b[8] && c[13] == b[13] && c[18] == '-';
    assert d[8] == c[8] && d[13] == c[13] && d[18] == c[18] && d[23] == '-';
    d + h[20..]
  }

  /** The digits left when the four hyphens are taken out. */
  function Unhyphenate(r: string): string
    requires |r| == 36
  {
    r[..8] + r[9..13] + r[14..18] + r[19..23] + r[24..]
  }

  /** The hyphenated form determines the UUID: distinct notes get distinct file names. */
  lemma HyphenatedRoundTrip(u: Uuid)
    ensures var d := Unhyphenate(Hyphenated(u));
      (forall k :: 0 <= k < |d| ==> IsHexDigit(d[k])) && HexValue(d) == u
  {
    Dehyphenate(u);
    HexRoundTrip(u, 32);
  }

  /** Taking the hyphens out of the hyphenated form gives back the 32 digits. */
  lemma Dehyphenate(u: Uuid)
    ensures Unhyphenate(Hyphenated(u)) == Hex(u, 32)
  {
    var h := Hex(u, 32);
    Unhyphenated(h[..8], h[8..12], h[12..16], h[16..20], h[20..]);
    assert h == h[..8] + h[8..12] + h[12..16] + h[16..20] + h[20..];
  }

  lemma Unhyphenated(p1: string, p2: string, p3: string, p4: string, p5: string)
    requires |p1| == 8 && |p2| == 4 && |p3| == 4 && |p4| == 4 && |p5| == 12
    ensures Unhyphenate(p1 + "-" + p2 + "-" + p3 + "-" + p4 + "-" + p5) == p1 + p2 + p3 + p4 + p5
  {
    var d := p1 + "-" + p2 + "-" + p3 + "-" + p4 + "-";
    var c := p1 + "-" + p2 + "-" + p3 + "-";
    var b := p1 + "-" + p2 + "-";
    var r := d + p5;
    assert r[24..] == p5 && r[..24] == d;
    assert d[19..23] == p4 && d[..19] == c;
    assert c[14..18] == p3 && c[..14] == b;
    assert b[9..13] == p2 && b[..8] == p1;
    assert r[19..23] == p4 && r[14..18] == p3 && r[9..13] == p2 && r[..8] == p1;
  }

  lemma HyphenatedInjective(u: Uuid, v: Uuid)
    requires Hyphenated(u) == Hyphenated(v)
    ensures u == v
  {
    HyphenatedRoundTrip(u);
    HyphenatedRoundTrip(v);
  }
}
