/**
  UTF-8 as section 3 and section 4 of RFC 3629 define it: which byte
  sequences are well formed, how a Unicode scalar value is encoded, and the
  check `std::str::from_utf8` performs (with its `valid_up_to`).
 */
module Utf8 {
  import opened Wrappers

  newtype Byte = x: int | 0 <= x < 256

  /** A Unicode scalar value: a code point that is not a surrogate. */
  type Scalar = c: nat | c < 0x11_0000 && !(0xD800 <= c <= 0xDFFF)

  /** `UTF8-tail = %x80-BF`. */
  predicate Tail(b: Byte) {
    0x80 <= b <= 0xBF
  }

  /** The first two bytes of `UTF8-3`. */
  predicate Start3(b0: Byte, b1: Byte) {
    || (b0 == 0xE0 && 0xA0 <= b1 <= 0xBF)
    || (0xE1 <= b0 <= 0xEC && Tail(b1))
    || (b0 == 0xED && 0x80 <= b1 <= 0x9F)
    || (0xEE <= b0 <= 0xEF && Tail(b1))
  }

  /** The first two bytes of `UTF8-4`. */
  predicate Start4(b0: Byte, b1: Byte) {
    || (b0 == 0xF0 && 0x90 <= b1 <= 0xBF)
    || (0xF1 <= b0 <= 0xF3 && Tail(b1))
    || (b0 == 0xF4 && 0x80 <= b1 <= 0x8F)
  }

  /**
    `UTF8-char`, the grammar of section 4 of RFC 3629: one encoded
    character, overlong forms, surrogates and values above U+10FFFF excluded.
   */
  predicate IsChar(c: seq<Byte>) {
    || (|c| == 1 && c[0] <= 0x7F)
    || (|c| == 2 && 0xC2 <= c[0] <= 0xDF && Tail(c[1]))
    || (|c| == 3 && Start3(c[0], c[1]) && Tail(c[2]))
    || (|c| == 4 && Start4(c[0], c[1]) && Tail(c[2]) && Tail(c[3]))
  }

  /** The length of the character a lead byte starts, or 0 for a byte that starts none. */
  function LeadLength(b: Byte): (n: nat)
    ensures n <= 4
  {
    if b <= 0x7F then 1
    else if 0xC2 <= b <= 0xDF then 2
    else if 0xE0 <= b <= 0xEF then 3
    else if 0xF0 <= b <= 0xF4 then 4
    else 0
  }

  /**
    `UTF8-octets = *( UTF8-char )`: a sequence of whole encoded characters.
    The first byte of a character fixes its length (`LeadLength`), so the
    split into characters is read off from the left.
   */
  predicate WellFormed(s: seq<Byte>)
    decreases |s|
  {
    s == [] || (var n := LeadLength(s[0]); 1 <= n <= |s| && IsChar(s[..n]) && WellFormed(s[n..]))
  }

  // ---------------------------------------------------------------------------
  // The encoding of section 3 of RFC 3629

  /** The bit pattern of section 3 of RFC 3629, by the value's range. */
  function EncodeChar(c: Scalar): (r: seq<Byte>)
    ensures 1 <= |r| <= 4
  {
    if c < 0x80 then [c as Byte]
    else if c < 0x800 then [(0xC0 + c / 0x40) as Byte, (0x80 + c % 0x40) as Byte]
    else if c < 0x1_0000 then
      [(0xE0 + c / 0x1000) as Byte, (0x80 + c / 0x40 % 0x40) as Byte, (0x80 + c % 0x40) as Byte]
    else
      [(0xF0 + c / 0x4_0000) as Byte, (0x80 + c / 0x1000 % 0x40) as Byte,
       (0x80 + c / 0x40 % 0x40) as Byte, (0x80 + c % 0x40) as Byte]
  }

  /** The low six bits a continuation byte carries. */
  function Low(b: Byte): nat {
    (b as int % 0x40) as nat
  }

  /** The scalar value an encoded character stands for. */
  function DecodeChar(c: seq<Byte>): Scalar
    requires IsChar(c)
  {
    if |c| == 1 then c[0] as nat
    else if |c| == 2 then (c[0] as nat - 0xC0) * 0x40 + Low(c[1])
    else if |c| == 3 then
      var v := (c[0] as nat - 0xE0) * 0x1000 + Low(c[1]) * 0x40 + Low(c[2]);
      assert 0x800 <= v < 0x1_0000 && !(0xD800 <= v <= 0xDFFF);
      v
    else
      var v := (c[0] as nat - 0xF0) * 0x4_0000 + Low(c[1]) * 0x1000 + Low(c[2]) * 0x40 + Low(c[3]);
      assert 0x1_0000 <= v < 0x11_0000;
      v
  }

  /** Base-64 digits: what the bit slicing of section 3 of RFC 3629 amounts to. */
  lemma Digits2(x: nat, z: nat)
    requires z < 0x40
    ensures (x * 0x40 + z) / 0x40 == x && (x * 0x40 + z) % 0x40 == z
  {
  }

  lemma Digits3(x: nat, y: nat, z: nat)
    requires y < 0x40 && z < 0x40
    ensures var v := x * 0x1000 + y * 0x40 + z;
      v / 0x1000 == x && v / 0x40 % 0x40 == y && v % 0x40 == z
  {
    var v := x * 0x1000 + y * 0x40 + z;
    Digits2(x * 0x40 + y, z);
    assert v == (x * 0x40 + y) * 0x40 + z;
    Digits2(x, y);
    assert v / 0x1000 == v / 0x40 / 0x40;
  }

  lemma Digits4(w: nat, x: nat, y: nat, z: nat)
    requires x < 0x40 && y < 0x40 && z < 0x40
    ensures var v := w * 0x4_0000 + x * 0x1000 + y * 0x40 + z;
      v / 0x4_0000 == w && v / 0x1000 % 0x40 == x && v / 0x40 % 0x40 == y && v % 0x40 == z
  {
    var v := w * 0x4_0000 + x * 0x1000 + y * 0x40 + z;
    Digits3(w * 0x40 + x, y, z);
    assert v == (w * 0x40 + x) * 0x1000 + y * 0x40 + z;
    Digits2(w, x);
    assert v / 0x4_0000 == v / 0x1000 / 0x40;
  }

  /** A continuation byte is `10` followed by its six low bits. */
  lemma TailLow(b: Byte)
    requires Tail(b)
    ensures b as int == 0x80 + Low(b) && Low(b) < 0x40
  {
  }

  /** Every scalar value encodes to a well-formed character, and decodes back. */
  lemma EncodeChar_IsChar(c: Scalar)
    ensures IsChar(EncodeChar(c)) && DecodeChar(EncodeChar(c)) == c
  {
    if c < 0x80 {
    } else if c < 0x800 {
      EncodeTwo(c);
    } else if c < 0x1_0000 {
      EncodeThree(c);
    } else {
      EncodeFour(c);
    }
  }

  lemma EncodeTwo(c: Scalar)
    requires 0x80 <= c < 0x800
    ensures IsChar(EncodeChar(c)) && DecodeChar(EncodeChar(c)) == c
  {
    var r := EncodeChar(c);
    var x, z := c / 0x40, c % 0x40;
    assert c == x * 0x40 + z;
    assert r == [(0xC0 + x) as Byte, (0x80 + z) as Byte];
    assert Low(r[1]) == z;
  }

  lemma EncodeThree(c: Scalar)
    requires 0x800 <= c < 0x1_0000
    ensures IsChar(EncodeChar(c)) && DecodeChar(EncodeChar(c)) == c
  {
    var r := EncodeChar(c);
    var x, y, z := c / 0x1000, c / 0x40 % 0x40, c % 0x40;
    assert c == x * 0x1000 + y * 0x40 + z by {
      assert c == c / 0x40 * 0x40 + z;
      assert c / 0x40 == x * 0x40 + y by {
        assert c / 0x40 / 0x40 == x;
      }
    }
    assert r == [(0xE0 + x) as Byte, (0x80 + y) as Byte, (0x80 + z) as Byte];
    assert Low(r[1]) == y && Low(r[2]) == z;
  }

  lemma EncodeFour(c: Scalar)
    requires 0x1_0000 <= c
    ensures IsChar(EncodeChar(c)) && DecodeChar(EncodeChar(c)) == c
  {
    var r := EncodeChar(c);
    var w, x, y, z := c / 0x4_0000, c / 0x1000 % 0x40, c / 0x40 % 0x40, c % 0x40;
    assert c == w * 0x4_0000 + x * 0x1000 + y * 0x40 + z by {
      assert c == c / 0x40 * 0x40 + z;
      assert c / 0x40 == c / 0x1000 * 0x40 + y by {
        assert c / 0x40 / 0x40 == c / 0x1000;
      }
      assert c / 0x1000 == w * 0x40 + x by {
        assert c / 0x1000 / 0x40 == w;
      }
    }
    assert r == [(0xF0 + w) as Byte, (0x80 + x) as Byte, (0x80 + y) as Byte, (0x80 + z) as Byte];
    assert Low(r[1]) == x && Low(r[2]) == y && Low(r[3]) == z;
  }

  /** Every well-formed character is the encoding of the value it decodes to. */
  lemma DecodeChar_Encodes(c: seq<Byte>)
    requires IsChar(c)
    ensures EncodeChar(DecodeChar(c)) == c
  {
    var v := DecodeChar(c);
    if |c| == 2 {
      TailLow(c[1]);
      Digits2(c[0] as nat - 0xC0, Low(c[1]));
    } else if |c| == 3 {
      TailLow(c[1]);
      TailLow(c[2]);
      Digits3(c[0] as nat - 0xE0, Low(c[1]), Low(c[2]));
    } else if |c| == 4 {
      TailLow(c[1]);
      TailLow(c[2]);
      TailLow(c[3]);
      Digits4(c[0] as nat - 0xF0, Low(c[1]), Low(c[2]), Low(c[3]));
    }
  }

  // ---------------------------------------------------------------------------
  // Sequences of characters

  /** The first byte of a character fixes its length. */
  lemma CharLength(c: seq<Byte>)
    requires IsChar(c)
    ensures |c| == LeadLength(c[0])
  {
  }

  /** The encoding of a string of scalar values: its characters' encodings, in order. */
  function Encode(cs: seq<Scalar>): (r: seq<Byte>)
    ensures |r| <= 4 * |cs|
  {
    if cs == [] then [] else EncodeChar(cs[0]) + Encode(cs[1..])
  }

  /** The scalar values a well-formed byte sequence encodes. */
  function Decode(s: seq<Byte>): seq<Scalar>
    requires WellFormed(s)
    decreases |s|
  {
    if s == [] then []
    else
      var n := LeadLength(s[0]);
      [DecodeChar(s[..n])] + Decode(s[n..])
  }

  /** Encoding yields well-formed UTF-8 that decodes to the values encoded. */
  lemma {:induction false} EncodeWellFormed(cs: seq<Scalar>)
    ensures WellFormed(Encode(cs)) && Decode(Encode(cs)) == cs
  {
    if cs != [] {
      var c := EncodeChar(cs[0]);
      var s := Encode(cs);
      EncodeChar_IsChar(cs[0]);
      CharLength(c);
      EncodeWellFormed(cs[1..]);
      assert s[..|c|] == c && s[|c|..] == Encode(cs[1..]);
    }
  }

  /** Every well-formed byte sequence is the encoding of what it decodes to. */
  lemma {:induction false} DecodeEncodes(s: seq<Byte>)
    requires WellFormed(s)
    ensures Encode(Decode(s)) == s
    decreases |s|
  {
    if s != [] {
      var n := LeadLength(s[0]);
      DecodeChar_Encodes(s[..n]);
      DecodeEncodes(s[n..]);
      assert Decode(s)[1..] == Decode(s[n..]);
    }
  }

  /** Well-formed sequences concatenate. */
  lemma {:induction false} AppendWellFormed(a: seq<Byte>, b: seq<Byte>)
    requires WellFormed(a) && WellFormed(b)
    ensures WellFormed(a + b)
    decreases |a|
  {
    if a == [] {
      assert a + b == b;
    } else {
      var n, ab := LeadLength(a[0]), a + b;
      AppendWellFormed(a[n..], b);
      assert ab[0] == a[0];
      assert ab[..n] == a[..n] && ab[n..] == a[n..] + b;
      assert IsChar(ab[..n]) && WellFormed(ab[n..]);
    }
  }

  /** A well-formed prefix ends on a character boundary: what follows it is well formed on its own. */
  lemma {:induction false} CancelWellFormed(a: seq<Byte>, b: seq<Byte>)
    requires WellFormed(a) && WellFormed(a + b)
    ensures WellFormed(b)
    decreases |a|
  {
    if a == [] {
      assert a + b == b;
    } else {
      var n, ab := LeadLength(a[0]), a + b;
      assert ab[0] == a[0];
      assert ab[n..] == a[n..] + b;
      assert WellFormed(ab[n..]);
      CancelWellFormed(a[n..], b);
    }
  }

  /** One character on its own is well formed. */
  lemma CharWellFormed(c: seq<Byte>)
    requires IsChar(c)
    ensures WellFormed(c)
  {
    CharLength(c);
    assert c[..|c|] == c;
    assert WellFormed(c[|c|..]);
  }

  // ---------------------------------------------------------------------------
  // std::str::from_utf8

  /** `Utf8Error`: how long the well-formed prefix is. */
  datatype Utf8Error = Utf8Error(validUpTo: nat)

  /**
    `std::str::from_utf8`: the bytes themselves when well formed; otherwise
    the error reports the longest well-formed prefix.
   */
  method FromUtf8(s: seq<Byte>) returns (r: Result<seq<Byte>, Utf8Error>)
    ensures r.Ok? <==> WellFormed(s)
    ensures r.Ok? ==> r.value == s
    ensures r.Err? ==> r.error.validUpTo < |s| && WellFormed(s[..r.error.validUpTo])
    ensures r.Err? ==> forall j :: r.error.validUpTo < j <= |s| ==> !WellFormed(s[..j])
  {
    var i := 0;
    assert WellFormed(s[..0]) by { assert s[..0] == []; }
    assert s[0..] == s;
    while i < |s|
      invariant i <= |s| && WellFormed(s[..i])
      invariant WellFormed(s) <==> WellFormed(s[i..])
    {
      var n := LeadLength(s[i]);
      if n == 0 || i + n > |s| {
        NoLongerPrefix(s, i);
        return Err(Utf8Error(i));
      }
      if !IsChar(s[i..i + n]) {
        assert s[i..][..n] == s[i..i + n];
        NoLongerPrefix(s, i);
        return Err(Utf8Error(i));
      }
      Advance(s, i);
      i := i + n;
    }
    assert s[..i] == s;
    return Ok(s);
  }

  /** A character at boundary `i` extends the well-formed prefix and leaves the verdict on the rest unchanged. */
  lemma Advance(s: seq<Byte>, i: nat)
    requires i < |s| && WellFormed(s[..i])
    requires var n := LeadLength(s[i]); 1 <= n && i + n <= |s| && IsChar(s[i..i + n])
    ensures var n := LeadLength(s[i]); WellFormed(s[..i + n]) && (WellFormed(s[i..]) <==> WellFormed(s[i + n..]))
  {
    var n, rest := LeadLength(s[i]), s[i..];
    assert rest[0] == s[i];
    assert rest[..n] == s[i..i + n] && rest[n..] == s[i + n..];
    assert IsChar(rest[..n]);
    assert WellFormed(rest) <==> WellFormed(rest[n..]);
    CharWellFormed(s[i..i + n]);
    AppendWellFormed(s[..i], s[i..i + n]);
    assert s[..i] + s[i..i + n] == s[..i + n];
  }

  /**
    When no character starts at a boundary `i`, no longer prefix is well
    formed: the error position is the longest well-formed prefix.
   */
  lemma NoLongerPrefix(s: seq<Byte>, i: nat)
    requires i < |s| && WellFormed(s[..i])
    requires var n := LeadLength(s[i]); !(1 <= n && i + n <= |s| && IsChar(s[i..i + n]))
    ensures forall j :: i < j <= |s| ==> !WellFormed(s[..j])
  {
    forall j | i < j <= |s|
      ensures !WellFormed(s[..j])
    {
      var t, n := s[i..j], LeadLength(s[i]);
      assert t[0] == s[i];
      if 1 <= n <= |t| {
        assert t[..n] == s[i..i + n];
      }
      assert !WellFormed(t);
      assert s[..j] == s[..i] + t;
      if WellFormed(s[..j]) {
        CancelWellFormed(s[..i], t);
      }
    }
  }

  /**
    The two readings of section 4 of RFC 3629 agree: a byte sequence is well
    formed exactly when it is the encoding of some string of scalar values.
   */
  lemma WellFormedIffEncoding(s: seq<Byte>)
    ensures WellFormed(s) <==> exists cs :: Encode(cs) == s
  {
    if WellFormed(s) {
      DecodeEncodes(s);
    }
    forall cs | Encode(cs) == s
      ensures WellFormed(s)
    {
      EncodeWellFormed(cs);
    }
  }
}
