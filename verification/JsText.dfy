/**
 JavaScript strings and their UTF-8 bytes.

 A JavaScript string is a sequence of UTF-16 code units. `TextEncoder` and the
 hash function's "utf8" input both read it as Unicode scalar values, putting
 U+FFFD wherever a surrogate has no partner, and then write each scalar value
 as one to four bytes.
 */
module JsText {

  type CodeUnit = u: int | 0 <= u < 0x10000
  type Text = seq<CodeUnit>
  type Scalar = c: int | 0 <= c < 0x110000 && !(0xD800 <= c < 0xE000)
  type Byte = b: int | 0 <= b < 0x100
  type Bytes = seq<Byte>

  const REPLACEMENT: Scalar := 0xFFFD

  /** A text given by an ASCII literal. */
  function Ascii(s: string): (t: Text)
    requires forall i | 0 <= i < |s| :: s[i] < '\U{80}'
    ensures |t| == |s|
  {
    if s == "" then [] else [s[0] as int] + Ascii(s[1..])
  }

  predicate IsHigh(u: CodeUnit) { 0xD800 <= u < 0xDC00 }

  predicate IsLow(u: CodeUnit) { 0xDC00 <= u < 0xE000 }

  predicate StartsWithPair(t: Text) { |t| >= 2 && IsHigh(t[0]) && IsLow(t[1]) }

  function PairValue(high: CodeUnit, low: CodeUnit): (c: Scalar)
    requires IsHigh(high) && IsLow(low)
    ensures 0x10000 <= c
  {
    0x10000 + (high - 0xD800) * 0x400 + (low - 0xDC00)
  }

  /** The scalar values of a text, with U+FFFD for every unpaired surrogate. */
  function Scalars(t: Text): seq<Scalar> {
    if t == [] then []
    else if StartsWithPair(t) then [PairValue(t[0], t[1])] + Scalars(t[2..])
    else if IsHigh(t[0]) || IsLow(t[0]) then [REPLACEMENT] + Scalars(t[1..])
    else [t[0]] + Scalars(t[1..])
  }

  /** No surrogate lacks its partner. */
  predicate WellFormed(t: Text) {
    t == [] ||
    (if StartsWithPair(t) then WellFormed(t[2..])
     else !IsHigh(t[0]) && !IsLow(t[0]) && WellFormed(t[1..]))
  }

  function Utf8Char(c: Scalar): (bytes: Bytes)
    ensures 1 <= |bytes| <= 4
  {
    if c < 0x80 then [c]
    else if c < 0x800 then [0xC0 + c / 64, 0x80 + c % 64]
    else if c < 0x10000 then [0xE0 + c / 4096, 0x80 + c / 64 % 64, 0x80 + c % 64]
    else [0xF0 + c / 262144, 0x80 + c / 4096 % 64, 0x80 + c / 64 % 64, 0x80 + c % 64]
  }

  function Utf8Scalars(s: seq<Scalar>): Bytes {
    if s == [] then [] else Utf8Char(s[0]) + Utf8Scalars(s[1..])
  }

  /** The bytes `TextEncoder` and the hash function see. */
  function Utf8(t: Text): Bytes { Utf8Scalars(Scalars(t)) }

  // ---- Concatenation -------------------------------------------------------

  predicate IsAscii(t: Text) { forall i | 0 <= i < |t| :: t[i] < 0x80 }

  /** No surrogate pair straddles the seam between two texts. */
  predicate CleanSeam(a: Text, b: Text) { a == [] || b == [] || !IsHigh(a[|a| - 1]) || !IsLow(b[0]) }

  lemma {:induction false} ScalarsOfConcat(a: Text, b: Text)
    requires CleanSeam(a, b)
    ensures Scalars(a + b) == Scalars(a) + Scalars(b)
  {
    if a == [] {
      assert a + b == b;
    } else {
      var width := if StartsWithPair(a) then 2 else 1;
      assert StartsWithPair(a + b) <==> StartsWithPair(a);
      assert (a + b)[width..] == a[width..] + b && (a + b)[0] == a[0];
      assert width == 2 ==> (a + b)[1] == a[1];
      assert CleanSeam(a[width..], b);
      ScalarsOfConcat(a[width..], b);
    }
  }

  lemma {:induction false} Utf8ScalarsOfConcat(a: seq<Scalar>, b: seq<Scalar>)
    ensures Utf8Scalars(a + b) == Utf8Scalars(a) + Utf8Scalars(b)
  {
    if a == [] {
      assert a + b == b;
    } else {
      Utf8ScalarsOfConcat(a[1..], b);
      assert (a + b)[1..] == a[1..] + b && (a + b)[0] == a[0];
      assert Utf8Char(a[0]) + (Utf8Scalars(a[1..]) + Utf8Scalars(b)) ==
        (Utf8Char(a[0]) + Utf8Scalars(a[1..])) + Utf8Scalars(b);
    }
  }

  /** Concatenating texts concatenates their bytes, unless a surrogate pair is formed at the seam. */
  lemma Utf8OfConcat(a: Text, b: Text)
    requires CleanSeam(a, b)
    ensures Utf8(a + b) == Utf8(a) + Utf8(b)
  {
    ScalarsOfConcat(a, b);
    Utf8ScalarsOfConcat(Scalars(a), Scalars(b));
  }

  lemma {:induction false} Utf8OfAscii(t: Text)
    requires IsAscii(t)
    ensures Utf8(t) == t
  {
    if t != [] {
      Utf8OfAscii(t[1..]);
    }
  }

  // ---- Injectivity ---------------------------------------------------------

  /** The scalar value at the front of a UTF-8 byte string, and how many bytes it took. */
  function FirstScalar(b: Bytes): (r: (int, nat))
    requires b != []
  {
    var Tail := (i: nat) requires i < |b| => b[i] as int - 0x80;
    if b[0] < 0x80 then (b[0], 1)
    else if b[0] < 0xE0 && |b| >= 2 then ((b[0] as int - 0xC0) * 64 + Tail(1), 2)
    else if b[0] < 0xF0 && |b| >= 3 then ((b[0] as int - 0xE0) * 4096 + Tail(1) * 64 + Tail(2), 3)
    else if |b| >= 4 then ((b[0] as int - 0xF0) * 262144 + Tail(1) * 4096 + Tail(2) * 64 + Tail(3), 4)
    else (0, 1)
  }

  lemma FirstScalarOfUtf8(c: Scalar, rest: Bytes)
    ensures FirstScalar(Utf8Char(c) + rest) == (c, |Utf8Char(c)|)
  {
    assert c == c / 64 * 64 + c % 64;
    assert c / 64 == c / 4096 * 64 + c / 64 % 64;
    assert c / 4096 == c / 262144 * 64 + c / 4096 % 64;
  }

  lemma {:induction false} Utf8ScalarsInjective(a: seq<Scalar>, b: seq<Scalar>)
    requires Utf8Scalars(a) == Utf8Scalars(b)
    ensures a == b
  {
    if a != [] && b != [] {
      FirstScalarOfUtf8(a[0], Utf8Scalars(a[1..]));
      FirstScalarOfUtf8(b[0], Utf8Scalars(b[1..]));
      assert a[0] == b[0];
      assert Utf8Scalars(a[1..]) == Utf8Scalars(a)[|Utf8Char(a[0])|..];
      assert Utf8Scalars(b[1..]) == Utf8Scalars(b)[|Utf8Char(b[0])|..];
      Utf8ScalarsInjective(a[1..], b[1..]);
    }
  }

  function UnitsOf(c: Scalar): Text {
    if c < 0x10000 then [c] else [0xD800 + (c - 0x10000) / 0x400, 0xDC00 + (c - 0x10000) % 0x400]
  }

  function Utf16(s: seq<Scalar>): Text {
    if s == [] then [] else UnitsOf(s[0]) + Utf16(s[1..])
  }

  lemma {:induction false} Utf16OfScalars(t: Text)
    requires WellFormed(t)
    ensures Utf16(Scalars(t)) == t
  {
    if t == [] {
    } else if StartsWithPair(t) {
      Utf16OfScalars(t[2..]);
      assert UnitsOf(PairValue(t[0], t[1])) == t[..2];
      assert t == t[..2] + t[2..];
    } else {
      Utf16OfScalars(t[1..]);
      assert t == [t[0]] + t[1..];
    }
  }

  /** Two texts have the same bytes exactly when they have the same scalar values. */
  lemma {:induction false} Utf8Exact(a: Text, b: Text)
    ensures Utf8(a) == Utf8(b) <==> Scalars(a) == Scalars(b)
    ensures WellFormed(a) && WellFormed(b) ==> (Utf8(a) == Utf8(b) <==> a == b)
  {
    if Utf8(a) == Utf8(b) {
      Utf8ScalarsInjective(Scalars(a), Scalars(b));
    }
    if WellFormed(a) && WellFormed(b) {
      Utf16OfScalars(a);
      Utf16OfScalars(b);
    }
  }

  /** A surrogate without a partner becomes the three bytes of U+FFFD. */
  lemma UnpairedIsReplaced(u: CodeUnit)
    requires IsHigh(u) || IsLow(u)
    ensures Utf8([u]) == [0xEF, 0xBF, 0xBD]
  {
    var t: Text := [u];
    assert t[1..] == [];
    var s: seq<Scalar> := [REPLACEMENT];
    assert Scalars(t) == s && s[1..] == [];
    assert Utf8Char(REPLACEMENT) == [0xEF, 0xBF, 0xBD];
    assert Utf8Scalars(s) == Utf8Char(REPLACEMENT) + Utf8Scalars([]);
  }

  // ---- Order ---------------------------------------------------------------

  /** The order of `Array.prototype.sort` on strings: lexicographic by code unit. */
  predicate Less(a: Text, b: Text) {
    b != [] && (a == [] || a[0] < b[0] || (a[0] == b[0] && Less(a[1..], b[1..])))
  }

  lemma {:induction false} LessTotal(a: Text, b: Text)
    ensures Less(a, b) || a == b || Less(b, a)
    ensures !(Less(a, b) && Less(b, a))
    ensures !Less(a, a)
  {
    if a != [] && b != [] {
      LessTotal(a[1..], b[1..]);
      assert a == [a[0]] + a[1..] && b == [b[0]] + b[1..];
    }
    if a != [] {
      LessTotal(a[1..], a[1..]);
    }
  }

  lemma {:induction false} LessTransitive(a: Text, b: Text, c: Text)
    requires Less(a, b) && Less(b, c)
    ensures Less(a, c)
  {
    if a != [] && a[0] == b[0] == c[0] {
      LessTransitive(a[1..], b[1..], c[1..]);
    }
  }

  /** One text comes before another if it is a proper prefix, or has the smaller unit where they first differ. */
  lemma {:induction false} LessExactly(a: Text, b: Text)
    ensures Less(a, b) <==> exists k: nat :: DiffersAt(a, b, k)
  {
    if a == [] {
      assert b != [] ==> DiffersAt(a, b, 0);
    } else if b != [] {
      LessExactly(a[1..], b[1..]);
      if a[0] < b[0] {
        assert DiffersAt(a, b, 0);
      } else if a[0] == b[0] && Less(a[1..], b[1..]) {
        var k: nat :| DiffersAt(a[1..], b[1..], k);
        assert a[..k + 1] == [a[0]] + a[1..][..k] && b[..k + 1] == [b[0]] + b[1..][..k];
        assert DiffersAt(a, b, k + 1);
      }
      if k: nat :| DiffersAt(a, b, k) {
        if k > 0 {
          assert a[..k][0] == b[..k][0];
          assert a[1..][..k - 1] == a[..k][1..] && b[1..][..k - 1] == b[..k][1..];
          assert DiffersAt(a[1..], b[1..], k - 1);
        }
      }
    }
  }

  ghost predicate DiffersAt(a: Text, b: Text, k: nat) {
    k <= |a| && k < |b| && a[..k] == b[..k] && (k == |a| || a[k] < b[k])
  }
}
