/** Basic vocabulary of the MSPOSD decoder: fixed-width integers, the grid
    dimensions, the Python exceptions the decoder can raise, glyph constants of
    the two supported fonts, and the small Python builtins (sequence indexing,
    str.strip, bytes.decode('ascii')) that the decoder relies on. */
module Osd {

  type byte = x: int | 0 <= x < 0x100
  type u16 = x: int | 0 <= x < 0x1_0000
  type u32 = x: int | 0 <= x < 0x1_0000_0000

  /** A 16-bit glyph code of the OSD character grid. */
  type Glyph = u16

  const MAX_X: int := 60
  const MAX_Y: int := 22
  const MAX_T: int := MAX_X * MAX_Y

  /** The exceptions the modelled code can raise. */
  datatype Error =
    | StructError           // struct.unpack on too few bytes
    | ValueError            // explicit raise, or `int in bytes` with an int >= 256
    | IndexError            // sequence index out of range, or missing frame in Reader[i]
    | UnicodeDecodeError    // bytearray.decode('ascii') on a byte >= 0x80
    | SeekError             // seek to a negative position
    | NotImplementedError   // unsupported font variant

  datatype Option<+T> = None | Some(value: T)

  datatype Result<+T> = Ok(value: T) | Err(error: Error)

  /** The two font variants for which the decoder has a glyph table. */
  datatype Variant = Betaflight | Inav

  const FONT_BETAFLIGHT: int := 1
  const FONT_INAV: int := 2

  // Tag glyphs of the Betaflight font (CharsBetaflight).
  const BF_ALT: Glyph := 0x7F
  const BF_LAT: Glyph := 0x89
  const BF_LON: Glyph := 0x98
  const BF_SPEED: Glyph := 0x70

  // Tag glyphs of the iNav font (CharsInav).
  const INAV_LAT: Glyph := 0x03
  const INAV_LON: Glyph := 0x04
  const INAV_WATT: Glyph := 0x71
  const INAV_ALT: Glyph := 0x76
  const INAV_SPEED_KMPH: Glyph := 0x90
  const INAV_SPEED_MPH: Glyph := 0x91
  const INAV_SPEED_KT: Glyph := 0x92

  const CHAR_W: Glyph := 0x57      // ord('W')
  const CHAR_POINT: int := 0x2E    // ord('.')
  const CHAR_ZERO: int := 0x30     // ord('0')

  predicate IsAsciiDigit(b: int) {
    CHAR_ZERO <= b <= CHAR_ZERO + 9
  }

  /** b'0123456789.-: ', the default set of characters a value may consist of. */
  const DEFAULT_ALLOWED: set<byte> := {0x30, 0x31, 0x32, 0x33, 0x34, 0x35, 0x36, 0x37, 0x38, 0x39, 0x2E, 0x2D, 0x3A, 0x20}

  /** Frame.code_to_char: how a glyph is rendered in a text dump of the grid. */
  function CodeToChar(code: Glyph): (ch: char)
    ensures 0x20 <= code < 0x5F ==> ch as int == code
    ensures ch == '~' <==> code == 0
    ensures !(0x20 <= code < 0x5F) && code != 0 ==> ch == 'u'
    ensures 0x20 <= ch as int < 0x7F
  {
    if code == 0 then '~'
    else if 0x20 <= code < 0x5F then code as char
    else 'u'
  }

  /** Python indexing s[i]: a negative index counts from the end. */
  function PyIndex<T>(s: seq<T>, i: int): (r: Result<T>)
    ensures r.Err? <==> !(-|s| <= i < |s|)
    ensures r.Err? ==> r.error == IndexError
    ensures 0 <= i < |s| ==> r == Ok(s[i])
    ensures -|s| <= i < 0 ==> r == Ok(s[|s| + i])
  {
    if 0 <= i < |s| then Ok(s[i])
    else if -|s| <= i < 0 then Ok(s[|s| + i])
    else Err(IndexError)
  }

  /** s[::-1]. Its elements are given by ReverseAt, called where they are needed. */
  function Reverse<T>(s: seq<T>): (r: seq<T>)
    ensures |r| == |s|
  {
    seq(|s|, i requires 0 <= i < |s| => s[|s| - 1 - i])
  }

  lemma ReverseAt<T>(s: seq<T>)
    ensures forall i {:trigger Reverse(s)[i]} :: 0 <= i < |s| ==> Reverse(s)[i] == s[|s| - 1 - i]
  {
  }

  lemma ReverseIndex<T>(s: seq<T>, i: int)
    requires 0 <= i < |s|
    ensures Reverse(s)[i] == s[|s| - 1 - i]
  {
    ReverseAt(s);
  }

  /** The last x elements of the mirror image are the mirror image of the first x. */
  lemma ReverseSuffix<T>(s: seq<T>, x: nat)
    requires x <= |s|
    ensures Reverse(s)[|s| - x..] == Reverse(s[..x])
  {
    var a, b := Reverse(s)[|s| - x..], Reverse(s[..x]);
    forall i | 0 <= i < x ensures a[i] == b[i] {
      ReverseIndex(s, |s| - x + i);
      ReverseIndex(s[..x], i);
    }
  }

  /** Mirroring the first x elements and keeping x - j of them mirrors s[j..x]. */
  lemma ReversePrefix<T>(s: seq<T>, j: nat, x: nat)
    requires j <= x <= |s|
    ensures Reverse(s[..x])[..x - j] == Reverse(s[j..x])
  {
    var c, d := Reverse(s[..x])[..x - j], Reverse(s[j..x]);
    forall i | 0 <= i < x - j ensures c[i] == d[i] {
      ReverseIndex(s[..x], i);
      ReverseIndex(s[j..x], i);
    }
  }

  lemma ReverseConcat<T>(a: seq<T>, b: seq<T>)
    ensures Reverse(a + b) == Reverse(b) + Reverse(a)
  {
    ReverseAt(a + b);
    ReverseAt(a);
    ReverseAt(b);
    var l, r := Reverse(a + b), Reverse(b) + Reverse(a);
    forall i | 0 <= i < |l| ensures l[i] == r[i] {
      if i < |b| {
        assert r[i] == Reverse(b)[i];
      } else {
        assert r[i] == Reverse(a)[i - |b|];
      }
    }
  }

  /** The characters for which Python's str.isspace() holds, restricted to ASCII. */
  predicate IsPySpace(c: char) {
    c == ' ' || 0x09 <= c as int <= 0x0D || 0x1C <= c as int <= 0x1F
  }

  function TrimLeft(s: string): string {
    if s != [] && IsPySpace(s[0]) then TrimLeft(s[1..]) else s
  }

  function TrimRight(s: string): string {
    if s != [] && IsPySpace(s[|s| - 1]) then TrimRight(s[..|s| - 1]) else s
  }

  /** str.strip(): drop the leading and the trailing whitespace. What it returns is
      described by StripSpec. */
  function Strip(s: string): string {
    TrimRight(TrimLeft(s))
  }

  lemma {:induction false} TrimLeftSpec(s: string)
    ensures var r := TrimLeft(s);
      && |r| <= |s| && r == s[|s| - |r|..]
      && (r == [] || !IsPySpace(r[0]))
      && forall i :: 0 <= i < |s| - |r| ==> IsPySpace(s[i])
  {
    if s != [] && IsPySpace(s[0]) {
      var t := s[1..];
      TrimLeftSpec(t);
      var r := TrimLeft(t);
      assert TrimLeft(s) == r;
      assert t[|t| - |r|..] == s[|s| - |r|..];
      forall i | 0 <= i < |s| - |r| ensures IsPySpace(s[i]) {
        if i > 0 {
          assert s[i] == t[i - 1];
        }
      }
    }
  }

  lemma {:induction false} TrimRightSpec(s: string)
    ensures var r := TrimRight(s);
      && |r| <= |s| && r == s[..|r|]
      && (r == [] || !IsPySpace(r[|r| - 1]))
      && forall i :: |r| <= i < |s| ==> IsPySpace(s[i])
  {
    if s != [] && IsPySpace(s[|s| - 1]) {
      var t := s[..|s| - 1];
      TrimRightSpec(t);
      var r := TrimRight(t);
      assert TrimRight(s) == r;
      assert t[..|r|] == s[..|r|];
      forall i | |r| <= i < |s| ensures IsPySpace(s[i]) {
        if i < |s| - 1 {
          assert s[i] == t[i];
        }
      }
    }
  }

  /** The stripped text is the part of `s` between a run of leading and a run of
      trailing whitespace (the leading run is what TrimLeft removes), and neither
      of its ends is whitespace. */
  lemma StripSpec(s: string)
    ensures var r, i := Strip(s), |s| - |TrimLeft(s)|;
      && (r == [] || (!IsPySpace(r[0]) && !IsPySpace(r[|r| - 1])))
      && 0 <= i && i + |r| <= |s| && r == s[i..i + |r|]
      && (forall j :: 0 <= j < i ==> IsPySpace(s[j]))
      && (forall j :: i + |r| <= j < |s| ==> IsPySpace(s[j]))
  {
    var l := TrimLeft(s);
    TrimLeftSpec(s);
    TrimRightSpec(l);
    var r := TrimRight(l);
    var i := |s| - |l|;
    assert r == s[i..][..|r|];
    assert s[i..][..|r|] == s[i..i + |r|];
    forall j | i + |r| <= j < |s| ensures IsPySpace(s[j]) {
      assert s[j] == l[j - i];
    }
  }

  /** bytearray.decode('ascii'). */
  function DecodeAscii(bs: seq<int>): (r: Result<string>)
    ensures r.Ok? <==> forall i :: 0 <= i < |bs| ==> 0 <= bs[i] < 0x80
    ensures r.Err? ==> r.error == UnicodeDecodeError
    ensures r.Ok? ==> |r.value| == |bs| && forall i :: 0 <= i < |bs| ==> r.value[i] as int == bs[i]
  {
    if bs == [] then Ok([])
    else if !(0 <= bs[0] < 0x80) then Err(UnicodeDecodeError)
    else match DecodeAscii(bs[1..])
      case Err(e) => Err(e)
      case Ok(rest) => Ok([bs[0] as char] + rest)
  }

  /** Little-endian reading of the unsigned integer in `bs`. */
  function LittleEndian(bs: seq<byte>): (n: nat)
    ensures n < Pow256(|bs|)
  {
    if bs == [] then 0 else bs[0] + 0x100 * LittleEndian(bs[1..])
  }

  function Pow256(k: nat): (p: nat)
    ensures p >= 1
  {
    if k == 0 then 1 else 0x100 * Pow256(k - 1)
  }

  /** The `len` little-endian bytes of `n`. */
  function ToLittleEndian(n: nat, len: nat): (bs: seq<byte>)
    requires n < Pow256(len)
    ensures |bs| == len
    ensures LittleEndian(bs) == n
  {
    if len == 0 then [] else [n % 0x100] + ToLittleEndian(n / 0x100, len - 1)
  }

  lemma {:induction false} LittleEndianInjective(a: seq<byte>, b: seq<byte>)
    requires |a| == |b| && LittleEndian(a) == LittleEndian(b)
    ensures a == b
  {
    if a != [] {
      assert a[0] == LittleEndian(a) % 0x100 && b[0] == LittleEndian(b) % 0x100;
      LittleEndianInjective(a[1..], b[1..]);
      assert a == [a[0]] + a[1..];
      assert b == [b[0]] + b[1..];
    }
  }

  /** Reading back an encoded integer: the two functions are inverse bijections. */
  lemma ToLittleEndianOfBytes(bs: seq<byte>)
    ensures ToLittleEndian(LittleEndian(bs), |bs|) == bs
  {
    LittleEndianInjective(ToLittleEndian(LittleEndian(bs), |bs|), bs);
  }
}
