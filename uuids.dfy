/**
 * The 16-byte identifiers of github.com/google/uuid, their canonical string form
 * (UUID.String) and uuid.Parse, which the identity gate applies to the `id` claim.
 */
module Uuids {
  import opened Wrappers
  import opened Errors
  import Text

  type Byte = b: int | 0 <= b < 256

  type Uuid = s: seq<Byte> | |s| == 16 witness [0, 0, 0, 0, 0, 0, 0, 0, 0, 0, 0, 0, 0, 0, 0, 0]

  /** uuid.Nil, the zero value of a uuid.UUID. */
  const NilUuid: Uuid := [0, 0, 0, 0, 0, 0, 0, 0, 0, 0, 0, 0, 0, 0, 0, 0]

  const HexDigits := "0123456789abcdef"

  function HexChar(n: int): char
    requires 0 <= n < 16
  {
    HexDigits[n]
  }

  /** The value of one hexadecimal digit, either case; None for any other character. */
  function HexValue(c: char): (v: Option<int>)
    ensures v.Some? ==> 0 <= v.value < 16
  {
    if '0' <= c <= '9' then Some(c as int - '0' as int)
    else if 'a' <= c <= 'f' then Some(c as int - 'a' as int + 10)
    else if 'A' <= c <= 'F' then Some(c as int - 'A' as int + 10)
    else None
  }

  lemma HexValueOfHexChar(n: int)
    requires 0 <= n < 16
    ensures HexValue(HexChar(n)) == Some(n)
  {
  }

  /** hex.Encode: two lower-case digits per byte, high nibble first. */
  function EncodeHex(bs: seq<Byte>): (r: string)
    ensures |r| == 2 * |bs|
    decreases |bs|
  {
    if bs == [] then [] else [HexChar(bs[0] / 16), HexChar(bs[0] % 16)] + EncodeHex(bs[1..])
  }

  /** The byte two hexadecimal digits spell, high digit first; None if either is not a digit. */
  function PairValue(h: char, l: char): (b: Option<Byte>)
    ensures b.Some? <==> HexValue(h).Some? && HexValue(l).Some?
  {
    if HexValue(h).Some? && HexValue(l).Some? then Some(HexValue(h).value * 16 + HexValue(l).value)
    else None
  }

  lemma PairValueOfHexChars(b: Byte)
    ensures PairValue(HexChar(b / 16), HexChar(b % 16)) == Some(b)
  {
    HexValueOfHexChar(b / 16);
    HexValueOfHexChar(b % 16);
  }

  /** Pairs of hexadecimal digits read back into bytes; None for an odd length or a non-digit. */
  function DecodeHex(s: string): (r: Option<seq<Byte>>)
    ensures r.Some? ==> 2 * |r.value| == |s|
    decreases |s|
  {
    if |s| < 2 then (if s == [] then Some([]) else None)
    else
      var b, rest := PairValue(s[0], s[1]), DecodeHex(s[2..]);
      if b.Some? && rest.Some? then Some([b.value] + rest.value) else None
  }

  /** Every character of `t` is a hexadecimal digit, in either case. */
  predicate AllHex(t: string) {
    forall i :: 0 <= i < |t| ==> HexValue(t[i]).Some?
  }

  /** Re-encoding a digit's value gives the digit in lower case. */
  lemma HexCharOfValue(c: char)
    requires HexValue(c).Some?
    ensures HexChar(HexValue(c).value) == Text.ToLowerChar(c)
  {
    var v := HexValue(c).value;
    HexValueOfHexChar(v);
    assert HexValue(Text.ToLowerChar(c)) == Some(v);
    assert !Text.IsUpper(HexChar(v));
  }

  /**
   * DecodeHex accepts an even-length string exactly when every character is a digit,
   * and then the bytes it yields encode back to the string in lower case.
   */
  lemma {:induction false} DecodeHexDecides(t: string, n: nat)
    requires |t| == 2 * n
    ensures DecodeHex(t).Some? <==> AllHex(t)
    ensures DecodeHex(t).Some? ==> EncodeHex(DecodeHex(t).value) == Text.ToLower(t)
    decreases n
  {
    if n > 0 {
      var rest := t[2..];
      DecodeHexDecides(rest, n - 1);
      AllHexStep(t);
      if DecodeHex(t).Some? {
        var b := PairValue(t[0], t[1]).value;
        var bs := DecodeHex(rest).value;
        assert DecodeHex(t).value == [b] + bs;
        assert ([b] + bs)[1..] == bs;
        PairReencodes(t[0], t[1]);
        Text.ToLowerPair(t);
      }
    }
  }

  /** A string is all digits exactly when its first two characters and the rest are. */
  lemma AllHexStep(t: string)
    requires |t| >= 2
    ensures AllHex(t) <==> HexValue(t[0]).Some? && HexValue(t[1]).Some? && AllHex(t[2..])
  {
    var rest := t[2..];
    if HexValue(t[0]).Some? && HexValue(t[1]).Some? && AllHex(rest) {
      forall i | 0 <= i < |t| ensures HexValue(t[i]).Some? {
        if i >= 2 { assert t[i] == rest[i - 2]; }
      }
    }
    if AllHex(t) {
      forall i | 0 <= i < |rest| ensures HexValue(rest[i]).Some? {
        assert rest[i] == t[i + 2];
      }
    }
  }

  /** The byte two digits spell encodes back to those digits in lower case. */
  lemma PairReencodes(h: char, l: char)
    requires PairValue(h, l).Some?
    ensures var b := PairValue(h, l).value;
            HexChar(b / 16) == Text.ToLowerChar(h) && HexChar(b % 16) == Text.ToLowerChar(l)
  {
    var hv, lv := HexValue(h).value, HexValue(l).value;
    var b := PairValue(h, l).value;
    assert b == hv * 16 + lv;
    assert b / 16 == hv && b % 16 == lv;
    HexCharOfValue(h);
    HexCharOfValue(l);
  }

  lemma {:induction false} EncodeHexAppend(a: seq<Byte>, b: seq<Byte>)
    ensures EncodeHex(a + b) == EncodeHex(a) + EncodeHex(b)
    decreases |a|
  {
    if a != [] {
      assert (a + b)[1..] == a[1..] + b;
      EncodeHexAppend(a[1..], b);
    } else {
      assert a + b == b;
    }
  }

  /** Decoding the hexadecimal form of a byte string gives that byte string back. */
  lemma {:induction false} DecodeEncodeHex(bs: seq<Byte>)
    ensures DecodeHex(EncodeHex(bs)) == Some(bs)
    decreases |bs|
  {
    if bs != [] {
      var h, l := HexChar(bs[0] / 16), HexChar(bs[0] % 16);
      var tail := EncodeHex(bs[1..]);
      assert EncodeHex(bs) == [h, l] + tail;
      PairValueOfHexChars(bs[0]);
      DecodeEncodeHex(bs[1..]);
      DecodeHexPair(h, l, tail);
      assert [bs[0]] + bs[1..] == bs;
    }
  }

  /** One step of DecodeHex: a byte's two digits in front of a decodable rest. */
  lemma DecodeHexPair(h: char, l: char, rest: string)
    requires PairValue(h, l).Some? && DecodeHex(rest).Some?
    ensures DecodeHex([h, l] + rest) == Some([PairValue(h, l).value] + DecodeHex(rest).value)
  {
    var s := [h, l] + rest;
    assert s[0] == h && s[1] == l && s[2..] == rest;
  }

  /** UUID.String: xxxxxxxx-xxxx-xxxx-xxxx-xxxxxxxxxxxx in lower-case hexadecimal. */
  function ToString(u: Uuid): (r: string)
    ensures |r| == 36
    ensures r[8] == '-' && r[13] == '-' && r[18] == '-' && r[23] == '-'
  {
    EncodeHex(u[..4]) + ("-" + (EncodeHex(u[4..6]) + ("-" + (EncodeHex(u[6..8]) + ("-"
      + (EncodeHex(u[8..10]) + ("-" + EncodeHex(u[10..]))))))))
  }

  /** Cutting `x + "-" + y` at the dash gives `x` and `y` back. */
  lemma CutAtDash(x: string, y: string)
    ensures var s := x + ("-" + y);
            s[..|x|] == x && s[|x|] == '-' && s[|x| + 1..] == y
  {
    var s := x + ("-" + y);
    assert s[|x| + 1..] == y;
  }

  /** A slice of a string is the prefix of the corresponding suffix. */
  lemma SliceOfSuffix(s: string, i: nat, j: nat)
    requires i <= j <= |s|
    ensures s[i..j] == s[i..][..j - i]
  {
  }

  /** strings.EqualFold on ASCII: equal once both are lower-cased. */
  predicate EqualFold(a: string, b: string) {
    Text.ToLower(a) == Text.ToLower(b)
  }

  /** Every character is ASCII, so the string has as many UTF-8 bytes as characters. */
  predicate Ascii(s: string) {
    forall i :: 0 <= i < |s| ==> s[i] as int < 0x80
  }

  /** Hexadecimal digits are ASCII characters. */
  lemma AllHexIsAscii(t: string)
    ensures AllHex(t) ==> Ascii(t)
  {
    if AllHex(t) {
      forall i | 0 <= i < |t| ensures t[i] as int < 0x80 {
        assert HexValue(t[i]).Some?;
      }
    }
  }

  /** The 32 characters of a 36-character form outside the dash positions 8, 13, 18 and 23. */
  function Digits(s: string): (d: string)
    requires |s| == 36
    ensures |d| == 32
  {
    s[..8] + s[9..13] + s[14..18] + s[19..23] + s[24..]
  }

  /** The 8-4-4-4-12 form: dashes at 8, 13, 18 and 23, and hexadecimal digits everywhere else. */
  predicate DashedForm(s: string)
    requires |s| == 36
  {
    s[8] == '-' && s[13] == '-' && s[18] == '-' && s[23] == '-' && AllHex(Digits(s))
  }

  /** The dashed form checked position by position, as uuid.Parse's loop over the digit offsets does. */
  lemma DashedFormByPosition(s: string)
    requires |s| == 36
    ensures DashedForm(s) <==>
              && s[8] == '-' && s[13] == '-' && s[18] == '-' && s[23] == '-'
              && forall i :: 0 <= i < 36 && i != 8 && i != 13 && i != 18 && i != 23 ==> HexValue(s[i]).Some?
  {
    var d := Digits(s);
    forall i | 0 <= i < 36 && i != 8 && i != 13 && i != 18 && i != 23
      ensures s[i] == d[i - (if i < 8 then 0 else if i < 13 then 1 else if i < 18 then 2 else if i < 23 then 3 else 4)]
    {
    }
    forall j | 0 <= j < 32
      ensures d[j] == s[j + (if j < 8 then 0 else if j < 12 then 1 else if j < 16 then 2 else if j < 20 then 3 else 4)]
    {
    }
  }

  /** A dashed form is made of dashes and digits, so it is ASCII. */
  lemma DashedFormIsAscii(s: string)
    requires |s| == 36
    ensures DashedForm(s) ==> Ascii(s)
  {
    if DashedForm(s) {
      DashedFormByPosition(s);
      forall i | 0 <= i < 36 ensures s[i] as int < 0x80 {
        if i != 8 && i != 13 && i != 18 && i != 23 {
          assert HexValue(s[i]).Some?;
        }
      }
    }
  }

  /** The 32 hexadecimal digits of a 36-character form with the dashes in place. */
  function ParseDashed(s: string): (r: Result<Uuid, Error>)
    requires |s| == 36
    ensures r.Ok? <==> DashedForm(s)
    ensures r.Ok? ==> EncodeHex(r.value) == Text.ToLower(Digits(s))
    ensures r.Err? ==> r.error == InvalidUuid
  {
    if s[8] != '-' || s[13] != '-' || s[18] != '-' || s[23] != '-' then Err(InvalidUuid)
    else ParseHex32(Digits(s))
  }

  /** 32 hexadecimal digits, either case, read as the 16 bytes they spell. */
  function ParseHex32(s: string): (r: Result<Uuid, Error>)
    requires |s| == 32
    ensures r.Ok? <==> AllHex(s)
    ensures r.Ok? ==> EncodeHex(r.value) == Text.ToLower(s)
    ensures r.Err? ==> r.error == InvalidUuid
  {
    DecodeHexDecides(s, 16);
    match DecodeHex(s)
    case Some(bs) => Ok(bs)
    case None => Err(InvalidUuid)
  }

  /**
   * uuid.Parse. It accepts the canonical 36-character form, the same prefixed by
   * "urn:uuid:" (in any case), the same between two characters of which neither is
   * checked (meant to be braces), and the 32 digits alone; everything else is an error.
   * An accepted string gives the identifier whose hexadecimal form is its digits in lower case.
   * uuid.Parse counts bytes, not characters, so a string holding a non-ASCII character is
   * refused at every length: none of its UTF-8 bytes is a digit or a dash, and the unchecked
   * first and last bytes of the braced form cannot hold such a character whole.
   */
  function Parse(s: string): (r: Result<Uuid, Error>)
    ensures |s| !in {32, 36, 38, 45} ==> r == Err(InvalidUuid)
    ensures !Ascii(s) ==> r == Err(InvalidUuid)
    ensures r.Err? ==> r.error == InvalidUuid
    ensures |s| == 36 ==> (r.Ok? <==> DashedForm(s))
    ensures |s| == 36 && r.Ok? ==> EncodeHex(r.value) == Text.ToLower(Digits(s))
    ensures |s| == 45 ==> (r.Ok? <==> Ascii(s) && EqualFold(s[..9], "urn:uuid:") && DashedForm(s[9..]))
    ensures |s| == 45 && r.Ok? ==> EncodeHex(r.value) == Text.ToLower(Digits(s[9..]))
    ensures |s| == 38 ==> (r.Ok? <==> Ascii(s) && DashedForm(s[1..37]))
    ensures |s| == 38 && r.Ok? ==> EncodeHex(r.value) == Text.ToLower(Digits(s[1..37]))
    ensures |s| == 32 ==> (r.Ok? <==> AllHex(s))
    ensures |s| == 32 && r.Ok? ==> EncodeHex(r.value) == Text.ToLower(s)
  {
    if |s| == 36 then
      DashedFormIsAscii(s);
      ParseDashed(s)
    else if |s| == 45 then
      if Ascii(s) && EqualFold(s[..9], "urn:uuid:") then ParseDashed(s[9..]) else Err(InvalidUuid)
    else if |s| == 38 then
      if Ascii(s) then ParseDashed(s[1..37]) else Err(InvalidUuid)
    else if |s| == 32 then
      AllHexIsAscii(s);
      ParseHex32(s)
    else Err(InvalidUuid)
  }

  /** The five dash-separated groups of ToString, put back together, are the hexadecimal form. */
  lemma {:induction false} GroupsJoin(u: Uuid)
    ensures EncodeHex(u[..4]) + EncodeHex(u[4..6]) + EncodeHex(u[6..8]) + EncodeHex(u[8..10]) + EncodeHex(u[10..])
            == EncodeHex(u)
  {
    EncodeHexAppend(u[..4], u[4..6]);
    assert u[..4] + u[4..6] == u[..6];
    EncodeHexAppend(u[..6], u[6..8]);
    assert u[..6] + u[6..8] == u[..8];
    EncodeHexAppend(u[..8], u[8..10]);
    assert u[..8] + u[8..10] == u[..10];
    EncodeHexAppend(u[..10], u[10..]);
    assert u[..10] + u[10..] == u;
  }

  /** The groups of an 8-4-4-4 dashed string, located by the offsets ParseDashed uses. */
  lemma DashedGroups(a: string, b: string, c: string, d: string, e: string)
    requires |a| == 8 && |b| == 4 && |c| == 4 && |d| == 4
    ensures var s := a + ("-" + (b + ("-" + (c + ("-" + (d + ("-" + e)))))));
            s[..8] == a && s[9..13] == b && s[14..18] == c && s[19..23] == d && s[24..] == e
  {
    var r3 := d + ("-" + e);
    var r2 := c + ("-" + r3);
    var r1 := b + ("-" + r2);
    var s := a + ("-" + r1);
    CutAtDash(a, r1);
    CutAtDash(b, r2);
    CutAtDash(c, r3);
    CutAtDash(d, e);
    assert s[14..] == r2 by { assert s[14..] == s[9..][5..]; }
    assert s[19..] == r3 by { assert s[19..] == s[14..][5..]; }
    assert s[24..] == e by { assert s[24..] == s[19..][5..]; }
    SliceOfSuffix(s, 9, 13);
    SliceOfSuffix(s, 14, 18);
    SliceOfSuffix(s, 19, 23);
  }

  /** Removing the four dashes of ToString leaves the 32 digits ParseDashed decodes. */
  lemma DashesRemoved(u: Uuid)
    ensures Digits(ToString(u)) == EncodeHex(u)
  {
    DashedGroups(EncodeHex(u[..4]), EncodeHex(u[4..6]), EncodeHex(u[6..8]), EncodeHex(u[8..10]), EncodeHex(u[10..]));
    GroupsJoin(u);
  }

  /** Parsing the string form of an identifier gives that identifier back. */
  lemma ParseToString(u: Uuid)
    ensures Parse(ToString(u)) == Ok(u)
  {
    var s := ToString(u);
    DashesRemoved(u);
    DecodeEncodeHex(u);
    assert ParseHex32(EncodeHex(u)) == Ok(u);
    assert ParseDashed(s) == ParseHex32(EncodeHex(u));
  }

  /**
   * The braced form checks neither outer character, but both must be ASCII: a non-ASCII one
   * makes the string longer than 38 bytes, so "\u{e9}" + ToString(u) + "}" is refused.
   */
  lemma BracedNeedsAscii(u: Uuid, open: char, close: char)
    ensures Parse([open] + ToString(u) + [close]).Ok? <==> open as int < 0x80 && close as int < 0x80
  {
    var t := ToString(u);
    var s := [open] + t + [close];
    assert s[1..37] == t;
    ParseToString(u);
    DashedFormIsAscii(t);
    assert s[0] == open && s[37] == close;
    if open as int < 0x80 && close as int < 0x80 {
      forall i | 0 <= i < 38 ensures s[i] as int < 0x80 {
        if 1 <= i < 37 { assert s[i] == t[i - 1]; }
      }
    }
  }

  /** Distinct identifiers have distinct string forms. */
  lemma ToStringInjective(u: Uuid, v: Uuid)
    requires ToString(u) == ToString(v)
    ensures u == v
  {
    ParseToString(u);
    ParseToString(v);
  }
}
