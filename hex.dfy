/**
 * The text form that .NET's BitConverter.ToString gives a byte array:
 * each byte as two upper-case hexadecimal digits, consecutive bytes
 * separated by '-'; the empty array gives the empty string.
 */
module Hex {
  import opened Wrappers
  import opened Bytes

  /** The upper-case hexadecimal digit for 0 <= d < 16. */
  function Digit(d: int): (c: char)
    requires 0 <= d < 16
    ensures '0' <= c <= '9' || 'A' <= c <= 'F'
  {
    if d < 10 then ('0' as int + d) as char else ('A' as int + d - 10) as char
  }

  /** The value of an upper-case hexadecimal digit, None for any other character. */
  function DigitValue(c: char): (r: Option<int>)
    ensures r.Some? ==> 0 <= r.value < 16 && Digit(r.value) == c
  {
    if '0' <= c <= '9' then Some(c as int - '0' as int)
    else if 'A' <= c <= 'F' then Some(c as int - 'A' as int + 10)
    else None
  }

  /** One byte as its two digits, high nibble first. */
  function ByteToHex(b: byte): (s: string)
    ensures |s| == 2
  {
    [Digit(b as int / 16), Digit(b as int % 16)]
  }

  /** BitConverter.ToString(bytes). */
  function ToHexString(bs: seq<byte>): (s: string)
    ensures |s| == 0 <==> |bs| == 0
  {
    if |bs| == 0 then ""
    else if |bs| == 1 then ByteToHex(bs[0])
    else ByteToHex(bs[0]) + "-" + ToHexString(bs[1..])
  }

  /** The characters a rendering can contain. */
  predicate IsHexChar(c: char)
  {
    ('0' <= c <= '9') || ('A' <= c <= 'F') || c == '-'
  }

  /** Reads back the byte written by ByteToHex. */
  function ParseByte(s: string): (r: Option<byte>)
    requires |s| == 2
  {
    match (DigitValue(s[0]), DigitValue(s[1]))
    case (Some(h), Some(l)) => Some((16 * h + l) as byte)
    case _ => None
  }

  /** The inverse of ToHexString: None for text that is not such a rendering. */
  function ParseHex(s: string): (r: Option<seq<byte>>)
  {
    if |s| == 0 then Some([]) else ParseGroups(s)
  }

  function ParseGroups(s: string): (r: Option<seq<byte>>)
    decreases |s|
  {
    if |s| < 2 then None
    else match ParseByte(s[..2])
      case None => None
      case Some(b) =>
        if |s| == 2 then Some([b])
        else if s[2] != '-' then None
        else match ParseGroups(s[3..])
          case None => None
          case Some(rest) => Some([b] + rest)
  }

  /** The rendering of n bytes has 3n - 1 characters (none for no bytes). */
  lemma {:induction false} HexLength(bs: seq<byte>)
    ensures |ToHexString(bs)| == if |bs| == 0 then 0 else 3 * |bs| - 1
  {
    if |bs| > 1 {
      HexLength(bs[1..]);
    }
  }

  /** Byte k sits at characters 3k and 3k+1, and a '-' follows every byte but the last. */
  lemma {:induction false} HexLayout(bs: seq<byte>, k: nat)
    requires k < |bs|
    ensures |ToHexString(bs)| == 3 * |bs| - 1
    ensures ToHexString(bs)[3 * k .. 3 * k + 2] == ByteToHex(bs[k])
    ensures k + 1 < |bs| ==> ToHexString(bs)[3 * k + 2] == '-'
  {
    HexLength(bs);
    if k > 0 {
      HexLayout(bs[1..], k - 1);
      var s := ToHexString(bs);
      assert s == ByteToHex(bs[0]) + "-" + ToHexString(bs[1..]);
      assert s[3 * k .. 3 * k + 2] == ToHexString(bs[1..])[3 * (k - 1) .. 3 * (k - 1) + 2];
    }
  }

  /** Every character of a rendering is a hexadecimal digit or '-'. */
  lemma {:induction false} HexAlphabet(bs: seq<byte>)
    ensures forall i :: 0 <= i < |ToHexString(bs)| ==> IsHexChar(ToHexString(bs)[i])
  {
    if |bs| > 1 {
      HexAlphabet(bs[1..]);
      var s := ToHexString(bs);
      assert s == ByteToHex(bs[0]) + "-" + ToHexString(bs[1..]);
      forall i | 0 <= i < |s| ensures IsHexChar(s[i]) {
        if i >= 3 {
          assert s[i] == ToHexString(bs[1..])[i - 3];
        }
      }
    }
  }

  lemma ByteRoundTrip(b: byte)
    ensures ParseByte(ByteToHex(b)) == Some(b)
  {
    var s := ByteToHex(b);
    assert DigitValue(s[0]) == Some(b as int / 16);
    assert DigitValue(s[1]) == Some(b as int % 16);
  }

  /** ToHexString loses nothing: the bytes can be read back from the text. */
  lemma {:induction false} HexRoundTrip(bs: seq<byte>)
    ensures ParseHex(ToHexString(bs)) == Some(bs)
  {
    if |bs| > 0 {
      GroupsRoundTrip(bs);
    }
  }

  lemma {:induction false} GroupsRoundTrip(bs: seq<byte>)
    requires |bs| > 0
    ensures ParseGroups(ToHexString(bs)) == Some(bs)
  {
    var s := ToHexString(bs);
    ByteRoundTrip(bs[0]);
    assert s[..2] == ByteToHex(bs[0]);
    if |bs| > 1 {
      GroupsRoundTrip(bs[1..]);
      HexLength(bs[1..]);
      assert s[2] == '-';
      assert s[3..] == ToHexString(bs[1..]);
      assert [bs[0]] + bs[1..] == bs;
    } else {
      assert bs == [bs[0]];
    }
  }

  /** Distinct byte arrays render differently. */
  lemma HexInjective(a: seq<byte>, b: seq<byte>)
    requires ToHexString(a) == ToHexString(b)
    ensures a == b
  {
    HexRoundTrip(a);
    HexRoundTrip(b);
  }

  /** The example of the format: bytes 0xDE, 0xAD render as "DE-AD". */
  lemma HexExample()
    ensures ToHexString([0xDE, 0xAD]) == "DE-AD"
    ensures ToHexString([]) == ""
  {
    assert ByteToHex(0xDE) == "DE";
    assert ByteToHex(0xAD) == "AD";
  }
}
