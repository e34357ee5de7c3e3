/** guid_string_to_bytes of src/adldap/ad_utils.cpp: the text form of an
    objectGUID, five hyphen-separated hex groups, turned into the 16 bytes
    the directory stores.  The first three groups are byte-reversed, the
    mixed-endian layout of section 4.1.2 of RFC 4122 as Active Directory
    stores it; the last two are kept in text order. */
module Guid {
  import opened Text

  type byte = x: int | 0 <= x < 256

  predicate IsHexDigit(c: char)
  {
    '0' <= c <= '9' || 'a' <= c <= 'f' || 'A' <= c <= 'F'
  }

  function HexDigitValue(c: char): (v: int)
    requires IsHexDigit(c)
    ensures 0 <= v < 16
  {
    if '0' <= c <= '9' then c as int - '0' as int
    else if 'a' <= c <= 'f' then c as int - 'a' as int + 10
    else c as int - 'A' as int + 10
  }

  predicate IsLowerHexDigit(c: char)
  {
    '0' <= c <= '9' || 'a' <= c <= 'f'
  }

  predicate IsLowerHex(s: string)
  {
    forall i :: 0 <= i < |s| ==> IsLowerHexDigit(s[i])
  }

  /** The lower-case hex digit of a nibble. */
  function HexChar(v: int): (c: char)
    requires 0 <= v < 16
    ensures IsLowerHexDigit(c) && IsHexDigit(c) && HexDigitValue(c) == v
  {
    if v < 10 then ('0' as int + v) as char else ('a' as int + v - 10) as char
  }

  predicate IsNibble(v: int)
  {
    0 <= v < 16
  }

  /** The values of the hex digits of `s`, in order; every other character
      is skipped, as QByteArray::fromHex skips it. */
  function HexNibbles(s: string): (ns: seq<int>)
    ensures |ns| <= |s|
    ensures forall i :: 0 <= i < |ns| ==> IsNibble(ns[i])
  {
    if |s| == 0 then []
    else (if IsHexDigit(s[0]) then [HexDigitValue(s[0])] else []) + HexNibbles(s[1..])
  }

  /** The byte with high nibble `hi` and low nibble `lo`. */
  function PackByte(hi: int, lo: int): byte
    requires IsNibble(hi) && IsNibble(lo)
  {
    hi * 16 + lo
  }

  /** Pairs of nibbles, high nibble first, as bytes. */
  function PackNibbles(ns: seq<int>): (bytes: seq<byte>)
    requires |ns| % 2 == 0
    requires forall i :: 0 <= i < |ns| ==> IsNibble(ns[i])
    ensures |bytes| == |ns| / 2
  {
    seq(|ns| / 2, i requires 0 <= i < |ns| / 2 => PackByte(ns[2 * i], ns[2 * i + 1]))
  }

  /** QByteArray::fromHex.  Digits pair up from the end, so with an odd
      count the first digit forms a byte on its own. */
  function FromHex(s: string): (bytes: seq<byte>)
    ensures |bytes| == (|HexNibbles(s)| + 1) / 2
  {
    var ns := HexNibbles(s);
    PackNibbles(if |ns| % 2 == 1 then [0] + ns else ns)
  }

  function Reverse<T>(s: seq<T>): (r: seq<T>)
    ensures |r| == |s|
    ensures forall i :: 0 <= i < |s| ==> r[i] == s[|s| - 1 - i]
  {
    if |s| == 0 then [] else Reverse(s[1..]) + [s[0]]
  }

  function Concat(segments: seq<seq<byte>>): (r: seq<byte>)
  {
    if |segments| == 0 then [] else segments[0] + Concat(segments[1..])
  }

  /** QByteArray::fromHex of each group, in order. */
  function HexSegments(groups: seq<string>): (segments: seq<seq<byte>>)
    ensures |segments| == |groups|
    ensures forall i :: 0 <= i < |groups| ==> segments[i] == FromHex(groups[i])
  {
    if |groups| == 0 then [] else [FromHex(groups[0])] + HexSegments(groups[1..])
  }

  /** Hex-decode every group, byte-reverse the first three, and concatenate
      all groups in their order.  The C++ code indexes the first three groups
      unchecked, so it needs at least two hyphens. */
  function GuidStringToBytes(guid: string): (bytes: seq<byte>)
    requires |Split(guid, '-')| >= 3
    ensures var groups := Split(guid, '-');
      bytes == Reverse(FromHex(groups[0])) + Reverse(FromHex(groups[1])) + Reverse(FromHex(groups[2]))
               + Concat(HexSegments(groups[3..]))
  {
    var groups := Split(guid, '-');
    var segments := HexSegments(groups);
    var ordered := [Reverse(segments[0]), Reverse(segments[1]), Reverse(segments[2])] + segments[3..];
    GuidLayout(groups, segments, ordered);
    Concat(ordered)
  }

  /** Concatenating after reversing the first three segments. */
  lemma GuidLayout(groups: seq<string>, segments: seq<seq<byte>>, ordered: seq<seq<byte>>)
    requires |groups| >= 3 && segments == HexSegments(groups)
    requires ordered == [Reverse(segments[0]), Reverse(segments[1]), Reverse(segments[2])] + segments[3..]
    ensures Concat(ordered) == Reverse(FromHex(groups[0])) + Reverse(FromHex(groups[1])) + Reverse(FromHex(groups[2]))
                               + Concat(HexSegments(groups[3..]))
  {
    assert segments[3..] == HexSegments(groups[3..]);
    ConcatThree(Reverse(segments[0]), Reverse(segments[1]), Reverse(segments[2]), segments[3..]);
  }

  lemma ConcatCons(a: seq<byte>, rest: seq<seq<byte>>)
    ensures Concat([a] + rest) == a + Concat(rest)
  {
    assert ([a] + rest)[1..] == rest;
  }

  lemma ConcatThree(a: seq<byte>, b: seq<byte>, c: seq<byte>, rest: seq<seq<byte>>)
    ensures Concat([a, b, c] + rest) == a + b + c + Concat(rest)
  {
    calc {
      Concat([a, b, c] + rest);
      { assert [a, b, c] + rest == [a] + ([b] + ([c] + rest)); }
      Concat([a] + ([b] + ([c] + rest)));
      { ConcatCons(a, [b] + ([c] + rest)); }
      a + Concat([b] + ([c] + rest));
      { ConcatCons(b, [c] + rest); }
      a + (b + Concat([c] + rest));
      { ConcatCons(c, rest); }
      a + (b + (c + Concat(rest)));
      a + b + c + Concat(rest);
    }
  }

  /** The high (`k == 0`) or low (`k == 1`) nibble of a byte. */
  function Nibble(b: byte, k: int): int
    requires k == 0 || k == 1
  {
    if k == 0 then b / 16 else b % 16
  }

  /** Two lower-case hex digits per byte, high nibble first: the text form
      the decoder reads back. */
  function ToHex(bytes: seq<byte>): (s: string)
    ensures |s| == 2 * |bytes|
    ensures IsLowerHex(s)
  {
    seq(2 * |bytes|, i requires 0 <= i < 2 * |bytes| => HexChar(Nibble(bytes[i / 2], i % 2)))
  }

  /** The canonical 8-4-4-4-12 groups of a 16-byte GUID, undoing the byte
      order of the decoder. */
  function GuidGroups(bytes: seq<byte>): (groups: seq<string>)
    requires |bytes| == 16
    ensures |groups| == 5
    ensures forall i :: 0 <= i < 5 ==> IsLowerHex(groups[i])
  {
    [ToHex(Reverse(bytes[..4])), ToHex(Reverse(bytes[4..6])), ToHex(Reverse(bytes[6..8])),
     ToHex(bytes[8..10]), ToHex(bytes[10..])]
  }

  function GuidBytesToString(bytes: seq<byte>): (s: string)
    requires |bytes| == 16
  {
    Join(GuidGroups(bytes), "-")
  }

  lemma {:induction false} HexNibblesConcat(a: string, b: string)
    ensures HexNibbles(a + b) == HexNibbles(a) + HexNibbles(b)
    decreases |a|
  {
    if |a| == 0 {
      assert a + b == b;
    } else {
      assert (a + b)[1..] == a[1..] + b;
      HexNibblesConcat(a[1..], b);
    }
  }

  lemma HexNibblesPair(c0: char, c1: char)
    requires IsHexDigit(c0) && IsHexDigit(c1)
    ensures HexNibbles([c0, c1]) == [HexDigitValue(c0), HexDigitValue(c1)]
  {
    assert [c0, c1][1..] == [c1];
    assert [c1][1..] == [];
  }

  /** On text made only of hex digits nothing is skipped: the i-th nibble
      is the value of the i-th character. */
  lemma {:induction false} AllHexNibbles(s: string)
    requires forall i :: 0 <= i < |s| ==> IsHexDigit(s[i])
    ensures |HexNibbles(s)| == |s|
    ensures forall i :: 0 <= i < |s| ==> HexNibbles(s)[i] == HexDigitValue(s[i])
    decreases |s|
  {
    if |s| > 0 {
      assert forall i :: 0 <= i < |s[1..]| ==> s[1..][i] == s[i + 1];
      AllHexNibbles(s[1..]);
      assert HexNibbles(s) == [HexDigitValue(s[0])] + HexNibbles(s[1..]);
    }
  }

  lemma HalfIndex(j: int)
    requires j >= 0
    ensures (2 * j) / 2 == j && (2 * j) % 2 == 0
    ensures (2 * j + 1) / 2 == j && (2 * j + 1) % 2 == 1
  {
  }

  /** The two digits ToHex writes for byte `j`. */
  lemma ToHexAt(bytes: seq<byte>, j: int)
    requires 0 <= j < |bytes|
    ensures ToHex(bytes)[2 * j] == HexChar(bytes[j] / 16)
    ensures ToHex(bytes)[2 * j + 1] == HexChar(bytes[j] % 16)
  {
    HalfIndex(j);
  }

  lemma NibblesOfByte(b: byte)
    ensures PackByte(b / 16, b % 16) == b
  {
  }

  lemma ByteOfNibbles(hi: int, lo: int)
    requires IsNibble(hi) && IsNibble(lo)
    ensures PackByte(hi, lo) / 16 == hi && PackByte(hi, lo) % 16 == lo
  {
  }

  /** Hex-decoding undoes hex-encoding. */
  lemma FromHexToHex(bytes: seq<byte>)
    ensures FromHex(ToHex(bytes)) == bytes
  {
    var s := ToHex(bytes);
    AllHexNibbles(s);
    var ns := HexNibbles(s);
    var r := FromHex(s);
    assert r == PackNibbles(ns);
    forall j | 0 <= j < |bytes| ensures r[j] == bytes[j] {
      DecodedByte(bytes, j);
    }
  }

  lemma DecodedByte(bytes: seq<byte>, j: int)
    requires 0 <= j < |bytes|
    ensures |HexNibbles(ToHex(bytes))| == 2 * |bytes|
    ensures PackNibbles(HexNibbles(ToHex(bytes)))[j] == bytes[j]
  {
    var s := ToHex(bytes);
    AllHexNibbles(s);
    var ns := HexNibbles(s);
    ToHexAt(bytes, j);
    assert ns[2 * j] == bytes[j] / 16 && ns[2 * j + 1] == bytes[j] % 16;
    NibblesOfByte(bytes[j]);
  }

  lemma HexCharOfDigit(c: char)
    requires IsLowerHexDigit(c)
    ensures HexChar(HexDigitValue(c)) == c
  {
  }

  /** Hex-encoding undoes hex-decoding of lower-case text with an even
      number of digits; with an odd number the encoder adds a leading 0. */
  lemma ToHexFromHex(h: string)
    requires IsLowerHex(h) && |h| % 2 == 0
    ensures |HexNibbles(h)| == |h|
    ensures ToHex(FromHex(h)) == h
  {
    AllHexNibbles(h);
    var t := ToHex(FromHex(h));
    forall i | 0 <= i < |h| ensures t[i] == h[i] {
      EncodedDigit(h, i);
    }
  }

  lemma EncodedDigit(h: string, i: int)
    requires IsLowerHex(h) && |h| % 2 == 0
    requires 0 <= i < |h|
    ensures |HexNibbles(h)| == |h|
    ensures ToHex(PackNibbles(HexNibbles(h)))[i] == h[i]
  {
    AllHexNibbles(h);
    var ns := HexNibbles(h);
    var p := PackNibbles(ns);
    var j := i / 2;
    assert i == 2 * j || i == 2 * j + 1;
    calc {
      ToHex(p)[i];
      HexChar(Nibble(p[j], i % 2));
      { PackedNibble(ns[2 * j], ns[2 * j + 1], i - 2 * j); }
      HexChar(ns[i]);
      HexChar(HexDigitValue(h[i]));
      { HexCharOfDigit(h[i]); }
      h[i];
    }
  }

  /** Each nibble of a packed byte reads back. */
  lemma PackedNibble(hi: int, lo: int, k: int)
    requires IsNibble(hi) && IsNibble(lo) && (k == 0 || k == 1)
    ensures Nibble(PackByte(hi, lo), k) == if k == 0 then hi else lo
  {
    ByteOfNibbles(hi, lo);
  }

  lemma ReverseReverse<T>(s: seq<T>)
    ensures Reverse(Reverse(s)) == s
  {
  }

  lemma NoHyphenInHex(s: string)
    requires IsLowerHex(s)
    ensures '-' !in s
  {
  }

  lemma ConcatPair(a: seq<byte>, b: seq<byte>)
    ensures Concat([a, b]) == a + b
  {
    calc {
      Concat([a, b]);
      { assert [a, b] == [a] + [b]; ConcatCons(a, [b]); }
      a + Concat([b]);
      { assert [b] == [b] + []; ConcatCons(b, []); }
      a + (b + Concat([]));
      a + b;
    }
  }

  /** Decoding the text of five hyphen-free groups. */
  lemma {:induction false} DecodeFiveGroups(groups: seq<string>)
    requires |groups| == 5
    requires forall i :: 0 <= i < 5 ==> '-' !in groups[i]
    ensures |Split(Join(groups, "-"), '-')| == 5
    ensures GuidStringToBytes(Join(groups, "-"))
      == Reverse(FromHex(groups[0])) + Reverse(FromHex(groups[1])) + Reverse(FromHex(groups[2]))
         + FromHex(groups[3]) + FromHex(groups[4])
  {
    SplitJoin(groups, '-');
    FiveGroupBytes(Join(groups, "-"), groups);
  }

  lemma FiveGroupBytes(guid: string, groups: seq<string>)
    requires |groups| == 5 && Split(guid, '-') == groups
    ensures GuidStringToBytes(guid)
      == Reverse(FromHex(groups[0])) + Reverse(FromHex(groups[1])) + Reverse(FromHex(groups[2]))
         + FromHex(groups[3]) + FromHex(groups[4])
  {
    var head := Reverse(FromHex(groups[0])) + Reverse(FromHex(groups[1])) + Reverse(FromHex(groups[2]));
    assert groups[3..] == [groups[3], groups[4]];
    calc {
      GuidStringToBytes(guid);
      head + Concat(HexSegments(groups[3..]));
      { TwoSegments(groups[3], groups[4]); }
      head + (FromHex(groups[3]) + FromHex(groups[4]));
    }
  }

  lemma TwoSegments(a: string, b: string)
    ensures Concat(HexSegments([a, b])) == FromHex(a) + FromHex(b)
  {
    assert HexSegments([a, b]) == [FromHex(a), FromHex(b)];
    ConcatPair(FromHex(a), FromHex(b));
  }

  lemma Reassemble(bytes: seq<byte>)
    requires |bytes| == 16
    ensures Reverse(Reverse(bytes[..4])) + Reverse(Reverse(bytes[4..6])) + Reverse(Reverse(bytes[6..8]))
            + bytes[8..10] + bytes[10..] == bytes
  {
    ReverseReverse(bytes[..4]);
    ReverseReverse(bytes[4..6]);
    ReverseReverse(bytes[6..8]);
    assert bytes == bytes[..4] + bytes[4..6] + bytes[6..8] + bytes[8..10] + bytes[10..];
  }

  /** Encoding 16 bytes as canonical text and decoding that text gives the
      bytes back. */
  lemma {:induction false} GuidRoundTrip(bytes: seq<byte>)
    requires |bytes| == 16
    ensures |Split(GuidBytesToString(bytes), '-')| == 5
    ensures GuidStringToBytes(GuidBytesToString(bytes)) == bytes
  {
    var groups := GuidGroups(bytes);
    forall i | 0 <= i < 5 ensures '-' !in groups[i] {
      NoHyphenInHex(groups[i]);
    }
    DecodeFiveGroups(groups);
    calc {
      GuidStringToBytes(GuidBytesToString(bytes));
      Reverse(FromHex(groups[0])) + Reverse(FromHex(groups[1])) + Reverse(FromHex(groups[2]))
        + FromHex(groups[3]) + FromHex(groups[4]);
      { FromHexToHex(Reverse(bytes[..4])); FromHexToHex(Reverse(bytes[4..6])); FromHexToHex(Reverse(bytes[6..8]));
        FromHexToHex(bytes[8..10]); FromHexToHex(bytes[10..]); }
      Reverse(Reverse(bytes[..4])) + Reverse(Reverse(bytes[4..6])) + Reverse(Reverse(bytes[6..8]))
        + bytes[8..10] + bytes[10..];
      { Reassemble(bytes); }
      bytes;
    }
  }

  /** The five groups of the encoding of a decoded canonical text. */
  lemma RegroupDecoded(d0: seq<byte>, d1: seq<byte>, d2: seq<byte>, d3: seq<byte>, d4: seq<byte>)
    requires |d0| == 4 && |d1| == 2 && |d2| == 2 && |d3| == 2 && |d4| == 6
    ensures GuidGroups(Reverse(d0) + Reverse(d1) + Reverse(d2) + d3 + d4)
            == [ToHex(d0), ToHex(d1), ToHex(d2), ToHex(d3), ToHex(d4)]
  {
    var bytes := Reverse(d0) + Reverse(d1) + Reverse(d2) + d3 + d4;
    assert bytes[..4] == Reverse(d0);
    assert bytes[4..6] == Reverse(d1);
    assert bytes[6..8] == Reverse(d2);
    assert bytes[8..10] == d3;
    assert bytes[10..] == d4;
    ReverseReverse(d0);
    ReverseReverse(d1);
    ReverseReverse(d2);
  }

  /** Each group of a canonical lower-case text decodes to half as many
      bytes, which encode back to the group. */
  lemma CanonicalGroups(groups: seq<string>)
    requires |groups| == 5
    requires forall i :: 0 <= i < 5 ==> IsLowerHex(groups[i])
    requires |groups[0]| == 8 && |groups[1]| == 4 && |groups[2]| == 4 && |groups[3]| == 4 && |groups[4]| == 12
    ensures |FromHex(groups[0])| == 4 && |FromHex(groups[1])| == 2 && |FromHex(groups[2])| == 2
    ensures |FromHex(groups[3])| == 2 && |FromHex(groups[4])| == 6
    ensures [ToHex(FromHex(groups[0])), ToHex(FromHex(groups[1])), ToHex(FromHex(groups[2])),
             ToHex(FromHex(groups[3])), ToHex(FromHex(groups[4]))] == groups
    ensures forall i :: 0 <= i < 5 ==> '-' !in groups[i]
  {
    ToHexFromHex(groups[0]);
    ToHexFromHex(groups[1]);
    ToHexFromHex(groups[2]);
    ToHexFromHex(groups[3]);
    ToHexFromHex(groups[4]);
    forall i | 0 <= i < 5 ensures '-' !in groups[i] {
      NoHyphenInHex(groups[i]);
    }
  }

  /** A canonical lower-case GUID text decodes to 16 bytes whose encoding is
      the same text. */
  lemma {:induction false} GuidTextRoundTrip(groups: seq<string>)
    requires |groups| == 5
    requires forall i :: 0 <= i < 5 ==> IsLowerHex(groups[i])
    requires |groups[0]| == 8 && |groups[1]| == 4 && |groups[2]| == 4 && |groups[3]| == 4 && |groups[4]| == 12
    ensures |Split(Join(groups, "-"), '-')| == 5
    ensures |GuidStringToBytes(Join(groups, "-"))| == 16
    ensures GuidBytesToString(GuidStringToBytes(Join(groups, "-"))) == Join(groups, "-")
  {
    CanonicalGroups(groups);
    DecodeFiveGroups(groups);
    var d0, d1, d2, d3, d4 := FromHex(groups[0]), FromHex(groups[1]), FromHex(groups[2]), FromHex(groups[3]), FromHex(groups[4]);
    RegroupDecoded(d0, d1, d2, d3, d4);
  }

  predicate IsHexText(s: string)
  {
    forall i :: 0 <= i < |s| ==> IsHexDigit(s[i])
  }

  /** A group of `n` hex digits, in either case, decodes to `(n + 1) / 2`
      bytes. */
  lemma HexGroupLength(s: string)
    requires IsHexText(s)
    ensures |FromHex(s)| == (|s| + 1) / 2
    ensures '-' !in s
  {
    AllHexNibbles(s);
  }

  /** Any 8-4-4-4-12 text of hex digits, upper or lower case, decodes to
      exactly 16 bytes. */
  lemma {:induction false} GuidTextLength(groups: seq<string>)
    requires |groups| == 5
    requires forall i :: 0 <= i < 5 ==> IsHexText(groups[i])
    requires |groups[0]| == 8 && |groups[1]| == 4 && |groups[2]| == 4 && |groups[3]| == 4 && |groups[4]| == 12
    ensures |Split(Join(groups, "-"), '-')| == 5
    ensures |GuidStringToBytes(Join(groups, "-"))| == 16
  {
    HexGroupLength(groups[0]);
    HexGroupLength(groups[1]);
    HexGroupLength(groups[2]);
    HexGroupLength(groups[3]);
    HexGroupLength(groups[4]);
    DecodeFiveGroups(groups);
    DecodedLength(FromHex(groups[0]), FromHex(groups[1]), FromHex(groups[2]), FromHex(groups[3]), FromHex(groups[4]));
  }

  lemma DecodedLength(d0: seq<byte>, d1: seq<byte>, d2: seq<byte>, d3: seq<byte>, d4: seq<byte>)
    ensures |Reverse(d0) + Reverse(d1) + Reverse(d2) + d3 + d4| == |d0| + |d1| + |d2| + |d3| + |d4|
  {
  }

  /** With an odd number of digits the first one stands alone as a byte. */
  lemma OddDigitsExample()
    ensures FromHex("abc") == [0x0a, 0xbc]
  {
    AllHexNibbles("abc");
    var ns := [0] + HexNibbles("abc");
    assert ns == [0, 10, 11, 12];
    var r := FromHex("abc");
    assert r == PackNibbles(ns);
    assert r[0] == PackByte(0, 10) && r[1] == PackByte(11, 12);
  }

  /** Characters that are not hex digits are skipped. */
  lemma SkipsNonHexExample()
    ensures FromHex("{ab}") == [0xab]
  {
    HexNibblesPair('a', 'b');
    HexNibblesConcat("{", "ab}");
    HexNibblesConcat("ab", "}");
    assert "{ab}" == "{" + "ab}";
    assert "ab}" == "ab" + "}";
    assert "{"[1..] == "" && "}"[1..] == "";
    assert HexNibbles("{") == [] && HexNibbles("}") == [];
    var r := FromHex("{ab}");
    assert r == PackNibbles([10, 11]);
    assert r[0] == PackByte(10, 11);
  }
}
