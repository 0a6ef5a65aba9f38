/** Hardware addresses: the textual form "AA:BB:CC:DD:EE:FF" and its six-byte
    encoding, as both peer implementations convert them (`Peer._encode` and
    `Peer._decode`). */
module Codec {

  newtype byte = x: int | 0 <= x < 256

  /** The reserved all-ones address of the broadcast peer. */
  const BroadcastMac: string := "FF:FF:FF:FF:FF:FF"
  /** Its encoding: six all-ones bytes. */
  const AllOnesBytes: seq<byte> := [255, 255, 255, 255, 255, 255]

  // ---------------------------------------------------------------- characters

  predicate IsHexDigit(c: char) {
    '0' <= c <= '9' || 'a' <= c <= 'f' || 'A' <= c <= 'F'
  }

  /** The value of one base-16 digit, either case. */
  function HexValue(c: char): (v: int)
    requires IsHexDigit(c)
    ensures 0 <= v < 16
  {
    if '0' <= c <= '9' then c as int - '0' as int
    else if 'a' <= c <= 'f' then c as int - 'a' as int + 10
    else c as int - 'A' as int + 10
  }

  /** The lower-case digit that the `x` format code prints for a value below 16. */
  function LowerHexDigit(v: int): (c: char)
    requires 0 <= v < 16
    ensures IsHexDigit(c) && HexValue(c) == v && !('A' <= c <= 'F')
  {
    if v < 10 then ('0' as int + v) as char else ('a' as int + v - 10) as char
  }

  /** ASCII upper-casing of one character, as `str.upper` does on hex text. */
  function UpperChar(c: char): (u: char)
    ensures 'a' <= c <= 'z' ==> u as int == c as int - 32
    ensures !('a' <= c <= 'z') ==> u == c
  {
    if 'a' <= c <= 'z' then (c as int - 'a' as int + 'A' as int) as char else c
  }

  function Upper(s: string): (u: string)
    ensures |u| == |s|
    ensures forall i | 0 <= i < |s| :: u[i] == UpperChar(s[i])
  {
    seq(|s|, i requires 0 <= i < |s| => UpperChar(s[i]))
  }

  predicate IsUpper(s: string) {
    forall i | 0 <= i < |s| :: !('a' <= s[i] <= 'z')
  }

  lemma UpperIsUpper(s: string)
    ensures IsUpper(Upper(s)) && Upper(Upper(s)) == Upper(s)
  {
  }

  lemma UpperKeepsIsUpper(s: string)
    requires IsUpper(s)
    ensures Upper(s) == s
  {
  }

  // ------------------------------------------------------------ joining, splitting

  /** Python's `sep.join(parts)`: empty for no parts, otherwise the text starts
      with the first part and ends with the last. */
  function Join(sep: char, parts: seq<string>): (j: string)
    ensures |parts| == 0 ==> j == ""
    ensures |parts| >= 1 ==> |j| >= |parts[0]| && j[..|parts[0]|] == parts[0]
    ensures |parts| >= 1 ==> |j| >= |parts[|parts| - 1]| && j[|j| - |parts[|parts| - 1]|..] == parts[|parts| - 1]
    decreases |parts|
  {
    if |parts| == 0 then ""
    else if |parts| == 1 then parts[0]
    else parts[0] + [sep] + Join(sep, parts[1..])
  }

  /** Python's `s.split(sep)`: the pieces between separators, always at least one. */
  function Split(sep: char, s: string): (parts: seq<string>)
    ensures |parts| >= 1
    decreases |s|
  {
    if |s| == 0 then [""]
    else
      var rest := Split(sep, s[1..]);
      if s[0] == sep then [""] + rest
      else [[s[0]] + rest[0]] + rest[1..]
  }

  function Pow16(n: nat): (p: nat)
    ensures p >= 1
  {
    if n == 0 then 1 else 16 * Pow16(n - 1)
  }

  /** `int(part, 16)` on a string made of hexadecimal digits only: a value that
      fits in as many base-16 digits as the string has. */
  function ParseHex(part: string): (v: int)
    requires forall i | 0 <= i < |part| :: IsHexDigit(part[i])
    ensures 0 <= v < Pow16(|part|)
    decreases |part|
  {
    if |part| == 0 then 0
    else
      var high := ParseHex(part[..|part| - 1]);
      assert high * 16 + 15 <= (Pow16(|part| - 1) - 1) * 16 + 15;
      high * 16 + HexValue(part[|part| - 1])
  }

  /** Format code `02x`: two lower-case digits, zero-padded. */
  function Format02x(b: byte): (s: string)
    ensures |s| == 2 && IsHexDigit(s[0]) && IsHexDigit(s[1])
    ensures !('A' <= s[0] <= 'F') && !('A' <= s[1] <= 'F')
  {
    [LowerHexDigit(b as int / 16), LowerHexDigit(b as int % 16)]
  }

  /** The two digits of `02x` read back in base 16 as the byte. */
  lemma Format02xReadsBack(b: byte)
    ensures ParseHex(Format02x(b)) == b as int
  {
    var s := Format02x(b);
    ParseHexPair(s);
    ByteDigits(b);
  }

  // ------------------------------------------------------------ the address forms

  /** Six groups of two hexadecimal digits (either case) separated by ':'. */
  predicate WellFormedMac(s: string) {
    |s| == 17 &&
    forall i | 0 <= i < 17 :: if i % 3 == 2 then s[i] == ':' else IsHexDigit(s[i])
  }

  /** The form in which both implementations store and compare addresses. */
  predicate CanonicalMac(s: string) {
    WellFormedMac(s) && IsUpper(s)
  }

  /** The i-th two-character group of a well-formed address. */
  function Group(s: string, i: nat): string
    requires WellFormedMac(s) && i < 6
  {
    s[3 * i .. 3 * i + 2]
  }

  /** The six bytes an address stands for: group i read as two base-16 digits. */
  function Encode(s: string): (b: seq<byte>)
    requires WellFormedMac(s)
    ensures |b| == 6
  {
    seq(6, i requires 0 <= i < 6 => (HexValue(s[3 * i]) * 16 + HexValue(s[3 * i + 1])) as byte)
  }

  /** `_encode`: split the text on ':' and read every piece as base 16. */
  function SplitParse(s: string): (b: seq<byte>)
    requires WellFormedMac(s)
    ensures b == Encode(s)
  {
    var parts := Split(':', s);
    SplitWellFormed(s);
    seq(6, i requires 0 <= i < 6 => ParseHex(parts[i]) as byte)
  }

  /** `_decode`: every byte as two lower-case digits, joined by ':', upper-cased.
      The text is upper case, and empty for no bytes (`DecodeAt` gives the rest
      of its layout). */
  function Decode(b: seq<byte>): (d: string)
    ensures IsUpper(d)
    ensures |b| == 0 ==> d == ""
  {
    Upper(Join(':', seq(|b|, i requires 0 <= i < |b| => Format02x(b[i]))))
  }

  // -------------------------------------------------------------------- lemmas

  lemma {:induction false} SplitNoSep(sep: char, p: string)
    requires forall i | 0 <= i < |p| :: p[i] != sep
    ensures Split(sep, p) == [p]
    decreases |p|
  {
    if |p| > 0 {
      SplitNoSep(sep, p[1..]);
      assert [p[0]] + p[1..] == p;
    }
  }

  lemma {:induction false} SplitPrefix(sep: char, p: string, t: string)
    requires forall i | 0 <= i < |p| :: p[i] != sep
    ensures Split(sep, p + [sep] + t) == [p] + Split(sep, t)
    decreases |p|
  {
    if |p| == 0 {
      assert p + [sep] + t == [sep] + t;
      assert ([sep] + t)[1..] == t;
    } else {
      var s := p + [sep] + t;
      assert s[1..] == p[1..] + [sep] + t;
      SplitPrefix(sep, p[1..], t);
      assert [p[0]] + p[1..] == p;
    }
  }

  /** Text in the `g0:g1:...` pattern of n two-character groups. */
  predicate GroupPattern(s: string, n: nat) {
    n >= 1 && |s| == 3 * n - 1 &&
    forall i | 0 <= i < |s| :: (i % 3 == 2) == (s[i] == ':')
  }

  lemma {:induction false} SplitGroups(s: string, n: nat)
    requires GroupPattern(s, n)
    ensures |Split(':', s)| == n
    ensures forall i | 0 <= i < n :: Split(':', s)[i] == s[3 * i .. 3 * i + 2]
    decreases n
  {
    if n == 1 {
      SplitNoSep(':', s);
    } else {
      var p, t := s[..2], s[3..];
      assert s == p + [':'] + t;
      SplitPrefix(':', p, t);
      assert GroupPattern(t, n - 1) by {
        forall i | 0 <= i < |t| ensures (i % 3 == 2) == (t[i] == ':') {
          assert t[i] == s[i + 3];
        }
      }
      SplitGroups(t, n - 1);
      forall i | 0 <= i < n ensures Split(':', s)[i] == s[3 * i .. 3 * i + 2] {
        if i > 0 {
          assert Split(':', s)[i] == Split(':', t)[i - 1];
          assert t[3 * (i - 1) .. 3 * (i - 1) + 2] == s[3 * i .. 3 * i + 2];
        }
      }
    }
  }

  lemma SplitWellFormed(s: string)
    requires WellFormedMac(s)
    ensures |Split(':', s)| == 6
    ensures forall i | 0 <= i < 6 :: Split(':', s)[i] == Group(s, i)
    ensures forall i | 0 <= i < 6 :: forall j | 0 <= j < |Split(':', s)[i]| :: IsHexDigit(Split(':', s)[i][j])
    ensures forall i | 0 <= i < 6 :: ParseHex(Split(':', s)[i]) == HexValue(s[3 * i]) * 16 + HexValue(s[3 * i + 1])
  {
    assert GroupPattern(s, 6) by {
      forall i | 0 <= i < |s| ensures (i % 3 == 2) == (s[i] == ':') {
        if i % 3 != 2 { assert IsHexDigit(s[i]); }
      }
    }
    SplitGroups(s, 6);
    forall i | 0 <= i < 6
      ensures ParseHex(Group(s, i)) == HexValue(s[3 * i]) * 16 + HexValue(s[3 * i + 1])
    {
      assert (3 * i) % 3 == 0 && (3 * i + 1) % 3 == 1;
      var g := Group(s, i);
      assert g[0] == s[3 * i] && g[1] == s[3 * i + 1];
      ParseHexPair(g);
    }
  }

  lemma ParseHexPair(g: string)
    requires |g| == 2 && IsHexDigit(g[0]) && IsHexDigit(g[1])
    ensures ParseHex(g) == HexValue(g[0]) * 16 + HexValue(g[1])
  {
    assert g[..1][..0] == [];
    assert ParseHex(g[..1]) == HexValue(g[0]);
  }

  /** Splitting undoes joining, when no part contains the separator. */
  lemma {:induction false} SplitJoin(sep: char, parts: seq<string>)
    requires |parts| >= 1
    requires forall k, i | 0 <= k < |parts| && 0 <= i < |parts[k]| :: parts[k][i] != sep
    ensures Split(sep, Join(sep, parts)) == parts
    decreases |parts|
  {
    if |parts| == 1 {
      SplitNoSep(sep, parts[0]);
    } else {
      SplitJoin(sep, parts[1..]);
      SplitPrefix(sep, parts[0], Join(sep, parts[1..]));
      assert parts == [parts[0]] + parts[1..];
    }
  }

  /** Joining groups of two characters gives the `g0:g1:...` pattern, position by position. */
  lemma {:induction false} JoinPairs(parts: seq<string>)
    requires |parts| >= 1
    requires forall k | 0 <= k < |parts| :: |parts[k]| == 2
    ensures |Join(':', parts)| == 3 * |parts| - 1
    ensures forall i | 0 <= i < 3 * |parts| - 1 ::
      Join(':', parts)[i] == if i % 3 == 2 then ':' else parts[i / 3][i % 3]
    decreases |parts|
  {
    if |parts| > 1 {
      JoinPairs(parts[1..]);
      var j := Join(':', parts);
      var t := Join(':', parts[1..]);
      assert j == parts[0] + [':'] + t;
      forall i | 3 <= i < 3 * |parts| - 1
        ensures j[i] == if i % 3 == 2 then ':' else parts[i / 3][i % 3]
      {
        assert j[i] == t[i - 3];
        assert (i - 3) / 3 == i / 3 - 1 && (i - 3) % 3 == i % 3;
      }
    }
  }

  /** What `Decode` puts at position i: a separator, or the high or low digit of a byte. */
  function DecodedChar(b: seq<byte>, i: nat): char
    requires i < 3 * |b| - 1
  {
    if i % 3 == 2 then ':'
    else if i % 3 == 0 then UpperChar(LowerHexDigit(b[i / 3] as int / 16))
    else UpperChar(LowerHexDigit(b[i / 3] as int % 16))
  }

  /** Character `i` of a decoded address, for any number of bytes. */
  lemma DecodeAt(b: seq<byte>)
    requires |b| >= 1
    ensures |Decode(b)| == 3 * |b| - 1
    ensures forall i | 0 <= i < 3 * |b| - 1 :: Decode(b)[i] == DecodedChar(b, i)
  {
    var parts := seq(|b|, i requires 0 <= i < |b| => Format02x(b[i]));
    JoinPairs(parts);
    forall i | 0 <= i < 3 * |b| - 1 ensures Decode(b)[i] == DecodedChar(b, i) {
      DecodedAt(b, parts, i);
    }
  }

  lemma DecodedAt(b: seq<byte>, parts: seq<string>, i: nat)
    requires |b| >= 1 && i < 3 * |b| - 1
    requires parts == seq(|b|, i requires 0 <= i < |b| => Format02x(b[i]))
    requires |Join(':', parts)| == 3 * |parts| - 1
    requires Join(':', parts)[i] == if i % 3 == 2 then ':' else parts[i / 3][i % 3]
    ensures Decode(b)[i] == DecodedChar(b, i)
  {
    var j := Join(':', parts);
    assert Decode(b) == Upper(j);
    assert Decode(b)[i] == UpperChar(j[i]);
    if i % 3 != 2 {
      var f := Format02x(b[i / 3]);
      assert parts[i / 3] == f;
      assert j[i] == f[i % 3];
      if i % 3 == 0 {
        assert DecodedChar(b, i) == UpperChar(f[0]);
      } else {
        assert DecodedChar(b, i) == UpperChar(f[1]);
      }
    }
  }

  lemma HexDigitRoundTrip(c: char)
    requires IsHexDigit(c)
    ensures UpperChar(LowerHexDigit(HexValue(c))) == UpperChar(c)
  {
  }

  lemma ByteDigits(b: byte)
    ensures (b as int / 16) * 16 + b as int % 16 == b as int
  {
  }

  /** The decoded text of every byte sequence: empty for no bytes, otherwise one
      upper-case zero-padded pair per byte separated by ':' (17 characters for six). */
  lemma DecodeShape(b: seq<byte>)
    ensures |b| == 0 ==> Decode(b) == ""
    ensures |b| >= 1 ==> GroupPattern(Decode(b), |b|) && IsUpper(Decode(b))
    ensures |b| >= 1 ==> forall i | 0 <= i < |Decode(b)| && i % 3 != 2 :: IsHexDigit(Decode(b)[i])
    ensures |b| == 6 ==> CanonicalMac(Decode(b))
  {
    if |b| >= 1 {
      DecodeAt(b);
      var d := Decode(b);
      forall i | 0 <= i < |d| ensures (i % 3 == 2) == (d[i] == ':') && (i % 3 != 2 ==> IsHexDigit(d[i])) {
        DecodedCharShape(b, i);
      }
    }
  }

  /** A decoded character is ':' exactly at every third position, and a hex digit elsewhere. */
  lemma DecodedCharShape(b: seq<byte>, i: nat)
    requires i < 3 * |b| - 1
    ensures (i % 3 == 2) == (DecodedChar(b, i) == ':')
    ensures i % 3 != 2 ==> IsHexDigit(DecodedChar(b, i))
  {
  }

  /** Encoding the decoded text of six bytes gives the bytes back. */
  lemma EncodeDecode(b: seq<byte>)
    requires |b| == 6
    ensures WellFormedMac(Decode(b)) && Encode(Decode(b)) == b
  {
    DecodeShape(b);
    DecodeAt(b);
    var s := Decode(b);
    forall i | 0 <= i < 6 ensures Encode(s)[i] == b[i] {
      assert s[3 * i] == DecodedChar(b, 3 * i) && s[3 * i + 1] == DecodedChar(b, 3 * i + 1);
      DecodedByte(b, i);
    }
  }

  /** The two decoded digits of byte i read back as that byte. */
  lemma DecodedByte(b: seq<byte>, i: nat)
    requires i < |b|
    ensures IsHexDigit(DecodedChar(b, 3 * i)) && IsHexDigit(DecodedChar(b, 3 * i + 1))
    ensures HexValue(DecodedChar(b, 3 * i)) * 16 + HexValue(DecodedChar(b, 3 * i + 1)) == b[i] as int
  {
    assert (3 * i) % 3 == 0 && (3 * i) / 3 == i;
    assert (3 * i + 1) % 3 == 1 && (3 * i + 1) / 3 == i;
    ByteDigits(b[i]);
  }

  /** Both digits of group k survive the round trip through a byte. */
  lemma DecodeEncodeGroup(s: string, k: nat)
    requires WellFormedMac(s) && k < 6
    ensures DecodedChar(Encode(s), 3 * k) == UpperChar(s[3 * k])
    ensures DecodedChar(Encode(s), 3 * k + 1) == UpperChar(s[3 * k + 1])
  {
    var b := Encode(s);
    assert (3 * k) % 3 == 0 && (3 * k) / 3 == k;
    assert (3 * k + 1) % 3 == 1 && (3 * k + 1) / 3 == k;
    var hi, lo := HexValue(s[3 * k]), HexValue(s[3 * k + 1]);
    assert b[k] as int == hi * 16 + lo;
    assert b[k] as int / 16 == hi && b[k] as int % 16 == lo;
    HexDigitRoundTrip(s[3 * k]);
    HexDigitRoundTrip(s[3 * k + 1]);
  }

  /** Decoding the encoding of a well-formed address gives its upper-case form. */
  lemma DecodeEncode(s: string)
    requires WellFormedMac(s)
    ensures Decode(Encode(s)) == Upper(s)
  {
    var b := Encode(s);
    DecodeAt(b);
    forall i | 0 <= i < 17 ensures Decode(b)[i] == Upper(s)[i] {
      var k := i / 3;
      if i % 3 != 2 {
        DecodeEncodeGroup(s, k);
        assert i == 3 * k || i == 3 * k + 1;
      }
    }
  }

  /** Upper-casing keeps a well-formed address well formed and changes nothing in its encoding. */
  lemma UpperWellFormed(s: string)
    requires WellFormedMac(s)
    ensures CanonicalMac(Upper(s)) && Encode(Upper(s)) == Encode(s)
  {
    var u := Upper(s);
    assert WellFormedMac(u) by {
      forall i | 0 <= i < 17 ensures if i % 3 == 2 then u[i] == ':' else IsHexDigit(u[i]) {
        assert u[i] == UpperChar(s[i]);
      }
    }
    UpperIsUpper(s);
  }

  /** Two canonical addresses with the same encoding are the same text. */
  lemma EncodeInjective(a: string, b: string)
    requires CanonicalMac(a) && CanonicalMac(b) && Encode(a) == Encode(b)
    ensures a == b
  {
    DecodeEncode(a);
    DecodeEncode(b);
    UpperKeepsIsUpper(a);
    UpperKeepsIsUpper(b);
  }

  /** The reserved all-ones address, character by character. */
  lemma BroadcastChars()
    ensures |BroadcastMac| == 17
    ensures forall i | 0 <= i < 17 :: BroadcastMac[i] == if i % 3 == 2 then ':' else 'F'
  {
    var s := BroadcastMac;
    assert s == ['F', 'F', ':', 'F', 'F', ':', 'F', 'F', ':', 'F', 'F', ':', 'F', 'F', ':', 'F', 'F'];
  }

  /** An address of six "FF" groups is canonical and encodes to six all-ones bytes. */
  lemma AllOnes(s: string)
    requires |s| == 17 && forall i | 0 <= i < 17 :: s[i] == if i % 3 == 2 then ':' else 'F'
    ensures CanonicalMac(s) && Upper(s) == s
    ensures Encode(s) == AllOnesBytes
  {
    assert IsUpper(s);
    UpperKeepsIsUpper(s);
    var b := Encode(s);
    forall i | 0 <= i < 6 ensures b[i] == 255 {
      assert (3 * i) % 3 == 0 && (3 * i + 1) % 3 == 1;
    }
  }

  /** The reserved address is canonical and encodes to six all-ones bytes. */
  lemma BroadcastMacFacts()
    ensures CanonicalMac(BroadcastMac) && Upper(BroadcastMac) == BroadcastMac
    ensures Encode(BroadcastMac) == AllOnesBytes
  {
    BroadcastChars();
    AllOnes(BroadcastMac);
  }

  /** A datagram from the all-ones address names its sender as the reserved
      address text, the key the dict-based Connection deletes from its map. */
  lemma DecodeAllOnes()
    ensures Decode(AllOnesBytes) == BroadcastMac
  {
    BroadcastMacFacts();
    DecodeEncode(BroadcastMac);
  }

  /** The name both peer layers give the group holding the broadcast peer. */
  const BroadcastGroup: string := "BROADCAST"

  /** That name is already in upper case. */
  lemma BroadcastGroupUpper()
    ensures Upper(BroadcastGroup) == BroadcastGroup
  {
    var s := BroadcastGroup;
    assert s == ['B', 'R', 'O', 'A', 'D', 'C', 'A', 'S', 'T'];
    assert IsUpper(s);
    UpperKeepsIsUpper(s);
  }

  /** The receive filter's test `Decode(sender) in keys`, over keys in canonical
      form, accepts exactly the senders whose bytes are the encoding of a key. */
  lemma DecodedInKeys(keys: set<string>, sender: seq<byte>)
    requires forall k | k in keys :: CanonicalMac(k)
    ensures Decode(sender) in keys <==> exists k | k in keys && WellFormedMac(k) :: Encode(k) == sender
  {
    if Decode(sender) in keys {
      var s := Decode(sender);
      DecodeShape(sender);
      assert |sender| == 6;
      EncodeDecode(sender);
    }
    if k :| k in keys && WellFormedMac(k) && Encode(k) == sender {
      DecodeEncode(k);
      UpperKeepsIsUpper(k);
    }
  }
}
