/**
  The 20-byte object identifier, its 40-character hexadecimal text form, and
  the parser for an "<header><40 hex digits>\n" line that the commit parser
  uses for its `tree` and `parent` lines.
*/
module ObjectId {
  import opened Wrappers

  type Byte = b: int | 0 <= b < 256

  /** An identifier is exactly 20 bytes; no other length exists. */
  type Oid = s: seq<Byte> | |s| == 20 witness seq(20, i => 0)

  const HexLength: nat := 40

  predicate IsHexDigit(c: char) {
    '0' <= c <= '9' || 'a' <= c <= 'f' || 'A' <= c <= 'F'
  }

  /** The value of one hexadecimal digit, upper or lower case. */
  function HexValue(c: char): (v: nat)
    requires IsHexDigit(c)
    ensures v < 16
  {
    if '0' <= c <= '9' then c as int - '0' as int
    else if 'a' <= c <= 'f' then c as int - 'a' as int + 10
    else c as int - 'A' as int + 10
  }

  /** The lower-case digit that stands for `v`. */
  function LowerHexDigit(v: nat): (c: char)
    requires v < 16
    ensures IsHexDigit(c) && HexValue(c) == v
    ensures !('A' <= c <= 'F')
  {
    if v < 10 then (v + '0' as int) as char else (v - 10 + 'a' as int) as char
  }

  /** Folds an upper-case hexadecimal letter to lower case; other characters are kept. */
  function ToLowerHex(c: char): char {
    if 'A' <= c <= 'F' then (c as int - 'A' as int + 'a' as int) as char else c
  }

  function ToLowerHexText(s: string): (r: string)
    ensures |r| == |s|
  {
    seq(|s|, i requires 0 <= i < |s| => ToLowerHex(s[i]))
  }

  /** Exactly 40 hexadecimal digits, in either case. */
  predicate IsHexText(s: string) {
    |s| == HexLength && forall c | c in s :: IsHexDigit(c)
  }

  /** The 40-digit text form of an identifier: two lower-case digits per byte. */
  function FormatOid(id: Oid): (s: string)
    ensures IsHexText(s)
    ensures forall c | c in s :: !('A' <= c <= 'F')
  {
    seq(HexLength, i requires 0 <= i < HexLength =>
      LowerHexDigit(if i % 2 == 0 then id[i / 2] / 16 else id[i / 2] % 16))
  }

  /** Decodes 40 hexadecimal digits pairwise into 20 bytes; anything else is rejected. */
  function DecodeHex(s: string): (r: Option<Oid>)
    ensures r.Some? <==> IsHexText(s)
  {
    if IsHexText(s) then
      Some(seq(20, k requires 0 <= k < 20 => HexValue(s[2 * k]) * 16 + HexValue(s[2 * k + 1])))
    else
      None
  }

  /** Formatting then decoding gives back the identifier. */
  lemma DecodeFormat(id: Oid)
    ensures DecodeHex(FormatOid(id)) == Some(id)
  {
    var s := FormatOid(id);
    var d := DecodeHex(s).value;
    forall k | 0 <= k < 20 ensures d[k] == id[k] {
      var hi, lo := id[k] / 16, id[k] % 16;
      assert s[2 * k] == LowerHexDigit(hi);
      assert s[2 * k + 1] == LowerHexDigit(lo);
      assert d[k] == hi * 16 + lo;
    }
    assert d == id;
  }

  /** A byte written as two hexadecimal digits splits back into those digits. */
  lemma SplitByte(hi: nat, lo: nat)
    requires hi < 16 && lo < 16
    ensures (hi * 16 + lo) / 16 == hi && (hi * 16 + lo) % 16 == lo
  {
  }

  lemma HexValueLower(c: char)
    requires IsHexDigit(c)
    ensures LowerHexDigit(HexValue(c)) == ToLowerHex(c)
  {
  }

  /**
    Decoding then formatting gives back the text in lower case: parsing is
    case-insensitive and formatting is always lower case.
  */
  lemma FormatDecode(s: string)
    requires IsHexText(s)
    ensures FormatOid(DecodeHex(s).value) == ToLowerHexText(s)
  {
    var id := DecodeHex(s).value;
    var f := FormatOid(id);
    forall i | 0 <= i < HexLength ensures f[i] == ToLowerHexText(s)[i] {
      var k := i / 2;
      assert s[2 * k] in s && s[2 * k + 1] in s;
      var hi, lo := HexValue(s[2 * k]), HexValue(s[2 * k + 1]);
      assert id[k] == hi * 16 + lo;
      SplitByte(hi, lo);
      assert f[i] == LowerHexDigit(if i % 2 == 0 then hi else lo);
      assert s[i] == if i % 2 == 0 then s[2 * k] else s[2 * k + 1];
      HexValueLower(s[i]);
    }
  }

  /** Two texts that decode to the same identifier agree up to letter case. */
  lemma DecodeInjectiveUpToCase(s: string, t: string)
    requires IsHexText(s) && IsHexText(t)
    requires DecodeHex(s) == DecodeHex(t)
    ensures ToLowerHexText(s) == ToLowerHexText(t)
  {
    FormatDecode(s);
    FormatDecode(t);
  }

  /**
    Parses "<header><40 hex digits>\n" at `pos`: the header is a literal
    prefix (no trimming, no separator of its own), the digits may be of
    either case, and the line terminator is the single byte '\n'. On success
    the new position is one past that terminator.
  */
  function ParseOidLine(buf: string, pos: nat, header: string): (r: Option<(Oid, nat)>)
    ensures r.Some? ==> r.value.1 == pos + |header| + HexLength + 1 <= |buf|
    ensures r.Some? ==>
      var hex := buf[pos + |header|..r.value.1 - 1];
      && buf[pos..r.value.1] == header + hex + "\n"
      && IsHexText(hex)
      && FormatOid(r.value.0) == ToLowerHexText(hex)
  {
    var hexStart := pos + |header|;
    var end := hexStart + HexLength;
    if end + 1 > |buf| then None
    else if buf[pos..hexStart] != header then None
    else if buf[end] != '\n' then None
    else match DecodeHex(buf[hexStart..end])
      case None => None
      case Some(id) =>
        FormatDecode(buf[hexStart..end]);
        assert buf[pos..end + 1] == buf[pos..hexStart] + buf[hexStart..end] + [buf[end]];
        Some((id, end + 1))
  }

  /** The digits of an accepted line decode to the identifier read. */
  lemma ParseOidLineDecodes(buf: string, pos: nat, header: string, id: Oid, next: nat)
    requires ParseOidLine(buf, pos, header) == Some((id, next))
    ensures pos + |header| <= next - 1 <= |buf|
    ensures buf[pos..next] == header + buf[pos + |header|..next - 1] + "\n"
    ensures IsHexText(buf[pos + |header|..next - 1]) && DecodeHex(buf[pos + |header|..next - 1]) == Some(id)
  {
  }

  /**
    Completeness of the line parser: a header, 40 hexadecimal digits and a
    '\n' are accepted, whatever follows, and the cursor ends one past the '\n'.
  */
  lemma ParseOidLineAccepts(buf: string, pos: nat, header: string, hex: string, rest: string)
    requires pos <= |buf| && buf[pos..] == header + hex + "\n" + rest
    requires IsHexText(hex)
    ensures ParseOidLine(buf, pos, header) == Some((DecodeHex(hex).value, pos + |header| + HexLength + 1))
  {
    var hexStart := pos + |header|;
    var end := hexStart + HexLength;
    var tail := buf[pos..];
    assert |tail| == |header| + HexLength + 1 + |rest|;
    assert buf[pos..hexStart] == tail[..|header|] == header;
    assert buf[hexStart..end] == tail[|header|..|header| + HexLength] == hex;
    assert buf[end] == tail[|header| + HexLength] == '\n';
  }

  /** The canonical line for an identifier: its header, its lower-case text and '\n'. */
  function OidLine(header: string, id: Oid): (line: string)
    ensures |line| == |header| + HexLength + 1
  {
    header + FormatOid(id) + "\n"
  }

  /** Writing an identifier line and parsing it back gives the same identifier. */
  lemma OidLineRoundTrip(buf: string, pos: nat, header: string, id: Oid, line: string, rest: string, next: nat)
    requires line == OidLine(header, id)
    requires pos <= |buf| && buf[pos..] == line + rest
    requires next == pos + |line|
    ensures ParseOidLine(buf, pos, header) == Some((id, next))
  {
    DecodeFormat(id);
    ParseOidLineAccepts(buf, pos, header, FormatOid(id), rest);
  }

  /** An identifier line is read from its own bytes only: what follows it makes no difference. */
  lemma ParseOidLineExtend(buf: string, more: string, pos: nat, header: string)
    requires ParseOidLine(buf, pos, header).Some?
    ensures ParseOidLine(buf + more, pos, header) == ParseOidLine(buf, pos, header)
  {
    var ext := buf + more;
    var hexStart := pos + |header|;
    var end := hexStart + HexLength;
    assert ext[pos..hexStart] == buf[pos..hexStart];
    assert ext[hexStart..end] == buf[hexStart..end];
    assert ext[end] == buf[end];
  }
}
