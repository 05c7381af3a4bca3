/**
  The identifier-line vectors: eight lines the parser accepts, with the
  cursor ending at the end of the input, and nine it rejects. Each vector
  is written as its header, its digits in groups of ten, and its
  terminator; the groups join to the exact bytes of the vector.
*/
module OidVectors {
  import opened Wrappers
  import opened ObjectId

  const Hex05452: string := "05452d6349" + "abcd67aa39" + "6dfb28660d" + "765d8b2a36"
  const Hex5F4BE: string := "5F4BEFFC07" + "59261D015A" + "A63A3A8561" + "3FF2F235DE"
  const Hex1A669: string := "1A669B8AB8" + "1B5EB7D9DB" + "69562D3495" + "2A38A9B504"
  const Hex5B20D: string := "5B20DCC611" + "0FCC75D31C" + "6CEDEBD7F4" + "3ECA65B503"
  const Hex173E7: string := "173E7BF00E" + "A5C33447E9" + "9E6C125595" + "4A13026BE4"
  const Hex0545x: string := "0545xd6349" + "abcd67aa39" + "6dfb28660d" + "765d8b2a36"

  lemma {:induction false} HexText05452()
    ensures IsHexText(Hex05452)
  {
  }

  lemma {:induction false} HexText5F4BE()
    ensures IsHexText(Hex5F4BE)
  {
  }

  lemma {:induction false} HexText1A669()
    ensures IsHexText(Hex1A669)
  {
  }

  lemma {:induction false} HexText5B20D()
    ensures IsHexText(Hex5B20D)
  {
  }

  lemma {:induction false} HexText173E7()
    ensures IsHexText(Hex173E7)
  {
  }

  /**
    A header, forty hexadecimal digits and a '\n', and nothing after: the
    line is accepted, its digits are the identifier, and the cursor ends
    exactly at the end of the input.
  */
  lemma {:induction false} WholeLineAccepted(s: string, header: string, hex: string)
    requires s == header + hex + "\n" && IsHexText(hex)
    ensures ParseOidLine(s, 0, header) == Some((DecodeHex(hex).value, |s|))
  {
    assert s[0..] == header + hex + "\n" + "";
    ParseOidLineAccepts(s, 0, header, hex, "");
  }

  /** Accepted, with the cursor at the end of the input: the line of a parent. */
  lemma ParentLineAccepted()
    ensures IsHexText(Hex05452)
    ensures var s := "parent " + Hex05452 + "\n";
      ParseOidLine(s, 0, "parent ") == Some((DecodeHex(Hex05452).value, |s|))
  {
    HexText05452();
    WholeLineAccepted("parent " + Hex05452 + "\n", "parent ", Hex05452);
  }

  /** Accepted, with the cursor at the end of the input: the line of a tree. */
  lemma TreeLineAccepted()
    ensures IsHexText(Hex05452)
    ensures var s := "tree " + Hex05452 + "\n";
      ParseOidLine(s, 0, "tree ") == Some((DecodeHex(Hex05452).value, |s|))
  {
    HexText05452();
    WholeLineAccepted("tree " + Hex05452 + "\n", "tree ", Hex05452);
  }

  /** Accepted, with the cursor at the end of the input: any header, not only the ones a commit uses. */
  lemma OtherHeaderAccepted()
    ensures IsHexText(Hex05452)
    ensures var s := "random_heading " + Hex05452 + "\n";
      ParseOidLine(s, 0, "random_heading ") == Some((DecodeHex(Hex05452).value, |s|))
  {
    HexText05452();
    WholeLineAccepted("random_heading " + Hex05452 + "\n", "random_heading ", Hex05452);
  }

  /** Accepted, with the cursor at the end of the input: a header that does not end in a space: the digits follow it directly. */
  lemma StuckHeaderAccepted()
    ensures IsHexText(Hex05452)
    ensures var s := "stuck_heading" + Hex05452 + "\n";
      ParseOidLine(s, 0, "stuck_heading") == Some((DecodeHex(Hex05452).value, |s|))
  {
    HexText05452();
    WholeLineAccepted("stuck_heading" + Hex05452 + "\n", "stuck_heading", Hex05452);
  }

  /** Accepted, with the cursor at the end of the input: upper-case digits. */
  lemma UpperCaseAccepted1()
    ensures IsHexText(Hex5F4BE)
    ensures var s := "tree " + Hex5F4BE + "\n";
      ParseOidLine(s, 0, "tree ") == Some((DecodeHex(Hex5F4BE).value, |s|))
  {
    HexText5F4BE();
    WholeLineAccepted("tree " + Hex5F4BE + "\n", "tree ", Hex5F4BE);
  }

  /** Accepted, with the cursor at the end of the input: upper-case digits. */
  lemma UpperCaseAccepted2()
    ensures IsHexText(Hex1A669)
    ensures var s := "tree " + Hex1A669 + "\n";
      ParseOidLine(s, 0, "tree ") == Some((DecodeHex(Hex1A669).value, |s|))
  {
    HexText1A669();
    WholeLineAccepted("tree " + Hex1A669 + "\n", "tree ", Hex1A669);
  }

  /** Accepted, with the cursor at the end of the input: upper-case digits. */
  lemma UpperCaseAccepted3()
    ensures IsHexText(Hex5B20D)
    ensures var s := "tree " + Hex5B20D + "\n";
      ParseOidLine(s, 0, "tree ") == Some((DecodeHex(Hex5B20D).value, |s|))
  {
    HexText5B20D();
    WholeLineAccepted("tree " + Hex5B20D + "\n", "tree ", Hex5B20D);
  }

  /** Accepted, with the cursor at the end of the input: upper-case digits. */
  lemma UpperCaseAccepted4()
    ensures IsHexText(Hex173E7)
    ensures var s := "tree " + Hex173E7 + "\n";
      ParseOidLine(s, 0, "tree ") == Some((DecodeHex(Hex173E7).value, |s|))
  {
    HexText173E7();
    WholeLineAccepted("tree " + Hex173E7 + "\n", "tree ", Hex173E7);
  }

  /** Too short to hold a header, forty digits and a terminator: the missing '\n', the missing header, the header without its space, an identifier three digits short, and the empty inputs. */
  lemma ShortLinesRejected()
    ensures ParseOidLine("parent " + Hex05452, 0, "parent ") == None
    ensures ParseOidLine(Hex05452 + "\n", 0, "tree ") == None
    ensures ParseOidLine("parent" + "05452d6349" + "abcd67aa39" + "6dfb28660d" + "765d8b2a6a" + "\n", 0, "parent ") == None
    ensures ParseOidLine("parent " + "05452d6349" + "abcd67aa39" + "6dfb280d76" + "5d8b2a6" + "\n", 0, "parent ") == None
    ensures ParseOidLine("", 0, "tree ") == None
    ensures ParseOidLine("", 0, "") == None
  {
  }

  /** A doubled space after the header pushes the terminator one byte too far. */
  lemma DoubledSpaceRejected()
    ensures ParseOidLine("tree  " + Hex05452 + "\n", 0, "tree ") == None
  {
    var s := "tree  " + Hex05452 + "\n";
    assert s[45] == Hex05452[39] == '6';
  }

  /** A line of the right length whose forty digits include a byte that is not a hexadecimal digit is rejected. */
  lemma {:induction false} NonHexDigitRejected(s: string, header: string, hex: string, i: nat)
    requires s == header + hex + "\n" && |hex| == HexLength
    requires i < |hex| && !IsHexDigit(hex[i])
    ensures ParseOidLine(s, 0, header) == None
  {
    var hexStart := |header|;
    assert s[hexStart..hexStart + HexLength] == hex;
    assert hex[i] in hex;
  }

  /** The 'x' in the fifth place of the digits. */
  lemma NonHexVectorRejected()
    ensures ParseOidLine("parent " + Hex0545x + "\n", 0, "parent ") == None
  {
    assert Hex0545x[4] == 'x';
    NonHexDigitRejected("parent " + Hex0545x + "\n", "parent ", Hex0545x, 4);
  }

  /** Forty-two digits: the byte after the fortieth is not the terminator. */
  lemma LongDigitsRejected()
    ensures ParseOidLine("parent " + Hex0545x + "FF\n", 0, "parent ") == None
  {
    var s := "parent " + Hex0545x + "FF\n";
    assert s[47] == 'F';
  }
}
