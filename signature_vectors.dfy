/**
  The signature-line vectors: eight lines the parser accepts, each with its
  name, email, time and offset, and nine it rejects. Long vectors are
  written as the fields that make them up; the pieces join to the exact
  bytes of the vector. The timezone bound is only known to lie between
  620 and 899 minutes, so every vector holds for each such bound.
*/
module SignatureVectors {
  import opened Wrappers
  import opened Decimal
  import opened Signatures

  /**
    A whole input that is one line and its '\n', the line holding a
    signature: the parser reads that signature and the cursor ends at the
    end of the input.
  */
  lemma {:induction false} OneLineAccepted(s: string, line: string, header: string, sig: Signature, maxOffset: OffsetLimit)
    requires s == line + "\n" && '\n' !in line
    requires ParseSignatureText(line, header, maxOffset) == Some(sig)
    ensures ParseSignatureLine(s, 0, header, maxOffset) == Some((sig, |s|))
  {
    assert s[0..] == line + "\n" + "";
    ParseSignatureLineOf(s, 0, line, "", header, sig, |s|, maxOffset);
  }

  /** A whole input that is one line and its '\n', the line holding no signature: it is rejected. */
  lemma {:induction false} OneLineRejected(s: string, line: string, header: string, maxOffset: OffsetLimit)
    requires s == line + "\n" && '\n' !in line
    requires ParseSignatureText(line, header, maxOffset) == None
    ensures ParseSignatureLine(s, 0, header, maxOffset) == None
  {
    assert s[0..] == line + "\n" + "";
    ParseSignatureLineAccepts(s, 0, line, "", header, maxOffset);
  }

  /**
    A header, a name, the email in angle brackets and the time part: the
    line reads as that name and email, with the time and offset the time
    part reads as.
  */
  lemma {:induction false} IdentityLine(line: string, header: string, name: string, email: string, when: string, time: nat, offset: int, maxOffset: OffsetLimit)
    requires line == header + (name + " <" + email + ">" + when)
    requires '<' !in name && '>' !in email
    requires ParseWhen(when, maxOffset) == Some((time, offset))
    ensures ParseSignatureText(line, header, maxOffset) == Some(Signature(name, email, time, offset))
  {
    ParseSignatureTextAccepts(header, name + " <" + email + ">" + when, maxOffset);
    ParseIdentityAccepts(name, email, when, maxOffset);
  }

  /** The same with a time part that does not read: the line is rejected. */
  lemma {:induction false} IdentityLineRejected(line: string, header: string, name: string, email: string, when: string, maxOffset: OffsetLimit)
    requires line == header + (name + " <" + email + ">" + when)
    requires '<' !in name && '>' !in email
    requires ParseWhen(when, maxOffset) == None
    ensures ParseSignatureText(line, header, maxOffset) == None
  {
    ParseSignatureTextAccepts(header, name + " <" + email + ">" + when, maxOffset);
    ParseIdentityAccepts(name, email, when, maxOffset);
  }

  /** A line assembled from pieces none of which holds a '\n' holds none either. */
  lemma {:induction false} SingleLine(header: string, name: string, email: string, digits: string, zone: string)
    requires '\n' !in header && '\n' !in name && '\n' !in email && '\n' !in zone
    requires IsDigitText(digits)
    ensures '\n' !in header + (name + " <" + email + ">" + (" " + digits + " " + zone))
  {
    assert !IsDigit('\n');
    NotInConcat(name, " <", '\n');
    NotInConcat(name + " <", email, '\n');
    NotInConcat(name + " <" + email, ">", '\n');
    NotInConcat(" ", digits, '\n');
    NotInConcat(" " + digits, " ", '\n');
    NotInConcat(" " + digits + " ", zone, '\n');
    NotInConcat(name + " <" + email + ">", " " + digits + " " + zone, '\n');
    NotInConcat(header, name + " <" + email + ">" + (" " + digits + " " + zone), '\n');
  }

  /**
    The shape every accepted line has, without its '\n': header, name,
    " <", email, "> ", the digits of the time, a space, and the timezone
    field (possibly empty, possibly followed by a space). The line is a
    single line and reads as that name, email, time and offset.
  */
  lemma {:induction false} AcceptedText(line: string, header: string, name: string, email: string, digits: string, zone: string, time: nat, offset: int, maxOffset: OffsetLimit)
    requires line == header + (name + " <" + email + ">" + (" " + digits + " " + zone))
    requires '\n' !in header && '\n' !in name && '\n' !in email && '\n' !in zone
    requires '<' !in name && '>' !in email
    requires |digits| > 0 && IsDigitText(digits) && DigitsValue(digits) == time
    requires ParseTimezone(zone, maxOffset) == Some(offset)
    ensures '\n' !in line
    ensures ParseSignatureText(line, header, maxOffset) == Some(Signature(name, email, time, offset))
  {
    SingleLine(header, name, email, digits, zone);
    ParseWhenAccepts(" ", digits, zone, maxOffset);
    IdentityLine(line, header, name, email, " " + digits + " " + zone, time, offset, maxOffset);
  }

  /** An accepted line and its '\n' as the whole input: the cursor ends at the end of the input. */
  lemma {:induction false} AcceptedLine(s: string, header: string, name: string, email: string, digits: string, zone: string, time: nat, offset: int, maxOffset: OffsetLimit)
    requires s == header + (name + " <" + email + ">" + (" " + digits + " " + zone)) + "\n"
    requires '\n' !in header && '\n' !in name && '\n' !in email && '\n' !in zone
    requires '<' !in name && '>' !in email
    requires |digits| > 0 && IsDigitText(digits) && DigitsValue(digits) == time
    requires ParseTimezone(zone, maxOffset) == Some(offset)
    ensures ParseSignatureLine(s, 0, header, maxOffset) == Some((Signature(name, email, time, offset), |s|))
  {
    var line := header + (name + " <" + email + ">" + (" " + digits + " " + zone));
    AcceptedText(line, header, name, email, digits, zone, time, offset, maxOffset);
    OneLineAccepted(s, line, header, Signature(name, email, time, offset), maxOffset);
  }

  /** The same shape with a timezone the parser refuses: the line is rejected. */
  lemma {:induction false} RejectedZone(s: string, header: string, name: string, email: string, digits: string, zone: string, maxOffset: OffsetLimit)
    requires s == header + (name + " <" + email + ">" + (" " + digits + " " + zone)) + "\n"
    requires '\n' !in header && '\n' !in name && '\n' !in email && '\n' !in zone
    requires '<' !in name && '>' !in email
    requires |digits| > 0 && IsDigitText(digits)
    requires ParseTimezone(zone, maxOffset).None?
    ensures ParseSignatureLine(s, 0, header, maxOffset) == None
  {
    var line := header + (name + " <" + email + ">" + (" " + digits + " " + zone));
    SingleLine(header, name, email, digits, zone);
    ParseWhenAccepts(" ", digits, zone, maxOffset);
    IdentityLineRejected(line, header, name, email, " " + digits + " " + zone, maxOffset);
    OneLineRejected(s, line, header, maxOffset);
  }

  const LongName: string := "Vicent Marti with an " + "outrageously long name \t\t" + "which will probably " + "overflow the buffer"
  const LongEmail: string := "tanokuwithaveryvery" + "verylongemail\t\t" + "whichwillprobablyv" + "overflowtheemailbuffer" + "@gmail.com"

  /** Text that can stand as a name or an email: no angle bracket and no line break. */
  predicate Plain(t: string) {
    forall c | c in t :: c != '<' && c != '>' && c != '\n'
  }

  lemma {:induction false} PlainConcat(a: string, b: string)
    requires Plain(a) && Plain(b)
    ensures Plain(a + b)
  {
    forall c | c in a + b ensures c != '<' && c != '>' && c != '\n' {
      assert c in a || c in b;
    }
  }

  lemma LongNameChunks()
    ensures Plain("Vicent Marti with an ") && Plain("outrageously long name \t\t")
  {
  }

  lemma LongNameChunks2()
    ensures Plain("which will probably ") && Plain("overflow the buffer")
  {
  }

  lemma LongNameField()
    ensures '<' !in LongName && '\n' !in LongName
  {
    LongNameChunks();
    LongNameChunks2();
    PlainConcat("Vicent Marti with an ", "outrageously long name \t\t");
    PlainConcat("Vicent Marti with an " + "outrageously long name \t\t", "which will probably ");
    PlainConcat("Vicent Marti with an " + "outrageously long name \t\t" + "which will probably ", "overflow the buffer");
  }

  lemma LongEmailChunks()
    ensures Plain("tanokuwithaveryvery") && Plain("verylongemail\t\t")
  {
  }

  lemma LongEmailChunks2()
    ensures Plain("whichwillprobablyv") && Plain("overflowtheemailbuffer") && Plain("@gmail.com")
  {
  }

  lemma LongEmailField()
    ensures '>' !in LongEmail && '\n' !in LongEmail
  {
    LongEmailChunks();
    LongEmailChunks2();
    PlainConcat("tanokuwithaveryvery", "verylongemail\t\t");
    PlainConcat("tanokuwithaveryvery" + "verylongemail\t\t", "whichwillprobablyv");
    PlainConcat("tanokuwithaveryvery" + "verylongemail\t\t" + "whichwillprobablyv", "overflowtheemailbuffer");
    PlainConcat("tanokuwithaveryvery" + "verylongemail\t\t" + "whichwillprobablyv" + "overflowtheemailbuffer", "@gmail.com");
  }

  /** No timezone field at all: the offset is zero. */
  lemma NoTimezone(s: string, maxOffset: OffsetLimit)
    requires s == "author " + ("Vicent Marti" + " <" + "tanoku@gmail.com" + ">" + (" " + "12345" + " " + "")) + "\n"
    ensures ParseSignatureLine(s, 0, "author ", maxOffset) == Some((Signature("Vicent Marti", "tanoku@gmail.com", 12345, 0), |s|))
  {
    AcceptedLine(s,
      "author ", "Vicent Marti", "tanoku@gmail.com", "12345", "", 12345, 0, maxOffset);
  }

  /** An empty email is kept as empty. */
  lemma EmptyEmail(s: string, maxOffset: OffsetLimit)
    requires s == "author " + ("Vicent Marti" + " <" + "" + ">" + (" " + "12345" + " " + "")) + "\n"
    ensures ParseSignatureLine(s, 0, "author ", maxOffset) == Some((Signature("Vicent Marti", "", 12345, 0), |s|))
  {
    AcceptedLine(s,
      "author ", "Vicent Marti", "", "12345", "", 12345, 0, maxOffset);
  }

  /** "+1020" is ten hours and twenty minutes east: 620 minutes. */
  lemma TenHoursTwenty(s: string, maxOffset: OffsetLimit)
    requires s == "author " + ("Vicent Marti" + " <" + "tanoku@gmail.com" + ">" + (" " + "231301" + " " + "+1020")) + "\n"
    ensures ParseSignatureLine(s, 0, "author ", maxOffset) == Some((Signature("Vicent Marti", "tanoku@gmail.com", 231301, 620), |s|))
  {
    AcceptedLine(s,
      "author ", "Vicent Marti", "tanoku@gmail.com", "231301", "+1020", 231301, 620, maxOffset);
  }

  /** A long name, two tabs included, is kept whole. */
  lemma LongNameKept(s: string, maxOffset: OffsetLimit)
    requires s == "author " + (LongName + " <" + "tanoku@gmail.com" + ">" + (" " + "12345" + " " + "")) + "\n"
    ensures ParseSignatureLine(s, 0, "author ", maxOffset) == Some((Signature(LongName, "tanoku@gmail.com", 12345, 0), |s|))
  {
    LongNameField();
    AcceptedLine(s,
      "author ", LongName, "tanoku@gmail.com", "12345", "", 12345, 0, maxOffset);
  }

  /** A long email, two tabs included, is kept whole. */
  lemma LongEmailKept(s: string, maxOffset: OffsetLimit)
    requires s == "author " + ("Vicent Marti" + " <" + LongEmail + ">" + (" " + "12345" + " " + "")) + "\n"
    ensures ParseSignatureLine(s, 0, "author ", maxOffset) == Some((Signature("Vicent Marti", LongEmail, 12345, 0), |s|))
  {
    LongEmailField();
    AcceptedLine(s,
      "author ", "Vicent Marti", LongEmail, "12345", "", 12345, 0, maxOffset);
  }

  /** "+0000", followed by a space, is offset zero. */
  lemma ZeroOffset(s: string, maxOffset: OffsetLimit)
    requires s == "committer " + ("Vicent Marti" + " <" + "tanoku@gmail.com" + ">" + (" " + "123456" + " " + "+0000 ")) + "\n"
    ensures ParseSignatureLine(s, 0, "committer ", maxOffset) == Some((Signature("Vicent Marti", "tanoku@gmail.com", 123456, 0), |s|))
  {
    AcceptedLine(s,
      "committer ", "Vicent Marti", "tanoku@gmail.com", "123456", "+0000 ", 123456, 0, maxOffset);
  }

  /** "+0100" is one hour east: 60 minutes. */
  lemma OneHourEast(s: string, maxOffset: OffsetLimit)
    requires s == "committer " + ("Vicent Marti" + " <" + "tanoku@gmail.com" + ">" + (" " + "123456" + " " + "+0100 ")) + "\n"
    ensures ParseSignatureLine(s, 0, "committer ", maxOffset) == Some((Signature("Vicent Marti", "tanoku@gmail.com", 123456, 60), |s|))
  {
    AcceptedLine(s,
      "committer ", "Vicent Marti", "tanoku@gmail.com", "123456", "+0100 ", 123456, 60, maxOffset);
  }

  /** "-0100" is one hour west: -60 minutes. */
  lemma OneHourWest(s: string, maxOffset: OffsetLimit)
    requires s == "committer " + ("Vicent Marti" + " <" + "tanoku@gmail.com" + ">" + (" " + "123456" + " " + "-0100 ")) + "\n"
    ensures ParseSignatureLine(s, 0, "committer ", maxOffset) == Some((Signature("Vicent Marti", "tanoku@gmail.com", 123456, -60), |s|))
  {
    AcceptedLine(s,
      "committer ", "Vicent Marti", "tanoku@gmail.com", "123456", "-0100 ", 123456, -60, maxOffset);
  }

  /** "-1500" is fifteen hours: beyond the bound. */
  lemma FifteenHoursRejected(s: string, maxOffset: OffsetLimit)
    requires s == "committer " + ("Vicent Marti" + " <" + "tanoku@gmail.com" + ">" + (" " + "123456" + " " + "-1500 ")) + "\n"
    ensures ParseSignatureLine(s, 0, "committer ", maxOffset) == None
  {
    RejectedZone(s, "committer ", "Vicent Marti", "tanoku@gmail.com", "123456", "-1500 ", maxOffset);
  }

  /** "+0163" has 63 minutes. */
  lemma SixtyThreeMinutesRejected(s: string, maxOffset: OffsetLimit)
    requires s == "committer " + ("Vicent Marti" + " <" + "tanoku@gmail.com" + ">" + (" " + "123456" + " " + "+0163 ")) + "\n"
    ensures ParseSignatureLine(s, 0, "committer ", maxOffset) == None
  {
    RejectedZone(s, "committer ", "Vicent Marti", "tanoku@gmail.com", "123456", "+0163 ", maxOffset);
  }

  /** A line that differs from the header at a byte inside the header is rejected. */
  lemma {:induction false} HeaderMismatch(line: string, header: string, i: nat, maxOffset: OffsetLimit)
    requires i < |header| && i < |line| && line[i] != header[i]
    ensures ParseSignatureText(line, header, maxOffset) == None
  {
    if |line| >= |header| + 1 {
      assert line[..|header|][i] != header[i];
    }
  }

  /** A line of the form header, name, " <", email, ">" and a tail, with no '\n' in any piece, holds no '\n'. */
  lemma {:induction false} BracketedLine(header: string, name: string, email: string, tail: string)
    requires '\n' !in header && '\n' !in name && '\n' !in email && '\n' !in tail
    ensures '\n' !in header + (name + " <" + email + ">" + tail)
  {
    NotInConcat(name, " <", '\n');
    NotInConcat(name + " <", email, '\n');
    NotInConcat(name + " <" + email, ">", '\n');
    NotInConcat(name + " <" + email + ">", tail, '\n');
    NotInConcat(header, name + " <" + email + ">" + tail, '\n');
  }

  /** The header must match byte for byte: a doubled space after the keyword is a mismatch. */
  lemma DoubledSpaceHeaderRejected(s: string, line: string, maxOffset: OffsetLimit)
    requires line == "author " + ("Vicent Marti" + " <" + "tanoku@gmail.com" + ">" + " 12345 ")
    requires s == line + "\n"
    ensures ParseSignatureLine(s, 0, "author  ", maxOffset) == None
  {
    BracketedLine("author ", "Vicent Marti", "tanoku@gmail.com", " 12345 ");
    assert line[7] == 'V';
    HeaderMismatch(line, "author  ", 7, maxOffset);
    OneLineRejected(s, line, "author  ", maxOffset);
  }

  /** The header must match byte for byte: another keyword is a mismatch. */
  lemma OtherHeaderRejected(s: string, line: string, maxOffset: OffsetLimit)
    requires line == "author " + ("Vicent Marti" + " <" + "tanoku@gmail.com" + ">" + " 12345 ")
    requires s == line + "\n"
    ensures ParseSignatureLine(s, 0, "committer ", maxOffset) == None
  {
    BracketedLine("author ", "Vicent Marti", "tanoku@gmail.com", " 12345 ");
    assert line[0] == 'a';
    HeaderMismatch(line, "committer ", 0, maxOffset);
    OneLineRejected(s, line, "committer ", maxOffset);
  }

  /** Text after the header with no '<' has no email: the identity is rejected. */
  lemma {:induction false} NoOpeningBracket(rest: string, maxOffset: OffsetLimit)
    requires '<' !in rest
    ensures ParseIdentity(rest, maxOffset) == None
  {
    assert rest[0..] == rest;
    FindByteAbsent(rest, '<', 0);
  }

  /** A name, " <", and then no '>' anywhere: the email is never closed and the identity is rejected. */
  lemma {:induction false} NoClosingBracket(name: string, tail: string, maxOffset: OffsetLimit)
    requires '<' !in name && '>' !in tail
    ensures ParseIdentity(name + " <" + tail, maxOffset) == None
  {
    var t := name + " <" + tail;
    assert t[0..] == (name + " ") + ['<'] + tail;
    assert '<' !in name + " " by {
      NotInConcat(name, " ", '<');
    }
    FindByteAfter(t, '<', 0, name + " ", tail);
    assert t[|name| + 2..] == tail;
    FindByteAbsent(t, '>', |name| + 2);
  }

  /** Without a '<' there is no email. */
  lemma MissingEmailRejected(s: string, rest: string, maxOffset: OffsetLimit)
    requires rest == "Vicent Marti 12345 "
    requires s == "author " + rest + "\n"
    ensures ParseSignatureLine(s, 0, "author ", maxOffset) == None
  {
    assert Plain(rest);
    NotInConcat("author ", rest, '\n');
    ParseSignatureTextAccepts("author ", rest, maxOffset);
    NoOpeningBracket(rest, maxOffset);
    OneLineRejected(s, "author " + rest, "author ", maxOffset);
  }

  /** An email that is never closed by '>'. */
  lemma UnclosedEmailRejected(s: string, rest: string, maxOffset: OffsetLimit)
    requires rest == "Vicent Marti" + " <" + "broken@email 12345 "
    requires s == "author " + rest + "\n"
    ensures ParseSignatureLine(s, 0, "author ", maxOffset) == None
  {
    assert Plain("Vicent Marti") && Plain(" ") && Plain("broken@email 12345 ");
    assert '\n' !in " <";
    NotInConcat("Vicent Marti", " <", '\n');
    NotInConcat("Vicent Marti" + " <", "broken@email 12345 ", '\n');
    NotInConcat("author ", rest, '\n');
    ParseSignatureTextAccepts("author ", rest, maxOffset);
    NoClosingBracket("Vicent Marti", "broken@email 12345 ", maxOffset);
    OneLineRejected(s, "author " + rest, "author ", maxOffset);
  }

  /** A time part that is not a number, and an empty one. */
  lemma UnreadableTimes(maxOffset: OffsetLimit)
    ensures ParseWhen(" notime ", maxOffset) == None
    ensures ParseWhen("", maxOffset) == None
  {
  }

  /** A time that is not a number. */
  lemma NonNumericTimeRejected(s: string, line: string, maxOffset: OffsetLimit)
    requires line == "author " + ("Vicent Marti" + " <" + "tanoku@gmail.com" + ">" + " notime ")
    requires s == line + "\n"
    ensures ParseSignatureLine(s, 0, "author ", maxOffset) == None
  {
    BracketedLine("author ", "Vicent Marti", "tanoku@gmail.com", " notime ");
    UnreadableTimes(maxOffset);
    IdentityLineRejected(line, "author ", "Vicent Marti", "tanoku@gmail.com", " notime ", maxOffset);
    OneLineRejected(s, line, "author ", maxOffset);
  }

  /** No time at all after the email. */
  lemma MissingTimeRejected(s: string, line: string, maxOffset: OffsetLimit)
    requires line == "author " + ("Vicent Marti" + " <" + "tanoku@gmail.com" + ">" + "")
    requires s == line + "\n"
    ensures ParseSignatureLine(s, 0, "author ", maxOffset) == None
  {
    BracketedLine("author ", "Vicent Marti", "tanoku@gmail.com", "");
    UnreadableTimes(maxOffset);
    IdentityLineRejected(line, "author ", "Vicent Marti", "tanoku@gmail.com", "", maxOffset);
    OneLineRejected(s, line, "author ", maxOffset);
  }

  /** The header alone, with no '\n': there is no line to read. */
  lemma HeaderOnlyRejected(s: string, maxOffset: OffsetLimit)
    requires s == "author "
    ensures ParseSignatureLine(s, 0, "author ", maxOffset) == None
  {
    assert s[0..] == s && '\n' !in s;
    FindByteAbsent(s, '\n', 0);
  }
}
