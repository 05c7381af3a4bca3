/**
  An author or committer line: "<header><name> <<email>> <time> [+-HHMM]\n".
  The parser yields the name, the email, the timestamp in seconds and the
  timezone offset in minutes; the writer produces the canonical line.
*/
module Signatures {
  import opened Wrappers
  import opened Decimal

  /** Who made a commit and when: `offset` is in minutes east of UTC. */
  datatype Signature = Signature(name: string, email: string, time: nat, offset: int)

  /**
    The largest timezone magnitude, in minutes, that the parser accepts.
    Its exact value is not pinned down: +10:20 must be accepted and 15:00
    rejected, so every parser here is stated for any bound in between.
  */
  type OffsetLimit = m: nat | 620 <= m < 900 witness 620

  /** The first index at or after `from` that holds `c`, or |s| if there is none. */
  function FindByte(s: string, c: char, from: nat): (i: nat)
    requires from <= |s|
    ensures from <= i <= |s|
    ensures i < |s| ==> s[i] == c
    decreases |s| - from
  {
    if from == |s| || s[from] == c then from else FindByte(s, c, from + 1)
  }

  /** The search stops at the first occurrence: `c` appears nowhere before the result. */
  lemma {:induction false} FindByteFirst(s: string, c: char, from: nat, j: nat)
    requires from <= j && from <= |s| && j < FindByte(s, c, from)
    ensures s[j] != c
    decreases |s| - from
  {
    if j > from {
      FindByteFirst(s, c, from + 1, j);
    }
  }

  /** The stretch the search skipped, as a sequence, does not contain `c`. */
  lemma {:induction false} FindByteSkipped(s: string, c: char, from: nat, to: nat)
    requires from <= to <= |s| && to <= FindByte(s, c, from)
    ensures c !in s[from..to]
  {
    forall k | 0 <= k < to - from ensures s[from..to][k] != c {
      FindByteFirst(s, c, from, from + k);
    }
  }

  /** A search over a stretch without `c` runs to the end. */
  lemma {:induction false} FindByteAbsent(s: string, c: char, from: nat)
    requires from <= |s| && c !in s[from..]
    ensures FindByte(s, c, from) == |s|
    decreases |s| - from
  {
    if from < |s| {
      assert s[from] == s[from..][0];
      assert s[from + 1..] == s[from..][1..];
      FindByteAbsent(s, c, from + 1);
    }
  }

  /** The search finds the first `c` at or after `from`. */
  lemma {:induction false} FindByteAt(s: string, c: char, from: nat, j: nat)
    requires from <= j < |s| && s[j] == c
    requires forall k | from <= k < j :: s[k] != c
    ensures FindByte(s, c, from) == j
    decreases j - from
  {
    if from < j {
      FindByteAt(s, c, from + 1, j);
    }
  }

  /** When `c` first appears after `prefix`, the search stops right there. */
  lemma {:induction false} FindByteAfter(s: string, c: char, from: nat, prefix: string, rest: string)
    requires from <= |s| && s[from..] == prefix + [c] + rest && c !in prefix
    ensures FindByte(s, c, from) == from + |prefix|
  {
    var at := from + |prefix|;
    assert s[at] == s[from..][|prefix|] == c;
    forall k | from <= k < at ensures s[k] != c {
      assert s[k] == s[from..][k - from] == prefix[k - from];
    }
    FindByteAt(s, c, from, at);
  }

  predicate IsSign(c: char) {
    c == '+' || c == '-'
  }

  /**
    The timezone: the rest of the line after the space that follows the
    timestamp. An empty rest means offset 0; otherwise a sign and exactly four
    digits HHMM, then anything. MM must be below 60 and HH*60+MM at most
    `maxOffset`.
  */
  function ParseTimezone(z: string, maxOffset: OffsetLimit): (r: Option<int>)
    ensures r.Some? ==> -(maxOffset as int) <= r.value <= maxOffset
  {
    if z == [] then Some(0)
    else if |z| < 5 || !IsSign(z[0]) then None
    else if !IsDigit(z[1]) || !IsDigit(z[2]) || !IsDigit(z[3]) || !IsDigit(z[4]) then None
    else if |z| > 5 && IsDigit(z[5]) then None
    else
      var hours := DigitValue(z[1]) * 10 + DigitValue(z[2]);
      var minutes := DigitValue(z[3]) * 10 + DigitValue(z[4]);
      if minutes >= 60 then None
      else if hours * 60 + minutes > maxOffset then None
      else Some(if z[0] == '-' then -(hours * 60 + minutes) else hours * 60 + minutes)
  }

  /**
    What follows the '>' that closes the email: an optional space, a
    non-empty run of digits (the timestamp), a required space, then the
    timezone.
  */
  function ParseWhen(t: string, maxOffset: OffsetLimit): (r: Option<(nat, int)>)
    ensures r.Some? ==> -(maxOffset as int) <= r.value.1 <= maxOffset
  {
    var start := if |t| > 0 && t[0] == ' ' then 1 else 0;
    var n := DigitRun(t, start);
    if n == 0 then None
    else if start + n == |t| || t[start + n] != ' ' then None
    else
      DigitRunText(t, start);
      match ParseTimezone(t[start + n + 1..], maxOffset)
      case None => None
      case Some(offset) => Some((DigitsValue(t[start..start + n]), offset))
  }

  /**
    Where the angle brackets of a signature line are, after its header: `lt`
    is the first '<', which must not be the first byte and must follow a
    space (the name before that space may be empty), and `gt` the first '>'
    after it.
  */
  function ScanIdentity(t: string): (r: Option<(nat, nat)>)
    ensures r.Some? ==> var (lt, gt) := r.value;
      && 0 < lt < gt < |t| && t[lt - 1] == ' ' && t[lt] == '<' && t[gt] == '>'
  {
    var lt := FindByte(t, '<', 0);
    if lt == |t| || lt == 0 || t[lt - 1] != ' ' then None
    else
      var gt := FindByte(t, '>', lt + 1);
      if gt == |t| then None else Some((lt, gt))
  }

  /**
    A signature line after its header: the name runs up to the space before
    the first '<', the email from there to the first '>', and the timestamp
    and timezone follow.
  */
  function ParseIdentity(t: string, maxOffset: OffsetLimit): (r: Option<Signature>)
    ensures r.Some? ==> -(maxOffset as int) <= r.value.offset <= maxOffset
  {
    match ScanIdentity(t)
    case None => None
    case Some((lt, gt)) =>
      match ParseWhen(t[gt + 1..], maxOffset)
      case None => None
      case Some(when) => Some(Signature(t[..lt - 1], t[lt + 1..gt], when.0, when.1))
  }

  /**
    One signature line without its terminator. The header must match byte
    for byte and leave something after it.
  */
  function ParseSignatureText(line: string, header: string, maxOffset: OffsetLimit): (r: Option<Signature>)
    ensures r.Some? ==> |header| < |line| && line[..|header|] == header
    ensures r.Some? ==> -(maxOffset as int) <= r.value.offset <= maxOffset
  {
    if |line| < |header| + 1 || line[..|header|] != header then None
    else ParseIdentity(line[|header|..], maxOffset)
  }

  /**
    A signature line at `pos`: everything up to the first '\n' is the line,
    and the cursor ends one past that '\n'. A buffer with no '\n' left is
    rejected.
  */
  function ParseSignatureLine(buf: string, pos: nat, header: string, maxOffset: OffsetLimit): (r: Option<(Signature, nat)>)
    requires pos <= |buf|
    ensures r.Some? ==> pos < r.value.1 <= |buf| && buf[r.value.1 - 1] == '\n'
  {
    var lineEnd := FindByte(buf, '\n', pos);
    if lineEnd == |buf| then None
    else
      match ParseSignatureText(buf[pos..lineEnd], header, maxOffset)
      case None => None
      case Some(sig) => Some((sig, lineEnd + 1))
  }

  /**
    A timezone as the writer emits it: the sign, then the hours and the
    minutes of the magnitude, each as at least two digits.
  */
  function FormatTimezone(offset: int): (z: string)
    ensures |z| >= 5 && IsSign(z[0]) && IsDigitText(z[1..])
  {
    var magnitude := if offset < 0 then -offset else offset;
    [if offset < 0 then '-' else '+'] + PadTwo(magnitude / 60) + PadTwo(magnitude % 60)
  }

  /** What the writer puts after the '>' that closes the email. */
  function WhenText(time: nat, offset: int): (t: string)
  {
    " " + DecimalText(time) + " " + FormatTimezone(offset)
  }

  /** A signature the writer can produce and the parser read back. */
  predicate WellFormed(sig: Signature, maxOffset: OffsetLimit) {
    && '<' !in sig.name && '\n' !in sig.name
    && '>' !in sig.email && '\n' !in sig.email
    && -(maxOffset as int) <= sig.offset <= maxOffset
  }

  /** What the writer emits between the header and the terminating '\n'. */
  function IdentityText(sig: Signature): (t: string)
  {
    sig.name + " <" + sig.email + ">" + WhenText(sig.time, sig.offset)
  }

  /** The whole signature line the writer emits, terminator included. */
  function FormatSignatureLine(header: string, sig: Signature): (line: string)
    ensures |line| > 0 && line[|line| - 1] == '\n'
  {
    header + IdentityText(sig) + "\n"
  }

  /** Every offset within the bound survives formatting and parsing. */
  lemma {:induction false} TimezoneRoundTrip(offset: int, maxOffset: OffsetLimit)
    requires -(maxOffset as int) <= offset <= maxOffset
    ensures ParseTimezone(FormatTimezone(offset), maxOffset) == Some(offset)
  {
    var magnitude := if offset < 0 then -offset else offset;
    var hours, minutes := magnitude / 60, magnitude % 60;
    var z := FormatTimezone(offset);
    PadTwoDigits(hours);
    PadTwoDigits(minutes);
    assert z == [z[0], DigitChar(hours / 10), DigitChar(hours % 10), DigitChar(minutes / 10), DigitChar(minutes % 10)];
    assert DigitValue(z[1]) * 10 + DigitValue(z[2]) == hours;
    assert DigitValue(z[3]) * 10 + DigitValue(z[4]) == minutes;
    assert (magnitude / 60) * 60 + magnitude % 60 == magnitude;
  }

  /**
    Everything the timezone parser accepts, other than the empty field, is
    a sign and four digits HHMM, not followed by a fifth digit, with MM
    below 60 and HH * 60 + MM within the bound; the offset is that many
    minutes, negative after '-'.
  */
  lemma {:induction false} ParseTimezoneSound(z: string, maxOffset: OffsetLimit)
    requires z != [] && ParseTimezone(z, maxOffset).Some?
    ensures |z| >= 5 && IsSign(z[0]) && IsDigitText(z[1..5]) && (|z| == 5 || !IsDigit(z[5]))
    ensures DigitsValue(z[3..5]) < 60
    ensures var magnitude := DigitsValue(z[1..3]) * 60 + DigitsValue(z[3..5]);
      && magnitude <= maxOffset
      && ParseTimezone(z, maxOffset).value == if z[0] == '-' then -magnitude else magnitude
  {
    assert z[1..5] == [z[1], z[2], z[3], z[4]];
    assert z[1..3] == [z[1], z[2]] && z[3..5] == [z[3], z[4]];
    TwoDigitsValue(z[1..3]);
    TwoDigitsValue(z[3..5]);
  }

  /**
    The empty field reads as offset 0. A sign and four digits HHMM, followed
    by anything that does not start with a digit, read as HH * 60 + MM
    minutes, negative after '-', unless MM is 60 or more or the magnitude
    exceeds the bound.
  */
  lemma {:induction false} ParseTimezoneAccepts(sign: char, digits: string, rest: string, maxOffset: OffsetLimit)
    requires IsSign(sign) && |digits| == 4 && IsDigitText(digits)
    requires rest == [] || !IsDigit(rest[0])
    ensures ParseTimezone("", maxOffset) == Some(0)
    ensures var magnitude := DigitsValue(digits[..2]) * 60 + DigitsValue(digits[2..]);
      ParseTimezone([sign] + digits + rest, maxOffset)
        == if DigitsValue(digits[2..]) >= 60 || magnitude > maxOffset then None
           else Some(if sign == '-' then -magnitude else magnitude)
  {
    var z := [sign] + digits + rest;
    assert digits[0] in digits && digits[1] in digits && digits[2] in digits && digits[3] in digits;
    assert z[0] == sign && z[1] == digits[0] && z[2] == digits[1] && z[3] == digits[2] && z[4] == digits[3];
    assert |z| > 5 ==> z[5] == rest[0];
    assert digits[..2] == [digits[0], digits[1]] && digits[2..] == [digits[2], digits[3]];
    TwoDigitsValue(digits[..2]);
    TwoDigitsValue(digits[2..]);
  }

  /**
    An optional space, a run of digits, a space and a timezone field: the
    timestamp is the value of the digits and the offset is whatever the
    timezone parser makes of the rest.
  */
  lemma {:induction false} ParseWhenAccepts(lead: string, digits: string, zone: string, maxOffset: OffsetLimit)
    requires lead == "" || lead == " "
    requires |digits| > 0 && IsDigitText(digits)
    ensures ParseWhen(lead + digits + " " + zone, maxOffset)
      == if ParseTimezone(zone, maxOffset).None? then None
         else Some((DigitsValue(digits), ParseTimezone(zone, maxOffset).value))
  {
    var t := lead + digits + " " + zone;
    var start := |lead|;
    assert digits[0] in digits;
    assert t[0] == if lead == "" then digits[0] else ' ';
    assert t[start..] == digits + (" " + zone);
    DigitRunOf(t, start, digits, " " + zone);
    assert t[start..start + |digits|] == digits;
    assert t[start + |digits|] == ' ';
    assert t[start + |digits| + 1..] == zone;
  }

  /**
    Everything the time parser accepts has the shape that `ParseWhenAccepts`
    describes: an optional space, a non-empty run of digits whose value is
    the time, a space, and a timezone field that reads as the offset.
  */
  lemma {:induction false} ParseWhenSound(t: string, time: nat, offset: int, maxOffset: OffsetLimit)
    returns (lead: string, digits: string, zone: string)
    requires ParseWhen(t, maxOffset) == Some((time, offset))
    ensures lead == "" || lead == " "
    ensures t == lead + digits + " " + zone
    ensures |digits| > 0 && IsDigitText(digits) && DigitsValue(digits) == time
    ensures ParseTimezone(zone, maxOffset) == Some(offset)
  {
    var start := if |t| > 0 && t[0] == ' ' then 1 else 0;
    var n := DigitRun(t, start);
    DigitRunText(t, start);
    lead := t[..start];
    digits := t[start..start + n];
    zone := t[start + n + 1..];
    assert t[start + n] == ' ';
    assert t == t[..start] + t[start..start + n] + [t[start + n]] + t[start + n + 1..];
  }

  /** The time part the writer emits reads back as the same time and offset. */
  lemma {:induction false} WhenRoundTrip(time: nat, offset: int, maxOffset: OffsetLimit)
    requires -(maxOffset as int) <= offset <= maxOffset
    ensures ParseWhen(WhenText(time, offset), maxOffset) == Some((time, offset))
  {
    ParseWhenAccepts(" ", DecimalText(time), FormatTimezone(offset), maxOffset);
    TimezoneRoundTrip(offset, maxOffset);
    DecimalRoundTrip(time);
  }

  /** The brackets the scan finds are the first ones: the name holds no '<' and the email no '>'. */
  lemma {:induction false} ScanIdentitySound(t: string)
    requires ScanIdentity(t).Some?
    ensures var (lt, gt) := ScanIdentity(t).value;
      && '<' !in t[..lt - 1] && '>' !in t[lt + 1..gt]
      && t == t[..lt - 1] + " <" + t[lt + 1..gt] + ">" + t[gt + 1..]
  {
    var lt := FindByte(t, '<', 0);
    var gt := FindByte(t, '>', lt + 1);
    FindByteSkipped(t, '<', 0, lt - 1);
    assert t[..lt - 1] == t[0..lt - 1];
    FindByteSkipped(t, '>', lt + 1, gt);
    assert t[lt - 1..lt + 1] == " <" && t[gt..gt + 1] == ">";
    SplitFour(t, lt - 1, lt + 1, gt, gt + 1);
  }

  /** Cutting a sequence at four points and gluing the pieces back gives it again. */
  lemma SplitFour(t: string, i: nat, j: nat, k: nat, l: nat)
    requires i <= j <= k <= l <= |t|
    ensures t == t[..i] + t[i..j] + t[j..k] + t[k..l] + t[l..]
  {
  }

  /** The scan finds the brackets that delimit a '<'-free name and a '>'-free email. */
  lemma {:induction false} ScanIdentityAccepts(name: string, email: string, when: string)
    requires '<' !in name && '>' !in email
    ensures ScanIdentity(name + " <" + email + ">" + when) == Some((|name| + 1, |name| + |email| + 2))
  {
    var t := name + " <" + email + ">" + when;
    var lt := |name| + 1;
    assert t[0..] == (name + " ") + ['<'] + (email + ">" + when);
    assert '<' !in name + " ";
    FindByteAfter(t, '<', 0, name + " ", email + ">" + when);
    assert t[lt + 1..] == email + ['>'] + when;
    FindByteAfter(t, '>', lt + 1, email, when);
    assert t[lt - 1] == ' ';
  }

  /**
    A name without '<', a space, the email in angle brackets (the email
    without '>'), then the time part: the identity parser takes exactly that
    name and email.
  */
  lemma {:induction false} ParseIdentityAccepts(name: string, email: string, when: string, maxOffset: OffsetLimit)
    requires '<' !in name && '>' !in email
    ensures ParseIdentity(name + " <" + email + ">" + when, maxOffset)
      == if ParseWhen(when, maxOffset).None? then None
         else Some(Signature(name, email, ParseWhen(when, maxOffset).value.0, ParseWhen(when, maxOffset).value.1))
  {
    var t := name + " <" + email + ">" + when;
    var lt := |name| + 1;
    var gt := lt + 1 + |email|;
    ScanIdentityAccepts(name, email, when);
    assert t[..lt - 1] == name;
    assert t[lt + 1..gt] == email;
    assert t[gt + 1..] == when;
  }

  /** Everything the identity parser accepts has the shape that `ParseIdentityAccepts` describes. */
  lemma {:induction false} ParseIdentitySound(t: string, sig: Signature, maxOffset: OffsetLimit)
    requires ParseIdentity(t, maxOffset) == Some(sig)
    ensures '<' !in sig.name && '>' !in sig.email
    ensures |sig.name| + |sig.email| + 3 <= |t|
    ensures var when := t[|sig.name| + |sig.email| + 3..];
      && t == sig.name + " <" + sig.email + ">" + when
      && ParseWhen(when, maxOffset) == Some((sig.time, sig.offset))
  {
    var (lt, gt) := ScanIdentity(t).value;
    ScanIdentitySound(t);
    assert sig.name == t[..lt - 1] && sig.email == t[lt + 1..gt];
    assert |sig.name| + |sig.email| + 3 == gt + 1;
  }

  /** The header must match and leave something behind; the rest is the identity. */
  lemma {:induction false} ParseSignatureTextAccepts(header: string, rest: string, maxOffset: OffsetLimit)
    requires |rest| > 0
    ensures ParseSignatureText(header + rest, header, maxOffset) == ParseIdentity(rest, maxOffset)
  {
    var line := header + rest;
    assert line[..|header|] == header && line[|header|..] == rest;
  }

  /** A line whose header does not match, or that holds nothing after it, is rejected. */
  lemma {:induction false} ParseSignatureTextSound(line: string, header: string, maxOffset: OffsetLimit)
    requires ParseSignatureText(line, header, maxOffset).Some?
    ensures |header| < |line| && line == header + line[|header|..]
    ensures ParseIdentity(line[|header|..], maxOffset) == ParseSignatureText(line, header, maxOffset)
  {
    assert line == line[..|header|] + line[|header|..];
  }

  /**
    A line that ends at the first '\n' after `pos`: the signature is what
    the line parser makes of it and the cursor ends just past the '\n'.
  */
  lemma {:induction false} ParseSignatureLineAccepts(buf: string, pos: nat, line: string, rest: string, header: string, maxOffset: OffsetLimit)
    requires pos <= |buf| && buf[pos..] == line + "\n" + rest && '\n' !in line
    ensures ParseSignatureLine(buf, pos, header, maxOffset)
      == if ParseSignatureText(line, header, maxOffset).None? then None
         else Some((ParseSignatureText(line, header, maxOffset).value, pos + |line| + 1))
  {
    var lineEnd := pos + |line|;
    FindByteAfter(buf, '\n', pos, line, rest);
    TakeOfDrop(buf, pos, line, "\n" + rest);
    ParseSignatureLineAt(buf, pos, lineEnd, line, header, maxOffset);
  }

  /** The prefix of a suffix. */
  lemma TakeOfDrop(buf: string, pos: nat, a: string, b: string)
    requires pos <= |buf| && buf[pos..] == a + b
    ensures pos + |a| <= |buf| && buf[pos..pos + |a|] == a
    ensures pos + |a| < |buf| ==> buf[pos + |a|] == b[0]
  {
    assert buf[pos..pos + |a|] == buf[pos..][..|a|];
  }

  /** The line parser once the end of the line is known. */
  lemma {:induction false} ParseSignatureLineAt(buf: string, pos: nat, lineEnd: nat, line: string, header: string, maxOffset: OffsetLimit)
    requires pos <= lineEnd < |buf| && FindByte(buf, '\n', pos) == lineEnd && buf[pos..lineEnd] == line
    ensures ParseSignatureLine(buf, pos, header, maxOffset)
      == if ParseSignatureText(line, header, maxOffset).None? then None
         else Some((ParseSignatureText(line, header, maxOffset).value, lineEnd + 1))
  {
  }

  /**
    A signature line that parses is a '\n'-free line that reads as the
    signature; the cursor ends just past the '\n' that follows it.
  */
  lemma {:induction false} ParseSignatureLineSound(buf: string, pos: nat, header: string, maxOffset: OffsetLimit, sig: Signature, next: nat)
    requires pos <= |buf| && ParseSignatureLine(buf, pos, header, maxOffset) == Some((sig, next))
    ensures pos < next <= |buf| && buf[next - 1] == '\n' && '\n' !in buf[pos..next - 1]
    ensures ParseSignatureText(buf[pos..next - 1], header, maxOffset) == Some(sig)
  {
    var lineEnd := FindByte(buf, '\n', pos);
    assert lineEnd < |buf| && next == lineEnd + 1 && buf[lineEnd] == '\n';
    FindByteSkipped(buf, '\n', pos, lineEnd);
  }

  /** The text from `pos` is the line up to the '\n' at `lineEnd`, that '\n', and the rest. */
  lemma LineThenRest(buf: string, pos: nat, lineEnd: nat)
    requires pos <= lineEnd < |buf| && buf[lineEnd] == '\n'
    ensures buf[pos..] == buf[pos..lineEnd] + "\n" + buf[lineEnd + 1..]
  {
    assert buf[lineEnd..] == "\n" + buf[lineEnd + 1..];
    assert buf[pos..] == buf[pos..lineEnd] + buf[lineEnd..];
  }

  /** Nothing the writer emits after the email holds a '\n'. */
  lemma {:induction false} WhenTextSingleLine(time: nat, offset: int)
    ensures '\n' !in WhenText(time, offset)
  {
    var digits := DecimalText(time);
    var zone := FormatTimezone(offset);
    var magnitude := if offset < 0 then -offset else offset;
    var hours, minutes := PadTwo(magnitude / 60), PadTwo(magnitude % 60);
    assert !IsDigit('\n');
    assert zone == [zone[0]] + hours + minutes;
    NotInConcat([zone[0]] + hours, minutes, '\n');
    NotInConcat(" " + digits + " ", zone, '\n');
  }

  lemma NotInConcat(a: string, b: string, c: char)
    requires c !in a && c !in b
    ensures c !in a + b
  {
    assert forall x | x in a + b :: x in a || x in b;
  }

  /** A well-formed signature, as written after the header, reads back as itself. */
  lemma {:induction false} IdentityRoundTrip(sig: Signature, maxOffset: OffsetLimit)
    requires WellFormed(sig, maxOffset)
    ensures ParseIdentity(IdentityText(sig), maxOffset) == Some(sig)
  {
    ParseIdentityAccepts(sig.name, sig.email, WhenText(sig.time, sig.offset), maxOffset);
    WhenRoundTrip(sig.time, sig.offset, maxOffset);
  }

  /** The written identity of a well-formed signature holds no '\n'. */
  lemma {:induction false} IdentityTextSingleLine(sig: Signature, maxOffset: OffsetLimit)
    requires WellFormed(sig, maxOffset)
    ensures '\n' !in IdentityText(sig)
  {
    var when := WhenText(sig.time, sig.offset);
    WhenTextSingleLine(sig.time, sig.offset);
    NotInConcat(sig.name + " <", sig.email, '\n');
    NotInConcat(sig.name + " <" + sig.email + ">", when, '\n');
  }

  /** A '\n'-free line that the line parser accepts, at `pos`, yields its signature and the position after its '\n'. */
  lemma {:induction false} ParseSignatureLineOf(buf: string, pos: nat, line: string, rest: string, header: string, sig: Signature, next: nat, maxOffset: OffsetLimit)
    requires pos <= |buf| && buf[pos..] == line + "\n" + rest && '\n' !in line
    requires ParseSignatureText(line, header, maxOffset) == Some(sig)
    requires next == pos + |line| + 1
    ensures ParseSignatureLine(buf, pos, header, maxOffset) == Some((sig, next))
  {
    ParseSignatureLineAccepts(buf, pos, line, rest, header, maxOffset);
  }

  /**
    The writer and the parser agree: a well-formed signature, written after
    a header without '\n', reads back as itself, and
    the cursor ends just past the '\n'.
  */
  lemma {:induction false} SignatureLineRoundTrip(buf: string, pos: nat, header: string, sig: Signature, rest: string, maxOffset: OffsetLimit)
    requires WellFormed(sig, maxOffset) && '\n' !in header
    requires pos <= |buf| && buf[pos..] == FormatSignatureLine(header, sig) + rest
    ensures ParseSignatureLine(buf, pos, header, maxOffset) == Some((sig, pos + |FormatSignatureLine(header, sig)|))
  {
    var line := header + IdentityText(sig);
    SignatureTextOf(header, sig, line, maxOffset);
    FormatSignatureLineSplit(header, sig, line, rest);
    ParseSignatureLineOf(buf, pos, line, rest, header, sig, pos + |line| + 1, maxOffset);
  }

  /** The written line is its text and then its '\n'. */
  lemma FormatSignatureLineSplit(header: string, sig: Signature, line: string, rest: string)
    requires line == header + IdentityText(sig)
    ensures FormatSignatureLine(header, sig) + rest == line + "\n" + rest
    ensures |FormatSignatureLine(header, sig)| == |line| + 1
  {
  }

  /** The round trip of the line without its '\n', about a name for the written text. */
  lemma {:induction false} SignatureTextOf(header: string, sig: Signature, line: string, maxOffset: OffsetLimit)
    requires WellFormed(sig, maxOffset) && '\n' !in header
    requires line == header + IdentityText(sig)
    ensures '\n' !in line && ParseSignatureText(line, header, maxOffset) == Some(sig)
  {
    SignatureTextRoundTrip(header, sig, maxOffset);
  }

  /** The written line without its '\n' holds no '\n' and parses back to the signature. */
  lemma {:induction false} SignatureTextRoundTrip(header: string, sig: Signature, maxOffset: OffsetLimit)
    requires WellFormed(sig, maxOffset) && '\n' !in header
    ensures '\n' !in header + IdentityText(sig)
    ensures ParseSignatureText(header + IdentityText(sig), header, maxOffset) == Some(sig)
  {
    var identity := IdentityText(sig);
    IdentityTextSingleLine(sig, maxOffset);
    NotInConcat(header, identity, '\n');
    ParseSignatureTextAccepts(header, identity, maxOffset);
    IdentityRoundTrip(sig, maxOffset);
  }

  /**
    A signature line is read from its own bytes only: once it is complete,
    what follows it in the buffer makes no difference, and the line starts
    with its header.
  */
  lemma {:induction false} ParseSignatureLineExtend(buf: string, more: string, pos: nat, header: string, maxOffset: OffsetLimit)
    requires pos <= |buf| && ParseSignatureLine(buf, pos, header, maxOffset).Some?
    ensures pos + |header| < |buf| && buf[pos..pos + |header|] == header
    ensures ParseSignatureLine(buf + more, pos, header, maxOffset) == ParseSignatureLine(buf, pos, header, maxOffset)
  {
    var lineEnd := FindByte(buf, '\n', pos);
    var ext := buf + more;
    forall k | pos <= k < lineEnd ensures ext[k] != '\n' {
      FindByteFirst(buf, '\n', pos, k);
    }
    FindByteAt(ext, '\n', pos, lineEnd);
    assert ext[pos..lineEnd] == buf[pos..lineEnd];
    var line := buf[pos..lineEnd];
    ParseSignatureTextSound(line, header, maxOffset);
    assert buf[pos..pos + |header|] == line[..|header|];
  }
}
