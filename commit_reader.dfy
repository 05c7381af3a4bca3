/**
  The parsers as the C code runs them: a cursor into the buffer that each
  field parser advances past what it consumed, scanning loops in place of
  `memchr`, `memcmp`, the hexadecimal decoder and `strtol`, and the commit
  parser's loop over the parent lines. Each method is proved to compute
  exactly the corresponding function of the functional model.
*/
module CommitReader {
  import opened Wrappers
  import opened Decimal
  import opened ObjectId
  import opened Signatures
  import opened Commits

  /** `memchr`: the first `c` at or after `from`, or |s| when there is none. */
  method IndexOf(s: string, c: char, from: nat) returns (i: nat)
    requires from <= |s|
    ensures i == FindByte(s, c, from)
  {
    i := from;
    while i < |s| && s[i] != c
      invariant from <= i <= |s|
      invariant FindByte(s, c, i) == FindByte(s, c, from)
      decreases |s| - i
    {
      i := i + 1;
    }
  }

  /** `memcmp` of the header against the buffer at `pos`. */
  method MatchesAt(s: string, pos: nat, header: string) returns (same: bool)
    requires pos + |header| <= |s|
    ensures same <==> s[pos..pos + |header|] == header
  {
    var k := 0;
    while k < |header|
      invariant k <= |header|
      invariant s[pos..pos + k] == header[..k]
    {
      if s[pos + k] != header[k] {
        assert s[pos..pos + |header|][k] != header[k];
        return false;
      }
      assert s[pos..pos + k + 1] == s[pos..pos + k] + [s[pos + k]];
      assert header[..k + 1] == header[..k] + [header[k]];
      k := k + 1;
    }
    assert header[..k] == header;
    return true;
  }

  /** The hexadecimal decoder: two digits per byte, failing at the first byte that is not a digit. */
  method DecodeOidText(s: string) returns (r: Option<Oid>)
    ensures r == DecodeHex(s)
  {
    if |s| != HexLength {
      return None;
    }
    var bytes: seq<Byte> := [];
    var k := 0;
    while k < 20
      invariant k <= 20 && |bytes| == k
      invariant forall j | 0 <= j < 2 * k :: IsHexDigit(s[j])
      invariant forall j | 0 <= j < k :: bytes[j] == HexValue(s[2 * j]) * 16 + HexValue(s[2 * j + 1])
    {
      var hi, lo := s[2 * k], s[2 * k + 1];
      if !IsHexDigit(hi) || !IsHexDigit(lo) {
        assert hi in s && lo in s;
        return None;
      }
      bytes := bytes + [HexValue(hi) * 16 + HexValue(lo)];
      k := k + 1;
    }
    assert IsHexText(s) by {
      forall c | c in s ensures IsHexDigit(c) {
        var j :| 0 <= j < |s| && s[j] == c;
      }
    }
    assert bytes == DecodeHex(s).value;
    return Some(bytes);
  }

  /**
    `strtol` on a run of decimal digits at `from`: how many digits there
    are and the value they spell.
  */
  method ScanDigits(s: string, from: nat) returns (n: nat, value: nat)
    requires from <= |s|
    ensures n == DigitRun(s, from)
    ensures IsDigitText(s[from..from + n]) && value == DigitsValue(s[from..from + n])
  {
    var i := from;
    value := 0;
    while i < |s| && IsDigit(s[i])
      invariant from <= i <= |s|
      invariant DigitRun(s, from) == (i - from) + DigitRun(s, i)
      invariant IsDigitText(s[from..i]) && value == DigitsValue(s[from..i])
      decreases |s| - i
    {
      assert s[from..i + 1] == s[from..i] + [s[i]];
      DigitsValueFromSnoc(s[from..i], s[i], 0, 0);
      value := value * 10 + DigitValue(s[i]);
      i := i + 1;
    }
    n := i - from;
  }

  /** The time and the timezone after the email. */
  method ParseWhenText(t: string, maxOffset: OffsetLimit) returns (r: Option<(nat, int)>)
    ensures r == ParseWhen(t, maxOffset)
  {
    var start := if |t| > 0 && t[0] == ' ' then 1 else 0;
    var n, time := ScanDigits(t, start);
    if n == 0 || start + n == |t| || t[start + n] != ' ' {
      return None;
    }
    var zone := ParseTimezone(t[start + n + 1..], maxOffset);
    if zone.None? {
      return None;
    }
    return Some((time, zone.value));
  }

  /** The name, the email between '<' and '>', then the time and timezone. */
  method ParseIdentityText(t: string, maxOffset: OffsetLimit) returns (r: Option<Signature>)
    ensures r == ParseIdentity(t, maxOffset)
  {
    var lt := IndexOf(t, '<', 0);
    if lt == |t| || lt == 0 || t[lt - 1] != ' ' {
      return None;
    }
    var gt := IndexOf(t, '>', lt + 1);
    if gt == |t| {
      return None;
    }
    var when := ParseWhenText(t[gt + 1..], maxOffset);
    if when.None? {
      return None;
    }
    return Some(Signature(t[..lt - 1], t[lt + 1..gt], when.value.0, when.value.1));
  }

  /** A cursor into a buffer: the position up to which the buffer has been consumed. */
  class Cursor {
    const buf: string
    var pos: nat

    predicate Valid()
      reads this
    {
      pos <= |buf|
    }

    constructor (buf: string)
      ensures this.buf == buf && pos == 0 && Valid()
    {
      this.buf := buf;
      pos := 0;
    }

    /**
      Reads "<header><40 hex digits>\n" at the cursor and moves the cursor
      one past the '\n'; on failure the cursor stays where it was.
    */
    method ParseOid(header: string) returns (id: Option<Oid>)
      requires Valid()
      modifies this
      ensures Valid()
      ensures match ParseOidLine(buf, old(pos), header)
        case None => id == None && pos == old(pos)
        case Some((oid, next)) => id == Some(oid) && pos == next
    {
      var start := pos;
      var hexStart := start + |header|;
      var end := hexStart + HexLength;
      if end + 1 > |buf| {
        return None;
      }
      var same := MatchesAt(buf, start, header);
      if !same || buf[end] != '\n' {
        return None;
      }
      id := DecodeOidText(buf[hexStart..end]);
      if id.Some? {
        pos := end + 1;
      }
    }

    /**
      Reads "<header><name> <<email>> <time> <timezone>...\n" at the cursor
      and moves the cursor one past the '\n'; on failure the cursor stays
      where it was.
    */
    method ParseSignature(header: string, maxOffset: OffsetLimit) returns (sig: Option<Signature>)
      requires Valid()
      modifies this
      ensures Valid()
      ensures match ParseSignatureLine(buf, old(pos), header, maxOffset)
        case None => sig == None && pos == old(pos)
        case Some((s, next)) => sig == Some(s) && pos == next
    {
      var lineEnd := IndexOf(buf, '\n', pos);
      if lineEnd == |buf| {
        return None;
      }
      var line := buf[pos..lineEnd];
      if |line| < |header| + 1 {
        return None;
      }
      var same := MatchesAt(line, 0, header);
      assert line[0..|header|] == line[..|header|];
      if !same {
        return None;
      }
      sig := ParseIdentityText(line[|header|..], maxOffset);
      if sig.Some? {
        pos := lineEnd + 1;
      }
    }
  }

  /**
    The author line, the committer line and the empty line at the cursor;
    the rest of the buffer is the message.
  */
  method ParseTail(cursor: Cursor, tree: Oid, parents: seq<Oid>, maxOffset: OffsetLimit) returns (r: Result<Commit, Error>)
    requires cursor.Valid()
    modifies cursor
    ensures r == ParseSignatures(cursor.buf, old(cursor.pos), tree, parents, maxOffset)
    ensures cursor.Valid() && old(cursor.pos) <= cursor.pos
    ensures r.Success? ==> cursor.pos < |cursor.buf| && cursor.buf[cursor.pos] == '\n' && r.value.message == cursor.buf[cursor.pos + 1..]
  {
    var author := cursor.ParseSignature(AuthorHeader, maxOffset);
    if author.None? {
      return Failure(FormatError);
    }
    r := ParseCommitterTail(cursor, tree, parents, author.value, maxOffset);
  }

  /**
    The committer line and the empty line at the cursor, once the author is
    read; the rest of the buffer is the message.
  */
  method ParseCommitterTail(cursor: Cursor, tree: Oid, parents: seq<Oid>, author: Signature, maxOffset: OffsetLimit) returns (r: Result<Commit, Error>)
    requires cursor.Valid()
    modifies cursor
    ensures r == ParseCommitter(cursor.buf, old(cursor.pos), tree, parents, author, maxOffset)
    ensures cursor.Valid() && old(cursor.pos) <= cursor.pos
    ensures r.Success? ==> cursor.pos < |cursor.buf| && cursor.buf[cursor.pos] == '\n' && r.value.message == cursor.buf[cursor.pos + 1..]
  {
    var data := cursor.buf;
    ghost var start := cursor.pos;
    var committer := cursor.ParseSignature(CommitterHeader, maxOffset);
    if committer.None? {
      assert ParseSignatureLine(data, start, CommitterHeader, maxOffset).None?;
      return Failure(FormatError);
    }
    var afterCommitter := cursor.pos;
    assert ParseSignatureLine(data, start, CommitterHeader, maxOffset) == Some((committer.value, afterCommitter));
    if afterCommitter == |data| || data[afterCommitter] != '\n' {
      return Failure(FormatError);
    }
    CommitterAt(data, start, tree, parents, author, committer.value, afterCommitter, maxOffset);
    return Success(Commit(tree, parents, author, committer.value, data[afterCommitter + 1..]));
  }

  /**
    The commit parser: the tree line, as many parent lines as there are,
    the author and committer lines, the empty line, and the rest as the
    message; in strict mode every identifier is checked against the store
    as soon as it is read.
  */
  method ParseCommitBuffer(data: string, mode: Mode, store: ObjectStore, maxOffset: OffsetLimit) returns (r: Result<Commit, Error>)
    ensures r == ParseCommit(data, mode, store, maxOffset)
  {
    var cursor := new Cursor(data);
    var tree := cursor.ParseOid(TreeHeader);
    if tree.None? {
      return Failure(FormatError);
    }
    if !Admits(mode, store, tree.value, TreeKind) {
      return Failure(ReferenceError);
    }
    ghost var expected := ParseCommit(data, mode, store, maxOffset);
    var parents: seq<Oid> := [];
    while true
      invariant cursor.buf == data && cursor.Valid()
      invariant expected == ParseParents(data, cursor.pos, tree.value, parents, mode, store, maxOffset)
      decreases |data| - cursor.pos
    {
      var parent := cursor.ParseOid(ParentHeader);
      if parent.None? {
        break;
      }
      if !Admits(mode, store, parent.value, CommitKind) {
        return Failure(ReferenceError);
      }
      parents := parents + [parent.value];
    }
    r := ParseTail(cursor, tree.value, parents, maxOffset);
  }
}
