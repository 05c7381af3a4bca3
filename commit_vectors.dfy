/**
  The commit-buffer vectors: four buffers the parser accepts, and nine it
  rejects in every mode, whatever the object database holds. Each buffer
  is written as its lines; the pieces join to the exact bytes of the
  vector.
*/
module CommitVectors {
  import opened Wrappers
  import opened Decimal
  import opened ObjectId
  import opened Signatures
  import opened Commits
  import opened SignatureVectors
  import opened Repository

  const TreeHex1810: string := "1810dff58d" + "8a660512d4" + "832e740f69" + "2884338ccd"
  const ParentHexE908: string := "e90810b8df" + "3e80c413d9" + "03f631643c" + "716887138d"
  const TreeHexF6C0: string := "f6c0dad3c7" + "b3481caa9d" + "73db21f919" + "64894a945b"

  lemma TreeHex1810Text()
    ensures IsHexText(TreeHex1810)
  {
  }

  lemma ParentHexE908Text()
    ensures IsHexText(ParentHexE908)
  {
  }

  lemma TreeHexF6C0Text()
    ensures IsHexText(TreeHexF6C0)
  {
  }

  /** The author and committer lines every accepted vector shares, without their '\n'. */
  const VicentAuthorLine: string := "author " + ("Vicent Marti" + " <" + "tanoku@gmail.com" + ">" + (" " + "1273848544" + " " + "+0200"))
  const VicentCommitterLine: string := "committer " + ("Vicent Marti" + " <" + "tanoku@gmail.com" + ">" + (" " + "1273848544" + " " + "+0200"))
  const Vicent: Signature := Signature("Vicent Marti", "tanoku@gmail.com", 1273848544, 120)

  /** The fields of the shared signature lines, each checked on its own. */
  lemma VicentFields(maxOffset: OffsetLimit)
    ensures '\n' !in "Vicent Marti" && '<' !in "Vicent Marti"
    ensures '\n' !in "tanoku@gmail.com" && '>' !in "tanoku@gmail.com"
    ensures '\n' !in "+0200" && ParseTimezone("+0200", maxOffset) == Some(120)
  {
  }

  lemma VicentTime()
    ensures IsDigitText("1273848544") && DigitsValue("1273848544") == 1273848544
  {
  }

  lemma VicentAuthor(maxOffset: OffsetLimit)
    ensures '\n' !in VicentAuthorLine && ParseSignatureText(VicentAuthorLine, AuthorHeader, maxOffset) == Some(Vicent)
  {
    VicentFields(maxOffset);
    VicentTime();
    AcceptedText(VicentAuthorLine, "author ", "Vicent Marti", "tanoku@gmail.com", "1273848544", "+0200", 1273848544, 120, maxOffset);
  }

  lemma VicentCommitter(maxOffset: OffsetLimit)
    ensures '\n' !in VicentCommitterLine && ParseSignatureText(VicentCommitterLine, CommitterHeader, maxOffset) == Some(Vicent)
  {
    VicentFields(maxOffset);
    VicentTime();
    AcceptedText(VicentCommitterLine, "committer ", "Vicent Marti", "tanoku@gmail.com", "1273848544", "+0200", 1273848544, 120, maxOffset);
  }

  /** A tree line at the start of the buffer: its identifier, and the text after it. */
  lemma {:induction false} TreeLineRead(data: string, treeHex: string, rest: string)
    requires IsHexText(treeHex) && data == TreeHeader + treeHex + "\n" + rest
    ensures ParseOidLine(data, 0, TreeHeader) == Some((DecodeHex(treeHex).value, |TreeHeader| + HexLength + 1))
    ensures |TreeHeader| + HexLength + 1 <= |data| && data[|TreeHeader| + HexLength + 1..] == rest
  {
    assert data[0..] == TreeHeader + treeHex + "\n" + rest;
    ParseOidLineAccepts(data, 0, TreeHeader, treeHex, rest);
    DropConcat(data, 0, TreeHeader + treeHex + "\n", rest, |TreeHeader| + HexLength + 1);
  }

  /** A parent line at `pos`: its identifier, and the text after it. */
  lemma {:induction false} ParentLineRead(data: string, pos: nat, parentHex: string, rest: string)
    requires IsHexText(parentHex) && pos <= |data| && data[pos..] == ParentHeader + parentHex + "\n" + rest
    ensures ParseOidLine(data, pos, ParentHeader) == Some((DecodeHex(parentHex).value, pos + |ParentHeader| + HexLength + 1))
    ensures pos + |ParentHeader| + HexLength + 1 <= |data| && data[pos + |ParentHeader| + HexLength + 1..] == rest
  {
    ParseOidLineAccepts(data, pos, ParentHeader, parentHex, rest);
    DropConcat(data, pos, ParentHeader + parentHex + "\n", rest, pos + |ParentHeader| + HexLength + 1);
  }

  /** An admitted parent line: it joins the parents, and the next line is read. */
  lemma {:induction false} AfterParent(data: string, pos: nat, tree: Oid, parents: seq<Oid>, id: Oid, next: nat, mode: Mode, store: ObjectStore, maxOffset: OffsetLimit)
    requires pos <= |data| && ParseOidLine(data, pos, ParentHeader) == Some((id, next)) && Admits(mode, store, id, CommitKind)
    ensures next <= |data|
    ensures ParseParents(data, pos, tree, parents, mode, store, maxOffset) == ParseParents(data, next, tree, parents + [id], mode, store, maxOffset)
  {
  }

  /** A line that is not a parent line ends the parents: the signatures are read from there. */
  lemma {:induction false} LastParent(data: string, pos: nat, tree: Oid, parents: seq<Oid>, line: string, rest: string, mode: Mode, store: ObjectStore, maxOffset: OffsetLimit)
    requires pos <= |data| && data[pos..] == line + "\n" + rest
    requires |line| > 0 && line[0] == 'a'
    ensures ParseParents(data, pos, tree, parents, mode, store, maxOffset) == ParseSignatures(data, pos, tree, parents, maxOffset)
  {
    assert line + "\n" + rest == [line[0]] + (line[1..] + "\n" + rest);
    DropChar(data, pos, line[0], line[1..] + "\n" + rest);
    ParentLineAbsent(data, pos);
  }

  /**
    After the parent lines: the author line, the committer line, the empty
    line and the message end the parents there and give the commit.
  */
  lemma {:induction false} SignaturesAccepted(data: string, pos: nat, tree: Oid, parents: seq<Oid>, authorLine: string, author: Signature, committerLine: string, committer: Signature, message: string, mode: Mode, store: ObjectStore, maxOffset: OffsetLimit)
    requires '\n' !in authorLine && ParseSignatureText(authorLine, AuthorHeader, maxOffset) == Some(author)
    requires '\n' !in committerLine && ParseSignatureText(committerLine, CommitterHeader, maxOffset) == Some(committer)
    requires pos <= |data| && data[pos..] == authorLine + "\n" + (committerLine + "\n" + ("\n" + message))
    ensures ParseParents(data, pos, tree, parents, mode, store, maxOffset) == Success(Commit(tree, parents, author, committer, message))
  {
    var separatorText := "\n" + message;
    var afterAuthorText := committerLine + "\n" + separatorText;
    ParseSignatureTextSound(authorLine, AuthorHeader, maxOffset);
    LastParent(data, pos, tree, parents, authorLine, afterAuthorText, mode, store, maxOffset);
    ParseSignaturesAccepts(data, pos, tree, parents, author, authorLine, committer, committerLine, afterAuthorText, separatorText, message, maxOffset);
  }

  /**
    A tree line, no parent line, the two signature lines, the empty line
    and the message: the commit has that tree, no parent, those
    signatures and that message, provided the tree is admitted.
  */
  lemma {:induction false} NoParentAccepted(data: string, treeHex: string, tree: Oid, authorLine: string, author: Signature, committerLine: string, committer: Signature, message: string, mode: Mode, store: ObjectStore, maxOffset: OffsetLimit)
    requires IsHexText(treeHex) && DecodeHex(treeHex) == Some(tree)
    requires '\n' !in authorLine && ParseSignatureText(authorLine, AuthorHeader, maxOffset) == Some(author)
    requires '\n' !in committerLine && ParseSignatureText(committerLine, CommitterHeader, maxOffset) == Some(committer)
    requires data == TreeHeader + treeHex + "\n" + (authorLine + "\n" + (committerLine + "\n" + ("\n" + message)))
    requires Admits(mode, store, tree, TreeKind)
    ensures ParseCommit(data, mode, store, maxOffset) == Success(Commit(tree, [], author, committer, message))
  {
    var afterTree := |TreeHeader| + HexLength + 1;
    TreeLineRead(data, treeHex, authorLine + "\n" + (committerLine + "\n" + ("\n" + message)));
    TreeThenParents(data, tree, afterTree, mode, store, maxOffset);
    SignaturesAccepted(data, afterTree, tree, [], authorLine, author, committerLine, committer, message, mode, store, maxOffset);
  }

  /**
    The same with one parent line between the tree line and the author
    line, provided the tree and the parent are admitted.
  */
  lemma {:induction false} OneParentAccepted(data: string, treeHex: string, tree: Oid, parentHex: string, parent: Oid, authorLine: string, author: Signature, committerLine: string, committer: Signature, message: string, mode: Mode, store: ObjectStore, maxOffset: OffsetLimit)
    requires IsHexText(treeHex) && DecodeHex(treeHex) == Some(tree)
    requires IsHexText(parentHex) && DecodeHex(parentHex) == Some(parent)
    requires '\n' !in authorLine && ParseSignatureText(authorLine, AuthorHeader, maxOffset) == Some(author)
    requires '\n' !in committerLine && ParseSignatureText(committerLine, CommitterHeader, maxOffset) == Some(committer)
    requires data == TreeHeader + treeHex + "\n" + (ParentHeader + parentHex + "\n" + (authorLine + "\n" + (committerLine + "\n" + ("\n" + message))))
    requires Admits(mode, store, tree, TreeKind) && Admits(mode, store, parent, CommitKind)
    ensures ParseCommit(data, mode, store, maxOffset) == Success(Commit(tree, [parent], author, committer, message))
  {
    var signatures := authorLine + "\n" + (committerLine + "\n" + ("\n" + message));
    var afterTree := |TreeHeader| + HexLength + 1;
    var afterParent := afterTree + |ParentHeader| + HexLength + 1;
    TreeLineRead(data, treeHex, ParentHeader + parentHex + "\n" + signatures);
    TreeThenParents(data, tree, afterTree, mode, store, maxOffset);
    ParentLineRead(data, afterTree, parentHex, signatures);
    AfterParent(data, afterTree, tree, [], parent, afterParent, mode, store, maxOffset);
    assert [] + [parent] == [parent];
    SignaturesAccepted(data, afterParent, tree, [parent], authorLine, author, committerLine, committer, message, mode, store, maxOffset);
  }

  /** A simple commit with an empty message. */
  lemma EmptyMessageAccepted(data: string, tree: Oid, mode: Mode, store: ObjectStore, maxOffset: OffsetLimit)
    requires DecodeHex(TreeHex1810) == Some(tree) && Admits(mode, store, tree, TreeKind)
    requires data == "tree " + TreeHex1810 + "\n" + (VicentAuthorLine + "\n" + (VicentCommitterLine + "\n" + ("\n" + "")))
    ensures ParseCommit(data, mode, store, maxOffset) == Success(Commit(tree, [], Vicent, Vicent, ""))
  {
    TreeHex1810Text();
    VicentAuthor(maxOffset);
    VicentCommitter(maxOffset);
    NoParentAccepted(data, TreeHex1810, tree, VicentAuthorLine, Vicent, VicentCommitterLine, Vicent, "", mode, store, maxOffset);
  }

  /** A simple commit with no parent. */
  lemma NoParentVectorAccepted(data: string, tree: Oid, mode: Mode, store: ObjectStore, maxOffset: OffsetLimit)
    requires DecodeHex(TreeHex1810) == Some(tree) && Admits(mode, store, tree, TreeKind)
    requires data == "tree " + TreeHex1810 + "\n" + (VicentAuthorLine + "\n" + (VicentCommitterLine + "\n" + ("\n" + "a simple commit which works\n")))
    ensures ParseCommit(data, mode, store, maxOffset) == Success(Commit(tree, [], Vicent, Vicent, "a simple commit which works\n"))
  {
    TreeHex1810Text();
    VicentAuthor(maxOffset);
    VicentCommitter(maxOffset);
    NoParentAccepted(data, TreeHex1810, tree, VicentAuthorLine, Vicent, VicentCommitterLine, Vicent, "a simple commit which works\n", mode, store, maxOffset);
  }

  /** A message without a final '\n' is kept as it is. */
  lemma UnterminatedMessageAccepted(data: string, tree: Oid, mode: Mode, store: ObjectStore, maxOffset: OffsetLimit)
    requires DecodeHex(TreeHex1810) == Some(tree) && Admits(mode, store, tree, TreeKind)
    requires data == "tree " + TreeHex1810 + "\n" + (VicentAuthorLine + "\n" + (VicentCommitterLine + "\n" + ("\n" + "a simple commit which works")))
    ensures ParseCommit(data, mode, store, maxOffset) == Success(Commit(tree, [], Vicent, Vicent, "a simple commit which works"))
  {
    TreeHex1810Text();
    VicentAuthor(maxOffset);
    VicentCommitter(maxOffset);
    NoParentAccepted(data, TreeHex1810, tree, VicentAuthorLine, Vicent, VicentCommitterLine, Vicent, "a simple commit which works", mode, store, maxOffset);
  }

  /** A simple commit with one parent. */
  lemma OneParentVectorAccepted(data: string, tree: Oid, parent: Oid, mode: Mode, store: ObjectStore, maxOffset: OffsetLimit)
    requires DecodeHex(TreeHex1810) == Some(tree) && Admits(mode, store, tree, TreeKind)
    requires DecodeHex(ParentHexE908) == Some(parent) && Admits(mode, store, parent, CommitKind)
    requires data == "tree " + TreeHex1810 + "\n" + ("parent " + ParentHexE908 + "\n" + (VicentAuthorLine + "\n" + (VicentCommitterLine + "\n" + ("\n" + "a simple commit which works\n"))))
    ensures ParseCommit(data, mode, store, maxOffset) == Success(Commit(tree, [parent], Vicent, Vicent, "a simple commit which works\n"))
  {
    TreeHex1810Text();
    ParentHexE908Text();
    VicentAuthor(maxOffset);
    VicentCommitter(maxOffset);
    OneParentAccepted(data, TreeHex1810, tree, ParentHexE908, parent, VicentAuthorLine, Vicent, VicentCommitterLine, Vicent, "a simple commit which works\n", mode, store, maxOffset);
  }

  /** A buffer that does not start with the tree header is rejected. */
  lemma {:induction false} NoTreeHeader(data: string, i: nat, mode: Mode, store: ObjectStore, maxOffset: OffsetLimit)
    requires i < |TreeHeader| && i < |data| && data[i] != TreeHeader[i]
    ensures ParseCommit(data, mode, store, maxOffset) == Failure(FormatError)
  {
    if |TreeHeader| <= |data| {
      assert data[0..|TreeHeader|][i] != TreeHeader[i];
    }
  }

  /** A tree line whose forty digits are not followed by '\n' is rejected. */
  lemma {:induction false} UnterminatedTreeLine(data: string, mode: Mode, store: ObjectStore, maxOffset: OffsetLimit)
    requires |TreeHeader| + HexLength < |data| && data[|TreeHeader| + HexLength] != '\n'
    ensures ParseCommit(data, mode, store, maxOffset) == Failure(FormatError)
  {
  }

  /**
    A tree line followed by text with no '\n' in it: no further line can be
    read, so the buffer is rejected, in strict mode possibly because the
    tree is missing.
  */
  lemma {:induction false} NothingAfterTree(data: string, treeHex: string, tail: string, mode: Mode, store: ObjectStore, maxOffset: OffsetLimit)
    requires IsHexText(treeHex) && '\n' !in tail
    requires data == TreeHeader + treeHex + "\n" + tail
    ensures ParseCommit(data, mode, store, maxOffset).Failure?
  {
    var tree := DecodeHex(treeHex).value;
    var afterTree := |TreeHeader| + HexLength + 1;
    assert data[0..] == TreeHeader + treeHex + "\n" + tail;
    ParseOidLineAccepts(data, 0, TreeHeader, treeHex, tail);
    DropConcat(data, 0, TreeHeader + treeHex + "\n", tail, afterTree);
    if Admits(mode, store, tree, TreeKind) {
      match ParseOidLine(data, afterTree, ParentHeader)
      case Some(_) =>
        assert false;
      case None =>
        FindByteAbsent(data, '\n', afterTree);
    }
  }

  /** The empty buffer. */
  lemma EmptyRejected(data: string, mode: Mode, store: ObjectStore, maxOffset: OffsetLimit)
    requires data == ""
    ensures ParseCommit(data, mode, store, maxOffset).Failure?
  {
  }

  /** Random bytes. */
  lemma GarbageRejected(data: string, mode: Mode, store: ObjectStore, maxOffset: OffsetLimit)
    requires data == "asd97sa9du" + "902e9a0jds" + "uusad09as9" + "du098709aw" + "eu8987sd" + "\n"
    ensures ParseCommit(data, mode, store, maxOffset).Failure?
  {
    assert data[0] == 'a';
    NoTreeHeader(data, 0, mode, store, maxOffset);
  }

  /** Lines ended by "\r\n": the tree line ends in '\r' where '\n' must be. */
  lemma CarriageReturnsRejected(data: string, mode: Mode, store: ObjectStore, maxOffset: OffsetLimit)
    requires data == "tree " + TreeHexF6C0 + "\r\n"
      + "parent " + "05452d6349abcd67aa396dfb28660d765d8b2a36" + "\r\n"
      + "author Vicent Marti <tanoku@gmail.com> 1273848544 +0200\r\n"
      + "committer Vicent Marti <tanoku@gmail.com> 1273848544 +0200\r\n"
      + "\r\n"
      + "a test commit with broken endlines\r\n"
    ensures ParseCommit(data, mode, store, maxOffset).Failure?
  {
    assert data[45] == '\r';
    UnterminatedTreeLine(data, mode, store, maxOffset);
  }

  /** Lines run together with no terminator at all. */
  lemma JoinedLinesRejected(data: string, mode: Mode, store: ObjectStore, maxOffset: OffsetLimit)
    requires data == "tree " + TreeHexF6C0
      + "parent " + "05452d6349abcd67aa396dfb28660d765d8b2a36"
      + "author Vicent Marti <tanoku@gmail.com> 1273848544 +0200"
      + "committer Vicent Marti <tanoku@gmail.com> 1273848544 +0200"
      + "another test commit with broken endlines"
    ensures ParseCommit(data, mode, store, maxOffset).Failure?
  {
    assert data[45] == 'p';
    UnterminatedTreeLine(data, mode, store, maxOffset);
  }

  /** A '\n' before the tree line. */
  lemma LeadingNewlineRejected(data: string, mode: Mode, store: ObjectStore, maxOffset: OffsetLimit)
    requires data == "\n" + "tree " + TreeHexF6C0 + "\n"
      + "parent " + "05452d6349abcd67aa396dfb28660d765d8b2a36" + "\n"
      + "author Vicent Marti <tanoku@gmail.com> 1273848544 +0200\n"
      + "committer Vicent Marti <tanoku@gmail.com> 1273848544 +0200\n"
      + "\n"
      + "a test commit with a starting endline\n"
    ensures ParseCommit(data, mode, store, maxOffset).Failure?
  {
    assert data[0] == '\n';
    NoTreeHeader(data, 0, mode, store, maxOffset);
  }

  /** Buffers cut off after the tree line: inside a parent line, after its header, and inside its header. */
  lemma CutOffRejected(data: string, mode: Mode, store: ObjectStore, maxOffset: OffsetLimit)
    requires || data == "tree " + TreeHexF6C0 + "\n" + "parent 05452d6349abcd67aa396df"
             || data == "tree " + TreeHexF6C0 + "\n" + "parent "
             || data == "tree " + TreeHexF6C0 + "\n" + "par"
    ensures ParseCommit(data, mode, store, maxOffset).Failure?
  {
    TreeHexF6C0Text();
    if data == "tree " + TreeHexF6C0 + "\n" + "parent 05452d6349abcd67aa396df" {
      NothingAfterTree(data, TreeHexF6C0, "parent 05452d6349abcd67aa396df", mode, store, maxOffset);
    } else if data == "tree " + TreeHexF6C0 + "\n" + "parent " {
      NothingAfterTree(data, TreeHexF6C0, "parent ", mode, store, maxOffset);
    } else {
      NothingAfterTree(data, TreeHexF6C0, "par", mode, store, maxOffset);
    }
  }

  /** The commit written from memory: its tree, its one parent, its two signatures and its message. */
  const ParentHex8496: string := "8496071c1b" + "46c854b311" + "85ea97743b" + "e6a8774479"
  const MemoryAuthor: Signature := Signature("Vicent Marti", "vicent@github.com", 987654321, 90)
  const MemoryCommitter: Signature := Signature("Vicent Marti", "vicent@github.com", 123456789, 60)
  const MemoryMessage: string := "This commit has been created in memory\n"
    + "This is a commit created in memory and it will be written back to disk\n"

  /** Offsets of ninety and sixty minutes are written "+0130" and "+0100", and read back. */
  lemma MemoryTimezones(maxOffset: OffsetLimit)
    ensures FormatTimezone(90) == "+0130" && ParseTimezone("+0130", maxOffset) == Some(90)
    ensures FormatTimezone(60) == "+0100" && ParseTimezone("+0100", maxOffset) == Some(60)
  {
    PadTwoDigits(1);
    PadTwoDigits(30);
    PadTwoDigits(0);
    TimezoneRoundTrip(90, maxOffset);
    TimezoneRoundTrip(60, maxOffset);
  }

  /** Both signatures can be written: no '<' or '\n' in the name, no '>' or '\n' in the email, and offsets within bounds. */
  lemma MemorySignatures(maxOffset: OffsetLimit)
    ensures WellFormed(MemoryAuthor, maxOffset) && WellFormed(MemoryCommitter, maxOffset)
  {
    MemoryName();
    MemoryEmail();
  }

  lemma MemoryName()
    ensures '<' !in "Vicent Marti" && '\n' !in "Vicent Marti"
  {
  }

  lemma MemoryEmail()
    ensures '>' !in "vicent@github.com" && '\n' !in "vicent@github.com"
  {
  }

  /**
    The commit created from memory, with the tree and the parent named by
    their digits, is looked up with every field as given: both names and
    emails, both times, the offsets 90 and 60, and the message.
  */
  lemma MemoryCommitReadBack(store: ObjectStore, hash: string -> Oid, tree: Oid, parent: Oid, maxOffset: OffsetLimit)
    requires DecodeHex(TreeHex1810) == Some(tree) && DecodeHex(ParentHex8496) == Some(parent)
    ensures var (id, written) := CreateCommit(store, hash, tree, [parent], MemoryAuthor, MemoryCommitter, MemoryMessage);
      Lookup(written, id, Default, maxOffset) == Success(Commit(tree, [parent], MemoryAuthor, MemoryCommitter, MemoryMessage))
  {
    MemorySignatures(maxOffset);
    CreateThenLookup(store, hash, tree, [parent], MemoryAuthor, MemoryCommitter, MemoryMessage, Default, maxOffset);
  }
}
