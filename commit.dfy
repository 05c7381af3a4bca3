/**
  The commit object: its canonical text, the parser that reads it (in the
  default mode, and in the strict mode that also checks the objects it
  names), the serializer that writes it, and the accessors on a parsed
  commit.

  The text is a `tree` line, any number of `parent` lines, an `author` line,
  a `committer` line, an empty line, and then the message, byte for byte.
*/
module Commits {
  import opened Wrappers
  import opened ObjectId
  import opened Signatures

  /** A parsed commit: the tree it records, its parents in order, who wrote and who committed it, and its message. */
  datatype Commit = Commit(tree: Oid, parents: seq<Oid>, author: Signature, committer: Signature, message: string)

  /**
    FormatError: the text breaks the grammar. ReferenceError: strict mode
    found a named object missing or of the wrong kind. NotFound: a parent
    index out of range, or no such commit in the store.
  */
  datatype Error = FormatError | ReferenceError | NotFound

  datatype ObjectKind = CommitKind | TreeKind | BlobKind | TagKind

  datatype RawObject = RawObject(kind: ObjectKind, data: string)

  /** The object database, reduced to what this model asks of it: the kind and the text stored under an identifier. */
  type ObjectStore = map<Oid, RawObject>

  /** Parse flag 0 is `Default`; flag 0x1 is `Strict`, which also checks every identifier it decodes. */
  datatype Mode = Default | Strict

  const TreeHeader: string := "tree "
  const ParentHeader: string := "parent "
  const AuthorHeader: string := "author "
  const CommitterHeader: string := "committer "

  predicate ExistsAs(store: ObjectStore, id: Oid, kind: ObjectKind) {
    id in store && store[id].kind == kind
  }

  /** Whether `mode` lets a decoded identifier through: always by default, only if the object exists with that kind when strict. */
  predicate Admits(mode: Mode, store: ObjectStore, id: Oid, kind: ObjectKind) {
    mode == Default || ExistsAs(store, id, kind)
  }

  /** The whole commit text. The first line must be the tree line, at the very first byte. */
  function ParseCommit(data: string, mode: Mode, store: ObjectStore, maxOffset: OffsetLimit): (r: Result<Commit, Error>)
    ensures r.Failure? ==> r.error == FormatError || (mode == Strict && r.error == ReferenceError)
  {
    match ParseOidLine(data, 0, TreeHeader)
    case None => Failure(FormatError)
    case Some((tree, next)) =>
      if !Admits(mode, store, tree, TreeKind) then Failure(ReferenceError)
      else ParseParents(data, next, tree, [], mode, store, maxOffset)
  }

  /**
    The parent lines at `pos`, appended to `parents`. The first line that
    does not parse as a parent line ends the list, and the author line is
    looked for at that same position.
  */
  function ParseParents(data: string, pos: nat, tree: Oid, parents: seq<Oid>, mode: Mode, store: ObjectStore, maxOffset: OffsetLimit): (r: Result<Commit, Error>)
    requires pos <= |data|
    ensures r.Failure? ==> r.error == FormatError || (mode == Strict && r.error == ReferenceError)
    decreases |data| - pos
  {
    match ParseOidLine(data, pos, ParentHeader)
    case None => ParseSignatures(data, pos, tree, parents, maxOffset)
    case Some((id, next)) =>
      if !Admits(mode, store, id, CommitKind) then Failure(ReferenceError)
      else ParseParents(data, next, tree, parents + [id], mode, store, maxOffset)
  }

  /** The author line, then the committer line, the empty line, and the message: everything that is left. */
  function ParseSignatures(data: string, pos: nat, tree: Oid, parents: seq<Oid>, maxOffset: OffsetLimit): (r: Result<Commit, Error>)
    requires pos <= |data|
    ensures r.Failure? ==> r.error == FormatError
  {
    match ParseSignatureLine(data, pos, AuthorHeader, maxOffset)
    case None => Failure(FormatError)
    case Some((author, afterAuthor)) => ParseCommitter(data, afterAuthor, tree, parents, author, maxOffset)
  }

  /** The committer line, the empty line, and the message, once the author is read. */
  function ParseCommitter(data: string, pos: nat, tree: Oid, parents: seq<Oid>, author: Signature, maxOffset: OffsetLimit): (r: Result<Commit, Error>)
    requires pos <= |data|
    ensures r.Failure? ==> r.error == FormatError
  {
    match ParseSignatureLine(data, pos, CommitterHeader, maxOffset)
    case None => Failure(FormatError)
    case Some((committer, afterCommitter)) =>
      if afterCommitter == |data| || data[afterCommitter] != '\n' then Failure(FormatError)
      else Success(Commit(tree, parents, author, committer, data[afterCommitter + 1..]))
  }

  /** One "parent <hex>\n" line per parent, in order. */
  function ParentLines(parents: seq<Oid>): (s: string)
    ensures |s| == |parents| * (|ParentHeader| + HexLength + 1)
  {
    if parents == [] then "" else OidLine(ParentHeader, parents[0]) + ParentLines(parents[1..])
  }

  /** The canonical text of a commit, exactly the grammar the parser reads, with the message appended unchanged. */
  function SerializeCommit(c: Commit): (data: string)
  {
    OidLine(TreeHeader, c.tree) + ParentLines(c.parents)
      + FormatSignatureLine(AuthorHeader, c.author) + FormatSignatureLine(CommitterHeader, c.committer)
      + "\n" + c.message
  }

  /**
    The writer's text starts with the tree header and ends with the message,
    which follows a '\n': the shape every accepted buffer has.
  */
  lemma {:induction false} SerializedShape(c: Commit)
    ensures TreeHeader <= SerializeCommit(c) && FollowsNewline(SerializeCommit(c), c.message)
  {
    var data := SerializeCommit(c);
    var head := OidLine(TreeHeader, c.tree) + ParentLines(c.parents)
      + FormatSignatureLine(AuthorHeader, c.author) + FormatSignatureLine(CommitterHeader, c.committer);
    assert data == head + "\n" + c.message;
    assert data[|head|] == '\n' && data[|head| + 1..] == c.message;
    MessageAfter(data, c.message, |head|);
    assert data[..|TreeHeader|] == TreeHeader;
  }

  /** What follows a prefix of a suffix. */
  lemma DropConcat(data: string, pos: nat, a: string, b: string, next: nat)
    requires pos <= |data| && data[pos..] == a + b
    requires next == pos + |a|
    ensures next <= |data| && data[next..] == b
  {
    assert data[next..] == data[pos..][|a|..];
  }

  /** Appending to a text keeps each of its bytes, and appends to each of its suffixes. */
  lemma DropAppend(data: string, more: string, i: nat)
    requires i < |data|
    ensures (data + more)[i] == data[i] && (data + more)[i + 1..] == data[i + 1..] + more
  {
  }

  /** What follows a line and its newline. */
  lemma DropLine(data: string, pos: nat, line: string, rest: string, next: nat)
    requires pos <= |data| && data[pos..] == line + "\n" + rest
    requires next == pos + |line| + 1
    ensures next <= |data| && data[next..] == rest
  {
    assert data[next..] == data[pos..][|line| + 1..];
  }

  /** The first character of a suffix, and what follows it. */
  lemma DropChar(data: string, pos: nat, c: char, rest: string)
    requires pos <= |data| && data[pos..] == [c] + rest
    ensures pos < |data| && data[pos] == c && data[pos + 1..] == rest
  {
    assert data[pos] == data[pos..][0];
    assert data[pos + 1..] == data[pos..][1..];
  }

  /** A line that does not start as a parent line does is not a parent line. */
  lemma {:induction false} ParentLineAbsent(data: string, pos: nat)
    requires pos < |data| && data[pos] != ParentHeader[0]
    ensures ParseOidLine(data, pos, ParentHeader).None?
  {
    if pos + |ParentHeader| <= |data| {
      assert data[pos..pos + |ParentHeader|][0] != ParentHeader[0];
    }
  }

  /** Both signature lines read, and an empty line after them: the rest of the text is the message. */
  lemma {:induction false} ParseSignaturesAt(data: string, pos: nat, tree: Oid, parents: seq<Oid>, author: Signature, afterAuthor: nat, committer: Signature, afterCommitter: nat, maxOffset: OffsetLimit)
    requires pos <= |data| && ParseSignatureLine(data, pos, AuthorHeader, maxOffset) == Some((author, afterAuthor))
    requires afterAuthor <= |data| && ParseSignatureLine(data, afterAuthor, CommitterHeader, maxOffset) == Some((committer, afterCommitter))
    requires afterCommitter < |data| && data[afterCommitter] == '\n'
    ensures ParseSignatures(data, pos, tree, parents, maxOffset) == Success(Commit(tree, parents, author, committer, data[afterCommitter + 1..]))
  {
    CommitterAt(data, afterAuthor, tree, parents, author, committer, afterCommitter, maxOffset);
  }

  /** The committer line read, and an empty line after it: the rest of the text is the message. */
  lemma {:induction false} CommitterAt(data: string, pos: nat, tree: Oid, parents: seq<Oid>, author: Signature, committer: Signature, afterCommitter: nat, maxOffset: OffsetLimit)
    requires pos <= |data| && ParseSignatureLine(data, pos, CommitterHeader, maxOffset) == Some((committer, afterCommitter))
    requires afterCommitter < |data| && data[afterCommitter] == '\n'
    ensures ParseCommitter(data, pos, tree, parents, author, maxOffset) == Success(Commit(tree, parents, author, committer, data[afterCommitter + 1..]))
  {
  }

  /**
    An author line and a committer line that each read as a signature,
    then the empty line, then the message: the commit is read with exactly
    those signatures and that message.
  */
  lemma {:induction false} ParseSignaturesAccepts(data: string, pos: nat, tree: Oid, parents: seq<Oid>, author: Signature, authorLine: string, committer: Signature, committerLine: string, afterAuthorText: string, separatorText: string, message: string, maxOffset: OffsetLimit)
    requires '\n' !in authorLine && ParseSignatureText(authorLine, AuthorHeader, maxOffset) == Some(author)
    requires '\n' !in committerLine && ParseSignatureText(committerLine, CommitterHeader, maxOffset) == Some(committer)
    requires separatorText == "\n" + message
    requires afterAuthorText == committerLine + "\n" + separatorText
    requires pos <= |data| && data[pos..] == authorLine + "\n" + afterAuthorText
    ensures ParseSignatures(data, pos, tree, parents, maxOffset) == Success(Commit(tree, parents, author, committer, message))
  {
    var afterAuthor := pos + |authorLine| + 1;
    var afterCommitter := afterAuthor + |committerLine| + 1;
    DropLine(data, pos, authorLine, afterAuthorText, afterAuthor);
    ParseSignatureLineOf(data, pos, authorLine, afterAuthorText, AuthorHeader, author, afterAuthor, maxOffset);
    DropLine(data, afterAuthor, committerLine, separatorText, afterCommitter);
    ParseSignatureLineOf(data, afterAuthor, committerLine, separatorText, CommitterHeader, committer, afterCommitter, maxOffset);
    DropChar(data, afterCommitter, '\n', message);
    ParseSignaturesAt(data, pos, tree, parents, author, afterAuthor, committer, afterCommitter, maxOffset);
  }

  /** Parent lines with the given digit texts, in order: one "parent <digits>\n" line per text. */
  function ParentTextLines(hexes: seq<string>): string
  {
    if hexes == [] then "" else ParentHeader + hexes[0] + "\n" + ParentTextLines(hexes[1..])
  }

  /**
    Parent lines whose digits are of either case, followed by something
    that is not a parent line, are read as exactly the identifiers those
    digits decode to, provided each is admitted in `mode`.
  */
  lemma {:induction false} ParseParentTextsAccepts(data: string, pos: nat, tree: Oid, parents: seq<Oid>, hexes: seq<string>, ps: seq<Oid>, rest: string, end: nat, mode: Mode, store: ObjectStore, maxOffset: OffsetLimit)
    requires |hexes| == |ps|
    requires forall i | 0 <= i < |ps| :: IsHexText(hexes[i]) && DecodeHex(hexes[i]) == Some(ps[i])
    requires forall i | 0 <= i < |ps| :: Admits(mode, store, ps[i], CommitKind)
    requires pos <= |data| && data[pos..] == ParentTextLines(hexes) + rest
    requires end == pos + |ParentTextLines(hexes)|
    requires ParseOidLine(data, end, ParentHeader).None?
    ensures end <= |data|
    ensures ParseParents(data, pos, tree, parents, mode, store, maxOffset) == ParseSignatures(data, end, tree, parents + ps, maxOffset)
    decreases |ps|
  {
    if ps == [] {
      ParentsEnd(data, pos, tree, parents, mode, store, maxOffset);
      assert parents + ps == parents;
    } else {
      var line := ParentHeader + hexes[0] + "\n";
      var tail := ParentTextLines(hexes[1..]);
      var next := pos + |line|;
      assert next <= |data| && data[next..] == tail + rest && ParseOidLine(data, pos, ParentHeader) == Some((ps[0], next)) by {
        assert ParentTextLines(hexes) + rest == line + (tail + rest);
        assert IsHexText(hexes[0]) && DecodeHex(hexes[0]) == Some(ps[0]);
        ParseOidLineAccepts(data, pos, ParentHeader, hexes[0], tail + rest);
        DropConcat(data, pos, line, tail + rest, next);
      }
      assert ParseParents(data, pos, tree, parents, mode, store, maxOffset) == ParseParents(data, next, tree, parents + [ps[0]], mode, store, maxOffset);
      ParseParentTextsAccepts(data, next, tree, parents + [ps[0]], hexes[1..], ps[1..], rest, end, mode, store, maxOffset);
      AppendFirst(parents, ps);
    }
  }

  /** The writer's parent lines are the parent lines of the identifiers' lower-case texts. */
  lemma {:induction false} WrittenParentLines(ps: seq<Oid>)
    ensures ParentLines(ps) == ParentTextLines(seq(|ps|, i requires 0 <= i < |ps| => FormatOid(ps[i])))
    decreases |ps|
  {
    if ps != [] {
      var hexes := seq(|ps|, i requires 0 <= i < |ps| => FormatOid(ps[i]));
      WrittenParentLines(ps[1..]);
      assert hexes[1..] == seq(|ps[1..]|, i requires 0 <= i < |ps[1..]| => FormatOid(ps[1..][i]));
    }
  }

  /**
    Parent lines as the writer emits them, in lower case, followed by
    something that is not a parent line, are read as exactly those parents,
    provided each is admitted in `mode`.
  */
  lemma {:induction false} ParseParentsAccepts(data: string, pos: nat, tree: Oid, parents: seq<Oid>, ps: seq<Oid>, lines: string, rest: string, end: nat, mode: Mode, store: ObjectStore, maxOffset: OffsetLimit)
    requires lines == ParentLines(ps)
    requires pos <= |data| && data[pos..] == lines + rest
    requires end == pos + |lines|
    requires forall i | 0 <= i < |ps| :: Admits(mode, store, ps[i], CommitKind)
    requires ParseOidLine(data, end, ParentHeader).None?
    ensures end <= |data|
    ensures ParseParents(data, pos, tree, parents, mode, store, maxOffset) == ParseSignatures(data, end, tree, parents + ps, maxOffset)
  {
    var hexes := seq(|ps|, i requires 0 <= i < |ps| => FormatOid(ps[i]));
    WrittenParentLines(ps);
    forall i | 0 <= i < |ps|
      ensures IsHexText(hexes[i]) && DecodeHex(hexes[i]) == Some(ps[i])
    {
      DecodeFormat(ps[i]);
    }
    ParseParentTextsAccepts(data, pos, tree, parents, hexes, ps, rest, end, mode, store, maxOffset);
  }

  /** A line that is not a parent line ends the parents: the signatures are read from there. */
  lemma {:induction false} ParentsEnd(data: string, pos: nat, tree: Oid, parents: seq<Oid>, mode: Mode, store: ObjectStore, maxOffset: OffsetLimit)
    requires pos <= |data| && ParseOidLine(data, pos, ParentHeader).None?
    ensures ParseParents(data, pos, tree, parents, mode, store, maxOffset) == ParseSignatures(data, pos, tree, parents, maxOffset)
  {
  }

  /** The first of the written parent lines, read and admitted: the reading goes on after it with one more parent. */
  lemma {:induction false} FirstParentLine(data: string, pos: nat, tree: Oid, parents: seq<Oid>, ps: seq<Oid>, rest: string, mode: Mode, store: ObjectStore, maxOffset: OffsetLimit)
    returns (next: nat)
    requires ps != [] && Admits(mode, store, ps[0], CommitKind)
    requires pos <= |data| && data[pos..] == ParentLines(ps) + rest
    ensures next == pos + |ParentHeader| + HexLength + 1 && next <= |data|
    ensures data[next..] == ParentLines(ps[1..]) + rest
    ensures ParseParents(data, pos, tree, parents, mode, store, maxOffset) == ParseParents(data, next, tree, parents + [ps[0]], mode, store, maxOffset)
  {
    var line := OidLine(ParentHeader, ps[0]);
    var tailLines := ParentLines(ps[1..]);
    next := pos + |line|;
    ParentLinesFirst(ps, rest);
    OidLineRoundTrip(data, pos, ParentHeader, ps[0], line, tailLines + rest, next);
    DropConcat(data, pos, line, tailLines + rest, next);
  }

  lemma EmptyAppend<T>(xs: seq<T>)
    ensures [] + xs == xs
  {
  }

  /** Appending a non-empty list is appending its first element, then the others. */
  lemma AppendFirst<T>(xs: seq<T>, ys: seq<T>)
    requires ys != []
    ensures xs + [ys[0]] + ys[1..] == xs + ys
  {
    assert [ys[0]] + ys[1..] == ys;
  }

  /** The written parent lines are the first one, then the others. */
  lemma ParentLinesFirst(ps: seq<Oid>, rest: string)
    requires ps != []
    ensures ParentLines(ps) + rest == OidLine(ParentHeader, ps[0]) + (ParentLines(ps[1..]) + rest)
  {
  }

  /**
    The round trip: a commit whose signatures are well formed, once
    serialized, parses back to itself; in strict mode too, when the objects
    it names exist with the right kinds.
  */
  lemma {:induction false} CommitRoundTrip(c: Commit, mode: Mode, store: ObjectStore, maxOffset: OffsetLimit)
    requires WellFormed(c.author, maxOffset) && WellFormed(c.committer, maxOffset)
    requires Admits(mode, store, c.tree, TreeKind)
    requires forall i | 0 <= i < |c.parents| :: Admits(mode, store, c.parents[i], CommitKind)
    ensures ParseCommit(SerializeCommit(c), mode, store, maxOffset) == Success(c)
  {
    var treeLine, parentLines, authorLine, committerLine, afterAuthorText, separatorText, body := SerializedPieces(c, maxOffset);
    CommitRoundTripAt(SerializeCommit(c), c, treeLine, parentLines, authorLine, committerLine, afterAuthorText, separatorText, body, mode, store, maxOffset);
  }

  /** The serialized text cut into the lines the parser reads, with what is known of each. */
  lemma {:induction false} SerializedPieces(c: Commit, maxOffset: OffsetLimit)
    returns (treeLine: string, parentLines: string, authorLine: string, committerLine: string, afterAuthorText: string, separatorText: string, body: string)
    requires WellFormed(c.author, maxOffset) && WellFormed(c.committer, maxOffset)
    ensures '\n' !in authorLine && ParseSignatureText(authorLine, AuthorHeader, maxOffset) == Some(c.author)
    ensures '\n' !in committerLine && ParseSignatureText(committerLine, CommitterHeader, maxOffset) == Some(c.committer)
    ensures |authorLine| > 0 && authorLine[0] != ParentHeader[0]
    ensures treeLine == OidLine(TreeHeader, c.tree) && parentLines == ParentLines(c.parents)
    ensures separatorText == "\n" + c.message
    ensures afterAuthorText == committerLine + "\n" + separatorText
    ensures body == authorLine + "\n" + afterAuthorText
    ensures SerializeCommit(c) == treeLine + (parentLines + body)
  {
    treeLine := OidLine(TreeHeader, c.tree);
    parentLines := ParentLines(c.parents);
    authorLine := AuthorHeader + IdentityText(c.author);
    committerLine := CommitterHeader + IdentityText(c.committer);
    separatorText := "\n" + c.message;
    afterAuthorText := committerLine + "\n" + separatorText;
    body := authorLine + "\n" + afterAuthorText;
    SignatureHeaders();
    SignatureTextOf(AuthorHeader, c.author, authorLine, maxOffset);
    SignatureTextOf(CommitterHeader, c.committer, committerLine, maxOffset);
    FirstOfDrop(authorLine, 0, AuthorHeader, IdentityText(c.author));
    Regroup(treeLine, parentLines, authorLine, committerLine, c.message);
  }

  /** Neither signature header holds a '\n', and the author header does not start as a parent line does. */
  lemma SignatureHeaders()
    ensures '\n' !in AuthorHeader && '\n' !in CommitterHeader
    ensures AuthorHeader[0] != ParentHeader[0]
  {
    assert AuthorHeader == ['a'] + "uthor ";
    assert CommitterHeader == ['c'] + "ommitter ";
  }

  /** The serialized text regrouped from the right, line by line. */
  lemma Regroup(treeLine: string, parentLines: string, authorLine: string, committerLine: string, message: string)
    ensures treeLine + parentLines + (authorLine + "\n") + (committerLine + "\n") + "\n" + message
      == treeLine + (parentLines + (authorLine + "\n" + (committerLine + "\n" + ("\n" + message))))
  {
  }

  /** The round trip, over the pieces of the serialized text. */
  lemma {:induction false} CommitRoundTripAt(data: string, c: Commit, treeLine: string, parentLines: string, authorLine: string, committerLine: string, afterAuthorText: string, separatorText: string, body: string, mode: Mode, store: ObjectStore, maxOffset: OffsetLimit)
    requires Admits(mode, store, c.tree, TreeKind)
    requires forall i | 0 <= i < |c.parents| :: Admits(mode, store, c.parents[i], CommitKind)
    requires '\n' !in authorLine && ParseSignatureText(authorLine, AuthorHeader, maxOffset) == Some(c.author)
    requires '\n' !in committerLine && ParseSignatureText(committerLine, CommitterHeader, maxOffset) == Some(c.committer)
    requires |authorLine| > 0 && authorLine[0] != ParentHeader[0]
    requires treeLine == OidLine(TreeHeader, c.tree) && parentLines == ParentLines(c.parents)
    requires separatorText == "\n" + c.message
    requires afterAuthorText == committerLine + "\n" + separatorText
    requires body == authorLine + "\n" + afterAuthorText
    requires data == treeLine + (parentLines + body)
    ensures ParseCommit(data, mode, store, maxOffset) == Success(c)
  {
    var afterTree := |treeLine|;
    var afterParents := afterTree + |parentLines|;
    DropConcat(data, 0, treeLine, parentLines + body, afterTree);
    OidLineRoundTrip(data, 0, TreeHeader, c.tree, treeLine, parentLines + body, afterTree);
    TreeThenParents(data, c.tree, afterTree, mode, store, maxOffset);
    DropConcat(data, afterTree, parentLines, body, afterParents);
    FirstOfDrop(data, afterParents, authorLine + "\n", afterAuthorText);
    ParentLineAbsent(data, afterParents);
    ParseParentsAccepts(data, afterTree, c.tree, [], c.parents, parentLines, body, afterParents, mode, store, maxOffset);
    ParseSignaturesAccepts(data, afterParents, c.tree, c.parents, c.author, authorLine, c.committer, committerLine, afterAuthorText, separatorText, c.message, maxOffset);
    EmptyAppend(c.parents);
  }

  /** An admitted tree line: the parent lines are read next. */
  lemma {:induction false} TreeThenParents(data: string, tree: Oid, next: nat, mode: Mode, store: ObjectStore, maxOffset: OffsetLimit)
    requires ParseOidLine(data, 0, TreeHeader) == Some((tree, next)) && Admits(mode, store, tree, TreeKind)
    ensures next <= |data| && ParseCommit(data, mode, store, maxOffset) == ParseParents(data, next, tree, [], mode, store, maxOffset)
  {
  }

  /** The first byte of a suffix. */
  lemma FirstOfDrop(data: string, pos: nat, a: string, b: string)
    requires pos <= |data| && data[pos..] == a + b && |a| > 0
    ensures pos < |data| && data[pos] == a[0]
  {
    assert data[pos] == data[pos..][0];
  }

  /**
    What a successful read of the signature section guarantees: the tree
    and parents are the ones passed in, and the message is a suffix of the
    text that follows a '\n', and starts after `pos`.
  */
  lemma {:induction false} ParseSignaturesSound(data: string, pos: nat, tree: Oid, parents: seq<Oid>, c: Commit, maxOffset: OffsetLimit)
    requires pos <= |data| && ParseSignatures(data, pos, tree, parents, maxOffset) == Success(c)
    ensures c.tree == tree && c.parents == parents
    ensures pos < |data| - |c.message| && FollowsNewline(data, c.message)
  {
    var afterAuthor, afterCommitter := ParseSignaturesParts(data, pos, tree, parents, maxOffset, c);
    MessageAfter(data, c.message, afterCommitter);
  }

  /** `message` ends `data`, and the byte just before it is a '\n'. */
  predicate FollowsNewline(data: string, message: string)
  {
    |message| < |data| && data[|data| - |message|..] == message && data[|data| - |message| - 1] == '\n'
  }

  /** The text after a '\n' is a suffix that follows that '\n'. */
  lemma MessageAfter(data: string, message: string, i: nat)
    requires i < |data| && data[i] == '\n' && message == data[i + 1..]
    ensures |data| - |message| == i + 1 && FollowsNewline(data, message)
  {
  }

  /**
    What a successful read from the parent lines on guarantees: the parents
    passed in come first, every parent read after them is admitted in
    `mode`, and the message is a suffix of the text that follows a '\n'.
  */
  lemma {:induction false} ParseParentsSound(data: string, pos: nat, tree: Oid, parents: seq<Oid>, mode: Mode, store: ObjectStore, maxOffset: OffsetLimit, c: Commit)
    requires pos <= |data| && ParseParents(data, pos, tree, parents, mode, store, maxOffset) == Success(c)
    ensures c.tree == tree && parents <= c.parents
    ensures forall i | |parents| <= i < |c.parents| :: Admits(mode, store, c.parents[i], CommitKind)
    ensures pos < |data| - |c.message| && FollowsNewline(data, c.message)
    decreases |data| - pos
  {
    match ParseOidLine(data, pos, ParentHeader)
    case None =>
      ParseSignaturesSound(data, pos, tree, parents, c, maxOffset);
    case Some((id, next)) =>
      ParseParentsSound(data, next, tree, parents + [id], mode, store, maxOffset, c);
      assert c.parents[|parents|] == (parents + [id])[|parents|] == id;
  }

  /**
    What a successful parse guarantees: the text starts with the tree
    line's header, every identifier it names is admitted in `mode` (in
    strict mode: exists with the right kind), and the message is the tail
    of the text after a '\n', copied unchanged.
  */
  lemma {:induction false} ParseCommitSound(data: string, mode: Mode, store: ObjectStore, maxOffset: OffsetLimit, c: Commit)
    requires ParseCommit(data, mode, store, maxOffset) == Success(c)
    ensures TreeHeader <= data
    ensures Admits(mode, store, c.tree, TreeKind)
    ensures forall i | 0 <= i < |c.parents| :: Admits(mode, store, c.parents[i], CommitKind)
    ensures FollowsNewline(data, c.message)
  {
    var (tree, next) := ParseOidLine(data, 0, TreeHeader).value;
    assert data[..|TreeHeader|] == data[0..next][..|TreeHeader|];
    ParseParentsSound(data, next, tree, [], mode, store, maxOffset, c);
  }

  /**
    The strict reading of the parent lines agrees with the default one
    except that it may stop with ReferenceError; the default reading never
    does; and when every parent the default reading finds exists as a
    commit, the two agree.
  */
  lemma {:induction false} ParseParentsModes(data: string, pos: nat, tree: Oid, parents: seq<Oid>, store: ObjectStore, maxOffset: OffsetLimit)
    requires pos <= |data|
    ensures ParseParents(data, pos, tree, parents, Default, store, maxOffset) != Failure(ReferenceError)
    ensures var strict := ParseParents(data, pos, tree, parents, Strict, store, maxOffset);
      strict == ParseParents(data, pos, tree, parents, Default, store, maxOffset) || strict == Failure(ReferenceError)
    ensures var loose := ParseParents(data, pos, tree, parents, Default, store, maxOffset);
      loose.Success? && (forall i | |parents| <= i < |loose.value.parents| :: ExistsAs(store, loose.value.parents[i], CommitKind))
      ==> ParseParents(data, pos, tree, parents, Strict, store, maxOffset) == loose
    decreases |data| - pos
  {
    match ParseOidLine(data, pos, ParentHeader)
    case None =>
    case Some((id, next)) =>
      ParseParentsModes(data, next, tree, parents + [id], store, maxOffset);
      var loose := ParseParents(data, pos, tree, parents, Default, store, maxOffset);
      if loose.Success? {
        ParseParentsSound(data, next, tree, parents + [id], Default, store, maxOffset, loose.value);
        assert loose.value.parents[|parents|] == (parents + [id])[|parents|] == id;
      }
  }

  /**
    Strict mode (parse flag 0x1) only adds ReferenceError: a strict parse
    either gives what the default parse gives or fails with ReferenceError,
    the default parse never fails with ReferenceError, and a strict parse
    succeeds exactly when the default one does and every identifier it read
    names an object of the right kind.
  */
  lemma {:induction false} ParseCommitModes(data: string, store: ObjectStore, maxOffset: OffsetLimit)
    ensures ParseCommit(data, Default, store, maxOffset) != Failure(ReferenceError)
    ensures var strict := ParseCommit(data, Strict, store, maxOffset);
      strict == ParseCommit(data, Default, store, maxOffset) || strict == Failure(ReferenceError)
    ensures var loose := ParseCommit(data, Default, store, maxOffset);
      ParseCommit(data, Strict, store, maxOffset).Success? <==>
        (loose.Success? && ExistsAs(store, loose.value.tree, TreeKind)
         && forall i | 0 <= i < |loose.value.parents| :: ExistsAs(store, loose.value.parents[i], CommitKind))
  {
    match ParseOidLine(data, 0, TreeHeader)
    case None =>
    case Some((tree, next)) =>
      ParseParentsModes(data, next, tree, [], store, maxOffset);
      var strict := ParseCommit(data, Strict, store, maxOffset);
      if strict.Success? {
        ParseCommitSound(data, Strict, store, maxOffset, strict.value);
      }
      var loose := ParseCommit(data, Default, store, maxOffset);
      if loose.Success? {
        ParseParentsSound(data, next, tree, [], Default, store, maxOffset, loose.value);
      }
  }

  /** What a successful read of the signature section consists of: the two lines, the empty line, and the message after it. */
  lemma {:induction false} ParseSignaturesParts(data: string, pos: nat, tree: Oid, parents: seq<Oid>, maxOffset: OffsetLimit, c: Commit)
    returns (afterAuthor: nat, afterCommitter: nat)
    requires pos <= |data| && ParseSignatures(data, pos, tree, parents, maxOffset) == Success(c)
    ensures ParseSignatureLine(data, pos, AuthorHeader, maxOffset) == Some((c.author, afterAuthor))
    ensures afterAuthor <= |data| && ParseSignatureLine(data, afterAuthor, CommitterHeader, maxOffset) == Some((c.committer, afterCommitter))
    ensures pos < afterAuthor < afterCommitter < |data| && data[afterCommitter] == '\n'
    ensures c.tree == tree && c.parents == parents && c.message == data[afterCommitter + 1..]
  {
    afterAuthor := ParseSignatureLine(data, pos, AuthorHeader, maxOffset).value.1;
    afterCommitter := CommitterParts(data, afterAuthor, tree, parents, ParseSignatureLine(data, pos, AuthorHeader, maxOffset).value.0, maxOffset, c);
  }

  /** What a successful read of the committer line and the empty line consists of. */
  lemma {:induction false} CommitterParts(data: string, pos: nat, tree: Oid, parents: seq<Oid>, author: Signature, maxOffset: OffsetLimit, c: Commit)
    returns (afterCommitter: nat)
    requires pos <= |data| && ParseCommitter(data, pos, tree, parents, author, maxOffset) == Success(c)
    ensures ParseSignatureLine(data, pos, CommitterHeader, maxOffset) == Some((c.committer, afterCommitter))
    ensures pos < afterCommitter < |data| && data[afterCommitter] == '\n'
    ensures c.tree == tree && c.parents == parents && c.author == author && c.message == data[afterCommitter + 1..]
  {
    afterCommitter := ParseSignatureLine(data, pos, CommitterHeader, maxOffset).value.1;
  }

  /** A suffix is the slice up to `j` followed by the suffix from `j`. */
  lemma JoinAt(data: string, i: nat, j: nat)
    requires i <= j <= |data|
    ensures data[i..] == data[i..j] + data[j..]
  {
  }

  /**
    An accepted signature section, as text: an author line and a committer
    line, neither holding a '\n', that read as the two signatures, each
    followed by its '\n', then the empty line and the message. The converse
    of `ParseSignaturesAccepts`.
  */
  lemma {:induction false} ParseSignaturesText(data: string, pos: nat, tree: Oid, parents: seq<Oid>, maxOffset: OffsetLimit, c: Commit)
    returns (authorLine: string, committerLine: string)
    requires pos <= |data| && ParseSignatures(data, pos, tree, parents, maxOffset) == Success(c)
    ensures '\n' !in authorLine && ParseSignatureText(authorLine, AuthorHeader, maxOffset) == Some(c.author)
    ensures '\n' !in committerLine && ParseSignatureText(committerLine, CommitterHeader, maxOffset) == Some(c.committer)
    ensures data[pos..] == authorLine + "\n" + (committerLine + "\n" + ("\n" + c.message))
  {
    var afterAuthor, afterCommitter := ParseSignaturesParts(data, pos, tree, parents, maxOffset, c);
    ParseSignatureLineSound(data, pos, AuthorHeader, maxOffset, c.author, afterAuthor);
    ParseSignatureLineSound(data, afterAuthor, CommitterHeader, maxOffset, c.committer, afterCommitter);
    authorLine := data[pos..afterAuthor - 1];
    committerLine := data[afterAuthor..afterCommitter - 1];
    SectionShape(data, pos, afterAuthor, afterCommitter, c.message);
  }

  /** Two lines, each ended by the '\n' just before a cut, then a '\n' and the message. */
  lemma SectionShape(data: string, pos: nat, afterAuthor: nat, afterCommitter: nat, message: string)
    requires pos < afterAuthor < afterCommitter < |data|
    requires data[afterAuthor - 1] == '\n' && data[afterCommitter - 1] == '\n' && data[afterCommitter] == '\n'
    requires message == data[afterCommitter + 1..]
    ensures data[pos..] == data[pos..afterAuthor - 1] + "\n" + (data[afterAuthor..afterCommitter - 1] + "\n" + ("\n" + message))
  {
    LineThenRest(data, pos, afterAuthor - 1);
    LineThenRest(data, afterAuthor, afterCommitter - 1);
    assert data[afterCommitter..] == "\n" + message;
  }

  /** One more parent line in front of a run of parent lines. */
  lemma ParentTextStep(data: string, pos: nat, next: nat, end: nat, hex: string, hexes: seq<string>)
    requires pos <= next <= end <= |data|
    requires data[pos..next] == ParentHeader + hex + "\n" && data[next..end] == ParentTextLines(hexes)
    ensures data[pos..end] == ParentTextLines([hex] + hexes)
  {
    assert ([hex] + hexes)[1..] == hexes;
    assert data[pos..end] == data[pos..next] + data[next..end];
  }

  /** The digits of one more parent line, in front of those of the lines after it. */
  lemma DecodedStep(parents: seq<Oid>, id: Oid, ps: seq<Oid>, hex: string, hexes: seq<string>)
    requires parents + [id] <= ps && |hexes| == |ps| - |parents| - 1
    requires IsHexText(hex) && DecodeHex(hex) == Some(id)
    requires forall i | 0 <= i < |hexes| :: IsHexText(hexes[i]) && DecodeHex(hexes[i]) == Some(ps[|parents + [id]| + i])
    ensures parents <= ps && |[hex] + hexes| == |ps| - |parents|
    ensures forall i | 0 <= i < |[hex] + hexes| :: IsHexText(([hex] + hexes)[i]) && DecodeHex(([hex] + hexes)[i]) == Some(ps[|parents| + i])
  {
    assert ps[|parents|] == (parents + [id])[|parents|] == id;
    assert parents == (parents + [id])[..|parents|] == ps[..|parents|];
    forall i | 0 <= i < |[hex] + hexes|
      ensures IsHexText(([hex] + hexes)[i]) && DecodeHex(([hex] + hexes)[i]) == Some(ps[|parents| + i])
    {
      if i > 0 {
        assert ([hex] + hexes)[i] == hexes[i - 1];
        assert |parents + [id]| + (i - 1) == |parents| + i;
      }
    }
  }

  /**
    Every parent line is 48 bytes long: the 7-byte header, the 40 digits
    and the '\n'. One more such line in front of `k` of them.
  */
  lemma LinesAfter(pos: nat, next: nat, end: nat, k: nat)
    requires next == pos + 48 && end == next + k * 48
    ensures end == pos + (k + 1) * 48
  {
  }

  /** No lines take no room. */
  lemma NoLines(pos: nat, end: nat, k: nat)
    requires k == 0 && end == pos + k * 48
    ensures end == pos
  {
  }

  /** The lines after the first of `k` ones start one line further on. */
  lemma LinesFrom(pos: nat, end: nat, k: nat)
    requires k > 0 && end == pos + k * 48
    ensures end == pos + 48 + (k - 1) * 48
  {
  }

  /**
    Where an accepted run of `k` parent lines stops, the signature section
    is read with every parent found, and yields the commit.
  */
  lemma {:induction false} ParseParentsStop(data: string, pos: nat, tree: Oid, parents: seq<Oid>, mode: Mode, store: ObjectStore, maxOffset: OffsetLimit, c: Commit, k: nat, end: nat)
    requires pos <= |data| && ParseParents(data, pos, tree, parents, mode, store, maxOffset) == Success(c)
    requires |parents| + k == |c.parents| && end == pos + k * 48 <= |data|
    ensures ParseSignatures(data, end, tree, c.parents, maxOffset) == Success(c)
    decreases |data| - pos
  {
    match ParseOidLine(data, pos, ParentHeader)
    case None =>
      ParseSignaturesSound(data, pos, tree, parents, c, maxOffset);
      NoLines(pos, end, k);
    case Some((id, next)) =>
      ParseParentsSound(data, next, tree, parents + [id], mode, store, maxOffset, c);
      LinesFrom(pos, end, k);
      ParseParentsStop(data, next, tree, parents + [id], mode, store, maxOffset, c, k - 1, end);
  }

  /**
    An accepted run of parent lines, as text: from `pos` to `end` the text
    is one parent line per parent read, whose digits (of either case) decode
    to that parent, and all of it is `end - pos` bytes long. With
    `ParseParentsStop`, the converse of `ParseParentTextsAccepts`.
  */
  lemma {:induction false} ParseParentsParts(data: string, pos: nat, tree: Oid, parents: seq<Oid>, mode: Mode, store: ObjectStore, maxOffset: OffsetLimit, c: Commit)
    returns (hexes: seq<string>, end: nat)
    requires pos <= |data| && ParseParents(data, pos, tree, parents, mode, store, maxOffset) == Success(c)
    ensures c.tree == tree && parents <= c.parents && |hexes| == |c.parents| - |parents|
    ensures forall i | 0 <= i < |hexes| :: IsHexText(hexes[i]) && DecodeHex(hexes[i]) == Some(c.parents[|parents| + i])
    ensures pos <= end == pos + |hexes| * 48 <= |data| && data[pos..end] == ParentTextLines(hexes)
    decreases |data| - pos
  {
    match ParseOidLine(data, pos, ParentHeader)
    case None =>
      ParseSignaturesSound(data, pos, tree, parents, c, maxOffset);
      hexes, end := [], pos;
    case Some((id, next)) =>
      var hs, e := ParseParentsParts(data, next, tree, parents + [id], mode, store, maxOffset, c);
      ParseOidLineDecodes(data, pos, ParentHeader, id, next);
      hexes := ParentsPartsStep(data, pos, next, e, parents, id, c.parents, hs);
      end := e;
      LinesAfter(pos, next, e, |hs|);
  }

  /** One more parent line, read in front of the parent lines already split into their digits. */
  lemma ParentsPartsStep(data: string, pos: nat, next: nat, end: nat, parents: seq<Oid>, id: Oid, ps: seq<Oid>, hs: seq<string>)
    returns (hexes: seq<string>)
    requires pos + |ParentHeader| <= next - 1 && next <= end <= |data|
    requires data[pos..next] == ParentHeader + data[pos + |ParentHeader|..next - 1] + "\n"
    requires IsHexText(data[pos + |ParentHeader|..next - 1]) && DecodeHex(data[pos + |ParentHeader|..next - 1]) == Some(id)
    requires parents + [id] <= ps && |hs| == |ps| - |parents + [id]|
    requires forall i | 0 <= i < |hs| :: IsHexText(hs[i]) && DecodeHex(hs[i]) == Some(ps[|parents + [id]| + i])
    requires data[next..end] == ParentTextLines(hs)
    ensures parents <= ps && |hexes| == |ps| - |parents|
    ensures forall i | 0 <= i < |hexes| :: IsHexText(hexes[i]) && DecodeHex(hexes[i]) == Some(ps[|parents| + i])
    ensures data[pos..end] == ParentTextLines(hexes)
  {
    var hex := data[pos + |ParentHeader|..next - 1];
    hexes := [hex] + hs;
    ParentTextStep(data, pos, next, end, hex, hs);
    DecodedStep(parents, id, ps, hex, hs);
  }

  /**
    The commit grammar, piece by piece: the tree line with its digits, the
    parent lines with theirs, the author line, the committer line, each
    followed by '\n', then the empty line and the message.
  */
  function CommitText(treeHex: string, hexes: seq<string>, authorLine: string, committerLine: string, message: string): string
  {
    TreeHeader + treeHex + "\n" + (ParentTextLines(hexes) + (authorLine + "\n" + (committerLine + "\n" + ("\n" + message))))
  }

  /**
    Every buffer the commit parser accepts follows the grammar: a tree line
    whose digits decode to the tree, one parent line per parent whose digits
    decode to it, an author line and a committer line that read as the two
    signatures, the empty line, and the message.
  */
  lemma {:induction false} ParseCommitParts(data: string, mode: Mode, store: ObjectStore, maxOffset: OffsetLimit, c: Commit)
    returns (treeHex: string, hexes: seq<string>, authorLine: string, committerLine: string)
    requires ParseCommit(data, mode, store, maxOffset) == Success(c)
    ensures IsHexText(treeHex) && DecodeHex(treeHex) == Some(c.tree)
    ensures |hexes| == |c.parents|
    ensures forall i | 0 <= i < |hexes| :: IsHexText(hexes[i]) && DecodeHex(hexes[i]) == Some(c.parents[i])
    ensures '\n' !in authorLine && ParseSignatureText(authorLine, AuthorHeader, maxOffset) == Some(c.author)
    ensures '\n' !in committerLine && ParseSignatureText(committerLine, CommitterHeader, maxOffset) == Some(c.committer)
    ensures data == CommitText(treeHex, hexes, authorLine, committerLine, c.message)
  {
    var (tree, next) := ParseOidLine(data, 0, TreeHeader).value;
    treeHex := data[|TreeHeader|..next - 1];
    ParseOidLineDecodes(data, 0, TreeHeader, tree, next);
    hexes, authorLine, committerLine := ParseCommitRest(data, next, tree, mode, store, maxOffset, c);
    JoinAt(data, 0, next);
  }

  /** What follows the tree line of an accepted buffer: the parent lines and the signature section. */
  lemma {:induction false} ParseCommitRest(data: string, next: nat, tree: Oid, mode: Mode, store: ObjectStore, maxOffset: OffsetLimit, c: Commit)
    returns (hexes: seq<string>, authorLine: string, committerLine: string)
    requires next <= |data| && ParseParents(data, next, tree, [], mode, store, maxOffset) == Success(c)
    ensures c.tree == tree && |hexes| == |c.parents|
    ensures forall i | 0 <= i < |hexes| :: IsHexText(hexes[i]) && DecodeHex(hexes[i]) == Some(c.parents[i])
    ensures '\n' !in authorLine && ParseSignatureText(authorLine, AuthorHeader, maxOffset) == Some(c.author)
    ensures '\n' !in committerLine && ParseSignatureText(committerLine, CommitterHeader, maxOffset) == Some(c.committer)
    ensures data[next..] == ParentTextLines(hexes) + (authorLine + "\n" + (committerLine + "\n" + ("\n" + c.message)))
  {
    var end: nat;
    hexes, end := ParseParentsParts(data, next, tree, [], mode, store, maxOffset, c);
    ParseParentsStop(data, next, tree, [], mode, store, maxOffset, c, |hexes|, end);
    authorLine, committerLine := ParseSignaturesText(data, end, tree, c.parents, maxOffset, c);
    JoinAt(data, next, end);
  }

  /**
    Every text that follows the grammar is accepted: a tree line and parent
    lines whose digits (of either case) decode to admitted identifiers, and
    an author and a committer line that read as signatures, give exactly
    that commit. The converse of `ParseCommitParts`.
  */
  lemma {:induction false} ParseCommitTextAccepts(treeHex: string, hexes: seq<string>, authorLine: string, committerLine: string, message: string, c: Commit, mode: Mode, store: ObjectStore, maxOffset: OffsetLimit)
    requires c.message == message
    requires IsHexText(treeHex) && DecodeHex(treeHex) == Some(c.tree) && Admits(mode, store, c.tree, TreeKind)
    requires |hexes| == |c.parents|
    requires forall i | 0 <= i < |hexes| :: IsHexText(hexes[i]) && DecodeHex(hexes[i]) == Some(c.parents[i])
    requires forall i | 0 <= i < |c.parents| :: Admits(mode, store, c.parents[i], CommitKind)
    requires '\n' !in authorLine && ParseSignatureText(authorLine, AuthorHeader, maxOffset) == Some(c.author)
    requires '\n' !in committerLine && ParseSignatureText(committerLine, CommitterHeader, maxOffset) == Some(c.committer)
    ensures ParseCommit(CommitText(treeHex, hexes, authorLine, committerLine, message), mode, store, maxOffset) == Success(c)
  {
    var data := CommitText(treeHex, hexes, authorLine, committerLine, message);
    var treeLine := TreeHeader + treeHex + "\n";
    var parentLines := ParentTextLines(hexes);
    var separatorText := "\n" + message;
    var afterAuthorText := committerLine + "\n" + separatorText;
    var body := authorLine + "\n" + afterAuthorText;
    var afterTree := |treeLine|;
    var end := afterTree + |parentLines|;
    assert data[0..] == treeLine + (parentLines + body);
    ParseOidLineAccepts(data, 0, TreeHeader, treeHex, parentLines + body);
    TreeThenParents(data, c.tree, afterTree, mode, store, maxOffset);
    DropConcat(data, 0, treeLine, parentLines + body, afterTree);
    DropConcat(data, afterTree, parentLines, body, end);
    assert authorLine[0] == authorLine[..|AuthorHeader|][0] == AuthorHeader[0];
    FirstOfDrop(data, end, authorLine + "\n", afterAuthorText);
    ParentLineAbsent(data, end);
    ParseParentTextsAccepts(data, afterTree, c.tree, [], hexes, c.parents, body, end, mode, store, maxOffset);
    ParseSignaturesAccepts(data, end, c.tree, c.parents, c.author, authorLine, c.committer, committerLine, afterAuthorText, separatorText, message, maxOffset);
    EmptyAppend(c.parents);
  }

  /** Both signature lines and the empty line, read again after bytes are appended: the message gains those bytes. */
  lemma {:induction false} ParseSignaturesAppended(data: string, more: string, pos: nat, tree: Oid, parents: seq<Oid>, author: Signature, afterAuthor: nat, committer: Signature, afterCommitter: nat, maxOffset: OffsetLimit)
    requires pos <= |data| && ParseSignatureLine(data, pos, AuthorHeader, maxOffset) == Some((author, afterAuthor))
    requires afterAuthor <= |data| && ParseSignatureLine(data, afterAuthor, CommitterHeader, maxOffset) == Some((committer, afterCommitter))
    requires afterCommitter < |data| && data[afterCommitter] == '\n'
    ensures ParseSignatures(data + more, pos, tree, parents, maxOffset) == Success(Commit(tree, parents, author, committer, data[afterCommitter + 1..] + more))
  {
    var ext := data + more;
    DropAppend(data, more, afterCommitter);
    ParseSignatureLineExtend(data, more, pos, AuthorHeader, maxOffset);
    ParseSignatureLineExtend(data, more, afterAuthor, CommitterHeader, maxOffset);
    ParseSignaturesAt(ext, pos, tree, parents, author, afterAuthor, committer, afterCommitter, maxOffset);
  }

  /** Bytes appended after a complete signature section are appended to the message. */
  lemma {:induction false} ParseSignaturesExtend(data: string, more: string, pos: nat, tree: Oid, parents: seq<Oid>, maxOffset: OffsetLimit, c: Commit)
    requires pos <= |data| && ParseSignatures(data, pos, tree, parents, maxOffset) == Success(c)
    ensures ParseSignatures(data + more, pos, tree, parents, maxOffset) == Success(c.(message := c.message + more))
  {
    var afterAuthor, afterCommitter := ParseSignaturesParts(data, pos, tree, parents, maxOffset, c);
    ParseSignaturesAppended(data, more, pos, tree, parents, c.author, afterAuthor, c.committer, afterCommitter, maxOffset);
  }

  /** Bytes appended after a text whose parent lines and signatures read completely are appended to the message. */
  lemma {:induction false} ParseParentsExtend(data: string, more: string, pos: nat, tree: Oid, parents: seq<Oid>, mode: Mode, store: ObjectStore, maxOffset: OffsetLimit, c: Commit)
    requires pos <= |data| && ParseParents(data, pos, tree, parents, mode, store, maxOffset) == Success(c)
    ensures ParseParents(data + more, pos, tree, parents, mode, store, maxOffset) == Success(c.(message := c.message + more))
    decreases |data| - pos
  {
    match ParseOidLine(data, pos, ParentHeader)
    case None =>
      SignaturesExtend(data, more, pos, tree, parents, mode, store, maxOffset, c);
    case Some((id, next)) =>
      ParseOidLineExtend(data, more, pos, ParentHeader);
      ParseParentsExtend(data, more, next, tree, parents + [id], mode, store, maxOffset, c);
  }

  /** Where the parent lines end, bytes added after an accepted buffer do not start a new parent line. */
  lemma {:induction false} SignaturesExtend(data: string, more: string, pos: nat, tree: Oid, parents: seq<Oid>, mode: Mode, store: ObjectStore, maxOffset: OffsetLimit, c: Commit)
    requires pos <= |data| && ParseSignatures(data, pos, tree, parents, maxOffset) == Success(c)
    ensures ParseParents(data + more, pos, tree, parents, mode, store, maxOffset) == Success(c.(message := c.message + more))
  {
    var ext := data + more;
    ParseSignatureLineExtend(data, more, pos, AuthorHeader, maxOffset);
    assert ext[pos] == data[pos..pos + |AuthorHeader|][0];
    ParentLineAbsent(ext, pos);
    ParseSignaturesExtend(data, more, pos, tree, parents, maxOffset, c);
  }

  /**
    The message is everything after the empty line: appending bytes to a
    text that parses appends them to its message and changes nothing else.
  */
  lemma {:induction false} ParseCommitExtend(data: string, more: string, mode: Mode, store: ObjectStore, maxOffset: OffsetLimit, c: Commit)
    requires ParseCommit(data, mode, store, maxOffset) == Success(c)
    ensures ParseCommit(data + more, mode, store, maxOffset) == Success(c.(message := c.message + more))
  {
    var (tree, next) := ParseOidLine(data, 0, TreeHeader).value;
    ParseOidLineExtend(data, more, 0, TreeHeader);
    ParseParentsExtend(data, more, next, tree, [], mode, store, maxOffset, c);
  }

  /**
    A text that parses in the default mode with message `c.message`: cut
    short of that message, it fails in every mode.
  */
  lemma {:induction false} ParsedPrefixFails(full: string, cut: string, rest: string, mode: Mode, store: ObjectStore, maxOffset: OffsetLimit, c: Commit)
    requires full == cut + rest
    requires ParseCommit(full, Default, store, maxOffset) == Success(c)
    requires |rest| > |c.message|
    ensures ParseCommit(cut, mode, store, maxOffset).Failure?
  {
    var r := ParseCommit(cut, mode, store, maxOffset);
    if r.Success? {
      ParseCommitExtend(cut, rest, mode, store, maxOffset, r.value);
      ParseCommitModes(full, store, maxOffset);
      assert false;
    }
  }

  /**
    Truncation anywhere before the empty line that ends the header fails:
    every prefix of a serialized commit that stops short of that line's
    '\n' is rejected, in either mode.
  */
  lemma {:induction false} TruncatedCommitFails(c: Commit, k: nat, mode: Mode, store: ObjectStore, maxOffset: OffsetLimit)
    requires WellFormed(c.author, maxOffset) && WellFormed(c.committer, maxOffset)
    requires k < |SerializeCommit(c)| - |c.message|
    ensures ParseCommit(SerializeCommit(c)[..k], mode, store, maxOffset).Failure?
  {
    var full := SerializeCommit(c);
    CommitRoundTrip(c, Default, store, maxOffset);
    assert full == full[..k] + full[k..];
    ParsedPrefixFails(full, full[..k], full[k..], mode, store, maxOffset, c);
  }

  /** The time of a commit is its author's timestamp; the committer's is not used. */
  function CommitTime(c: Commit): nat {
    c.author.time
  }

  function ParentCount(c: Commit): nat {
    |c.parents|
  }

  /** The first line of the message: everything before its first '\n', or the whole message when it has none. */
  function MessageShort(c: Commit): (short: string)
    ensures short <= c.message && '\n' !in short
    ensures |short| == |c.message| || c.message[|short|] == '\n'
  {
    var cut := FindByte(c.message, '\n', 0);
    FindByteSkipped(c.message, '\n', 0, cut);
    c.message[..cut]
  }
}
