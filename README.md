# libgit2 commit parsing and writing, in Dafny

This project models how early libgit2 reads and writes commit objects, as
pinned down by its commit test suite (`tests/t04-commit.c`).

- **Identifier lines** (`git__parse_oid`): a literal header, exactly forty hexadecimal digits in either case, then `'\n'`.
  - The line decodes to a 20-byte identifier.
  - The cursor advances one byte past the `'\n'`.
- **Signature lines** (`git_signature__parse`): `header name <email> time [+-HHMM] ... '\n'`.
  - The line yields the name, the email, the time in seconds and the offset in minutes.
  - The offset is sign x (HH x 60 + MM). It is rejected when MM >= 60 or when its magnitude exceeds the bound.
- **Commit buffers** (`commit_parse_buffer`): a tree line, any number of parent lines, an author line, a committer line, an empty line, then the message as it stands.
  - In strict mode, each identifier must exist in the object database with the right kind, checked as soon as it is read.
- **Accessors**: `message_short` (the message up to its first `'\n'`) and `parent(n)` (fails when `n` is past the last parent).
- **The writer** (`git_commit_create_v`): serialises a commit into its canonical text and stores it under the identifier its hash gives.

Modules, from the bottom up:

- `Wrappers`: `Option` and `Result`.
- `Decimal`: decimal digits, `strtol`'s value of a digit run, and the writer's decimal and two-digit text.
- `ObjectId`: hexadecimal identifiers and identifier lines.
- `Signatures`: the timezone, the time, the name and email, the whole signature line, and the writer's canonical line.
- `Commits`: the commit grammar as functions over the buffer, the serializer, the round trip, and what a successful parse guarantees.
- `Repository`: the object database, lookup, `parent(n)` and creating a commit.
- `CommitReader`: the imperative parsers.
  - A `Cursor` class whose `pos` field is advanced the way the C code advances its `&ptr` argument.
  - Scanning loops in place of `memchr`, `memcmp`, the hexadecimal decoder and `strtol`.
  - The commit parser's loop over parent lines.
  - Each method is proved equal to its specification: a function in `Commits`, `Signatures`, `ObjectId` or `Decimal`, or, for `MatchesAt`, a slice comparison.
- `OidVectors`, `SignatureVectors`, `CommitVectors`: every vector of the test suite, one lemma each.
  - Accepted vectors are stated with their exact result and final cursor position.
  - Rejected vectors are stated as failures.
  - The commit vectors hold in every mode and for any database that admits the identifiers.

## Model

| member | source | states |
|---|---|---|
| Decimal.DigitValue | tests/t04-commit.c:176-182 | a decimal digit's value is below ten |
| Decimal.DigitChar | tests/t04-commit.c:433-436 | the digit written for a value below ten is a digit that reads back as that value |
| Decimal.DecimalText | tests/t04-commit.c:433-436 | the written time is a non-empty digit run without a leading zero |
| Decimal.DecimalRoundTrip | tests/t04-commit.c:459-466 | reading back the written decimal text of a time gives the same time |
| Decimal.DigitsValueFromSnoc | tests/t04-commit.c:176-182 | one more digit multiplies the value read so far by ten and adds the digit |
| Decimal.DigitRun | tests/t04-commit.c:268-270 | the digit run stops at the end of the text or at the first byte that is not a digit |
| Decimal.DigitRunOf | tests/t04-commit.c:176-182 | digits followed by a non-digit form a run of exactly that length |
| Decimal.PadTwo | tests/t04-commit.c:433-436 | the two-digit field of a timezone is at least two decimal digits |
| Decimal.PadTwoDigits | tests/t04-commit.c:433-436 | a value below 100 is written as its tens digit followed by its units digit |
| ObjectId.HexValue | tests/t04-commit.c:130-137 | a hexadecimal digit's value is below sixteen |
| ObjectId.LowerHexDigit | tests/t04-commit.c:429-430 | the digit written for a value below sixteen is lower case and reads back as that value |
| ObjectId.FormatOid | tests/t04-commit.c:429-430 | an identifier is written as forty lower-case hexadecimal digits |
| ObjectId.DecodeHex | tests/t04-commit.c:130-147 | decoding succeeds exactly when the text is forty hexadecimal digits |
| ObjectId.DecodeFormat | tests/t04-commit.c:429-430 | decoding the written digits gives back the identifier |
| ObjectId.FormatDecode | tests/t04-commit.c:134-137 | writing a decoded identifier gives the digits in lower case: upper-case digits name the same bytes |
| ObjectId.DecodeInjectiveUpToCase | tests/t04-commit.c:134-137 | two digit texts that decode to the same identifier differ only in case |
| ObjectId.ParseOidLine | tests/t04-commit.c:116-122 | on success the buffer at the cursor holds the header, forty hexadecimal digits and a '\n'; the identifier is those digits; the cursor ends one past the '\n' |
| ObjectId.ParseOidLineAccepts | tests/t04-commit.c:116-137 | any header followed by forty hexadecimal digits and '\n' is accepted with the decoded identifier, whatever follows it |
| ObjectId.OidLine | tests/t04-commit.c:439-447 | a written identifier line is its header, forty digits and '\n' long |
| ObjectId.OidLineRoundTrip | tests/t04-commit.c:439-447 | a written identifier line reads back as its identifier, and the cursor ends just after it |
| ObjectId.ParseOidLineExtend | tests/t04-commit.c:63-77 | an accepted identifier line is read the same whatever bytes follow the buffer |
| OidVectors.WholeLineAccepted | tests/t04-commit.c:116-122 | a header, forty digits and '\n' alone: accepted, and the cursor ends at the end of the input |
| OidVectors.ParentLineAccepted | tests/t04-commit.c:130 | the parent line is accepted and read to its end |
| OidVectors.TreeLineAccepted | tests/t04-commit.c:131 | the tree line is accepted and read to its end |
| OidVectors.OtherHeaderAccepted | tests/t04-commit.c:132 | an arbitrary header is accepted |
| OidVectors.StuckHeaderAccepted | tests/t04-commit.c:133 | a header with no trailing space is accepted, the digits directly after it |
| OidVectors.UpperCaseAccepted1 | tests/t04-commit.c:134 | upper-case digits are accepted |
| OidVectors.UpperCaseAccepted2 | tests/t04-commit.c:135 | upper-case digits are accepted |
| OidVectors.UpperCaseAccepted3 | tests/t04-commit.c:136 | upper-case digits are accepted |
| OidVectors.UpperCaseAccepted4 | tests/t04-commit.c:137 | upper-case digits are accepted |
| OidVectors.ShortLinesRejected | tests/t04-commit.c:139-147 | rejected: no terminator, no header, the header without its space, 37 digits, and the empty input with either header |
| OidVectors.DoubledSpaceRejected | tests/t04-commit.c:143 | rejected: a doubled space after the header |
| OidVectors.NonHexDigitRejected | tests/t04-commit.c:144 | any line whose forty digits include a non-hexadecimal byte is rejected |
| OidVectors.NonHexVectorRejected | tests/t04-commit.c:144 | rejected: an 'x' among the digits |
| OidVectors.LongDigitsRejected | tests/t04-commit.c:145 | rejected: forty-two digits |
| Signatures.FindByte | tests/t04-commit.c:260-266 | the scan stops at the first occurrence of the byte, or at the end of the text |
| Signatures.FindByteFirst | tests/t04-commit.c:260-266 | no byte before the one found is the byte sought |
| Signatures.FindByteAbsent | tests/t04-commit.c:260-266 | when the byte does not occur the scan reaches the end |
| Signatures.ParseTimezone | tests/t04-commit.c:192-198 | an accepted offset lies within the bound on either side of UTC; ParseTimezoneSound and ParseTimezoneAccepts give the result for every input in both directions |
| Signatures.ParseTimezoneSound | tests/t04-commit.c:192-242 | an accepted non-empty timezone is a sign and four digits HHMM with no fifth digit after them, MM below 60, HH * 60 + MM within the bound, and the offset is that many minutes, negative after '-' |
| Signatures.ParseTimezoneAccepts | tests/t04-commit.c:176-242 | the empty field reads as 0; a sign, four digits HHMM and anything not starting with a digit read as ±(HH * 60 + MM), failing exactly when MM >= 60 or the magnitude exceeds the bound |
| Signatures.TimezoneRoundTrip | tests/t04-commit.c:220-242 | the written form of any offset within the bound reads back as that offset |
| Signatures.FormatTimezone | tests/t04-commit.c:433-436 | a written timezone is a sign followed only by decimal digits, at least four of them |
| Signatures.ParseWhen | tests/t04-commit.c:176-198 | an accepted offset lies within the bound; ParseWhenAccepts and ParseWhenSound give the result in both directions, with or without the leading space, and WhenRoundTrip reads back the writer's text |
| Signatures.ParseWhenAccepts | tests/t04-commit.c:176-198 | an optional space, a digit run, a space and a timezone give the run's decimal value and the timezone's offset, or fail exactly when the timezone does |
| Signatures.ParseWhenSound | tests/t04-commit.c:176-198 | an accepted time text is an optional space, a non-empty digit run whose value is the time, a space, and a timezone field that reads as the offset |
| Signatures.WhenRoundTrip | tests/t04-commit.c:459-467 | a written time and offset read back as themselves |
| Signatures.ScanIdentity | tests/t04-commit.c:260-266 | when found, '<' follows a space and comes before the '>' |
| Signatures.ScanIdentitySound | tests/t04-commit.c:176-218 | the name holds no '<', the email holds no '>', and the text is name, " <", email, ">" and the rest |
| Signatures.ScanIdentityAccepts | tests/t04-commit.c:176-218 | in name + " <" + email + ">" + rest, the brackets are found exactly around the email |
| Signatures.ParseIdentity | tests/t04-commit.c:176-218 | an accepted offset lies within the bound; ParseIdentityAccepts and ParseIdentitySound give the fields in both directions, IdentityRoundTrip reads back the writer's text |
| Signatures.ParseIdentityAccepts | tests/t04-commit.c:176-218 | a name without '<' and an email without '>' are kept in full, however long; the result fails exactly when the time or timezone does |
| Signatures.ParseIdentitySound | tests/t04-commit.c:176-218 | an accepted identity is its name, " <", its email, ">" and a time text that reads as its time and offset |
| Signatures.ParseSignatureText | tests/t04-commit.c:252-258 | an accepted line starts with the header byte for byte and has more after it, with its offset within the bound; ParseSignatureTextAccepts gives the converse |
| Signatures.ParseSignatureTextAccepts | tests/t04-commit.c:252-258 | after a matching header, the line reads as the identity that follows it |
| Signatures.ParseSignatureTextSound | tests/t04-commit.c:252-258 | an accepted line starts with the header exactly, followed by a non-empty identity |
| Signatures.ParseSignatureLine | tests/t04-commit.c:156-166 | on success the cursor moves forward to just past a '\n' |
| Signatures.ParseSignatureLineAccepts | tests/t04-commit.c:156-166 | a line without '\n' followed by '\n' reads as the line's signature, with the cursor one past the '\n'; it fails exactly when the line's text does |
| Signatures.ParseSignatureLineSound | tests/t04-commit.c:156-166 | an accepted signature is the reading of the '\n'-free text from the cursor up to the first '\n', and the new cursor is just past that '\n' |
| Signatures.FormatSignatureLine | tests/t04-commit.c:439-447 | a written signature line ends in '\n' |
| Signatures.WhenTextSingleLine | tests/t04-commit.c:439-447 | the written time and timezone hold no '\n' |
| Signatures.IdentityRoundTrip | tests/t04-commit.c:452-467 | a name without '<' or '\n', an email without '>' or '\n' and an offset within the bound read back as written |
| Signatures.IdentityTextSingleLine | tests/t04-commit.c:439-447 | a written identity holds no '\n' |
| Signatures.SignatureTextRoundTrip | tests/t04-commit.c:452-467 | a header and a written identity read back as the signature |
| Signatures.SignatureLineRoundTrip | tests/t04-commit.c:452-467 | a written signature line reads back as its signature, whatever follows, with the cursor just past its '\n' |
| Signatures.ParseSignatureLineExtend | tests/t04-commit.c:63-77 | an accepted signature line starts with its header and reads the same whatever follows the buffer |
| SignatureVectors.OneLineAccepted | tests/t04-commit.c:156-166 | a single line and '\n' read as the line's signature, with the cursor at the end of the input |
| SignatureVectors.OneLineRejected | tests/t04-commit.c:168-174 | a single line and '\n' are rejected when the line's text is |
| SignatureVectors.IdentityLine | tests/t04-commit.c:156-166 | header, name, email and a time text that reads as (time, offset) give exactly that signature |
| SignatureVectors.IdentityLineRejected | tests/t04-commit.c:244-274 | with a time text that does not read, the line is rejected |
| SignatureVectors.AcceptedText | tests/t04-commit.c:156-166 | header, name, email, digits and a timezone give the digits' value and the timezone's offset |
| SignatureVectors.AcceptedLine | tests/t04-commit.c:156-166 | the same as a whole line ended by '\n', read to the end of the input |
| SignatureVectors.RejectedZone | tests/t04-commit.c:244-250 | a line whose timezone does not read is rejected |
| SignatureVectors.NoTimezone | tests/t04-commit.c:176-182 | no timezone and a trailing space: offset 0 |
| SignatureVectors.EmptyEmail | tests/t04-commit.c:184-190 | an empty email is accepted as empty |
| SignatureVectors.TenHoursTwenty | tests/t04-commit.c:192-198 | "+1020" is 620 minutes |
| SignatureVectors.LongNameKept | tests/t04-commit.c:200-208 | a very long name is kept in full |
| SignatureVectors.LongEmailKept | tests/t04-commit.c:210-218 | a very long email is kept in full |
| SignatureVectors.ZeroOffset | tests/t04-commit.c:220-226 | "+0000" followed by a space is offset 0 |
| SignatureVectors.OneHourEast | tests/t04-commit.c:228-234 | "+0100" is 60 minutes |
| SignatureVectors.OneHourWest | tests/t04-commit.c:236-242 | "-0100" is -60 minutes |
| SignatureVectors.FifteenHoursRejected | tests/t04-commit.c:244-246 | "-1500" is rejected as beyond the bound |
| SignatureVectors.SixtyThreeMinutesRejected | tests/t04-commit.c:248-250 | "+0163" is rejected as more than 59 minutes |
| SignatureVectors.HeaderMismatch | tests/t04-commit.c:252-258 | a line that differs from the header at some byte before the header's end is rejected |
| SignatureVectors.DoubledSpaceHeaderRejected | tests/t04-commit.c:252-254 | the header "author  " does not match "author " |
| SignatureVectors.OtherHeaderRejected | tests/t04-commit.c:256-258 | the header "committer " does not match an author line |
| SignatureVectors.NoOpeningBracket | tests/t04-commit.c:260-262 | an identity without '<' is rejected |
| SignatureVectors.NoClosingBracket | tests/t04-commit.c:264-266 | an identity with no '>' after its '<' is rejected |
| SignatureVectors.MissingEmailRejected | tests/t04-commit.c:260-262 | rejected: no email |
| SignatureVectors.UnclosedEmailRejected | tests/t04-commit.c:264-266 | rejected: an email without its '>' |
| SignatureVectors.UnreadableTimes | tests/t04-commit.c:268-274 | a non-numeric time and a missing time do not read |
| SignatureVectors.NonNumericTimeRejected | tests/t04-commit.c:268-270 | rejected: "notime" in place of the time |
| SignatureVectors.MissingTimeRejected | tests/t04-commit.c:272-274 | rejected: nothing after the email |
| SignatureVectors.HeaderOnlyRejected | tests/t04-commit.c:276-278 | rejected: the header alone, with no '\n' |
| Commits.ParseCommit | tests/t04-commit.c:285-341 | a failure is a format error, or a missing object in strict mode only; ParseCommitParts and ParseCommitTextAccepts state that it accepts exactly the texts of the grammar, CommitRoundTrip relates it to the writer, ParseCommitModes to the two modes, and ParsedPrefixFails to truncation |
| Commits.ParseParents | tests/t04-commit.c:103-110 | a failure is a format error, or a missing parent in strict mode only; ParseParentTextsAccepts and ParseParentsParts tie the parents read to the digits of the parent lines in both directions |
| Commits.ParseSignatures | tests/t04-commit.c:82-110 | a failure is always a format error; ParseSignaturesAccepts, ParseSignaturesParts and ParseSignaturesText give the result in both directions |
| Commits.ParseCommitter | tests/t04-commit.c:82-110 | a failure is always a format error; CommitterAt and CommitterParts give the result in both directions |
| Commits.ParentLines | tests/t04-commit.c:439-447 | the parent lines take one full identifier line per parent; their contents are pinned by ParentLinesFirst and read back by ParseParentsAccepts and CommitRoundTrip |
| Commits.SerializeCommit | tests/t04-commit.c:439-447 | the writer's canonical text; SerializedShape gives its shape and CommitRoundTrip reads it back as the commit |
| Commits.SerializedShape | tests/t04-commit.c:439-469 | the written text starts with "tree " and ends with the message, just after a '\n' |
| Commits.ParentLineAbsent | tests/t04-commit.c:82-110 | a line starting with a byte other than 'p' is not a parent line |
| Commits.TreeThenParents | tests/t04-commit.c:82-110 | after an admitted tree line, the parent lines are read from the next byte |
| Commits.ParseSignaturesAt | tests/t04-commit.c:82-110 | an author line, a committer line and a '\n' give the commit whose message is all the rest |
| Commits.CommitterAt | tests/t04-commit.c:82-110 | a committer line followed by '\n' completes the commit with the rest as message |
| Commits.ParseSignaturesAccepts | tests/t04-commit.c:82-110 | author line, committer line, empty line and message give exactly those signatures and that message |
| Commits.ParseParentTextsAccepts | tests/t04-commit.c:103-110 | admitted parent lines with digits of either case, followed by a line that is not one, add the identifiers those digits decode to, in order |
| Commits.WrittenParentLines | tests/t04-commit.c:439-447 | the writer's parent lines are parent lines whose digits are the identifiers' lower-case texts |
| Commits.ParseParentsAccepts | tests/t04-commit.c:103-110 | the writer's lower-case parent lines, admitted and followed by a line that is not one, add those parents in order |
| Commits.ParentsEnd | tests/t04-commit.c:82-101 | where no parent line is, the signature lines are read |
| Commits.FirstParentLine | tests/t04-commit.c:103-110 | an admitted first parent line appends its parent, and reading goes on after it |
| Commits.CommitRoundTrip | tests/t04-commit.c:439-469 | a serialised commit with well-formed signatures parses back as exactly that commit, in either mode, when its identifiers are admitted |
| Commits.SerializedPieces | tests/t04-commit.c:439-447 | the serialised text is its tree line, its parent lines, the two signature lines, an empty line and the message, and each signature line reads back |
| Commits.CommitRoundTripAt | tests/t04-commit.c:439-469 | the round trip over the pieces of the serialised text |
| Commits.ParseSignaturesParts | tests/t04-commit.c:313-341 | an accepted signature section is an author line, a committer line and a '\n', with the message after it |
| Commits.ParseSignaturesText | tests/t04-commit.c:82-110 | an accepted signature section is a '\n'-free author line and committer line that read as the two signatures, each with its '\n', then the empty line and the message |
| Commits.ParseParentsParts | tests/t04-commit.c:103-110 | accepted parent lines are one line per parent read, whose digits of either case decode to that parent, and take 48 bytes each |
| Commits.ParseParentsStop | tests/t04-commit.c:103-110 | where an accepted run of parent lines ends, the signature section is read with all the parents found and yields the commit |
| Commits.ParseCommitRest | tests/t04-commit.c:285-341 | after the tree line, an accepted buffer is the parent lines, whose digits decode to the parents, then the author and committer lines that read as the signatures, the empty line and the message |
| Commits.ParseCommitParts | tests/t04-commit.c:285-341 | an accepted buffer is a tree line whose digits decode to the tree, one parent line per parent whose digits decode to it, an author and a committer line that read as the signatures, the empty line, and the message |
| Commits.ParseCommitTextAccepts | tests/t04-commit.c:285-341 | every text of that grammar whose identifiers are admitted is accepted, with exactly the tree, parents, signatures and message it spells |
| Commits.CommitterParts | tests/t04-commit.c:313-341 | an accepted committer section is a committer line and a '\n', with the message after it |
| Commits.ParseSignaturesSound | tests/t04-commit.c:313-341 | the tree and parents are kept, and the message is the tail of the buffer just after a '\n' |
| Commits.MessageAfter | tests/t04-commit.c:82-110 | the text after a '\n' is a tail of the buffer preceded by that '\n' |
| Commits.ParseParentsSound | tests/t04-commit.c:313-341 | the parents read come after those already read, each admitted in the mode, and the message is the tail after a '\n' |
| Commits.ParseCommitSound | tests/t04-commit.c:313-341 | an accepted buffer starts with "tree ", every identifier it names is admitted in the mode, and the message is the tail after a '\n' |
| Commits.ParseParentsModes | tests/t04-commit.c:297-341 | from the parent lines on, the default mode never reports a missing object; strict mode gives the default result or that error, and the default result when all parents exist |
| Commits.ParseCommitModes | tests/t04-commit.c:297-341 | the default mode never reports a missing object; strict mode gives the default result or that error, and succeeds exactly when the default mode does and every identifier exists with its kind |
| Commits.ParseSignaturesAppended | tests/t04-commit.c:96-101 | bytes added after an accepted signature section only extend the message |
| Commits.ParseSignaturesExtend | tests/t04-commit.c:96-101 | bytes added after an accepted signature section only extend the message |
| Commits.SignaturesExtend | tests/t04-commit.c:96-101 | bytes added after an accepted signature section start no parent line and only extend the message |
| Commits.ParseParentsExtend | tests/t04-commit.c:96-101 | bytes added after an accepted buffer only extend the message, from the parent lines on |
| Commits.ParseCommitExtend | tests/t04-commit.c:96-101 | bytes added after an accepted buffer only extend the message |
| Commits.ParsedPrefixFails | tests/t04-commit.c:63-77 | a prefix of an accepted buffer that ends before its message is rejected in every mode |
| Commits.TruncatedCommitFails | tests/t04-commit.c:63-77 | any serialised commit cut off before its message is rejected in every mode |
| Commits.CommitTime | tests/t04-commit.c:381-390 | accessor: the time of a commit is its author's timestamp, not its committer's |
| Commits.ParentCount | tests/t04-commit.c:382-391 | accessor: the number of parents read; Repository.Parent's contract fails with NotFound at every index from this one on |
| Commits.MessageShort | tests/t04-commit.c:377-389 | the short message is a prefix of the message, holds no '\n', and stops only at the end or at the first '\n' |
| Repository.Lookup | tests/t04-commit.c:373-375 | a commit is found only when the database holds a commit object under that identifier, and NotFound is reported exactly when it does not |
| Repository.Parent | tests/t04-commit.c:392-404 | NotFound is reported exactly when the index is at or past the parent count or no commit is stored under that parent; a found parent is a commit object in the database |
| Repository.CreateCommit | tests/t04-commit.c:439-447 | the commit's canonical text is stored as a commit object under the identifier the hash gives for that text, which is returned; every other object is unchanged |
| Repository.CreateThenLookup | tests/t04-commit.c:439-469 | looking up a created commit gives back its tree, parents, signatures and message |
| Repository.ParentRoundTrip | tests/t04-commit.c:392-400 | a parent stored in canonical form is returned by parent(n) as itself |
| CommitReader.IndexOf | tests/t04-commit.c:260-266 | the scanning loop finds the same position as the search function |
| CommitReader.MatchesAt | tests/t04-commit.c:252-258 | the byte-by-byte comparison is true exactly when the buffer holds the header there |
| CommitReader.DecodeOidText | tests/t04-commit.c:116-147 | the decoding loop gives the decoder's result, failing at a non-hexadecimal byte |
| CommitReader.ScanDigits | tests/t04-commit.c:176-182 | the loop counts the digit run and accumulates its decimal value |
| CommitReader.ParseWhenText | tests/t04-commit.c:176-198 | the time and timezone as the function reads them |
| CommitReader.ParseIdentityText | tests/t04-commit.c:176-218 | the identity as the function reads it |
| CommitReader.Cursor.constructor | tests/t04-commit.c:117-119 | a cursor at the start of the buffer |
| CommitReader.Cursor.ParseOid | tests/t04-commit.c:116-128 | reads the identifier line at the cursor and moves the cursor as the function says; on failure the cursor stays put |
| CommitReader.Cursor.ParseSignature | tests/t04-commit.c:156-174 | reads the signature line at the cursor and moves the cursor as the function says; on failure the cursor stays put |
| CommitReader.ParseTail | tests/t04-commit.c:285-286 | the author, committer and empty lines read through the cursor give the function's result; the cursor only moves forward, and on success it rests on the empty line's '\n' with the message after it |
| CommitReader.ParseCommitterTail | tests/t04-commit.c:285-286 | the committer and empty lines read through the cursor give the function's result; the cursor only moves forward, and on success it rests on the empty line's '\n' with the message after it |
| CommitReader.ParseCommitBuffer | tests/t04-commit.c:285-341 | the cursor-driven parser with its loop over parent lines gives the function's result in both modes |
| CommitVectors.VicentAuthor | tests/t04-commit.c:84-85 | the shared author line reads as Vicent Marti, tanoku@gmail.com, 1273848544, +120 minutes |
| CommitVectors.VicentCommitter | tests/t04-commit.c:84-86 | the shared committer line reads as the same signature |
| CommitVectors.TreeLineRead | tests/t04-commit.c:84 | a tree line at the start of a buffer reads as its identifier |
| CommitVectors.ParentLineRead | tests/t04-commit.c:105 | a parent line reads as its identifier |
| CommitVectors.AfterParent | tests/t04-commit.c:103-110 | an admitted parent line joins the parents and reading continues after it |
| CommitVectors.LastParent | tests/t04-commit.c:103-110 | an author line ends the parent lines |
| CommitVectors.SignaturesAccepted | tests/t04-commit.c:84-87 | the signature lines, empty line and message give the commit |
| CommitVectors.NoParentAccepted | tests/t04-commit.c:89-94 | a tree line, signatures, an empty line and a message give that commit with no parents |
| CommitVectors.OneParentAccepted | tests/t04-commit.c:103-110 | the same with one admitted parent line |
| CommitVectors.EmptyMessageAccepted | tests/t04-commit.c:83-87 | accepted with an empty message |
| CommitVectors.NoParentVectorAccepted | tests/t04-commit.c:89-94 | accepted with no parent and its message |
| CommitVectors.UnterminatedMessageAccepted | tests/t04-commit.c:96-101 | accepted, the message kept without a final '\n' |
| CommitVectors.OneParentVectorAccepted | tests/t04-commit.c:103-110 | accepted with its one parent |
| CommitVectors.NoTreeHeader | tests/t04-commit.c:33-61 | a buffer that does not start with "tree " is a format error |
| CommitVectors.UnterminatedTreeLine | tests/t04-commit.c:39-53 | a tree line whose digits are not followed by '\n' is a format error |
| CommitVectors.NothingAfterTree | tests/t04-commit.c:63-77 | a tree line followed by text with no '\n' is rejected |
| CommitVectors.EmptyRejected | tests/t04-commit.c:33-34 | the empty buffer is rejected |
| CommitVectors.GarbageRejected | tests/t04-commit.c:36-37 | random bytes are rejected |
| CommitVectors.CarriageReturnsRejected | tests/t04-commit.c:39-45 | "\r\n" line ends are rejected |
| CommitVectors.JoinedLinesRejected | tests/t04-commit.c:47-53 | lines without terminators are rejected |
| CommitVectors.LeadingNewlineRejected | tests/t04-commit.c:55-61 | a '\n' before the tree line is rejected |
| CommitVectors.CutOffRejected | tests/t04-commit.c:63-77 | buffers cut off inside or after a parent header are rejected |
| CommitVectors.MemoryTimezones | tests/t04-commit.c:433-436 | offsets 90 and 60 are written "+0130" and "+0100", and read back |
| CommitVectors.MemorySignatures | tests/t04-commit.c:433-437 | both signatures of the commit written from memory can be written |
| CommitVectors.MemoryCommitReadBack | tests/t04-commit.c:419-469 | the commit created from memory is looked up with every field as given |

## Left out

- Opening and freeing the repository, reading objects from disk, and removing the loose object are not part of this model. The object database is a map from identifier to stored object.
- SHA-1: the identifier `git_commit_create_v` computes for a new commit is a parameter (`hash`) of `CreateCommit`.
- Memory management is not modelled: allocation, freeing, and releasing half-built commits on failure.
- Updating HEAD on commit creation is not modelled. The test passes no reference to update.
- Parser details the test vectors do not pin down are not modelled. The grammar modelled is the one the vectors fix.
- The largest accepted timezone magnitude is not fixed by the vectors. It is a parameter, `maxOffset`, of type `OffsetLimit`, which allows any bound from 620 to 899 minutes. Every lemma holds for every such bound.
- Times are unbounded natural numbers. The overflow of `strtol` and of the C time type is not modelled, nor is a negative time.
- Bytes are Dafny `char`s. No encoding is modelled.
- details0 reads six commits from a repository on disk. Their contents are not part of this model. What the test checks of every commit is modelled for any commit:
  - the short message has no '\n' (`MessageShort`);
  - parent(n) fails at the count (`Parent`), and below the count it succeeds when the parent is stored as a well-formed commit (`ParentRoundTrip`).
- details0's `commit_time > 0` and `parents <= 2` are facts about that repository's data, so the model does not state them.
- Signatures.ScanIdentity: the separator before '<' is the space byte alone, not any whitespace byte. A name may be empty: " <a@b> 1 +0000" is accepted with the name "". Every vector has a single space there and a non-empty name.
- Signatures.ParseWhen: the optional separator after '>' and the required one between the time and the timezone are the space byte alone, not any whitespace byte.
- Repository.CreateThenLookup: holds when the tree and parents are admitted in the database the commit is written to. write0 is stated in the default mode, where that always holds.
- CommitVectors.CutOffRejected: the second and third cut-off vectors are the same bytes, so they are stated once.
