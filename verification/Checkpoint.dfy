/** Signed-note checkpoints of src/rekor.rs: the line parser, what the signed body fixes,
    and the printed form. */
module Checkpoint {
  import opened Basics
  import opened Primitives
  import opened TextCodecs

  /** UTF-8 of an em dash and a space. */
  const SIGNATURE_PREFIX: Bytes := [0xE2, 0x80, 0x94, 0x20]
  const KEY_HINT_BYTES := 4
  const MAX_CHECKPOINT_SIGNATURES := 32

  // ---- text helpers of the standard library ----

  /** The position of the first two consecutive line feeds. */
  function FindBlank(s: Bytes): (r: Option<nat>)
    ensures r.Some? ==> r.value + 2 <= |s|
  {
    if |s| < 2 then None
    else if s[0] == LF && s[1] == LF then Some(0)
    else
      var r := FindBlank(s[1..]);
      if r.None? then None else Some(r.value + 1)
  }

  function StripCr(s: Bytes): Bytes {
    if s != [] && s[|s| - 1] == CR then s[..|s| - 1] else s
  }

  /** Lines end with a line feed, optionally after a carriage return; the last one may lack it. */
  function Lines(s: Bytes): seq<Bytes>
    decreases |s|
  {
    if s == [] then []
    else
      var k := IndexOf(s, LF);
      if k == |s| then [s] else [StripCr(s[..k])] + Lines(s[k + 1..])
  }

  lemma LinesCons(l: Bytes, t: Bytes)
    requires LF !in l
    ensures Lines(l + [LF] + t) == [StripCr(l)] + Lines(t)
  {
    var s := l + [LF] + t;
    IndexOfUnique(l, LF, t);
    assert s[..|l|] == l && s[|l| + 1..] == t;
  }

  lemma LinesSingle(l: Bytes)
    requires LF !in l && l != []
    ensures Lines(l) == [l]
  {
    IndexOfAbsent(l, LF);
  }

  // ---- the parser ----

  datatype CheckpointSignature = CheckpointSignature(name: Bytes, keyHint: Bytes, signature: Bytes)

  datatype BodyFields = BodyFields(origin: Bytes, treeSize: nat, rootHash: Bytes)

  datatype ParsedCheckpoint = ParsedCheckpoint(
    fields: BodyFields, noteBody: Bytes, signatures: seq<CheckpointSignature>)

  /** The lines after the origin; those after the root hash are extensions and are not looked at. */
  function ParseBodyLines(c: TextCodec, origin: Bytes, lines: seq<Bytes>): Result<BodyFields, Error> {
    if lines == [] || c.number(lines[0]).None? || |lines| == 1 then Err(MalformedCheckpoint)
    else
      var rootHash := c.base64(lines[1]);
      if rootHash.None? then Err(MalformedBase64)
      else Ok(BodyFields(origin, c.number(lines[0]).value, rootHash.value))
  }

  /** The fields of a note body, given without its last line feed. */
  function ParseBody(c: TextCodec, bodyText: Bytes): Result<BodyFields, Error> {
    var k := IndexOf(bodyText, LF);
    if k == |bodyText| || k == 0 then Err(MalformedCheckpoint)
    else ParseBodyLines(c, bodyText[..k], Lines(bodyText[k + 1..]))
  }

  function ParseBlob(c: TextCodec, name: Bytes, text: Bytes): Result<CheckpointSignature, Error> {
    var blob := c.base64(text);
    if blob.None? then Err(MalformedBase64)
    else if |blob.value| <= KEY_HINT_BYTES then Err(MalformedCheckpoint)
    else Ok(CheckpointSignature(name, blob.value[..KEY_HINT_BYTES], blob.value[KEY_HINT_BYTES..]))
  }

  function ParseSignatureLine(c: TextCodec, line: Bytes): Result<CheckpointSignature, Error> {
    if !(SIGNATURE_PREFIX <= line) then Err(MalformedCheckpoint)
    else
      var rest := line[|SIGNATURE_PREFIX|..];
      var k := IndexOf(rest, SPACE);
      if k == |rest| then Err(MalformedCheckpoint)
      else ParseBlob(c, rest[..k], rest[k + 1..])
  }

  function NonEmpty(lines: seq<Bytes>): seq<Bytes> {
    if lines == [] then []
    else if lines[0] == [] then NonEmpty(lines[1..])
    else [lines[0]] + NonEmpty(lines[1..])
  }

  /** The remaining lines' result after the ones already pushed. */
  function Pushed(done: seq<CheckpointSignature>, rest: Result<seq<CheckpointSignature>, Error>)
    : Result<seq<CheckpointSignature>, Error>
  {
    if rest.Err? then rest else Ok(done + rest.value)
  }

  /** The signatures of lines that are not empty, or the first failure. */
  function ParseEach(c: TextCodec, lines: seq<Bytes>): Result<seq<CheckpointSignature>, Error> {
    if lines == [] then Ok([])
    else
      var first := ParseSignatureLine(c, lines[0]);
      if first.Err? then Err(first.error) else Pushed([first.value], ParseEach(c, lines[1..]))
  }

  function ParseSignatureBlock(c: TextCodec, text: Bytes): Result<seq<CheckpointSignature>, Error> {
    var lines := NonEmpty(Lines(text));
    if |lines| > MAX_CHECKPOINT_SIGNATURES then Err(TooManyCheckpointSignatures)
    else if lines == [] then Err(MalformedCheckpoint)
    else ParseEach(c, lines)
  }

  /** A body failure is reported before a signature failure. */
  function Assemble(
    noteBody: Bytes, fields: Result<BodyFields, Error>, signatures: Result<seq<CheckpointSignature>, Error>)
    : Result<ParsedCheckpoint, Error>
  {
    if fields.Err? then Err(fields.error)
    else if signatures.Err? then Err(signatures.error)
    else Ok(ParsedCheckpoint(fields.value, noteBody, signatures.value))
  }

  function Parse(c: TextCodec, envelope: Bytes): Result<ParsedCheckpoint, Error> {
    var blank := FindBlank(envelope);
    if blank.None? then Err(MalformedCheckpoint)
    else
      Assemble(envelope[..blank.value + 1], ParseBody(c, envelope[..blank.value]),
               ParseSignatureBlock(c, envelope[blank.value + 2..]))
  }

  lemma PushedStep(
    done: seq<CheckpointSignature>, s: CheckpointSignature, rest: Result<seq<CheckpointSignature>, Error>)
    ensures Pushed(done, Pushed([s], rest)) == Pushed(done + [s], rest)
  {
    if rest.Ok? {
      assert done + ([s] + rest.value) == done + [s] + rest.value;
    }
  }

  lemma PushedNone(rest: Result<seq<CheckpointSignature>, Error>)
    ensures Pushed([], rest) == rest
  {
    if rest.Ok? {
      assert [] + rest.value == rest.value;
    }
  }

  /** The signature loop of `parse_checkpoint`: empty lines are skipped, the rest parsed and pushed. */
  method CollectSignatures(c: TextCodec, lines: seq<Bytes>) returns (r: Result<seq<CheckpointSignature>, Error>)
    ensures r == ParseEach(c, NonEmpty(lines))
  {
    var signatures: seq<CheckpointSignature> := [];
    PushedNone(ParseEach(c, NonEmpty(lines)));
    var i := 0;
    while i < |lines|
      invariant 0 <= i <= |lines|
      invariant Pushed(signatures, ParseEach(c, NonEmpty(lines[i..]))) == ParseEach(c, NonEmpty(lines))
    {
      var later := NonEmpty(lines[i + 1..]);
      assert lines[i..][0] == lines[i] && lines[i..][1..] == lines[i + 1..];
      if lines[i] != [] {
        assert NonEmpty(lines[i..])[1..] == later;
        var s := ParseSignatureLine(c, lines[i]);
        if s.Err? {
          return Err(s.error);
        }
        PushedStep(signatures, s.value, ParseEach(c, later));
        signatures := signatures + [s.value];
      }
      i := i + 1;
    }
    assert signatures + [] == signatures;
    return Ok(signatures);
  }

  lemma {:induction false} ParseEachLength(c: TextCodec, lines: seq<Bytes>)
    ensures ParseEach(c, lines).Ok? ==> |ParseEach(c, lines).value| == |lines|
  {
    if lines != [] {
      ParseEachLength(c, lines[1..]);
    }
  }

  /** The count of non-empty lines is bounded before any of them is decoded. */
  method ReadSignatureBlock(c: TextCodec, text: Bytes) returns (r: Result<seq<CheckpointSignature>, Error>)
    ensures r == ParseSignatureBlock(c, text)
  {
    var lines := Lines(text);
    ParseEachLength(c, NonEmpty(lines));
    if |NonEmpty(lines)| > MAX_CHECKPOINT_SIGNATURES {
      return Err(TooManyCheckpointSignatures);
    }
    r := CollectSignatures(c, lines);
    if r == Ok([]) {
      return Err(MalformedCheckpoint);
    }
  }

  /** `parse_checkpoint` */
  method ParseCheckpoint(c: TextCodec, envelope: Bytes) returns (r: Result<ParsedCheckpoint, Error>)
    ensures r == Parse(c, envelope)
  {
    var blank := FindBlank(envelope);
    if blank.None? {
      return Err(MalformedCheckpoint);
    }
    var noteBody := envelope[..blank.value + 1];
    var fields := ParseBody(c, envelope[..blank.value]);
    if fields.Err? {
      return Err(fields.error);
    }
    var signatures := ReadSignatureBlock(c, envelope[blank.value + 2..]);
    return Assemble(noteBody, fields, signatures);
  }

  /** The errors of the parser itself. */
  predicate IsFormatError(e: Error) {
    e == MalformedCheckpoint || e == MalformedBase64 || e == TooManyCheckpointSignatures
  }

  lemma {:induction false} ParseEachErrors(c: TextCodec, lines: seq<Bytes>)
    ensures ParseEach(c, lines).Err? ==> IsFormatError(ParseEach(c, lines).error)
  {
    if lines != [] {
      ParseEachErrors(c, lines[1..]);
    }
  }

  lemma ParseErrors(c: TextCodec, envelope: Bytes)
    ensures Parse(c, envelope).Err? ==> IsFormatError(Parse(c, envelope).error)
  {
    if FindBlank(envelope).Some? {
      ParseEachErrors(c, NonEmpty(Lines(envelope[FindBlank(envelope).value + 2..])));
    }
  }

  // ---- what the signed body fixes ----

  lemma OriginIsFirstLine(c: TextCodec, body: Bytes)
    requires ParseBody(c, body).Ok?
    ensures var origin := ParseBody(c, body).value.origin;
            origin != [] && LF !in origin && origin + [LF] <= body
  {
    var k := IndexOf(body, LF);
    IndexOfFirst(body, LF);
    assert body[..k] + [LF] == body[..k + 1];
  }

  lemma {:induction false} BlankIsLineFeed(s: Bytes)
    ensures FindBlank(s).Some? ==> s[FindBlank(s).value] == LF
  {
    if |s| >= 2 && !(s[0] == LF && s[1] == LF) {
      BlankIsLineFeed(s[1..]);
    }
  }

  /** Origin, size and root are a function of the signed body alone; the origin is its first line, byte for
      byte; there are 1 to 32 signatures. */
  lemma SignedBodyFixesFields(c: TextCodec, envelope: Bytes)
    requires Parse(c, envelope).Ok?
    ensures var p := Parse(c, envelope).value;
            && p.noteBody != [] && p.noteBody <= envelope && p.noteBody[|p.noteBody| - 1] == LF
            && ParseBody(c, p.noteBody[..|p.noteBody| - 1]) == Ok(p.fields)
            && p.fields.origin != [] && LF !in p.fields.origin && p.fields.origin + [LF] <= p.noteBody
            && 1 <= |p.signatures| <= MAX_CHECKPOINT_SIGNATURES
  {
    var blank := FindBlank(envelope).value;
    var noteBody, body := envelope[..blank + 1], envelope[..blank];
    assert noteBody[..|noteBody| - 1] == body;
    BlankIsLineFeed(envelope);
    OriginIsFirstLine(c, body);
    ParseEachLength(c, NonEmpty(Lines(envelope[blank + 2..])));
  }

  // ---- printing ----

  /** A note to be written: extension lines may follow the root hash. */
  datatype Note = Note(fields: BodyFields, extensions: seq<Bytes>, signatures: seq<CheckpointSignature>)

  predicate PlainLine(l: Bytes) {
    l != [] && LF !in l
  }

  predicate WritableSignature(s: CheckpointSignature) {
    SPACE !in s.name && LF !in s.name && |s.keyHint| == KEY_HINT_BYTES && s.signature != []
  }

  predicate WellFormed(n: Note) {
    && PlainLine(n.fields.origin) && n.fields.treeSize < U64_LIMIT && n.fields.rootHash != []
    && (forall k :: 0 <= k < |n.extensions| ==> PlainLine(n.extensions[k]))
    && 1 <= |n.signatures| <= MAX_CHECKPOINT_SIGNATURES
    && (forall k :: 0 <= k < |n.signatures| ==> WritableSignature(n.signatures[k]))
  }

  function JoinLines(lines: seq<Bytes>): Bytes {
    if lines == [] then [] else lines[0] + [LF] + JoinLines(lines[1..])
  }

  function BodyLines(n: Note): seq<Bytes> {
    [n.fields.origin, Decimal(n.fields.treeSize), Base64(n.fields.rootHash)] + n.extensions
  }

  function SignatureLine(s: CheckpointSignature): Bytes {
    SIGNATURE_PREFIX + (s.name + [SPACE] + Base64(s.keyHint + s.signature))
  }

  function SignatureTexts(signatures: seq<CheckpointSignature>): seq<Bytes> {
    seq(|signatures|, i requires 0 <= i < |signatures| => SignatureLine(signatures[i]))
  }

  function Print(n: Note): Bytes {
    JoinLines(BodyLines(n)) + ([LF] + JoinLines(SignatureTexts(n.signatures)))
  }

  // ---- printing then parsing ----

  lemma {:induction false} FindBlankAfterLine(l: Bytes, t: Bytes)
    requires LF !in l && FindBlank([LF] + t).Some?
    ensures FindBlank(l + ([LF] + t)) == Some(|l| + FindBlank([LF] + t).value)
  {
    if l == [] {
      assert l + ([LF] + t) == [LF] + t;
    } else {
      assert (l + ([LF] + t))[1..] == l[1..] + ([LF] + t);
      FindBlankAfterLine(l[1..], t);
    }
  }

  predicate AllPlain(lines: seq<Bytes>) {
    forall k :: 0 <= k < |lines| ==> PlainLine(lines[k])
  }

  /** The first blank line ends the joined lines when none of them is empty. */
  lemma {:induction false} FindBlankAfterLines(lines: seq<Bytes>, t: Bytes)
    requires lines != [] && AllPlain(lines)
    ensures JoinLines(lines) != []
    ensures FindBlank(JoinLines(lines) + ([LF] + t)) == Some(|JoinLines(lines)| - 1)
  {
    var rest := JoinLines(lines[1..]) + ([LF] + t);
    assert PlainLine(lines[0]);
    assert JoinLines(lines) + ([LF] + t) == lines[0] + ([LF] + rest);
    if |lines| == 1 {
      assert rest == [LF] + t;
      assert FindBlank([LF] + rest) == Some(0);
    } else {
      assert PlainLine(lines[1]);
      FindBlankAfterLines(lines[1..], t);
      assert rest[0] == lines[1][0];
      assert ([LF] + rest)[1..] == rest;
    }
    FindBlankAfterLine(lines[0], rest);
  }

  lemma Base64Plain(s: Bytes)
    requires s != []
    ensures PlainLine(Base64(s)) && StripCr(Base64(s)) == Base64(s)
  {
  }

  lemma DecimalPlain(n: nat)
    ensures PlainLine(Decimal(n)) && StripCr(Decimal(n)) == Decimal(n)
  {
  }

  lemma ParseAfterOrigin(c: TextCodec, origin: Bytes, bodyText: Bytes)
    requires PlainLine(origin)
    ensures ParseBody(c, origin + [LF] + bodyText) == ParseBodyLines(c, origin, Lines(bodyText))
  {
    SplitAt(origin, LF, bodyText);
  }

  function DropLast(s: Bytes): Bytes {
    if s == [] then [] else s[..|s| - 1]
  }

  lemma DropAfterFirst(first: Bytes, more: seq<Bytes>)
    requires more != []
    ensures DropLast(JoinLines([first] + more)) == first + [LF] + DropLast(JoinLines(more))
  {
  }

  lemma FirstOfJoined(first: Bytes, more: seq<Bytes>)
    requires PlainLine(first) && StripCr(first) == first
    ensures var lines := Lines(DropLast(JoinLines([first] + more)));
            lines != [] && lines[0] == first
  {
    if more == [] {
      assert ([first] + more)[1..] == [];
      assert DropLast(JoinLines([first])) == first;
      LinesSingle(first);
    } else {
      DropAfterFirst(first, more);
      LinesCons(first, DropLast(JoinLines(more)));
    }
  }

  lemma FirstTwoLines(size: Bytes, root: Bytes, extensions: seq<Bytes>)
    requires PlainLine(size) && PlainLine(root) && StripCr(size) == size && StripCr(root) == root
    ensures var lines := Lines(DropLast(JoinLines([size] + ([root] + extensions))));
            |lines| >= 2 && lines[0] == size && lines[1] == root
  {
    DropAfterFirst(size, [root] + extensions);
    FirstOfJoined(root, extensions);
    LinesCons(size, DropLast(JoinLines([root] + extensions)));
  }

  lemma ParsePrintedBody(c: TextCodec, origin: Bytes, size: Bytes, root: Bytes, extensions: seq<Bytes>)
    requires PlainLine(origin) && PlainLine(size) && PlainLine(root) && StripCr(size) == size && StripCr(root) == root
    requires c.number(size).Some? && c.base64(root).Some?
    ensures ParseBody(c, DropLast(JoinLines([origin, size, root] + extensions)))
         == Ok(BodyFields(origin, c.number(size).value, c.base64(root).value))
  {
    var afterOrigin := [size] + ([root] + extensions);
    assert [origin, size, root] + extensions == [origin] + afterOrigin;
    DropAfterFirst(origin, afterOrigin);
    ParseAfterOrigin(c, origin, DropLast(JoinLines(afterOrigin)));
    FirstTwoLines(size, root, extensions);
  }

  lemma SignatureLinePlain(s: CheckpointSignature)
    requires WritableSignature(s)
    ensures PlainLine(SignatureLine(s)) && StripCr(SignatureLine(s)) == SignatureLine(s)
  {
  }

  lemma ParsePrintedBlob(c: TextCodec, name: Bytes, text: Bytes)
    requires SPACE !in name
    ensures ParseSignatureLine(c, SIGNATURE_PREFIX + (name + [SPACE] + text)) == ParseBlob(c, name, text)
  {
    var line, rest := SIGNATURE_PREFIX + (name + [SPACE] + text), name + [SPACE] + text;
    assert line[..|SIGNATURE_PREFIX|] == SIGNATURE_PREFIX && line[|SIGNATURE_PREFIX|..] == rest;
    SplitAt(name, SPACE, text);
  }

  lemma ParsePrintedSignature(c: TextCodec, s: CheckpointSignature)
    requires WritableSignature(s) && ReadsBack(c)
    ensures ParseSignatureLine(c, SignatureLine(s)) == Ok(s)
  {
    var blob := s.keyHint + s.signature;
    ParsePrintedBlob(c, s.name, Base64(blob));
    assert c.base64(Base64(blob)) == Some(blob);
    assert blob[..KEY_HINT_BYTES] == s.keyHint && blob[KEY_HINT_BYTES..] == s.signature;
  }

  lemma {:induction false} LinesOfJoined(lines: seq<Bytes>)
    requires forall k :: 0 <= k < |lines| ==> PlainLine(lines[k]) && StripCr(lines[k]) == lines[k]
    ensures Lines(JoinLines(lines)) == lines && NonEmpty(lines) == lines
  {
    if lines != [] {
      LinesOfJoined(lines[1..]);
      LinesCons(lines[0], JoinLines(lines[1..]));
      HeadAndTail(lines);
    }
  }

  lemma {:induction false} ParsePrintedSignatures(c: TextCodec, lines: seq<Bytes>, signatures: seq<CheckpointSignature>)
    requires |lines| == |signatures|
    requires forall k :: 0 <= k < |lines| ==> ParseSignatureLine(c, lines[k]) == Ok(signatures[k])
    ensures ParseEach(c, lines) == Ok(signatures)
  {
    if signatures != [] {
      ParsePrintedSignatures(c, lines[1..], signatures[1..]);
      HeadAndTail(signatures);
    }
  }

  lemma ParsePrintedBlock(c: TextCodec, signatures: seq<CheckpointSignature>)
    requires ReadsBack(c) && 1 <= |signatures| <= MAX_CHECKPOINT_SIGNATURES
    requires forall k :: 0 <= k < |signatures| ==> WritableSignature(signatures[k])
    ensures ParseSignatureBlock(c, JoinLines(SignatureTexts(signatures))) == Ok(signatures)
  {
    var texts := SignatureTexts(signatures);
    forall k | 0 <= k < |texts|
      ensures PlainLine(texts[k]) && StripCr(texts[k]) == texts[k]
      ensures ParseSignatureLine(c, texts[k]) == Ok(signatures[k])
    {
      SignatureLinePlain(signatures[k]);
      ParsePrintedSignature(c, signatures[k]);
    }
    LinesOfJoined(texts);
    ParsePrintedSignatures(c, texts, signatures);
  }

  lemma SlicesAround(body: Bytes, stop: byte, block: Bytes)
    requires body != []
    ensures var s := body + ([stop] + block);
            s[..|body|] == body && s[..|body| - 1] == DropLast(body) && s[|body| + 1..] == block
  {
  }

  /** The blank line separates what was written before it from what was written after it. */
  lemma ParseAroundBlank(c: TextCodec, body: Bytes, block: Bytes)
    requires body != [] && FindBlank(body + ([LF] + block)) == Some(|body| - 1)
    ensures Parse(c, body + ([LF] + block))
         == Assemble(body, ParseBody(c, DropLast(body)), ParseSignatureBlock(c, block))
  {
    SlicesAround(body, LF, block);
  }

  lemma ParseTogether(
    c: TextCodec, body: Bytes, block: Bytes, fields: BodyFields, signatures: seq<CheckpointSignature>)
    requires body != [] && FindBlank(body + ([LF] + block)) == Some(|body| - 1)
    requires ParseBody(c, DropLast(body)) == Ok(fields) && ParseSignatureBlock(c, block) == Ok(signatures)
    ensures Parse(c, body + ([LF] + block)) == Ok(ParsedCheckpoint(fields, body, signatures))
  {
    ParseAroundBlank(c, body, block);
  }

  lemma BodyLinesPlain(n: Note, lines: seq<Bytes>)
    requires WellFormed(n) && lines == BodyLines(n)
    ensures AllPlain(lines)
  {
  }

  lemma ParseBodyOfNote(c: TextCodec, n: Note, body: Bytes)
    requires WellFormed(n) && ReadsBack(c) && body == JoinLines(BodyLines(n))
    ensures ParseBody(c, DropLast(body)) == Ok(n.fields)
  {
    DecimalPlain(n.fields.treeSize);
    Base64Plain(n.fields.rootHash);
    assert c.number(Decimal(n.fields.treeSize)) == Some(n.fields.treeSize);
    assert c.base64(Base64(n.fields.rootHash)) == Some(n.fields.rootHash);
    ParsePrintedBody(c, n.fields.origin, Decimal(n.fields.treeSize), Base64(n.fields.rootHash), n.extensions);
  }

  lemma BlankOfNote(n: Note, lines: seq<Bytes>, block: Bytes)
    requires WellFormed(n) && lines == BodyLines(n)
    ensures JoinLines(lines) != []
    ensures FindBlank(JoinLines(lines) + ([LF] + block)) == Some(|JoinLines(lines)| - 1)
  {
    BodyLinesPlain(n, lines);
    FindBlankAfterLines(lines, block);
  }

  lemma BlankOfBody(n: Note, body: Bytes, block: Bytes)
    requires WellFormed(n) && body == JoinLines(BodyLines(n))
    ensures body != [] && FindBlank(body + ([LF] + block)) == Some(|body| - 1)
  {
    BlankOfNote(n, BodyLines(n), block);
  }

  lemma BlockOfNote(c: TextCodec, n: Note, block: Bytes)
    requires WellFormed(n) && ReadsBack(c) && block == JoinLines(SignatureTexts(n.signatures))
    ensures ParseSignatureBlock(c, block) == Ok(n.signatures)
  {
    ParsePrintedBlock(c, n.signatures);
  }

  /** Parsing inverts printing for every well-formed note. */
  lemma ParseOfPrint(c: TextCodec, n: Note)
    requires WellFormed(n) && ReadsBack(c)
    ensures Parse(c, Print(n)) == Ok(ParsedCheckpoint(n.fields, JoinLines(BodyLines(n)), n.signatures))
  {
    var body, block := JoinLines(BodyLines(n)), JoinLines(SignatureTexts(n.signatures));
    BlankOfBody(n, body, block);
    ParseBodyOfNote(c, n, body);
    BlockOfNote(c, n, block);
    ParseTogether(c, body, block, n.fields, n.signatures);
  }

  /** In particular with the decoders that the source uses. */
  lemma StandardParseOfPrint(n: Note)
    requires WellFormed(n)
    ensures Parse(STANDARD, Print(n)) == Ok(ParsedCheckpoint(n.fields, JoinLines(BodyLines(n)), n.signatures))
  {
    StandardReadsBack();
    ParseOfPrint(STANDARD, n);
  }
}
