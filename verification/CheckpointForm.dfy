/** What a checkpoint is, said without the parser: the form of its body and of its signature block. The parser of
    src/rekor.rs accepts exactly the envelopes of this form, and reads what they hold. */
module CheckpointForm {
  import opened Basics
  import opened Checkpoint
  import opened Primitives

  // ---- where the body ends ----

  predicate BlankAt(s: Bytes, k: int) {
    0 <= k < |s| - 1 && s[k] == LF && s[k + 1] == LF
  }

  /** The first position with two line feeds. */
  predicate FirstBlankAt(s: Bytes, k: int) {
    BlankAt(s, k) && forall j :: 0 <= j < k ==> !BlankAt(s, j)
  }

  lemma {:induction false} FindBlankFirst(s: Bytes)
    ensures var r := FindBlank(s);
            if r.Some? then FirstBlankAt(s, r.value) else forall k :: 0 <= k < |s| ==> !BlankAt(s, k)
  {
    if |s| >= 2 && !BlankAt(s, 0) {
      FindBlankFirst(s[1..]);
      assert forall k :: 1 <= k < |s| ==> (BlankAt(s, k) <==> BlankAt(s[1..], k - 1));
      assert forall k :: 0 <= k < |s| - 1 ==> (BlankAt(s[1..], k) <==> BlankAt(s, k + 1));
    }
  }

  lemma FindBlankExact(s: Bytes, k: nat)
    ensures FindBlank(s) == Some(k) <==> FirstBlankAt(s, k)
  {
    FindBlankFirst(s);
  }

  // ---- lines ----

  /** A line as it stands before its line feed: with one carriage return more, or as it is. */
  predicate IsRawOf(raw: Bytes, line: Bytes) {
    LF !in raw && (raw == line + [CR] || (raw == line && (raw == [] || raw[|raw| - 1] != CR)))
  }

  /** The text is these raw lines, each with its line feed, and a last one without, if any. */
  ghost predicate SplitsInto(text: Bytes, raws: seq<Bytes>, last: Bytes, lines: seq<Bytes>) {
    && text == JoinLines(raws) + last && LF !in last
    && |lines| == |raws| + (if last == [] then 0 else 1)
    && (forall k :: 0 <= k < |raws| ==> IsRawOf(raws[k], lines[k]))
    && (last != [] ==> lines[|raws|] == last)
  }

  ghost predicate AreLines(text: Bytes, lines: seq<Bytes>) {
    exists raws, last :: SplitsInto(text, raws, last, lines)
  }

  lemma RawStripped(raw: Bytes, line: Bytes)
    ensures IsRawOf(raw, line) <==> LF !in raw && StripCr(raw) == line
  {
    if raw != [] && raw[|raw| - 1] == CR {
      assert raw == raw[..|raw| - 1] + [CR];
    }
  }

  lemma JoinCons(raw: Bytes, raws: seq<Bytes>, last: Bytes)
    ensures JoinLines([raw] + raws) + last == raw + [LF] + (JoinLines(raws) + last)
  {
    assert ([raw] + raws)[1..] == raws;
  }

  lemma {:induction false} LinesSplit(text: Bytes) returns (raws: seq<Bytes>, last: Bytes)
    ensures SplitsInto(text, raws, last, Lines(text))
    decreases |text|
  {
    var k := IndexOf(text, LF);
    IndexOfFirst(text, LF);
    if k == |text| {
      raws, last := [], text;
      assert JoinLines(raws) + last == text;
    } else {
      var raw, rest := text[..k], text[k + 1..];
      var more;
      more, last := LinesSplit(rest);
      raws := [raw] + more;
      RawStripped(raw, StripCr(raw));
      JoinCons(raw, more, last);
      assert text == raw + [LF] + rest;
    }
  }

  lemma {:induction false} SplitLines(text: Bytes, raws: seq<Bytes>, last: Bytes, lines: seq<Bytes>)
    requires SplitsInto(text, raws, last, lines)
    ensures Lines(text) == lines
    decreases |raws|
  {
    if raws == [] {
      assert text == last;
      if last == [] {
        assert lines == [];
      } else {
        LinesSingle(last);
        assert lines == [last];
      }
    } else {
      var rest := JoinLines(raws[1..]) + last;
      HeadAndTail(raws);
      HeadAndTail(lines);
      JoinCons(raws[0], raws[1..], last);
      RawStripped(raws[0], lines[0]);
      LinesCons(raws[0], rest);
      SplitLines(rest, raws[1..], last, lines[1..]);
    }
  }

  /** The lines of a text are the only ones it is made of. */
  lemma LinesExact(text: Bytes, lines: seq<Bytes>)
    ensures Lines(text) == lines <==> AreLines(text, lines)
  {
    if Lines(text) == lines {
      var raws, last := LinesSplit(text);
    }
    if AreLines(text, lines) {
      var raws, last :| SplitsInto(text, raws, last, lines);
      SplitLines(text, raws, last, lines);
    }
  }

  // ---- the body ----

  /** Origin line, size line, root line, and any number of extension lines. */
  ghost predicate ReadsBody(c: TextCodec, body: Bytes, fields: BodyFields) {
    exists rest, lines ::
      && body == fields.origin + [LF] + rest && fields.origin != [] && LF !in fields.origin
      && AreLines(rest, lines) && |lines| >= 2
      && c.number(lines[0]) == Some(fields.treeSize) && c.base64(lines[1]) == Some(fields.rootHash)
  }

  lemma CutAt(s: Bytes, k: nat)
    requires k < |s|
    ensures s == s[..k] + [s[k]] + s[k + 1..]
  {
  }

  lemma AfterOrigin(c: TextCodec, body: Bytes, fields: BodyFields) returns (rest: Bytes)
    requires ParseBody(c, body) == Ok(fields)
    ensures body == fields.origin + [LF] + rest && fields.origin != [] && LF !in fields.origin
    ensures ParseBodyLines(c, fields.origin, Lines(rest)) == Ok(fields)
  {
    var k := IndexOf(body, LF);
    rest := body[k + 1..];
    IndexOfFirst(body, LF);
    CutAt(body, k);
  }

  lemma BodySound(c: TextCodec, body: Bytes, fields: BodyFields)
    requires ParseBody(c, body) == Ok(fields)
    ensures ReadsBody(c, body, fields)
  {
    var rest := AfterOrigin(c, body, fields);
    LinesExact(rest, Lines(rest));
  }

  lemma BodyComplete(c: TextCodec, body: Bytes, fields: BodyFields)
    requires ReadsBody(c, body, fields)
    ensures ParseBody(c, body) == Ok(fields)
  {
    var rest, lines :|
      && body == fields.origin + [LF] + rest && fields.origin != [] && LF !in fields.origin
      && AreLines(rest, lines) && |lines| >= 2
      && c.number(lines[0]) == Some(fields.treeSize) && c.base64(lines[1]) == Some(fields.rootHash);
    LinesExact(rest, lines);
    ParseAfterOrigin(c, fields.origin, rest);
  }

  lemma ParseBodyExact(c: TextCodec, body: Bytes, fields: BodyFields)
    ensures ParseBody(c, body) == Ok(fields) <==> ReadsBody(c, body, fields)
  {
    if ParseBody(c, body) == Ok(fields) {
      BodySound(c, body, fields);
    }
    if ReadsBody(c, body, fields) {
      BodyComplete(c, body, fields);
    }
  }

  /** A body is read in one way only. */
  lemma OneReading(c: TextCodec, body: Bytes, a: BodyFields, b: BodyFields)
    requires ReadsBody(c, body, a) && ReadsBody(c, body, b)
    ensures a == b
  {
    ParseBodyExact(c, body, a);
    ParseBodyExact(c, body, b);
  }

  // ---- the signature block ----

  /** Marker, name, space, and the base64 of a four-byte hint and a signature. */
  ghost predicate IsSignatureLine(c: TextCodec, line: Bytes, s: CheckpointSignature) {
    exists text ::
      && line == [0xE2, 0x80, 0x94, SPACE] + (s.name + [SPACE] + text) && SPACE !in s.name
      && c.base64(text) == Some(s.keyHint + s.signature) && |s.keyHint| == 4 && s.signature != []
  }

  lemma BlobExact(c: TextCodec, name: Bytes, text: Bytes, s: CheckpointSignature)
    ensures ParseBlob(c, name, text) == Ok(s)
        <==> name == s.name && c.base64(text) == Some(s.keyHint + s.signature) && |s.keyHint| == 4 && s.signature != []
  {
    var whole := s.keyHint + s.signature;
    if |s.keyHint| == 4 {
      assert whole[..4] == s.keyHint && whole[4..] == s.signature;
    }
    var blob := c.base64(text);
    if blob.Some? && |blob.value| > 4 {
      assert blob.value == blob.value[..4] + blob.value[4..];
    }
  }

  lemma SignatureLineSound(c: TextCodec, line: Bytes, s: CheckpointSignature)
    requires ParseSignatureLine(c, line) == Ok(s)
    ensures IsSignatureLine(c, line, s)
  {
    var rest := line[|SIGNATURE_PREFIX|..];
    var k := IndexOf(rest, SPACE);
    IndexOfFirst(rest, SPACE);
    BlobExact(c, rest[..k], rest[k + 1..], s);
    CutAt(rest, k);
    assert line == SIGNATURE_PREFIX + rest;
  }

  lemma SignatureLineExact(c: TextCodec, line: Bytes, s: CheckpointSignature)
    ensures ParseSignatureLine(c, line) == Ok(s) <==> IsSignatureLine(c, line, s)
  {
    if ParseSignatureLine(c, line) == Ok(s) {
      SignatureLineSound(c, line, s);
    }
    if IsSignatureLine(c, line, s) {
      var text :| && line == [0xE2, 0x80, 0x94, SPACE] + (s.name + [SPACE] + text) && SPACE !in s.name
                  && c.base64(text) == Some(s.keyHint + s.signature) && |s.keyHint| == 4 && s.signature != [];
      ParsePrintedBlob(c, s.name, text);
      BlobExact(c, s.name, text, s);
    }
  }

  /** The positions of the lines that are not empty, in order. */
  ghost predicate AreNonEmptyAt(lines: seq<Bytes>, at: seq<nat>) {
    && (forall k :: 0 <= k < |at| ==> at[k] < |lines| && lines[at[k]] != [])
    && (forall j, k :: 0 <= j < k < |at| ==> at[j] < at[k])
    && (forall i :: 0 <= i < |lines| && lines[i] != [] ==> i in at)
  }

  lemma {:induction false} NonEmptySnoc(lines: seq<Bytes>, l: Bytes)
    ensures NonEmpty(lines + [l]) == NonEmpty(lines) + if l == [] then [] else [l]
  {
    if lines != [] {
      NonEmptySnoc(lines[1..], l);
      assert (lines + [l])[1..] == lines[1..] + [l];
    } else {
      assert (lines + [l])[1..] == [] && lines + [l] == [l];
    }
  }

  lemma AfterEmptyLine(lines: seq<Bytes>, all: seq<Bytes>, at: seq<nat>)
    requires AreNonEmptyAt(lines, at) && all == lines + [[]]
    ensures AreNonEmptyAt(all, at)
  {
    assert all[|lines|] == [];
    forall i | 0 <= i < |all| && all[i] != []
      ensures i in at
    {
      assert all[i] == lines[i];
    }
  }

  lemma AfterText(lines: seq<Bytes>, l: Bytes, all: seq<Bytes>, before: seq<nat>, at: seq<nat>)
    requires AreNonEmptyAt(lines, before) && l != [] && all == lines + [l] && at == before + [|lines|]
    ensures AreNonEmptyAt(all, at)
  {
    assert all[|lines|] == l && at[|before|] == |lines|;
    forall i | 0 <= i < |all| && all[i] != []
      ensures i in at
    {
      if i < |lines| {
        assert all[i] == lines[i] && i in before;
      }
    }
  }

  lemma {:induction false} NonEmptyHasPositions(lines: seq<Bytes>) returns (at: seq<nat>)
    ensures AreNonEmptyAt(lines, at)
  {
    if lines == [] {
      at := [];
    } else {
      var front, last := lines[..|lines| - 1], lines[|lines| - 1];
      var before := NonEmptyHasPositions(front);
      assert lines == front + [last];
      if last == [] {
        at := before;
        AfterEmptyLine(front, lines, at);
      } else {
        at := before + [|front|];
        AfterText(front, last, lines, before, at);
      }
    }
  }

  lemma UpToLast(at: seq<nat>, k: nat)
    requires k < |at| && forall i, j :: 0 <= i < j < |at| ==> at[i] < at[j]
    ensures if k == |at| - 1 then at[k] == at[|at| - 1] else at[k] < at[|at| - 1]
  {
  }

  /** A list of positions that ends at the last one. */
  lemma LastPosition(lines: seq<Bytes>, at: seq<nat>, n: nat)
    requires |lines| == n + 1 && lines[n] != [] && AreNonEmptyAt(lines, at)
    ensures at != [] && at[|at| - 1] == n && AreNonEmptyAt(lines[..n], at[..|at| - 1])
  {
    assert n in at;
    var k :| 0 <= k < |at| && at[k] == n;
    UpToLast(at, k);
    forall i | 0 <= i < n && lines[..n][i] != []
      ensures i in at[..|at| - 1]
    {
      assert lines[i] != [] && i in at;
    }
  }

  lemma FirstPosition(lines: seq<Bytes>, at: seq<nat>)
    requires AreNonEmptyAt(lines, at)
    ensures at == [] || at[0] < |lines|
  {
  }

  lemma {:induction false} PositionsAreNonEmpty(lines: seq<Bytes>, at: seq<nat>)
    requires AreNonEmptyAt(lines, at)
    ensures |NonEmpty(lines)| == |at| && forall k :: 0 <= k < |at| ==> NonEmpty(lines)[k] == lines[at[k]]
  {
    if lines == [] {
      FirstPosition(lines, at);
    } else {
      var n := |lines| - 1;
      var front := lines[..n];
      NonEmptySnoc(front, lines[n]);
      assert lines == front + [lines[n]];
      if lines[n] == [] {
        assert AreNonEmptyAt(front, at);
        PositionsAreNonEmpty(front, at);
      } else {
        LastPosition(lines, at, n);
        PositionsAreNonEmpty(front, at[..|at| - 1]);
      }
    }
  }

  lemma {:induction false} ParseEachExact(c: TextCodec, texts: seq<Bytes>, signatures: seq<CheckpointSignature>)
    ensures ParseEach(c, texts) == Ok(signatures)
        <==> |signatures| == |texts| && forall k :: 0 <= k < |texts| ==> IsSignatureLine(c, texts[k], signatures[k])
  {
    if texts != [] && signatures != [] {
      ParseEachExact(c, texts[1..], signatures[1..]);
      SignatureLineExact(c, texts[0], signatures[0]);
      HeadAndTail(signatures);
      assert forall k :: 1 <= k < |texts| ==> texts[k] == texts[1..][k - 1];
    }
  }

  /** The lines of the block that are not empty are 1 to 32 signature lines, for these signatures in order. */
  ghost predicate ReadsBlock(c: TextCodec, block: Bytes, signatures: seq<CheckpointSignature>) {
    exists lines, at ::
      && AreLines(block, lines) && AreNonEmptyAt(lines, at) && |at| == |signatures| && 1 <= |signatures| <= 32
      && forall k :: 0 <= k < |at| ==> IsSignatureLine(c, lines[at[k]], signatures[k])
  }

  lemma BlockOfLines(
    c: TextCodec, block: Bytes, lines: seq<Bytes>, at: seq<nat>, signatures: seq<CheckpointSignature>)
    requires AreLines(block, lines) && AreNonEmptyAt(lines, at)
    ensures ParseSignatureBlock(c, block) == Ok(signatures)
        <==> && |at| == |signatures| && 1 <= |signatures| <= 32
             && forall k :: 0 <= k < |at| ==> IsSignatureLine(c, lines[at[k]], signatures[k])
  {
    LinesExact(block, lines);
    PositionsAreNonEmpty(lines, at);
    ParseEachExact(c, NonEmpty(lines), signatures);
  }

  lemma BlockExact(c: TextCodec, block: Bytes, signatures: seq<CheckpointSignature>)
    ensures ParseSignatureBlock(c, block) == Ok(signatures) <==> ReadsBlock(c, block, signatures)
  {
    if ParseSignatureBlock(c, block) == Ok(signatures) {
      var lines := Lines(block);
      var at := NonEmptyHasPositions(lines);
      LinesExact(block, lines);
      BlockOfLines(c, block, lines, at, signatures);
    }
    if ReadsBlock(c, block, signatures) {
      var lines, at :|
        && AreLines(block, lines) && AreNonEmptyAt(lines, at) && |at| == |signatures| && 1 <= |signatures| <= 32
        && forall k :: 0 <= k < |at| ==> IsSignatureLine(c, lines[at[k]], signatures[k]);
      BlockOfLines(c, block, lines, at, signatures);
    }
  }

  // ---- the whole envelope ----

  /** A note body up to and with its last line feed, cut at the first blank line, and a signature block. */
  ghost predicate IsCheckpoint(c: TextCodec, envelope: Bytes, p: ParsedCheckpoint) {
    exists body, block ::
      && envelope == body + [LF] + [LF] + block && FirstBlankAt(envelope, |body|) && p.noteBody == body + [LF]
      && ReadsBody(c, body, p.fields) && ReadsBlock(c, block, p.signatures)
  }

  lemma CutAtBlank(envelope: Bytes, k: nat)
    requires BlankAt(envelope, k)
    ensures envelope == envelope[..k] + [LF] + [LF] + envelope[k + 2..] && envelope[..k + 1] == envelope[..k] + [LF]
  {
  }

  lemma AroundBlank(body: Bytes, block: Bytes)
    ensures var s := body + [LF] + [LF] + block;
            s[..|body|] == body && s[..|body| + 1] == body + [LF] && s[|body| + 2..] == block
  {
  }

  lemma ParseCut(c: TextCodec, envelope: Bytes, k: nat, p: ParsedCheckpoint)
    requires FirstBlankAt(envelope, k) && p.noteBody == envelope[..k + 1]
    requires ReadsBody(c, envelope[..k], p.fields) && ReadsBlock(c, envelope[k + 2..], p.signatures)
    ensures Parse(c, envelope) == Ok(p)
  {
    FindBlankExact(envelope, k);
    ParseBodyExact(c, envelope[..k], p.fields);
    BlockExact(c, envelope[k + 2..], p.signatures);
  }

  lemma CheckpointComplete(c: TextCodec, envelope: Bytes, body: Bytes, block: Bytes, p: ParsedCheckpoint)
    requires envelope == body + [LF] + [LF] + block && FirstBlankAt(envelope, |body|) && p.noteBody == body + [LF]
    requires ReadsBody(c, body, p.fields) && ReadsBlock(c, block, p.signatures)
    ensures Parse(c, envelope) == Ok(p)
  {
    AroundBlank(body, block);
    ParseCut(c, envelope, |body|, p);
  }

  lemma ParseSteps(c: TextCodec, envelope: Bytes, p: ParsedCheckpoint) returns (k: nat)
    requires Parse(c, envelope) == Ok(p)
    ensures FindBlank(envelope) == Some(k) && k + 2 <= |envelope| && p.noteBody == envelope[..k + 1]
    ensures ParseBody(c, envelope[..k]) == Ok(p.fields)
    ensures ParseSignatureBlock(c, envelope[k + 2..]) == Ok(p.signatures)
  {
    k := FindBlank(envelope).value;
  }

  lemma CheckpointSound(c: TextCodec, envelope: Bytes, p: ParsedCheckpoint)
    requires Parse(c, envelope) == Ok(p)
    ensures IsCheckpoint(c, envelope, p)
  {
    var k := ParseSteps(c, envelope, p);
    FindBlankExact(envelope, k);
    CutAtBlank(envelope, k);
    ParseBodyExact(c, envelope[..k], p.fields);
    BlockExact(c, envelope[k + 2..], p.signatures);
  }

  /** The parser accepts exactly the checkpoints of this form, and returns what they hold. */
  lemma ParseExact(c: TextCodec, envelope: Bytes, p: ParsedCheckpoint)
    ensures Parse(c, envelope) == Ok(p) <==> IsCheckpoint(c, envelope, p)
  {
    if Parse(c, envelope) == Ok(p) {
      CheckpointSound(c, envelope, p);
    }
    if IsCheckpoint(c, envelope, p) {
      var body, block :|
        && envelope == body + [LF] + [LF] + block && FirstBlankAt(envelope, |body|) && p.noteBody == body + [LF]
        && ReadsBody(c, body, p.fields) && ReadsBlock(c, block, p.signatures);
      CheckpointComplete(c, envelope, body, block, p);
    }
  }

  ghost predicate Readable(c: TextCodec, body: Bytes) {
    exists fields :: ReadsBody(c, body, fields)
  }

  ghost predicate HasOver32Lines(block: Bytes) {
    exists lines, at :: AreLines(block, lines) && AreNonEmptyAt(lines, at) && |at| > 32
  }

  lemma ReadableExact(c: TextCodec, body: Bytes)
    ensures ParseBody(c, body).Ok? <==> Readable(c, body)
  {
    if ParseBody(c, body).Ok? {
      ParseBodyExact(c, body, ParseBody(c, body).value);
    }
    if Readable(c, body) {
      var fields :| ReadsBody(c, body, fields);
      ParseBodyExact(c, body, fields);
    }
  }

  lemma LineCountExact(block: Bytes)
    ensures |NonEmpty(Lines(block))| > 32 <==> HasOver32Lines(block)
  {
    var lines := Lines(block);
    var at := NonEmptyHasPositions(lines);
    LinesExact(block, lines);
    PositionsAreNonEmpty(lines, at);
    if HasOver32Lines(block) {
      var ls, ps :| AreLines(block, ls) && AreNonEmptyAt(ls, ps) && |ps| > 32;
      LinesExact(block, ls);
      PositionsAreNonEmpty(ls, ps);
    }
  }

  lemma {:induction false} LineErrors(c: TextCodec, texts: seq<Bytes>)
    ensures ParseEach(c, texts) != Err(TooManyCheckpointSignatures)
  {
    if texts != [] {
      LineErrors(c, texts[1..]);
    }
  }

  lemma BlockTooMany(c: TextCodec, block: Bytes)
    ensures ParseSignatureBlock(c, block) == Err(TooManyCheckpointSignatures) <==> |NonEmpty(Lines(block))| > 32
  {
    LineErrors(c, NonEmpty(Lines(block)));
  }

  lemma BodyErrors(c: TextCodec, body: Bytes)
    ensures ParseBody(c, body) != Err(TooManyCheckpointSignatures)
  {
  }

  lemma AssembleTooMany(
    noteBody: Bytes, fields: Result<BodyFields, Error>, signatures: Result<seq<CheckpointSignature>, Error>)
    requires fields != Err(TooManyCheckpointSignatures)
    ensures Assemble(noteBody, fields, signatures) == Err(TooManyCheckpointSignatures)
        <==> fields.Ok? && signatures == Err(TooManyCheckpointSignatures)
  {
  }

  lemma ParseAtBlank(c: TextCodec, envelope: Bytes, k: nat)
    requires FindBlank(envelope) == Some(k)
    ensures Parse(c, envelope)
         == Assemble(envelope[..k + 1], ParseBody(c, envelope[..k]), ParseSignatureBlock(c, envelope[k + 2..]))
  {
  }

  lemma ParseTooMany(c: TextCodec, envelope: Bytes, k: nat)
    requires FirstBlankAt(envelope, k)
    ensures Parse(c, envelope) == Err(TooManyCheckpointSignatures)
        <==> Readable(c, envelope[..k]) && HasOver32Lines(envelope[k + 2..])
  {
    var fields, signatures := ParseBody(c, envelope[..k]), ParseSignatureBlock(c, envelope[k + 2..]);
    FindBlankExact(envelope, k);
    ParseAtBlank(c, envelope, k);
    BodyErrors(c, envelope[..k]);
    AssembleTooMany(envelope[..k + 1], fields, signatures);
    BlockTooMany(c, envelope[k + 2..]);
    ReadableExact(c, envelope[..k]);
    LineCountExact(envelope[k + 2..]);
  }

  /** The count is the reason for a rejection exactly when the body can be read and the block has more than 32
      lines that are not empty, whether or not those are signature lines: none of them is decoded. */
  lemma TooManyExact(c: TextCodec, envelope: Bytes)
    ensures Parse(c, envelope) == Err(TooManyCheckpointSignatures)
        <==> exists k :: FirstBlankAt(envelope, k) && Readable(c, envelope[..k]) && HasOver32Lines(envelope[k + 2..])
  {
    var blank := FindBlank(envelope);
    FindBlankFirst(envelope);
    if blank.Some? {
      var k := blank.value;
      ParseTooMany(c, envelope, k);
      assert forall j :: FirstBlankAt(envelope, j) ==> j == k;
    }
  }
}
