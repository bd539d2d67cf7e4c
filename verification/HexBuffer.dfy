/** The line buffer of fromIntelHex is on the stack and never cleared, and the
    digit parser does not look for the end of the line. A text that is read
    without complaint nevertheless gives the same image whatever the buffer held
    before, and whether there is a complaint does not depend on it either. */
module HexBuffer {
  import opened Common
  import opened ImageState
  import opened IntelHex
  import opened HexRoundTrip
  import opened HexWindow

  // ----- the chunks of a text -----

  /** What one call of fgets may take: something, less than the buffer, with a
      newline at most at its end. */
  predicate IsChunk(chunk: string) {
    0 < |chunk| < BUFSIZ && '\n' !in chunk[..|chunk| - 1]
  }

  /** It stopped for a reason other than the end of the file. */
  predicate IsFull(chunk: string) {
    chunk != [] && (chunk[|chunk| - 1] == '\n' || |chunk| == BUFSIZ - 1)
  }

  lemma {:induction false} ChunkStops(text: string, limit: nat)
    requires text != [] && limit > 0
    ensures var n := ChunkLength(text, limit);
      && 0 < n <= limit && n <= |text| && '\n' !in text[..n - 1]
      && (n < |text| ==> text[n - 1] == '\n' || n == limit)
    decreases |text|
  {
    if text[0] != '\n' && limit > 1 && |text| > 1 {
      ChunkStops(text[1..], limit - 1);
      var n := ChunkLength(text[1..], limit - 1);
      assert text[..n] == [text[0]] + text[1..][..n - 1];
    }
  }

  lemma FirstChunk(text: string, n: nat)
    requires text != [] && n == ChunkLength(text, BUFSIZ - 1)
    ensures 0 < n <= |text| && IsChunk(text[..n])
    ensures n < |text| ==> IsFull(text[..n])
  {
    ChunkStops(text, BUFSIZ - 1);
    assert text[..n][..n - 1] == text[..n - 1];
  }

  /** Reads of a file: each a chunk, and all but the last full. */
  predicate AreReads(chunks: seq<string>) {
    && (forall i :: 0 <= i < |chunks| ==> IsChunk(chunks[i]))
    && (forall i :: 0 <= i < |chunks| - 1 ==> IsFull(chunks[i]))
  }

  lemma ReadBefore(chunk: string, rest: seq<string>)
    requires IsChunk(chunk) && AreReads(rest) && (rest != [] ==> IsFull(chunk))
    ensures AreReads([chunk] + rest) && Flatten([chunk] + rest) == chunk + Flatten(rest)
  {
    var all := [chunk] + rest;
    assert all[1..] == rest;
    forall i | 0 <= i < |all| ensures IsChunk(all[i]) && (i < |all| - 1 ==> IsFull(all[i])) {
      if i > 0 {
        assert all[i] == rest[i - 1];
      }
    }
  }

  /** The reads take the whole text in order, and all but the last stop at a
      newline or when the buffer is full. */
  lemma {:induction false} ChunksAreText(text: string)
    ensures Flatten(Chunks(text)) == text && AreReads(Chunks(text))
    decreases |text|
  {
    if text != [] {
      var n := ChunkLength(text, BUFSIZ - 1);
      FirstChunk(text, n);
      ChunksAreText(text[n..]);
      ReadBefore(text[..n], Chunks(text[n..]));
      assert text == text[..n] + text[n..];
    }
  }

  // ----- the C string of a loaded line -----

  lemma {:induction false} ChopStops(s: string, c: char)
    ensures var k := |Chop(s, c)|;
      && Chop(s, c) == s[..k] && c !in Chop(s, c)
      && (k < |s| ==> s[k] == c) && (c in s <==> k < |s|)
    decreases |s|
  {
    if s != [] && s[0] != c {
      ChopStops(s[1..], c);
      assert s == [s[0]] + s[1..];
    }
  }

  /** The buffer holds a terminated C string. */
  predicate Ended(line: buffer) {
    |CString(line)| < BUFSIZ
  }

  lemma CutText(line: buffer, c: char)
    requires Ended(line)
    ensures Ended(Cut(line, c)) && CString(Cut(line, c)) == Chop(CString(line), c)
  {
    var text := CString(line);
    var k := |Chop(text, c)|;
    ChopStops(line, '\0');
    ChopStops(text, c);
    if c in text {
      assert text[..k] == line[..k];
      assert '\0' !in text[..k];
      EndedAt(line, k);
    }
  }

  lemma EndedAt(line: buffer, k: nat)
    requires k < BUFSIZ && '\0' !in line[..k]
    ensures CString(line[k := '\0']) == line[..k]
  {
    assert line[k := '\0'] == line[..k] + ['\0'] + line[k + 1..];
    ChopAt(line[..k], '\0', line[k + 1..]);
  }

  lemma {:induction false} ChopFirst(a: string, b: string, c: char)
    requires c in a
    ensures Chop(a + b, c) == Chop(a, c)
    decreases |a|
  {
    if a[0] != c {
      assert (a + b)[1..] == a[1..] + b;
      ChopFirst(a[1..], b, c);
    }
  }

  lemma ReceivedText(line: buffer, chunk: string)
    requires |chunk| < BUFSIZ
    ensures Ended(Receive(line, chunk)) && CString(Receive(line, chunk)) == Chop(chunk + ['\0'], '\0')
  {
    ChopFirst(chunk + ['\0'], line[|chunk| + 1..], '\0');
    ChopStops(chunk + ['\0'], '\0');
  }

  /** Two buffers that hold the same C string. */
  predicate SameText(a: buffer, b: buffer) {
    CString(a) == CString(b) && Ended(a)
  }

  /** What a round reads from the file decides the C string in the buffer. */
  lemma LoadsSame(a: buffer, b: buffer, chunk: string)
    requires |chunk| < BUFSIZ
    ensures SameText(LoadLine(a, chunk), LoadLine(b, chunk))
  {
    ReceivedText(a, chunk);
    ReceivedText(b, chunk);
    CutText(Receive(a, chunk), '\r');
    CutText(Receive(b, chunk), '\r');
    CutText(Cut(Receive(a, chunk), '\r'), '\n');
    CutText(Cut(Receive(b, chunk), '\r'), '\n');
  }

  /** `r` is the part of a text in front of the first character of `ends`. */
  predicate IsFront(r: string, text: string, ends: set<char>) {
    && r <= text && (forall c :: c in r ==> c !in ends)
    && (|r| < |text| ==> text[|r|] in ends)
  }

  lemma FrontOfFront(r: string, q: string, text: string, ends: set<char>, c: char)
    requires IsFront(q, text, ends) && IsFront(r, q, {c})
    ensures IsFront(r, text, ends + {c})
  {
  }

  lemma ChopIsFront(text: string, c: char)
    ensures IsFront(Chop(text, c), text, {c})
  {
    ChopStops(text, c);
  }

  lemma TerminatedFront(text: string)
    ensures Chop(text + ['\0'], '\0') == Chop(text, '\0')
  {
    if '\0' in text {
      ChopFirst(text, ['\0'], '\0');
    } else {
      ChopStops(text, '\0');
      ChopAt(text, '\0', "");
      assert text + ['\0'] + "" == text + ['\0'];
    }
  }

  /** The line a round works on is what was read, up to the first terminator,
      carriage return or newline. */
  lemma LineIsFront(line: buffer, chunk: string)
    requires |chunk| < BUFSIZ
    ensures IsFront(CString(LoadLine(line, chunk)), chunk, {'\0', '\r', '\n'})
  {
    var got := Receive(line, chunk);
    ReceivedText(line, chunk);
    TerminatedFront(chunk);
    CutText(got, '\r');
    CutText(Cut(got, '\r'), '\n');
    var a, b := CString(got), CString(Cut(got, '\r'));
    ChopIsFront(chunk, '\0');
    ChopIsFront(a, '\r');
    ChopIsFront(b, '\n');
    FrontOfFront(b, a, chunk, {'\0'}, '\r');
    FrontOfFront(CString(LoadLine(line, chunk)), b, chunk, {'\0', '\r'}, '\n');
    assert {'\0'} + {'\r'} == {'\0', '\r'} && {'\0', '\r'} + {'\n'} == {'\0', '\r', '\n'};
  }

  lemma CutKeeps(line: buffer, c: char, i: nat)
    requires Ended(line) && i < BUFSIZ
    ensures Cut(line, c)[i] == line[i] || (line[i] == c && Cut(line, c)[i] == '\0')
  {
    ChopStops(line, '\0');
    ChopStops(CString(line), c);
  }

  /** Cuts are made inside the C string. */
  lemma CutInside(line: buffer, c: char, i: nat)
    requires Ended(line) && |CString(line)| <= i < BUFSIZ
    ensures Cut(line, c)[i] == line[i]
  {
    ChopStops(CString(line), c);
  }

  lemma CutInFront(line: buffer, chunk: string, i: nat)
    requires |chunk| < i < BUFSIZ
    ensures LoadLine(line, chunk)[i] == line[i]
  {
    var got := Receive(line, chunk);
    ReceivedText(line, chunk);
    TerminatedFront(chunk);
    CutText(got, '\r');
    CutInside(got, '\r', i);
    CutInside(Cut(got, '\r'), '\n', i);
  }

  /** Behind what was read and its terminator the buffer keeps its old content;
      in front, only line endings may have become terminators. */
  lemma RestIsKept(line: buffer, chunk: string, i: nat)
    requires |chunk| < BUFSIZ && i < BUFSIZ
    ensures var c := LoadLine(line, chunk)[i];
      var got := if i < |chunk| then chunk[i] else if i == |chunk| then '\0' else line[i];
      c == got || (c == '\0' && got in {'\r', '\n'})
    ensures i > |chunk| ==> LoadLine(line, chunk)[i] == line[i]
  {
    var got := Receive(line, chunk);
    ReceivedText(line, chunk);
    CutText(got, '\r');
    CutKeeps(got, '\r', i);
    CutKeeps(Cut(got, '\r'), '\n', i);
    assert got[i] == if i < |chunk| then chunk[i] else if i == |chunk| then '\0' else line[i];
    if i > |chunk| {
      CutInFront(line, chunk, i);
    }
  }

  // ----- good lines are read inside their C string -----

  /** Both buffers agree up to and including the terminator. */
  lemma SameChar(a: buffer, b: buffer, p: nat)
    requires SameText(a, b) && p <= |CString(a)|
    ensures a[p] == b[p] && (a[p] == '\0' <==> p == |CString(a)|)
  {
    ChopStops(a, '\0');
    ChopStops(b, '\0');
    if p < |CString(a)| {
      assert a[p] == CString(a)[p] == CString(b)[p] == b[p];
      assert a[p] in CString(a);
    }
  }

  lemma SameByte(a: buffer, b: buffer, p: nat)
    requires SameText(a, b) && p <= |CString(a)| && IsByteAt(a, p)
    ensures p + 2 <= |CString(a)| && IsByteAt(b, p) && ByteAt(a, p) == ByteAt(b, p)
  {
    SameChar(a, b, p);
    SameChar(a, b, p + 1);
  }

  lemma {:induction false} SameBytes(a: buffer, b: buffer, p: nat, adr: int, len: nat)
    requires SameText(a, b) && p <= |CString(a)| && GoodBytes(a, p, len)
    ensures GoodBytes(b, p, len) && ByteStores(a, p, adr, len) == ByteStores(b, p, adr, len)
    decreases len
  {
    if len > 0 {
      GoodBytesFirst(a, p, len);
      GoodBytesFirst(b, p, len);
      SameByte(a, b, p);
      SameBytes(a, b, p + 2, adr + 1, len - 1);
      ByteStoresFirst(a, p, adr, len);
      ByteStoresFirst(b, p, adr, len);
    }
  }

  lemma SameRecord(a: buffer, b: buffer, kind: char)
    requires SameText(a, b)
    ensures a[0] == b[0] && (IsRecord(a, kind) <==> IsRecord(b, kind))
    ensures NamesSegment(a) <==> NamesSegment(b)
  {
    SameChar(a, b, 0);
    if |CString(a)| >= 9 {
      SameChar(a, b, 7);
      SameChar(a, b, 8);
      ChopStops(a, '\0');
      ChopStops(b, '\0');
      assert a[..9] == CString(a)[..9] == CString(b)[..9] == b[..9];
    }
  }

  lemma SameData(a: buffer, b: buffer, m: Mode)
    requires SameText(a, b) && IsRecord(a, '0') && GoodData(a)
    ensures IsRecord(b, '0') && GoodData(b) && LineStores(m, a) == LineStores(m, b)
  {
    SameRecord(a, b, '0');
    SameByte(a, b, 1);
    SameByte(a, b, 3);
    SameByte(a, b, 5);
    SameByte(a, b, 7);
    SameBytes(a, b, 9, m.seg * 16 + WordAt(a, 3), ByteAt(a, 1));
  }

  lemma SameSegment(a: buffer, b: buffer, m: Mode)
    requires SameText(a, b) && IsRecord(a, '2') && (NamesSegment(a) ==> GoodSegment(a))
    ensures IsRecord(b, '2') && (NamesSegment(b) ==> GoodSegment(b)) && NextMode(m, a) == NextMode(m, b)
  {
    SameRecord(a, b, '2');
    if NamesSegment(a) {
      SameByte(a, b, 9);
      SameByte(a, b, 11);
    }
  }

  lemma SameLine(a: buffer, b: buffer, m: Mode)
    requires SameText(a, b) && Good(a)
    ensures Good(b) && LineStores(m, a) == LineStores(m, b) && NextMode(m, a) == NextMode(m, b)
  {
    SameRecord(a, b, '0');
    SameRecord(a, b, '1');
    SameRecord(a, b, '2');
    SameRecord(a, b, '3');
    if IsRecord(a, '0') {
      SameData(a, b, m);
    } else if IsRecord(a, '2') {
      SameSegment(a, b, m);
    }
  }

  // ----- whole texts -----

  predicate SameTexts(a: seq<buffer>, b: seq<buffer>) {
    |a| == |b| && forall i :: 0 <= i < |a| ==> SameText(a[i], b[i])
  }

  lemma {:induction false} SameLines(a: seq<buffer>, b: seq<buffer>, m: Mode)
    requires SameTexts(a, b)
    ensures AllGood(a) <==> AllGood(b)
    ensures AllGood(a) ==> TextStores(m, a) == TextStores(m, b)
    decreases |a|
  {
    if a != [] {
      AllGoodFirst(a);
      AllGoodFirst(b);
      if Good(a[0]) {
        SameLine(a[0], b[0], m);
      }
      if Good(b[0]) {
        SameLine(b[0], a[0], m);
      }
      SameLines(a[1..], b[1..], NextMode(m, a[0]));
    }
  }

  lemma {:induction false} BuffersSame(a: buffer, b: buffer, chunks: seq<string>)
    requires Fit(chunks)
    ensures SameTexts(Buffers(a, chunks), Buffers(b, chunks))
    decreases |chunks|
  {
    if chunks != [] {
      assert chunks[0] in chunks && forall c :: c in chunks[1..] ==> c in chunks;
      LoadsSame(a, b, chunks[0]);
      BuffersSame(LoadLine(a, chunks[0]), LoadLine(b, chunks[0]), chunks[1..]);
    }
  }

  /** Success, and on success the whole image, do not depend on what the line
      buffer held before, for any text and any image it is read into. */
  lemma StackIsIrrelevant(s: State, file: Option<string>, withSignature: bool, a: buffer, b: buffer)
    ensures var x, y := FromIntelHex(s, file, withSignature, a), FromIntelHex(s, file, withSignature, b);
      && x.ok == y.ok
      && (x.ok ==> x == y)
  {
    if file.Some? {
      ChunksFit(file.value);
      BuffersSame(a, b, Chunks(file.value));
      SameLines(BuffersOf(a, file.value), BuffersOf(b, file.value), START_MODE);
      ReadLinesMeaning(Reader(s, 0, false), BuffersOf(a, file.value));
      ReadLinesMeaning(Reader(s, 0, false), BuffersOf(b, file.value));
    }
  }

  /** A file that cannot be opened is no success, and leaves the rest alone. */
  lemma NoFile(s: State, withSignature: bool, stack: buffer)
    ensures FromIntelHex(s, None, withSignature, stack) == s.(ok := false)
  {
  }
}
