/** What a text of Intel HEX records means, without the reader: the stores its
    data records denote. Reading any text leaves exactly the overlay of these
    stores, with their hull as the window. */
module HexWindow {
  import opened Common
  import opened ImageState
  import opened ElfLoad
  import opened IntelHex
  import opened HexRoundTrip

  // ----- the meaning of a line -----

  /** The segment that data records refer to, and whether they describe RAM. */
  datatype Mode = Mode(seg: int, isRam: bool)

  const START_MODE: Mode := Mode(0, false)

  /** A record of the given type. */
  predicate IsRecord(line: buffer, kind: char) {
    line[0] == ':' && |CString(line)| >= 9 && line[7] == '0' && line[8] == kind
  }

  predicate NamesSegment(line: buffer) {
    IsRecord(line, '2') && line[..9] == SEGMENT_PREFIX
  }

  predicate InFlashRange(s: nat) {
    FLASH_START <= s <= FLASH_END
  }

  /** The mode for the lines behind this one. */
  function NextMode(m: Mode, line: buffer): Mode {
    if !IsRecord(line, '2') then m
    else
      var s := WordAt(line, 9);
      Mode(if NamesSegment(line) && s != 0x1000 && InFlashRange(s) then s - FLASH_START else m.seg,
           CString(line) == RAM_RECORD)
  }

  /** The stores a data record denotes: byte k goes to segment * 16 + offset + k. */
  function LineStores(m: Mode, line: buffer): seq<write> {
    if !IsRecord(line, '0') then [] else DataStores(m, line, 9, WordAt(line, 3), ByteAt(line, 1))
  }

  /** Data for RAM is not stored. */
  function DataStores(m: Mode, line: string, p: nat, adr: int, len: nat): seq<write> {
    if m.isRam then [] else ByteStores(line, p, m.seg * 16 + adr, len)
  }

  /** The bytes spelled from position p on go to consecutive addresses. */
  function ByteStores(line: string, p: nat, adr: int, len: nat): seq<write> {
    seq(len, k requires 0 <= k => (adr + k, ByteAt(line, p + 2 * k)))
  }

  predicate GoodBytes(line: string, p: nat, len: nat) {
    forall k: nat :: k < len ==> IsByteAt(line, p + 2 * k)
  }

  /** All digits of a data record are digits. */
  predicate GoodData(line: string) {
    GoodHead(line) && GoodBytes(line, 9, ByteAt(line, 1))
  }

  /** Its length, offset and type are. */
  predicate GoodHead(line: string) {
    IsByteAt(line, 1) && IsWordAt(line, 3) && IsByteAt(line, 7)
  }

  /** A segment record names a segment in flash, or the one for RAM. */
  predicate GoodSegment(line: string) {
    IsWordAt(line, 9) && (WordAt(line, 9) == 0x1000 || InFlashRange(WordAt(line, 9)))
  }

  /** A comment, or a well-formed record of a known type. */
  predicate Good(line: buffer) {
    line[0] == ':' ==>
      || IsRecord(line, '1') || IsRecord(line, '3')
      || (IsRecord(line, '0') && GoodData(line))
      || (IsRecord(line, '2') && (NamesSegment(line) ==> GoodSegment(line)))
  }

  // ----- the meaning of a text -----

  function TextStores(m: Mode, lines: seq<buffer>): seq<write>
    decreases |lines|
  {
    if lines == [] then [] else LineStores(m, lines[0]) + TextStores(NextMode(m, lines[0]), lines[1..])
  }

  predicate AllGood(lines: seq<buffer>) {
    forall i :: 0 <= i < |lines| ==> Good(lines[i])
  }

  // ----- reading yields that meaning -----

  function ModeOf(r: Reader): Mode {
    Mode(r.seg, r.isRam)
  }

  /** A failed check stays, and changes nothing else. */
  lemma {:induction false} StoreAllChecked(s: State, good: bool, ws: seq<write>)
    ensures var t := StoreAll(s, ws);
      StoreAll(s.(ok := s.ok && good), ws) == t.(ok := t.ok && good)
    decreases |ws|
  {
    if ws != [] {
      StoreAllChecked(s, good, ws[..|ws| - 1]);
    }
  }

  lemma ByteStoresFirst(line: string, p: nat, adr: int, len: nat)
    requires len > 0
    ensures ByteStores(line, p, adr, len) == [(adr, ByteAt(line, p))] + ByteStores(line, p + 2, adr + 1, len - 1)
  {
    forall k: nat | k < len - 1 ensures p + 2 + 2 * k == p + 2 * (k + 1) {
    }
  }

  lemma GoodBytesFirst(line: string, p: nat, len: nat)
    requires len > 0
    ensures GoodBytes(line, p, len) <==> IsByteAt(line, p) && GoodBytes(line, p + 2, len - 1)
  {
    if IsByteAt(line, p) && GoodBytes(line, p + 2, len - 1) {
      forall k: nat | k < len ensures IsByteAt(line, p + 2 * k) {
        if k > 0 {
          assert IsByteAt(line, p + 2 + 2 * (k - 1));
          assert p + 2 + 2 * (k - 1) == p + 2 * k;
        }
      }
    }
    if GoodBytes(line, p, len) {
      assert IsByteAt(line, p + 2 * 0);
      forall k: nat | k < len - 1 ensures IsByteAt(line, p + 2 + 2 * k) {
        assert IsByteAt(line, p + 2 * (k + 1));
        assert p + 2 * (k + 1) == p + 2 + 2 * k;
      }
    }
  }

  /** An image that took the stores and kept its flag only if `good`. */
  function Took(s: State, ws: seq<write>, good: bool): State {
    var t := StoreAll(s, ws);
    t.(ok := t.ok && good)
  }

  lemma TookBoth(s: State, a: seq<write>, b: seq<write>, first: bool, good: bool)
    ensures Took(Took(s, a, first), b, good) == Took(s, a + b, first && good)
  {
    StoreAllConcat(s, a, b);
    StoreAllChecked(StoreAll(s, a), first, b);
  }

  lemma OneByte(line: string, p: nat, adr: int)
    ensures ByteStores(line, p, adr, 1) == [(adr, ByteAt(line, p))]
  {
  }

  lemma ReadByteMeaning(r: Reader, line: string, p: nat, adr: int)
    ensures ReadByte(r, line, p, adr)
         == r.(img := Took(r.img, DataStores(ModeOf(r), line, p, adr, 1), IsByteAt(line, p)))
  {
    OneByte(line, p, r.seg * 16 + adr);
    TookOne(r.img, (r.seg * 16 + adr, ByteAt(line, p)), IsByteAt(line, p));
  }

  lemma DataStoresFirst(m: Mode, line: string, p: nat, adr: int, len: nat)
    requires len > 0
    ensures DataStores(m, line, p, adr, len)
         == DataStores(m, line, p, adr, 1) + DataStores(m, line, p + 2, adr + 1, len - 1)
  {
    OneByte(line, p, m.seg * 16 + adr);
    ByteStoresFirst(line, p, m.seg * 16 + adr, len);
    assert m.seg * 16 + adr + 1 == m.seg * 16 + (adr + 1);
  }

  lemma TookOne(s: State, w: write, good: bool)
    ensures Took(s, [w], good) == ImageState.Store(s.(ok := s.ok && good), w.0, w.1)
  {
    assert [w][..0] == [];
    assert StoreAll(s, [w]) == ImageState.Store(s, w.0, w.1);
  }

  lemma {:induction false} ReadBytesMeaning(r: Reader, line: string, p: nat, adr: int, len: nat)
    ensures ReadBytes(r, line, p, adr, len)
         == r.(img := Took(r.img, DataStores(ModeOf(r), line, p, adr, len), GoodBytes(line, p, len)))
    decreases len
  {
    if len == 0 {
      TookNothing(r, true);
    } else {
      var m, r1 := ModeOf(r), ReadByte(r, line, p, adr);
      ReadsFirst(r, line, p, adr, len);
      ReadByteMeaning(r, line, p, adr);
      ReadBytesMeaning(r1, line, p + 2, adr + 1, len - 1);
      DataStoresFirst(m, line, p, adr, len);
      GoodBytesFirst(line, p, len);
      TookBoth(r.img, DataStores(m, line, p, adr, 1), DataStores(m, line, p + 2, adr + 1, len - 1),
               IsByteAt(line, p), GoodBytes(line, p + 2, len - 1));
    }
  }

  lemma CheckedBytes(r: Reader, line: string, head: bool, p: nat, adr: int, len: nat)
    ensures ReadBytes(r.Check(head), line, p, adr, len)
         == r.(img := Took(r.img, DataStores(ModeOf(r), line, p, adr, len), head && GoodBytes(line, p, len)))
  {
    var ws := DataStores(ModeOf(r), line, p, adr, len);
    TookNothing(r, head);
    ReadBytesMeaning(r.Check(head), line, p, adr, len);
    TookBoth(r.img, [], ws, head, GoodBytes(line, p, len));
    assert [] + ws == ws;
  }

  lemma ReadsBytes(r: Reader, line: buffer)
    ensures ReadData(r, line) == ReadBytes(r.Check(GoodHead(line)), line, 9, WordAt(line, 3), ByteAt(line, 1))
  {
  }

  lemma StoresBytes(r: Reader, line: buffer)
    requires IsRecord(line, '0')
    ensures LineStores(ModeOf(r), line) == DataStores(ModeOf(r), line, 9, WordAt(line, 3), ByteAt(line, 1))
  {
  }

  lemma ReadDataMeaning(r: Reader, line: buffer)
    requires IsRecord(line, '0')
    ensures ReadData(r, line) == r.(img := Took(r.img, LineStores(ModeOf(r), line), GoodData(line)))
  {
    ReadsBytes(r, line);
    StoresBytes(r, line);
    CheckedBytes(r, line, GoodHead(line), 9, WordAt(line, 3), ByteAt(line, 1));
  }

  lemma TookNothing(r: Reader, good: bool)
    ensures r.Check(good) == r.(img := Took(r.img, [], good))
  {
  }

  lemma ReadSegmentMeaning(r: Reader, line: buffer)
    requires IsRecord(line, '2')
    ensures var m := NextMode(ModeOf(r), line);
      ReadSegment(r, line) == Reader(Took(r.img, [], NamesSegment(line) ==> GoodSegment(line)), m.seg, m.isRam)
  {
  }

  lemma ReadLineMeaning(r: Reader, line: buffer)
    ensures var m := ModeOf(r);
      var m' := NextMode(m, line);
      ReadLine(r, line) == Reader(Took(r.img, LineStores(m, line), Good(line)), m'.seg, m'.isRam)
  {
    if IsRecord(line, '0') {
      ReadDataMeaning(r, line);
    } else if IsRecord(line, '2') {
      ReadSegmentMeaning(r, line);
    }
  }

  /** Reading any lines into any image: exactly the stores they denote. */
  lemma {:induction false} ReadLinesMeaning(r: Reader, lines: seq<buffer>)
    ensures ReadLines(r, lines).img == Took(r.img, TextStores(ModeOf(r), lines), AllGood(lines))
    decreases |lines|
  {
    if lines != [] {
      var m := ModeOf(r);
      ReadLineMeaning(r, lines[0]);
      ReadLinesMeaning(ReadLine(r, lines[0]), lines[1..]);
      AllGoodFirst(lines);
      TookBoth(r.img, LineStores(m, lines[0]), TextStores(NextMode(m, lines[0]), lines[1..]),
               Good(lines[0]), AllGood(lines[1..]));
    }
  }

  lemma AllGoodFirst(lines: seq<buffer>)
    requires lines != []
    ensures AllGood(lines) <==> Good(lines[0]) && AllGood(lines[1..])
  {
    if Good(lines[0]) && AllGood(lines[1..]) {
      forall i | 0 <= i < |lines| ensures Good(lines[i]) {
        if i > 0 {
          assert lines[i] == lines[1..][i - 1];
        }
      }
    }
    if AllGood(lines) {
      forall i | 0 <= i < |lines[1..]| ensures Good(lines[1..][i]) {
        assert lines[1..][i] == lines[i + 1];
      }
    }
  }

  // ----- the image a text gives -----

  /** The stores of a whole text; `stack` is what the line buffer holds before. */
  function Denotes(text: string, stack: buffer): seq<write> {
    TextStores(START_MODE, BuffersOf(stack, text))
  }

  ghost predicate LastStoreAt(ws: seq<write>, k: nat, adr: int) {
    k < |ws| && ws[k].0 == adr && forall j :: k < j < |ws| ==> ws[j].0 != adr
  }

  /** `v` is the byte of the last store to the address, or `under` without one. */
  ghost predicate LastStored(v: byte, under: byte, ws: seq<write>, adr: int) {
    || (v == under && forall j :: 0 <= j < |ws| ==> ws[j].0 != adr)
    || exists k: nat :: LastStoreAt(ws, k, adr) && v == ws[k].1
  }

  lemma {:induction false} StoresOverlay(s: State, ws: seq<write>, adr: int)
    requires InRange(adr)
    ensures LastStored(StoreAll(s, ws).mem[adr], s.mem[adr], ws, adr)
    decreases |ws|
  {
    if ws != [] {
      var init, n := ws[..|ws| - 1], |ws| - 1;
      StoresOverlay(s, init, adr);
      if ws[n].0 == adr {
        assert LastStoreAt(ws, n, adr);
      } else if k: nat :| LastStoreAt(init, k, adr) && StoreAll(s, init).mem[adr] == init[k].1 {
        assert LastStoreAt(ws, k, adr);
      }
    }
  }

  /** The window and bounds of an image that took the stores: the least address
      gives the base and the greatest rounds up to the end; without any store the
      window is inverted. */
  ghost predicate HasWindow(s: State, ws: seq<write>, withSignature: bool) {
    var low := if withSignature then s.base else s.base + HEADER_SIZE;
    && (if Hits(ws) == {} then low == MEM_SIZE && s.high == 0
        else IsLeast(low, Hits(ws)) && exists top :: IsGreatest(top, Hits(ws)) && s.high == RoundUp(top))
    && s.roBase == s.rxBase == FLASH_BASE + s.base && s.roMax == s.rxMax == FLASH_BASE + s.high
  }

  /** Reading any text into a fresh image: the memory is the overlay of the
      stores the text denotes, the reader is content exactly when every line is
      good and every store in range, and then the window is that of the stores. */
  lemma TextGivesImage(text: string, withSignature: bool, stack: buffer)
    ensures var s := FromIntelHex(Fresh(), Some(text), withSignature, stack);
      var ws := Denotes(text, stack);
      && (forall adr :: InRange(adr) ==> LastStored(s.mem[adr], 0xff, ws, adr))
      && (s.ok <==> AllGood(BuffersOf(stack, text)) && forall w :: w in ws ==> InRange(w.0))
      && (s.ok ==> HasWindow(s, ws, withSignature))
  {
    var ws := Denotes(text, stack);
    ReadLinesMeaning(Reader(Fresh(), 0, false), BuffersOf(stack, text));
    WindowIsHull(ws);
    FinishedWindow(Took(Fresh(), ws, AllGood(BuffersOf(stack, text))), ws, withSignature);
    forall adr | InRange(adr)
      ensures LastStored(FromIntelHex(Fresh(), Some(text), withSignature, stack).mem[adr], 0xff, ws, adr)
    {
      StoresOverlay(Fresh(), ws, adr);
    }
  }

  lemma FinishedWindow(s: State, ws: seq<write>, withSignature: bool)
    requires HasHull(s, ws)
    ensures s.ok ==> HasWindow(Finish(s, withSignature), ws, withSignature)
  {
    if Hits(ws) != {} {
      assert IsGreatest(s.high, Hits(ws));
    }
  }

  // ----- what was on the stack -----

}
