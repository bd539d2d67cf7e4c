/** Compiling the manifest: named fuse and info values become two fixed arrays
    and two bitmaps. The manifest maps are walked in some order of their
    entries; every order is covered. */
module Manifest {
  import opened Bitmap
  import opened FuseBits
  import opened FuseScan
  import opened FuseTable
  import opened Common

  const INFO_IGNORE: bv32 := 0xaa3c55c3
  const PINNED_FUSE: string := "FW_DEFINED_DATA_EXTRA_BLK6"
  const PINNED_ID: nat := 125
  const PINNED_WIDTH: word := 5

  type values = v: seq<bv32> | |v| == ARRAY_MAX witness seq(ARRAY_MAX, _ => 0)

  type entry = (string, bv32)

  /** The entries of a map: every name occurs once. */
  predicate DistinctNames(es: seq<entry>) {
    forall i, j :: 0 <= i < j < |es| ==> es[i].0 != es[j].0
  }

  // ----- the table of fuses -----

  datatype Table = Table(ids: map<string, nat>, bits: map<string, word>)

  function Lookup<V>(m: map<string, V>, name: string, default: V): V {
    if name in m then m[name] else default
  }

  /** The asserts of main on what was read from the document, and the hardcoded
      fuse; None when an assert fails. */
  function FuseTableOf(read: Table): Option<Table> {
    if |read.ids| >= ARRAY_MAX then None
    else if read.ids != map[] && (Lookup(read.ids, PINNED_FUSE, 0) != PINNED_ID
                                  || Lookup(read.bits, PINNED_FUSE, 0) != PINNED_WIDTH)
    then None
    else Some(Table(read.ids[PINNED_FUSE := PINNED_ID], read.bits[PINNED_FUSE := PINNED_WIDTH]))
  }

  /** Hardcoding the one fuse never collides with an id that was read. */
  lemma TableStaysInjective(read: Table)
    requires Injective(read.ids) && FuseTableOf(read).Some?
    ensures var t := FuseTableOf(read).value;
      && Injective(t.ids)
      && t.ids.Keys == read.ids.Keys + {PINNED_FUSE}
      && t.ids[PINNED_FUSE] == PINNED_ID && t.bits[PINNED_FUSE] == PINNED_WIDTH
      && forall name :: name in read.ids ==> t.ids[name] == read.ids[name]
  {
    if read.ids != map[] {
      PinningIsNeutral(read.ids);
    }
  }

  lemma PinningIsNeutral(ids: map<string, nat>)
    requires Lookup(ids, PINNED_FUSE, 0) == PINNED_ID
    ensures PINNED_FUSE in ids && ids[PINNED_FUSE := PINNED_ID] == ids
  {
  }

  // ----- one fuse -----

  datatype Verdict = Accepted | Unknown | BadIndex | UndefinedShift | TooLarge

  /** The width of a fuse as a shift amount; all widths from 64 on are alike. */
  function Width(t: Table, name: string): bv32 {
    var width := Lookup(t.bits, name, 0);
    if width < 64 then width as bv32 else 64
  }

  function Judge(t: Table, e: entry): Verdict {
    if e.0 !in t.ids then Unknown
    else if t.ids[e.0] >= ARRAY_MAX then BadIndex
    else if Width(t, e.0) >= 64 then UndefinedShift
    else if !Fits(Mask(Width(t, e.0)), e.1) then TooLarge
    else Accepted
  }

  lemma SmallIsShift(w: word)
    requires w < 64
    ensures (w as bv32) < 64
  {
  }

  lemma WidthIsNumber(t: Table, name: string)
    ensures var width := Lookup(t.bits, name, 0);
      && (Width(t, name) < 64 <==> width < 64)
      && (width < 64 ==> Width(t, name) == width as bv32)
  {
    var width := Lookup(t.bits, name, 0);
    if width < 64 {
      SmallIsShift(width);
    }
  }

  lemma AcceptedByShift(t: Table, e: entry)
    ensures Judge(t, e).Accepted? <==>
      e.0 in t.ids && t.ids[e.0] < ARRAY_MAX && Width(t, e.0) < 64 && BelowPower(e.1, Width(t, e.0))
  {
    if Width(t, e.0) < 64 {
      FitsIffBelow(Width(t, e.0), e.1);
    }
  }

  /** main accepts an entry exactly when its fuse is known, has an index in the
      array and a width a shift can take, and the value is below 2^width. */
  lemma AcceptedIff(t: Table, e: entry)
    ensures var width := Lookup(t.bits, e.0, 0);
      Judge(t, e).Accepted? <==>
        e.0 in t.ids && t.ids[e.0] < ARRAY_MAX && width < 64 && BelowPower(e.1, width as bv32)
  {
    AcceptedByShift(t, e);
    WidthIsNumber(t, e.0);
  }

  // ----- all fuses -----

  predicate AllAccepted(t: Table, es: seq<entry>) {
    forall e :: e in es ==> Judge(t, e).Accepted?
  }

  /** The first complaint, in the order of the walk. */
  function FirstVerdict(t: Table, es: seq<entry>): Verdict {
    if es == [] then Accepted
    else if !Judge(t, es[0]).Accepted? then Judge(t, es[0])
    else FirstVerdict(t, es[1..])
  }

  lemma {:induction false} FirstVerdictAccepts(t: Table, es: seq<entry>)
    ensures FirstVerdict(t, es).Accepted? <==> AllAccepted(t, es)
  {
    if es != [] {
      FirstVerdictAccepts(t, es[1..]);
      assert es == [es[0]] + es[1..];
    }
  }

  function Ignored(pattern: bv32): values {
    seq(ARRAY_MAX, _ => pattern)
  }

  function FuseValues(t: Table, es: seq<entry>): values
    requires AllAccepted(t, es)
    decreases |es|
  {
    if es == [] then Ignored(FUSE_IGNORE)
    else
      var e, init := es[|es| - 1], es[..|es| - 1];
      assert e in es && forall d :: d in init ==> d in es;
      FuseValues(t, init)[t.ids[e.0] := Compiled(Width(t, e.0), e.1)]
  }

  function IdOf(t: Table, e: entry): index
    requires Judge(t, e).Accepted?
  {
    t.ids[e.0]
  }

  function FuseIndices(t: Table, es: seq<entry>): seq<index>
    requires AllAccepted(t, es)
  {
    seq(|es|, k requires 0 <= k < |es| => assert es[k] in es; IdOf(t, es[k]))
  }

  lemma CompileStep(t: Table, init: seq<entry>, e: entry, m: bitmap)
    requires AllAccepted(t, init) && Judge(t, e).Accepted?
    ensures AllAccepted(t, init + [e])
    ensures FuseValues(t, init + [e]) == FuseValues(t, init)[IdOf(t, e) := Compiled(Width(t, e.0), e.1)]
    ensures MarkAll(m, FuseIndices(t, init + [e])) == Mark(MarkAll(m, FuseIndices(t, init)), IdOf(t, e))
  {
    assert (init + [e])[..|init|] == init;
    assert FuseIndices(t, init + [e])[..|init|] == FuseIndices(t, init);
  }

  /** The fuse loop of main. A complaint aborts the program. */
  method CompileFuses(t: Table, es: seq<entry>, fuseValues: array<bv32>, fusemap: array<bv32>) returns (v: Verdict)
    requires fuseValues.Length == ARRAY_MAX && fusemap.Length == 4 && fuseValues != fusemap
    modifies fuseValues, fusemap
    ensures v == FirstVerdict(t, es)
    ensures v.Accepted? ==>
      && AllAccepted(t, es)
      && fuseValues[..] == FuseValues(t, es)
      && fusemap[..] == MarkAll(old(fusemap[..]), FuseIndices(t, es))
  {
    for i := 0 to ARRAY_MAX
      invariant forall k :: 0 <= k < i ==> fuseValues[k] == FUSE_IGNORE
      invariant fusemap[..] == old(fusemap[..])
    {
      fuseValues[i] := FUSE_IGNORE;
    }
    assert fuseValues[..] == Ignored(FUSE_IGNORE);
    for n := 0 to |es|
      invariant AllAccepted(t, es[..n])
      invariant FirstVerdict(t, es) == FirstVerdict(t, es[n..])
      invariant fuseValues[..] == FuseValues(t, es[..n])
      invariant fusemap[..] == MarkAll(old(fusemap[..]), FuseIndices(t, es[..n]))
    {
      assert es[n..][0] == es[n] && es[n..][1..] == es[n + 1..];
      var verdict := CompileFuse(t, es[n], fuseValues, fusemap);
      if !verdict.Accepted? {
        return verdict;
      }
      TakeNext(es, n);
      CompileStep(t, es[..n], es[n], old(fusemap[..]));
    }
    assert es[..|es|] == es;
    v := Accepted;
  }

  /** One round of the loop. */
  method CompileFuse(t: Table, e: entry, fuseValues: array<bv32>, fusemap: array<bv32>) returns (v: Verdict)
    requires fuseValues.Length == ARRAY_MAX && fusemap.Length == 4 && fuseValues != fusemap
    modifies fuseValues, fusemap
    ensures v == Judge(t, e)
    ensures v.Accepted? ==>
      && fuseValues[..] == old(fuseValues[..])[IdOf(t, e) := Compiled(Width(t, e.0), e.1)]
      && fusemap[..] == Mark(old(fusemap[..]), IdOf(t, e))
  {
    if e.0 !in t.ids {
      return Unknown;
    }
    var idx := t.ids[e.0];
    if idx >= ARRAY_MAX {
      return BadIndex;
    }
    var width := Width(t, e.0);
    if width >= 64 {
      return UndefinedShift;
    }
    var mask := ShiftedMask(width);
    ShiftGivesMask(width);
    if !Fits(mask, e.1) {
      return TooLarge;
    }
    fuseValues[idx] := Padded(mask, e.1);
    MarkInPlace(fusemap, idx);
    v := Accepted;
  }

  method MarkInPlace(bits: array<bv32>, n: index)
    requires bits.Length == 4
    modifies bits
    ensures bits[..] == Mark(old(bits[..]), n)
  {
    bits[n / 32] := SetBit(bits[n / 32], n % 32);
  }

  lemma LastIsNew(t: Table, before: seq<entry>, e: entry)
    requires AllAccepted(t, before + [e]) && Injective(t.ids) && DistinctNames(before + [e])
    ensures DistinctNames(before) && AllAccepted(t, before) && Judge(t, e).Accepted?
    ensures forall d :: d in before ==> t.ids[d.0] != t.ids[e.0]
  {
    var es := before + [e];
    assert e in es && forall d :: d in before ==> d in es;
    assert forall k :: 0 <= k < |before| ==> es[k] == before[k];
    forall d | d in before ensures Judge(t, d).Accepted? && t.ids[d.0] != t.ids[e.0] {
      assert Judge(t, d).Accepted? && Judge(t, e).Accepted?;
      var k :| 0 <= k < |before| && before[k] == d;
      assert es[k].0 != es[|before|].0;
    }
  }

  /** A new entry sets the word at its own index ... */
  lemma LastValue(t: Table, before: seq<entry>, last: entry)
    requires AllAccepted(t, before) && Judge(t, last).Accepted?
    ensures AllAccepted(t, before + [last])
    ensures FuseValues(t, before + [last])[IdOf(t, last)] == Compiled(Width(t, last.0), last.1)
  {
    CompileStep(t, before, last, EMPTY);
  }

  /** ... and at no other. */
  lemma EarlierValue(t: Table, before: seq<entry>, last: entry, i: index)
    requires AllAccepted(t, before) && Judge(t, last).Accepted? && i != IdOf(t, last)
    ensures AllAccepted(t, before + [last])
    ensures FuseValues(t, before + [last])[i] == FuseValues(t, before)[i]
  {
    CompileStep(t, before, last, EMPTY);
  }

  /** A named fuse's word is at its own index ... */
  lemma {:induction false} NamedValue(t: Table, es: seq<entry>, e: entry)
    requires AllAccepted(t, es) && Injective(t.ids) && DistinctNames(es) && e in es
    ensures Judge(t, e).Accepted? && FuseValues(t, es)[IdOf(t, e)] == Compiled(Width(t, e.0), e.1)
    decreases |es|
  {
    var last, before := es[|es| - 1], es[..|es| - 1];
    assert es == before + [last];
    assert Judge(t, e).Accepted?;
    LastIsNew(t, before, last);
    if e == last {
      LastValue(t, before, last);
    } else {
      assert e in before;
      NamedValue(t, before, e);
      EarlierValue(t, before, last, IdOf(t, e));
    }
  }

  /** ... and the ignore word wherever no named fuse is. */
  lemma {:induction false} UnnamedValue(t: Table, es: seq<entry>, i: index)
    requires AllAccepted(t, es) && forall e :: e in es ==> t.ids[e.0] != i
    ensures FuseValues(t, es)[i] == FUSE_IGNORE
    decreases |es|
  {
    if es != [] {
      var last, before := es[|es| - 1], es[..|es| - 1];
      assert es == before + [last];
      assert last in es && forall d :: d in before ==> d in es;
      assert Judge(t, last).Accepted?;
      EarlierValue(t, before, last, i);
      UnnamedValue(t, before, i);
    }
  }

  /** With distinct ids the compiled array holds each named fuse's word at its
      own index and the ignore word everywhere else. */
  lemma FuseValuesExact(t: Table, es: seq<entry>)
    requires AllAccepted(t, es) && Injective(t.ids) && DistinctNames(es)
    ensures forall e :: e in es ==> FuseValues(t, es)[t.ids[e.0]] == Compiled(Width(t, e.0), e.1)
    ensures forall i: index :: (forall e :: e in es ==> t.ids[e.0] != i) ==> FuseValues(t, es)[i] == FUSE_IGNORE
  {
    forall e | e in es ensures FuseValues(t, es)[t.ids[e.0]] == Compiled(Width(t, e.0), e.1) {
      NamedValue(t, es, e);
    }
    forall i: index | forall e :: e in es ==> t.ids[e.0] != i ensures FuseValues(t, es)[i] == FUSE_IGNORE {
      UnnamedValue(t, es, i);
    }
  }

  lemma FuseIndicesExact(t: Table, es: seq<entry>, i: index)
    requires AllAccepted(t, es)
    ensures i in FuseIndices(t, es) <==> exists e :: e in es && t.ids[e.0] == i
  {
    if e :| e in es && t.ids[e.0] == i {
      var k :| 0 <= k < |es| && es[k] == e;
      assert FuseIndices(t, es)[k] == i;
    }
  }

  lemma FusemapExact(t: Table, es: seq<entry>, m: bitmap, i: index)
    requires AllAccepted(t, es)
    ensures IsMarked(MarkAll(m, FuseIndices(t, es)), i) <==> IsMarked(m, i) || exists e :: e in es && t.ids[e.0] == i
  {
    MarkAllSets(m, FuseIndices(t, es), i);
    FuseIndicesExact(t, es, i);
  }
}
