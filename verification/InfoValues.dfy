/** Compiling the info section of the manifest: values are combined by
    exclusive or at the index their name spells. */
module InfoValues {
  import opened Bitmap
  import opened FuseScan
  import opened Manifest
  import opened Common

  /** The index a name spells, as a 32-bit unsigned number. */
  function IndexOf(name: string): word {
    Atoi(name) % WORD
  }

  predicate AllIndexed(es: seq<entry>) {
    forall e :: e in es ==> IndexOf(e.0) < ARRAY_MAX
  }

  function InfoArray(es: seq<entry>): values
    requires AllIndexed(es)
    decreases |es|
  {
    if es == [] then Ignored(INFO_IGNORE)
    else
      var e, before := es[|es| - 1], es[..|es| - 1];
      assert e in es && forall d :: d in before ==> d in es;
      var i := IndexOf(e.0);
      InfoArray(before)[i := InfoArray(before)[i] ^ e.1]
  }

  function InfoIndices(es: seq<entry>): seq<index>
    requires AllIndexed(es)
  {
    seq(|es|, k requires 0 <= k < |es| => assert es[k] in es; IndexAt(es[k]))
  }

  function IndexAt(e: entry): index
    requires IndexOf(e.0) < ARRAY_MAX
  {
    IndexOf(e.0)
  }

  lemma InfoStep(before: seq<entry>, e: entry, m: bitmap)
    requires AllIndexed(before) && IndexOf(e.0) < ARRAY_MAX
    ensures AllIndexed(before + [e])
    ensures var i := IndexAt(e);
      InfoArray(before + [e]) == InfoArray(before)[i := InfoArray(before)[i] ^ e.1]
    ensures MarkAll(m, InfoIndices(before + [e])) == Mark(MarkAll(m, InfoIndices(before)), IndexAt(e))
  {
    assert (before + [e])[..|before|] == before;
    assert InfoIndices(before + [e])[..|before|] == InfoIndices(before);
  }

  /** The info loop of main; false when its assert aborts the program. */
  method CompileInfos(es: seq<entry>, infoValues: array<bv32>, infomap: array<bv32>) returns (ok: bool)
    requires infoValues.Length == ARRAY_MAX && infomap.Length == 4 && infoValues != infomap
    modifies infoValues, infomap
    ensures ok <==> AllIndexed(es)
    ensures ok ==>
      && infoValues[..] == InfoArray(es)
      && infomap[..] == MarkAll(old(infomap[..]), InfoIndices(es))
  {
    for i := 0 to ARRAY_MAX
      invariant forall k :: 0 <= k < i ==> infoValues[k] == INFO_IGNORE
      invariant infomap[..] == old(infomap[..])
    {
      infoValues[i] := INFO_IGNORE;
    }
    assert infoValues[..] == Ignored(INFO_IGNORE);
    for n := 0 to |es|
      invariant AllIndexed(es[..n])
      invariant infoValues[..] == InfoArray(es[..n])
      invariant infomap[..] == MarkAll(old(infomap[..]), InfoIndices(es[..n]))
    {
      var idx := IndexOf(es[n].0);
      if idx >= ARRAY_MAX {
        assert es[n] in es;
        return false;
      }
      TakeNext(es, n);
      InfoStep(es[..n], es[n], old(infomap[..]));
      infoValues[idx] := infoValues[idx] ^ es[n].1;
      MarkInPlace(infomap, idx);
    }
    assert es[..|es|] == es;
    ok := true;
  }

  // ----- what it computes -----

  function Part(e: entry, i: index): bv32 {
    if IndexOf(e.0) == i then e.1 else 0
  }

  /** The exclusive or of all values whose name spells i. */
  function XorAt(es: seq<entry>, i: index): bv32
    decreases |es|
  {
    if es == [] then 0 else XorAt(es[..|es| - 1], i) ^ Part(es[|es| - 1], i)
  }

  lemma XorSwaps(a: bv32, b: bv32, c: bv32)
    ensures (a ^ b) ^ c == (a ^ c) ^ b
  {
  }

  lemma XorAssociates(a: bv32, b: bv32, c: bv32)
    ensures (a ^ b) ^ c == a ^ (b ^ c)
  {
  }

  lemma XorZero(a: bv32)
    ensures a ^ 0 == a
  {
  }

  /** The loop starts from the ignore word at every index. */
  lemma {:induction false} InfoArrayIsXor(es: seq<entry>, i: index)
    requires AllIndexed(es)
    ensures InfoArray(es)[i] == INFO_IGNORE ^ XorAt(es, i)
    decreases |es|
  {
    if es == [] {
      XorZero(INFO_IGNORE);
    } else {
      var e, before := es[|es| - 1], es[..|es| - 1];
      assert e in es && forall d :: d in before ==> d in es;
      InfoArrayIsXor(before, i);
      if IndexOf(e.0) == i {
        XorAssociates(INFO_IGNORE, XorAt(before, i), e.1);
      } else {
        XorZero(XorAt(before, i));
      }
    }
  }

  /** One entry may be taken out of the middle and put at the end. */
  lemma {:induction false} XorMovesLast(a: seq<entry>, e: entry, b: seq<entry>, i: index)
    ensures XorAt(a + [e] + b, i) == XorAt(a + b, i) ^ Part(e, i)
    decreases |b|
  {
    if b == [] {
      assert a + [e] + b == a + [e] && a + b == a;
      assert (a + [e])[..|a|] == a;
    } else {
      var d, c := b[|b| - 1], b[..|b| - 1];
      assert (a + [e] + b)[..|a + [e] + b| - 1] == a + [e] + c;
      assert (a + b)[..|a + b| - 1] == a + c;
      XorMovesLast(a, e, c, i);
      XorSwaps(XorAt(a + c, i), Part(e, i), Part(d, i));
    }
  }

  lemma TakeOut(fs: seq<entry>, k: nat)
    requires k < |fs|
    ensures fs == fs[..k] + [fs[k]] + fs[k + 1..]
    ensures multiset(fs[..k] + fs[k + 1..]) == multiset(fs) - multiset{fs[k]}
  {
    assert fs == fs[..k] + [fs[k]] + fs[k + 1..];
  }

  lemma FindEqual(es: seq<entry>, fs: seq<entry>, e: entry) returns (k: nat)
    requires multiset(es) == multiset(fs) && e in es
    ensures k < |fs| && fs[k] == e
  {
    assert e in multiset(es);
    assert e in multiset(fs);
    k :| 0 <= k < |fs| && fs[k] == e;
  }

  /** The exclusive or does not depend on the order of the walk. */
  lemma {:induction false} XorInAnyOrder(es: seq<entry>, fs: seq<entry>, i: index)
    requires multiset(es) == multiset(fs)
    ensures XorAt(es, i) == XorAt(fs, i)
    decreases |es|
  {
    if es == [] {
      assert |multiset(fs)| == 0;
    } else {
      var last := |es| - 1;
      var k := FindEqual(es, fs, es[last]);
      TakeOut(es, last);
      TakeOut(fs, k);
      assert es[..last] + es[last + 1..] == es[..last];
      XorMovesLast(fs[..k], es[last], fs[k + 1..], i);
      XorInAnyOrder(es[..last], fs[..k] + fs[k + 1..], i);
    }
  }

  /** In every order, entry i holds the ignore word xor all values whose name
      spells i, and bit i of the bitmap is newly set exactly when a name does. */
  lemma InfosInAnyOrder(es: seq<entry>, fs: seq<entry>, m: bitmap, i: index)
    requires AllIndexed(es) && multiset(es) == multiset(fs)
    ensures AllIndexed(fs) && InfoArray(fs)[i] == INFO_IGNORE ^ XorAt(es, i)
    ensures IsMarked(MarkAll(m, InfoIndices(fs)), i) <==> IsMarked(m, i) || exists e :: e in es && IndexOf(e.0) == i
  {
    forall e | e in fs ensures e in es {
      assert e in multiset(fs);
    }
    forall e | e in es ensures e in fs {
      assert e in multiset(es);
    }
    InfoArrayIsXor(fs, i);
    XorInAnyOrder(es, fs, i);
    MarkAllSets(m, InfoIndices(fs), i);
    if e :| e in es && IndexOf(e.0) == i {
      var k :| 0 <= k < |fs| && fs[k] == e;
      assert InfoIndices(fs)[k] == i;
    }
  }

  /** A value can be read back when no other name spells its index ... */
  lemma InfoDecodes(es: seq<entry>, k: nat)
    requires AllIndexed(es) && k < |es|
    requires forall j :: 0 <= j < |es| && j != k ==> IndexOf(es[j].0) != IndexOf(es[k].0)
    ensures es[k] in es && InfoArray(es)[IndexAt(es[k])] ^ INFO_IGNORE == es[k].1
  {
    var e := es[k];
    assert e in es;
    var i := IndexAt(e);
    TakeOut(es, k);
    XorMovesLast(es[..k], e, es[k + 1..], i);
    NoPart(es[..k] + es[k + 1..], i);
    InfoArrayIsXor(es, i);
    XorCancels(INFO_IGNORE, e.1);
  }

  lemma XorCancels(a: bv32, b: bv32)
    ensures (a ^ (0 ^ b)) ^ a == b
  {
  }

  lemma {:induction false} NoPart(es: seq<entry>, i: index)
    requires forall e :: e in es ==> IndexOf(e.0) != i
    ensures XorAt(es, i) == 0
    decreases |es|
  {
    if es != [] {
      var e, before := es[|es| - 1], es[..|es| - 1];
      assert e in es && forall d :: d in before ==> d in es;
      NoPart(before, i);
      XorZero(0);
    }
  }

  lemma XorIsZeroIff(a: bv32, b: bv32)
    ensures a ^ b == a <==> b == 0
  {
  }

  /** An entry looks ignored exactly when the values its names give cancel,
      whether or not it is marked ... */
  lemma InfoIgnoredIff(es: seq<entry>, i: index)
    requires AllIndexed(es)
    ensures InfoArray(es)[i] == INFO_IGNORE <==> XorAt(es, i) == 0
  {
    InfoArrayIsXor(es, i);
    XorIsZeroIff(INFO_IGNORE, XorAt(es, i));
  }

  function Marks(es: seq<entry>): bitmap
    requires AllIndexed(es)
  {
    MarkAll(EMPTY, InfoIndices(es))
  }

  /** The bitmap and the array tell the same story, marked exactly where not
      ignored, if and only if the values for no named index cancel. */
  lemma InfoMarkedIffNotIgnored(es: seq<entry>)
    requires AllIndexed(es)
    ensures (forall i: index :: IsMarked(Marks(es), i) <==> InfoArray(es)[i] != INFO_IGNORE)
       <==> (forall e :: e in es ==> XorAt(es, IndexOf(e.0)) != 0)
  {
    forall i: index ensures
        && (IsMarked(Marks(es), i) <==> exists e :: e in es && IndexOf(e.0) == i)
        && (InfoArray(es)[i] == INFO_IGNORE <==> XorAt(es, i) == 0)
        && ((forall e :: e in es ==> IndexOf(e.0) != i) ==> XorAt(es, i) == 0) {
      InfosInAnyOrder(es, es, EMPTY, i);
      EmptyHasNoMark(i);
      InfoIgnoredIff(es, i);
      if forall e :: e in es ==> IndexOf(e.0) != i {
        NoPart(es, i);
      }
    }
    forall e | e in es ensures IsMarked(Marks(es), IndexAt(e)) {
      assert IndexOf(e.0) < ARRAY_MAX;
    }
  }

  lemma XorOfTwo(d: entry, e: entry, i: index)
    ensures XorAt([d, e], i) == (0 ^ Part(d, i)) ^ Part(e, i)
  {
    assert [d, e][..1] == [d] && [d][..0] == [];
    assert XorAt([d], i) == 0 ^ Part(d, i);
  }

  lemma XorTwice(b: bv32)
    ensures (0 ^ b) ^ b == 0
  {
  }

  lemma OneSpelledTwice()
    ensures IndexOf("1") == IndexOf("01") == 1
  {
    assert Digits("1", 0) == 1 && Digits("01", 0) == Digits("1", 0);
  }

  /** ... which two different names can do: "1" and "01" with equal values. */
  lemma TwoNamesCancel(value: bv32)
    ensures var es := [("1", value), ("01", value)];
      && DistinctNames(es) && AllIndexed(es) && InfoArray(es)[1] == INFO_IGNORE
      && IsMarked(MarkAll(EMPTY, InfoIndices(es)), 1)
  {
    var es: seq<entry> := [("1", value), ("01", value)];
    OneSpelledTwice();
    XorOfTwo(es[0], es[1], 1);
    XorTwice(value);
    InfoIgnoredIff(es, 1);
    assert es[0] in es;
    InfosInAnyOrder(es, es, EMPTY, 1);
  }
}
