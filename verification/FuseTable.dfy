/** What the fuse scan collects, without the walk: the definitions up to the
    first one whose logical offset goes back, numbered in document order. */
module FuseTable {
  import opened Common
  import opened Xml
  import opened FuseScan

  datatype Def = Def(name: string, offset: int, width: word)

  /** What a definition site says: the offset of a fuse, with whatever else its
      HashType has, or something the scan cannot get past. */
  datatype Entry = Broken | Entry(offset: int, name: Option<string>, width: Option<word>) {
    /** The scan can take it: name and width are there. */
    predicate IsComplete() {
      Entry? && name.Some? && width.Some?
    }

    function ToDef(): Def
      requires IsComplete()
    {
      Def(name.value, offset, width.value)
    }
  }

  function ToOption(r: Lookup): Option<string> {
    if r.Found? then Some(r.value) else None
  }

  /** The entry of a HashType: broken if a lookup follows a null pointer or there
      is no offset to convert. */
  function EntryOf(n: Node): Entry {
    var name := GetVal(n.children, "RegName");
    var width := GetVal(n.children, "Width");
    var offset := GetVal(n.children, "FuseLogicalOffset");
    if name.Fault? || width.Fault? || !offset.Found? then Broken
    else Entry(Atoi(offset.value), ToOption(name),
               if width.Found? then Some(Atoi(width.value) % WORD) else None)
  }

  /** The entry a visited node contributes, if it is a definition site. */
  function EntriesAt(v: visit): seq<Entry> {
    if !IsSite(v.0) then []
    else if |v.1| < 3 then [Broken]
    else if v.1[2].name != "HashType" then []
    else [EntryOf(v.1[2])]
  }

  /** All entries the document lists, in document order. */
  function Entries(vs: seq<visit>): seq<Entry>
    decreases |vs|
  {
    if vs == [] then [] else EntriesAt(vs[0]) + Entries(vs[1..])
  }

  lemma {:induction false} EntriesConcat(a: seq<visit>, b: seq<visit>)
    ensures Entries(a + b) == Entries(a) + Entries(b)
    decreases |a|
  {
    if a == [] {
      assert a + b == b;
    } else {
      assert (a + b)[1..] == a[1..] + b;
      EntriesConcat(a[1..], b);
    }
  }

  /** The next entry is taken ... */
  predicate Takes(last: int, e: Entry) {
    e.IsComplete() && e.offset >= last
  }

  /** ... or goes back, whatever else it has or lacks. */
  predicate GoesBack(last: int, e: Entry) {
    e.Entry? && e.offset < last
  }

  /** The definitions up to the first entry that is not taken. */
  function AcceptedRun(last: int, es: seq<Entry>): (p: seq<Def>)
    ensures |p| <= |es|
    decreases |es|
  {
    if es == [] || !Takes(last, es[0]) then []
    else [es[0].ToDef()] + AcceptedRun(es[0].offset, es[1..])
  }

  function LastOffset(last: int, p: seq<Def>): int {
    if p == [] then last else p[|p| - 1].offset
  }

  /** How the scan ends: it runs through, meets an entry that goes back, or
      follows a null pointer. */
  function EndOf(last: int, es: seq<Entry>): Status {
    var p := AcceptedRun(last, es);
    if |p| == |es| then Running
    else if GoesBack(LastOffset(last, p), es[|p|]) then Done
    else Aborted
  }

  /** AcceptedRun is the longest prefix of complete entries whose offsets never
      go back. */
  lemma {:induction false} AcceptedIsLongestRun(last: int, es: seq<Entry>)
    ensures var p := AcceptedRun(last, es);
      && (forall i :: 0 <= i < |p| ==> es[i].IsComplete() && p[i] == es[i].ToDef() && last <= p[i].offset)
      && (forall i, j :: 0 <= i < j < |p| ==> p[i].offset <= p[j].offset)
      && (|p| < |es| ==> !Takes(LastOffset(last, p), es[|p|]))
    decreases |es|
  {
    if es != [] && Takes(last, es[0]) {
      AcceptedIsLongestRun(es[0].offset, es[1..]);
    }
  }

  /** The offset entry k is compared with. */
  function Before(last: int, es: seq<Entry>, k: nat): int
    requires k <= |es|
  {
    if k == 0 || es[k - 1].Broken? then last else es[k - 1].offset
  }

  /** Every entry before k is taken. */
  predicate TakenUpTo(last: int, es: seq<Entry>, k: nat)
    requires k <= |es|
  {
    forall i: nat :: i < k ==> Takes(Before(last, es, i), es[i])
  }

  lemma {:induction false} TakenIsAccepted(last: int, es: seq<Entry>, k: nat)
    requires k <= |es| && TakenUpTo(last, es, k)
    ensures k <= |AcceptedRun(last, es)| && (k > 0 ==> AcceptedRun(last, es)[k - 1].offset == Before(last, es, k))
    decreases k
  {
    if k > 0 {
      assert Takes(Before(last, es, 0), es[0]);
      var rest := es[1..];
      forall i: nat | i < k - 1 ensures Takes(Before(es[0].offset, rest, i), rest[i]) {
        assert Takes(Before(last, es, i + 1), es[i + 1]);
      }
      TakenIsAccepted(es[0].offset, rest, k - 1);
    }
  }

  lemma AcceptedIsTaken(last: int, es: seq<Entry>, k: nat)
    requires k <= |AcceptedRun(last, es)|
    ensures TakenUpTo(last, es, k) && Before(last, es, k) == LastOffset(last, AcceptedRun(last, es)[..k])
  {
    AcceptedIsLongestRun(last, es);
    var p := AcceptedRun(last, es);
    assert forall i :: 0 <= i < k ==> es[i].offset == p[i].offset;
  }

  /** The scan is done exactly when some entry goes back and all before it are
      taken; it aborts exactly when some entry is unusable before any goes back. */
  lemma EndOfIff(last: int, es: seq<Entry>)
    ensures EndOf(last, es).Done? <==>
      exists k: nat :: k < |es| && TakenUpTo(last, es, k) && GoesBack(Before(last, es, k), es[k])
    ensures EndOf(last, es).Aborted? <==>
      exists k: nat :: k < |es| && TakenUpTo(last, es, k)
                       && !Takes(Before(last, es, k), es[k]) && !GoesBack(Before(last, es, k), es[k])
  {
    var p := AcceptedRun(last, es);
    AcceptedIsLongestRun(last, es);
    AcceptedIsTaken(last, es, |p|);
    assert p[..|p|] == p;
    forall k: nat | k < |es| && TakenUpTo(last, es, k) && !Takes(Before(last, es, k), es[k]) ensures k == |p| {
      TakenIsAccepted(last, es, k);
    }
  }

  // ----- the maps -----

  function InsertIds(m: map<string, nat>, start: nat, p: seq<Def>): map<string, nat>
    decreases |p|
  {
    if p == [] then m else InsertIds(Insert(m, p[0].name, start), start + 1, p[1..])
  }

  function InsertBits(m: map<string, word>, p: seq<Def>): map<string, word>
    decreases |p|
  {
    if p == [] then m else InsertBits(Insert(m, p[0].name, p[0].width), p[1..])
  }

  predicate Names(p: seq<Def>, name: string) {
    p != [] && (p[0].name == name || Names(p[1..], name))
  }

  /** The position of the first definition of a name. */
  function FirstIndex(p: seq<Def>, name: string): (k: nat)
    requires Names(p, name)
    ensures k < |p| && p[k].name == name
    ensures forall j :: 0 <= j < k ==> p[j].name != name
  {
    if p[0].name == name then 0
    else
      var k := FirstIndex(p[1..], name);
      assert forall j :: 1 <= j < k + 1 ==> p[j] == p[1..][j - 1];
      k + 1
  }

  lemma {:induction false} InsertIdsExact(m: map<string, nat>, start: nat, p: seq<Def>, name: string)
    ensures var r := InsertIds(m, start, p);
      && (name in r <==> name in m || Names(p, name))
      && (name in m ==> r[name] == m[name])
      && (name !in m && Names(p, name) ==> r[name] == start + FirstIndex(p, name))
    decreases |p|
  {
    if p != [] {
      InsertIdsExact(Insert(m, p[0].name, start), start + 1, p[1..], name);
    }
  }

  lemma {:induction false} InsertBitsExact(m: map<string, word>, p: seq<Def>, name: string)
    ensures var r := InsertBits(m, p);
      && (name in r <==> name in m || Names(p, name))
      && (name in m ==> r[name] == m[name])
      && (name !in m && Names(p, name) ==> r[name] == p[FirstIndex(p, name)].width)
    decreases |p|
  {
    if p != [] {
      InsertBitsExact(Insert(m, p[0].name, p[0].width), p[1..], name);
    }
  }

  // ----- the scan -----

  /** The scan state after the accepted definitions have been recorded. */
  function Record(s: Scan, es: seq<Entry>): Scan {
    var p := AcceptedRun(s.last, es);
    Scan(LastOffset(s.last, p), s.index + |p|, InsertIds(s.ids, s.index, p), InsertBits(s.bits, p), EndOf(s.last, es))
  }

  /** The state after one definition has been taken. */
  function Taken(s: Scan, d: Def): Scan {
    s.(last := d.offset, index := s.index + 1,
       ids := Insert(s.ids, d.name, s.index), bits := Insert(s.bits, d.name, d.width))
  }

  lemma RecordFirst(s: Scan, e: Entry, es: seq<Entry>)
    requires s.status.Running?
    ensures Record(s, [e] + es) ==
      if Takes(s.last, e) then Record(Taken(s, e.ToDef()), es)
      else if GoesBack(s.last, e) then s.(status := Done)
      else s.(status := Aborted)
  {
    var all := [e] + es;
    assert all[1..] == es;
    if Takes(s.last, e) {
      var p := AcceptedRun(e.offset, es);
      assert AcceptedRun(s.last, all) == [e.ToDef()] + p;
      assert ([e.ToDef()] + p)[1..] == p;
    }
  }

  /** Visiting the site of a HashType takes its entry, stops, or aborts. */
  lemma VisitTakes(s: Scan, v: visit, e: Entry)
    requires s.status.Running? && EntriesAt(v) == [e]
    ensures Visit(s, v) ==
      if Takes(s.last, e) then Taken(s, e.ToDef())
      else if GoesBack(s.last, e) then s.(status := Done)
      else s.(status := Aborted)
  {
  }

  /** The fold over any document records exactly the accepted definitions. */
  lemma {:induction false} FoldRecordsAccepted(s: Scan, vs: seq<visit>)
    requires s.status.Running?
    ensures Fold(s, vs) == Record(s, Entries(vs))
    decreases |vs|
  {
    if vs != [] {
      var v, rest := vs[0], vs[1..];
      if EntriesAt(v) == [] {
        assert Visit(s, v) == s;
        assert Entries(vs) == Entries(rest);
        FoldRecordsAccepted(s, rest);
      } else {
        var e := EntriesAt(v)[0];
        assert EntriesAt(v) == [e];
        VisitTakes(s, v, e);
        RecordFirst(s, e, Entries(rest));
        if Takes(s.last, e) {
          FoldRecordsAccepted(Visit(s, v), rest);
        } else {
          FoldStopped(Visit(s, v), rest);
        }
      }
    }
  }

  /** The maps number the accepted definitions: a name has the position and the
      width of its first definition. */
  predicate Numbers(t: Scan, p: seq<Def>) {
    && t.index == |p|
    && t.ids.Keys == t.bits.Keys
    && (forall k :: 0 <= k < |p| ==> p[k].name in t.ids)
    && (forall name :: name in t.ids ==>
          && t.ids[name] < |p| && p[t.ids[name]].name == name
          && t.bits[name] == p[t.ids[name]].width
          && forall j :: 0 <= j < t.ids[name] ==> p[j].name != name)
  }

  lemma {:induction false} NamesAt(p: seq<Def>, k: nat)
    requires k < |p|
    ensures Names(p, p[k].name)
  {
    if k > 0 {
      NamesAt(p[1..], k - 1);
    }
  }

  lemma RecordedNames(p: seq<Def>, name: string)
    ensures var ids, bits := InsertIds(map[], 0, p), InsertBits(map[], p);
      && (name in ids <==> Names(p, name)) && (name in bits <==> Names(p, name))
      && (Names(p, name) ==> ids[name] == FirstIndex(p, name) && bits[name] == p[FirstIndex(p, name)].width)
  {
    InsertIdsExact(map[], 0, p, name);
    InsertBitsExact(map[], p, name);
  }

  lemma RecordNumbers(t: Scan, p: seq<Def>)
    requires t.index == |p| && t.ids == InsertIds(map[], 0, p) && t.bits == InsertBits(map[], p)
    ensures Numbers(t, p)
  {
    forall name ensures
        && (name in t.ids <==> Names(p, name)) && (name in t.bits <==> Names(p, name))
        && (Names(p, name) ==> t.ids[name] == FirstIndex(p, name) && t.bits[name] == p[FirstIndex(p, name)].width) {
      RecordedNames(p, name);
    }
    forall k: nat | k < |p| ensures p[k].name in t.ids {
      NamesAt(p, k);
    }
  }

  /** The whole scan of any document: it numbers the longest run of complete
      definitions that never goes back, and ends as the entry behind it says. */
  lemma ScanNumbersDefinitions(nodes: seq<Node>)
    ensures var es := Entries(Preorder(nodes, []));
      var t := Fold(Start(), Preorder(nodes, []));
      && Numbers(t, AcceptedRun(-1, es))
      && t.status == EndOf(-1, es)
  {
    var es := Entries(Preorder(nodes, []));
    FoldRecordsAccepted(Start(), Preorder(nodes, []));
    RecordNumbers(Record(Start(), es), AcceptedRun(-1, es));
  }

  predicate Injective(ids: map<string, nat>) {
    forall a, b :: a in ids && b in ids && ids[a] == ids[b] ==> a == b
  }

  /** Ids of different names differ, however often the document repeats names. */
  lemma NumbersIsInjective(t: Scan, p: seq<Def>)
    requires Numbers(t, p)
    ensures Injective(t.ids)
  {
    forall a, b | a in t.ids && b in t.ids && t.ids[a] == t.ids[b] ensures a == b {
      assert p[t.ids[a]].name == a && p[t.ids[b]].name == b;
    }
  }
}
