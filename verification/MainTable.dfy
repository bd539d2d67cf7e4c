/** When main goes on with the fuses it has read, and with which table. */
module MainTable {
  import opened Common
  import opened Xml
  import opened FuseScan
  import opened FuseTable
  import opened Manifest
  import opened FuseLaws

  const PINNED: string := "FW_DEFINED_DATA_EXTRA_BLK6"

  /** The table main compiles with: of the document, if there is one and its scan
      ends at an offset that goes back, or of no fuses read. */
  function TableFor(document: Option<seq<Node>>): Option<Table> {
    match document
    case None => FuseTableOf(Table(map[], map[]))
    case Some(nodes) =>
      var s := Fold(Start(), Preorder(nodes, []));
      if s.status.Done? then FuseTableOf(TableOf(s)) else None
  }

  /** The definitions a document has accepted. */
  function Accepted(nodes: seq<Node>): seq<Def> {
    AcceptedRun(-1, Entries(Preorder(nodes, [])))
  }

  /** Definition k is the first one of its name. */
  predicate IsFirstOf(p: seq<Def>, k: nat) {
    k < |p| && forall j :: 0 <= j < k ==> p[j].name != p[k].name
  }

  /** The hardcoded fuse is where it is expected, as it is expected. */
  predicate PinnedInPlace(p: seq<Def>) {
    IsFirstOf(p, 125) && p[125].name == PINNED && p[125].width == 5
  }

  function NamesOf(p: seq<Def>): set<string> {
    set d | d in p :: d.name
  }

  lemma IdsAreNames(s: Scan, p: seq<Def>)
    requires Numbers(s, p)
    ensures s.ids.Keys == NamesOf(p) && |s.ids| == |NamesOf(p)| && (s.ids == map[] <==> p == [])
  {
    forall name ensures name in s.ids <==> name in NamesOf(p) {
      if name in s.ids {
        assert p[s.ids[name]] in p;
      }
      if name in NamesOf(p) {
        var d :| d in p && d.name == name;
        var k :| 0 <= k < |p| && p[k] == d;
        assert p[k].name in s.ids;
      }
    }
    assert s.ids.Keys == NamesOf(p) && |s.ids| == |s.ids.Keys|;
    if p != [] {
      assert p[0].name in s.ids;
    }
  }

  lemma FirstIsNumbered(s: Scan, p: seq<Def>, k: nat)
    requires Numbers(s, p) && IsFirstOf(p, k)
    ensures p[k].name in s.ids && s.ids[p[k].name] == k && s.bits[p[k].name] == p[k].width
  {
    assert p[k].name in s.ids;
    var i := s.ids[p[k].name];
    assert p[i].name == p[k].name && !(k < i) && !(i < k);
  }

  lemma PinnedIsChecked(s: Scan, p: seq<Def>)
    requires Numbers(s, p)
    ensures Manifest.Lookup(s.ids, PINNED_FUSE, 0) == PINNED_ID && Manifest.Lookup(TableOf(s).bits, PINNED_FUSE, 0) == PINNED_WIDTH
       <==> PinnedInPlace(p)
  {
    if PinnedInPlace(p) {
      FirstIsNumbered(s, p, 125);
    } else if Manifest.Lookup(s.ids, PINNED_FUSE, 0) == PINNED_ID {
      assert PINNED in s.ids && p[125].name == PINNED && IsFirstOf(p, 125);
    }
  }

  /** Main goes on exactly when the scan ended well and either no definition came
      before its end, or there are fewer than 128 names and the first definition
      of the hardcoded fuse is number 125 and 5 bits wide. */
  lemma GoesOnIff(nodes: seq<Node>)
    ensures TableFor(Some(nodes)).Some? <==>
      && EndOf(-1, Entries(Preorder(nodes, []))).Done?
      && (Accepted(nodes) == [] || (|NamesOf(Accepted(nodes))| < 128 && PinnedInPlace(Accepted(nodes))))
  {
    var s, p := Fold(Start(), Preorder(nodes, [])), Accepted(nodes);
    ScanNumbersDefinitions(nodes);
    IdsAreNames(s, p);
    PinnedIsChecked(s, p);
    if p == [] {
      assert NamesOf(p) == {};
    }
  }

  /** The hardcoded fuse alone. */
  const PINNED_ONLY: Table := Table(map[PINNED := 125], map[PINNED := 5])

  /** Without a document main goes on with the hardcoded fuse alone. */
  lemma NoDocument()
    ensures TableFor(None) == Some(PINNED_ONLY)
  {
  }

  /** A scan's maps with the hardcoded fuse put in. */
  function Pin(s: Scan): Table {
    Table(s.ids[PINNED := 125], s.bits[PINNED := 5])
  }

  lemma TableIsPinned(nodes: seq<Node>)
    requires TableFor(Some(nodes)).Some?
    ensures TableFor(Some(nodes)).value == Pin(Fold(Start(), Preorder(nodes, [])))
  {
  }

  lemma PinKeepsFirst(s: Scan, p: seq<Def>, k: nat)
    requires Numbers(s, p) && (p == [] || PinnedInPlace(p)) && IsFirstOf(p, k)
    ensures p[k].name in Pin(s).ids && Pin(s).ids[p[k].name] == k
    ensures p[k].name in Pin(s).bits && Pin(s).bits[p[k].name] == p[k].width
  {
    FirstIsNumbered(s, p, k);
    FirstIsNumbered(s, p, 125);
  }

  lemma BitsAreNames(s: Scan, p: seq<Def>)
    requires Numbers(s, p)
    ensures s.bits.Keys == NamesOf(p) && (p == [] ==> s.bits == map[])
  {
    IdsAreNames(s, p);
    if p == [] {
      assert NamesOf(p) == {};
    }
  }

  lemma AddKey<V>(m: map<string, V>, key: string, v: V)
    ensures m[key := v].Keys == m.Keys + {key}
  {
  }

  lemma PinnedKeys(s: Scan, p: seq<Def>)
    requires Numbers(s, p)
    ensures Pin(s).ids.Keys == Pin(s).bits.Keys == NamesOf(p) + {PINNED}
    ensures p == [] ==> Pin(s) == PINNED_ONLY
  {
    IdsAreNames(s, p);
    BitsAreNames(s, p);
    AddKey(s.ids, PINNED, 125);
    AddKey(s.bits, PINNED, 5);
  }

  /** With one, the table has every accepted name with the number and width of its
      first definition, besides the hardcoded fuse, and nothing else. */
  lemma TableContents(nodes: seq<Node>)
    requires TableFor(Some(nodes)).Some?
    ensures var t, p := TableFor(Some(nodes)).value, Accepted(nodes);
      && t.ids.Keys == t.bits.Keys == NamesOf(p) + {PINNED}
      && t.ids[PINNED] == 125 && t.bits[PINNED] == 5
      && (p == [] ==> t == PINNED_ONLY)
    ensures forall k: nat :: IsFirstOf(Accepted(nodes), k) ==>
      var t, d := TableFor(Some(nodes)).value, Accepted(nodes)[k];
      d.name in t.ids && t.ids[d.name] == k && d.name in t.bits && t.bits[d.name] == d.width
  {
    var s, p := Fold(Start(), Preorder(nodes, [])), Accepted(nodes);
    ScanNumbersDefinitions(nodes);
    GoesOnIff(nodes);
    TableIsPinned(nodes);
    PinnedKeys(s, p);
    forall k: nat | IsFirstOf(p, k)
      ensures p[k].name in Pin(s).ids && Pin(s).ids[p[k].name] == k
      ensures p[k].name in Pin(s).bits && Pin(s).bits[p[k].name] == p[k].width
    {
      PinKeepsFirst(s, p, k);
    }
  }
}
