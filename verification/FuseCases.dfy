/** A fuse description of the shipped form, written out: main accepts it, and a
    manifest for it whose array and bitmap disagree. */
module FuseCases {
  import opened Common
  import opened Bitmap
  import opened FuseBits
  import opened FuseScan
  import opened FuseTable
  import opened FuseDocument
  import opened Manifest
  import opened FuseLaws

  /** The names "F", "FF", ... and, at its place, the hardcoded fuse. */
  function FuseName(k: nat): string {
    if k == PINNED_ID then PINNED_FUSE else seq(k + 1, _ => 'F')
  }

  lemma NameIsNew(k: nat)
    ensures FuseName(k) != OFFSET_KEY
    ensures FuseName(k) == PINNED_FUSE <==> k == PINNED_ID
  {
    assert PINNED_FUSE[1] == 'W' && OFFSET_KEY[1] == 'u';
    if k != PINNED_ID && k > 0 {
      assert FuseName(k)[1] == 'F';
    }
  }

  lemma NamesDiffer(j: nat, k: nat)
    requires FuseName(j) == FuseName(k)
    ensures j == k
  {
    NameIsNew(j);
    NameIsNew(k);
    assert |FuseName(j)| == |FuseName(k)|;
  }

  /** Fuse k, 32 bits wide unless it is the hardcoded one. */
  function FuseType(k: nat): seq<pair> {
    [("RegName", FuseName(k)), (OFFSET_KEY, "1"), ("Width", if k == PINNED_ID then "5" else "32")]
  }

  function FuseDef(k: nat): Def {
    Def(FuseName(k), 1, if k == PINNED_ID then 5 else 32)
  }

  /** The definition of fuse k as the scan finds it. */
  function Found(k: nat): Entry {
    Entry.Entry(1, Some(FuseName(k)), Some(FuseDef(k).width))
  }

  lemma Numerals()
    ensures Atoi("1") == 1 && Atoi("5") == 5 && Atoi("32") == 32
  {
    assert "32"[1..] == "2";
    assert Digits("1", 0) == 1 && Digits("5", 0) == 5 && Digits("32", 0) == 32;
  }

  lemma FoundInDocument(k: nat)
    ensures EntryOfPairs(FuseType(k)) == Found(k)
    ensures Plain(FuseType(k)) && EntriesOfTypes([FuseType(k)]) == [Found(k)]
  {
    var ps, e := FuseType(k), EntryOfPairs(FuseType(k));
    Numerals();
    NameIsNew(k);
    ThreeValues(ps[0], ps[1], ps[2], "RegName");
    ThreeValues(ps[0], ps[1], ps[2], "Width");
    ThreeValues(ps[0], ps[1], ps[2], OFFSET_KEY);
    OneEntry(e, ps[0], ps[1], ps[2]);
    OneType(ps);
  }

  /** The first n fuses. */
  function FuseTypes(n: nat): seq<seq<pair>> {
    if n == 0 then [] else FuseTypes(n - 1) + [FuseType(n - 1)]
  }

  function FuseDefs(n: nat): seq<Def> {
    seq(n, k requires 0 <= k => FuseDef(k))
  }

  function AllFound(n: nat): seq<Entry> {
    seq(n, k requires 0 <= k => Found(k))
  }

  lemma AllFoundExtends(n: nat)
    ensures AllFound(n + 1) == AllFound(n) + [Found(n)]
  {
  }

  lemma {:induction false} AllFoundInDocument(n: nat)
    ensures EntriesOfTypes(FuseTypes(n)) == AllFound(n)
    ensures forall ps :: ps in FuseTypes(n) ==> Plain(ps)
  {
    if n > 0 {
      AllFoundInDocument(n - 1);
      FoundInDocument(n - 1);
      TypesConcat(FuseTypes(n - 1), [FuseType(n - 1)]);
      AllFoundExtends(n - 1);
    }
  }

  /** Equal offsets do not go back. */
  lemma {:induction false} AllTaken(last: int, k: nat, n: nat)
    requires last <= 1 && k <= n
    ensures AcceptedRun(last, AllFound(n)[k..]) == FuseDefs(n)[k..]
    decreases n - k
  {
    if k < n {
      assert AllFound(n)[k..][0] == Found(k) && AllFound(n)[k..][1..] == AllFound(n)[k + 1..];
      AllTaken(1, k + 1, n);
      assert FuseDefs(n)[k..] == [FuseDef(k)] + FuseDefs(n)[k + 1..];
    }
  }

  // ----- main accepts the description -----

  /** Distinct numbers below n number at most n names. */
  lemma {:induction false} FewNames(ids: map<string, nat>, n: nat)
    requires Injective(ids) && forall name :: name in ids ==> ids[name] < n
    ensures |ids.Keys| <= n
    decreases n
  {
    if name :| name in ids && ids[name] == n - 1 {
      var rest := ids - {name};
      assert ids.Keys == rest.Keys + {name};
      FewNames(rest, n - 1);
    } else if n > 0 {
      assert forall name :: name in ids ==> ids[name] != n - 1;
      FewNames(ids, n - 1);
    } else {
      assert ids.Keys == {};
    }
  }

  /** What the description with 126 fuses gives. */
  function Described(): Scan {
    Fold(Start(), Preorder(Document(FuseTypes(PINNED_ID + 1) + [SYNC_TYPE]), []))
  }

  lemma DescriptionIsRead()
    ensures Described().status == Done && Numbers(Described(), FuseDefs(PINNED_ID + 1))
  {
    var n := PINNED_ID + 1;
    AllFoundInDocument(n);
    AllTaken(-1, 0, n);
    assert AllFound(n)[0..] == AllFound(n) && FuseDefs(n)[0..] == FuseDefs(n);
    ShippedDescription(FuseTypes(n));
  }

  lemma FuseIsNumbered(s: Scan, n: nat, k: nat)
    requires Numbers(s, FuseDefs(n)) && k < n
    ensures FuseName(k) in s.ids && s.ids[FuseName(k)] == k && s.bits[FuseName(k)] == FuseDef(k).width
  {
    var p := FuseDefs(n);
    assert p[k].name == FuseName(k);
    var i := s.ids[FuseName(k)];
    assert p[i].name == FuseName(k);
    NamesDiffer(i, k);
  }

  lemma WidthsConvert()
    ensures (5 as word) as bv32 == 5 && (32 as word) as bv32 == 32
  {
  }

  lemma WidthsOf(t: Table)
    requires Manifest.Lookup(t.bits, "F", 0) == 32 && Manifest.Lookup(t.bits, PINNED_FUSE, 0) == 5
    ensures Width(t, "F") == 32 && Width(t, PINNED_FUSE) == 5
  {
    WidthsConvert();
  }

  lemma PassesAsserts(read: Table)
    requires |read.ids| < ARRAY_MAX && Lookup(read.ids, PINNED_FUSE, 0) == PINNED_ID
    requires Lookup(read.bits, PINNED_FUSE, 0) == PINNED_WIDTH
    ensures FuseTableOf(read).Some?
  {
  }

  lemma FusesNumbered(s: Scan, n: nat)
    requires Numbers(s, FuseDefs(n)) && PINNED_ID < n
    ensures PINNED_FUSE in s.ids && s.ids[PINNED_FUSE] == PINNED_ID && s.bits[PINNED_FUSE] == 5
    ensures "F" in s.ids && s.ids["F"] == 0 && s.bits["F"] == 32
  {
    FuseIsNumbered(s, n, PINNED_ID);
    FuseIsNumbered(s, n, 0);
    assert FuseName(0) == "F";
  }

  /** Main accepts the table of any document that lists these fuses ... */
  lemma TableIsAccepted(s: Scan, n: nat)
    requires Numbers(s, FuseDefs(n)) && PINNED_ID < n < ARRAY_MAX
    ensures var read := TableOf(s);
      && Injective(read.ids) && FuseTableOf(read).Some?
      && "F" in read.ids && read.ids["F"] == 0 && Lookup(read.bits, "F", 0) == 32
  {
    NumbersIsInjective(s, FuseDefs(n));
    FewNames(s.ids, n);
    assert |s.ids| == |s.ids.Keys|;
    FusesNumbered(s, n);
    PassesAsserts(TableOf(s));
  }

  /** ... and then there is a manifest whose array and bitmap disagree. */
  lemma ManifestDisagrees(read: Table)
    requires Injective(read.ids) && FuseTableOf(read).Some?
    requires "F" in read.ids && read.ids["F"] == 0 && Lookup(read.bits, "F", 0) == 32
    ensures var t, es := FuseTableOf(read).value, IgnorePattern("F");
      Compilable(t, es) && IsMarked(Marks(t, es), 0) && FuseValues(t, es)[0] == FUSE_IGNORE
  {
    TableStaysInjective(read);
    var t := FuseTableOf(read).value;
    assert PINNED_FUSE != "F";
    WidthsOf(t);
    FullWidthFuseLooksIgnored(t, "F");
  }

  /** The document ends the scan as main needs it, main accepts the table and the
      manifest, and entry 0 of the array is the ignore word although it is marked. */
  lemma MarkedButIgnored()
    ensures Described().status == Done && FuseTableOf(TableOf(Described())).Some?
    ensures var t, es := FuseTableOf(TableOf(Described())).value, IgnorePattern("F");
      Compilable(t, es) && IsMarked(Marks(t, es), 0) && FuseValues(t, es)[0] == FUSE_IGNORE
  {
    DescriptionIsRead();
    TableIsAccepted(Described(), PINNED_ID + 1);
    ManifestDisagrees(TableOf(Described()));
  }
}
