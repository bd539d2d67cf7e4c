/** Laws of the compiled fuse array and bitmap over whole manifests, and over
    whatever document the fuse ids were read from. */
module FuseLaws {
  import opened Bitmap
  import opened FuseBits
  import opened Xml
  import opened FuseScan
  import opened FuseTable
  import opened Manifest
  import opened Common

  /** A manifest main can compile: all entries pass, names and ids are distinct. */
  predicate Compilable(t: Table, es: seq<entry>) {
    AllAccepted(t, es) && Injective(t.ids) && DistinctNames(es)
  }

  function Marks(t: Table, es: seq<entry>): bitmap
    requires AllAccepted(t, es)
  {
    MarkAll(EMPTY, FuseIndices(t, es))
  }

  ghost predicate Named(t: Table, es: seq<entry>, i: index)
    requires AllAccepted(t, es)
  {
    exists e :: e in es && t.ids[e.0] == i
  }

  lemma MarkedIffNamed(t: Table, es: seq<entry>, i: index)
    requires AllAccepted(t, es)
    ensures IsMarked(Marks(t, es), i) <==> Named(t, es, i)
  {
    FusemapExact(t, es, EMPTY, i);
    EmptyHasNoMark(i);
  }

  /** The array can be decoded: under each named fuse's mask it holds the
      manifest value, and padding outside; unnamed entries hold the ignore word. */
  lemma FusesDecode(t: Table, es: seq<entry>)
    requires Compilable(t, es)
    ensures forall e :: e in es ==> Holds(FuseValues(t, es)[t.ids[e.0]], Mask(Width(t, e.0)), e.1)
    ensures forall i: index :: !Named(t, es, i) ==> FuseValues(t, es)[i] == FUSE_IGNORE
  {
    FuseValuesExact(t, es);
    forall e | e in es ensures Holds(FuseValues(t, es)[t.ids[e.0]], Mask(Width(t, e.0)), e.1) {
      assert Judge(t, e).Accepted?;
      CompiledHoldsValue(Width(t, e.0), e.1);
    }
  }

  /** The result does not depend on the order in which the manifest is walked. */
  lemma FusesInAnyOrder(t: Table, es: seq<entry>, fs: seq<entry>)
    requires Compilable(t, es) && DistinctNames(fs) && forall e :: e in es <==> e in fs
    ensures Compilable(t, fs) && FuseValues(t, fs) == FuseValues(t, es)
    ensures forall i: index :: IsMarked(Marks(t, fs), i) <==> IsMarked(Marks(t, es), i)
  {
    FuseValuesExact(t, es);
    FuseValuesExact(t, fs);
    forall i: index ensures FuseValues(t, fs)[i] == FuseValues(t, es)[i] {
      if e :| e in es && t.ids[e.0] == i {
        assert FuseValues(t, es)[t.ids[e.0]] == FuseValues(t, fs)[t.ids[e.0]];
      }
    }
    forall i: index ensures IsMarked(Marks(t, fs), i) <==> IsMarked(Marks(t, es), i) {
      MarkedIffNamed(t, es, i);
      MarkedIffNamed(t, fs, i);
    }
  }

  /** A fuse whose compiled word is the ignore word although it is named. */
  predicate LooksIgnored(t: Table, e: entry) {
    Width(t, e.0) >= 32 && e.1 == FUSE_IGNORE
  }

  /** The bitmap and the array tell the same story, marked exactly where not
      ignored, if and only if no full-word fuse is given the ignore pattern. */
  lemma MarkedIffNotIgnored(t: Table, es: seq<entry>)
    requires Compilable(t, es)
    ensures (forall i: index :: IsMarked(Marks(t, es), i) <==> FuseValues(t, es)[i] != FUSE_IGNORE)
       <==> (forall e :: e in es ==> !LooksIgnored(t, e))
  {
    FuseValuesExact(t, es);
    forall i: index ensures IsMarked(Marks(t, es), i) <==> Named(t, es, i) {
      MarkedIffNamed(t, es, i);
    }
    forall e | e in es ensures
        && Named(t, es, IdOf(t, e))
        && (FuseValues(t, es)[IdOf(t, e)] == FUSE_IGNORE <==> LooksIgnored(t, e)) {
      assert Judge(t, e).Accepted?;
      CompiledIsIgnoreIff(Width(t, e.0), e.1);
    }
  }

  /** A manifest for one fuse besides the hardcoded one, with the ignore pattern. */
  function IgnorePattern(name: string): seq<entry> {
    [(name, FUSE_IGNORE), (PINNED_FUSE, 0)]
  }

  lemma PatternCompiles(t: Table, name: string)
    requires Injective(t.ids) && name in t.ids && t.ids[name] < ARRAY_MAX && 32 <= Width(t, name) < 64
    requires PINNED_FUSE in t.ids && t.ids[PINNED_FUSE] < ARRAY_MAX && Width(t, PINNED_FUSE) < 32
    ensures Compilable(t, IgnorePattern(name)) && LooksIgnored(t, IgnorePattern(name)[0])
  {
    var es := IgnorePattern(name);
    AcceptedByShift(t, es[0]);
    ZeroFits(t, PINNED_FUSE);
    assert es[1] == (PINNED_FUSE, 0);
  }

  lemma ZeroFits(t: Table, name: string)
    requires name in t.ids && t.ids[name] < ARRAY_MAX && Width(t, name) < 32
    ensures Judge(t, (name, 0)).Accepted?
  {
    ZeroUnder(Mask(Width(t, name)));
  }

  lemma ZeroUnder(mask: bv32)
    ensures Fits(mask, 0)
  {
  }

  /** Every table with a full-width fuse has such a manifest: main accepts it, the
      array entry of the fuse is the ignore word, and yet its bit is marked. */
  lemma FullWidthFuseLooksIgnored(t: Table, name: string)
    requires Injective(t.ids) && name in t.ids && t.ids[name] < ARRAY_MAX && 32 <= Width(t, name) < 64
    requires PINNED_FUSE in t.ids && t.ids[PINNED_FUSE] < ARRAY_MAX && Width(t, PINNED_FUSE) < 32
    ensures var es := IgnorePattern(name);
      && Compilable(t, es)
      && IsMarked(Marks(t, es), t.ids[name]) && FuseValues(t, es)[t.ids[name]] == FUSE_IGNORE
  {
    var es := IgnorePattern(name);
    PatternCompiles(t, name);
    assert es[0] in es && es[0].0 == name;
    NamedValue(t, es, es[0]);
    CompiledIsIgnoreIff(Width(t, name), FUSE_IGNORE);
    MarkedIffNamed(t, es, t.ids[name]);
  }

  /** Nothing is lost: manifests that compile alike are alike. */
  lemma CompilationIsInjective(t: Table, es: seq<entry>, fs: seq<entry>)
    requires Compilable(t, es) && Compilable(t, fs)
    requires FuseValues(t, es) == FuseValues(t, fs) && Marks(t, es) == Marks(t, fs)
    ensures forall e :: e in es <==> e in fs
  {
    forall e | e in es ensures e in fs {
      EntryIsRecovered(t, es, fs, e);
    }
    forall e | e in fs ensures e in es {
      EntryIsRecovered(t, fs, es, e);
    }
  }

  lemma SameFuse(t: Table, e: entry, f: entry)
    requires Judge(t, e).Accepted? && Judge(t, f).Accepted? && Injective(t.ids) && IdOf(t, e) == IdOf(t, f)
    ensures e.0 == f.0
  {
  }

  /** The value of a named fuse, read from the array. */
  lemma DecodeAt(t: Table, es: seq<entry>, e: entry)
    requires Compilable(t, es) && e in es
    ensures Judge(t, e).Accepted? && e.1 == Under(FuseValues(t, es)[IdOf(t, e)], Mask(Width(t, e.0)))
  {
    FusesDecode(t, es);
    assert Judge(t, e).Accepted?;
  }

  lemma EntryIsRecovered(t: Table, es: seq<entry>, fs: seq<entry>, e: entry)
    requires Compilable(t, es) && Compilable(t, fs) && e in es
    requires FuseValues(t, es) == FuseValues(t, fs) && Marks(t, es) == Marks(t, fs)
    ensures e in fs
  {
    DecodeAt(t, es, e);
    var i := IdOf(t, e);
    MarkedIffNamed(t, es, i);
    MarkedIffNamed(t, fs, i);
    assert Named(t, es, i);
    var f :| f in fs && t.ids[f.0] == i;
    DecodeAt(t, fs, f);
    SameFuse(t, e, f);
    assert e == f;
  }

  // ----- from the document to the header -----

  /** What readXML hands to main. */
  function TableOf(s: Scan): Table {
    Table(s.ids, s.bits)
  }

  /** Whatever document the ids come from, and whichever manifest main accepts
      against it, array and bitmap determine the manifest. */
  lemma DocumentToHeader(nodes: seq<Node>, es: seq<entry>, fs: seq<entry>)
    requires FuseTableOf(TableOf(Fold(Start(), Preorder(nodes, [])))).Some?
    requires DistinctNames(es) && DistinctNames(fs)
    requires var t := FuseTableOf(TableOf(Fold(Start(), Preorder(nodes, [])))).value;
      && AllAccepted(t, es) && AllAccepted(t, fs)
      && FuseValues(t, es) == FuseValues(t, fs) && Marks(t, es) == Marks(t, fs)
    ensures forall e :: e in es <==> e in fs
  {
    var s := Fold(Start(), Preorder(nodes, []));
    ScanNumbersDefinitions(nodes);
    NumbersIsInjective(s, AcceptedRun(-1, Entries(Preorder(nodes, []))));
    TableStaysInjective(TableOf(s));
    CompilationIsInjective(FuseTableOf(TableOf(s)).value, es, fs);
  }
}
