/** The info section by the numbers its names spell: which manifests compile, and
    to what. */
module InfoNames {
  import opened Common
  import opened Arithmetic
  import opened Bitmap
  import opened FuseScan
  import opened Manifest
  import opened InfoValues

  /** Name k is a sign or none, the digits of a number, and nothing else. */
  predicate Spelled(es: seq<entry>, ns: seq<int>) {
    && |es| == |ns|
    && forall k :: 0 <= k < |es| ==>
         es[k].0 == if ns[k] >= 0 then Decimal(ns[k]) else "-" + Decimal(-ns[k])
  }

  predicate IsInt(n: int) {
    -0x8000_0000 <= n < 0x8000_0000
  }

  lemma SpelledIsRead(n: int)
    ensures Atoi(if n >= 0 then Decimal(n) else "-" + Decimal(-n)) == n
  {
    var digits := Decimal(if n >= 0 then n else -n);
    AtoiReadsDecimal("", if n >= 0 then n else -n, "");
    assert digits + "" == digits && "" + digits == digits && "" + ("-" + digits) == "-" + digits;
  }

  lemma SpelledIndex(es: seq<entry>, ns: seq<int>, k: nat)
    requires Spelled(es, ns) && k < |es| && IsInt(ns[k])
    ensures 0 <= ns[k] < 128 ==> IndexOf(es[k].0) == ns[k]
    ensures IndexOf(es[k].0) < ARRAY_MAX <==> 0 <= ns[k] < 128
  {
    var n := ns[k];
    SpelledIsRead(n);
    if n >= 0 {
      DivModUnique(n, WORD, 0, n);
    } else {
      DivModUnique(n, WORD, -1, WORD + n);
    }
  }

  /** The index of any name at all, from white space, sign, digits and the rest. */
  lemma IndexReads(spaces: string, sign: string, digits: string, tail: string)
    requires Blank(spaces) && AllDigits(digits) && EndsNumber(tail) && StartsNumber(sign, digits, tail)
    requires NumberOf(digits) < 0x8000_0000
    ensures var n := NumberOf(digits);
      IndexOf(spaces + (sign + (digits + tail))) == if sign == "-" && n > 0 then 0x1_0000_0000 - n else n
  {
    var n := NumberOf(digits);
    AtoiReads(spaces, sign, digits, tail);
    if sign == "-" && n > 0 {
      DivModUnique(-(n as int), WORD, -1, WORD - n);
    } else {
      DivModUnique(n, WORD, 0, n);
    }
  }

  /** One name that spells no index is enough to abort. */
  lemma WrongNumberAborts(es: seq<entry>, k: nat, n: int)
    requires k < |es| && IsInt(n) && !(0 <= n < 128)
    requires es[k].0 == if n >= 0 then Decimal(n) else "-" + Decimal(-n)
    ensures !AllIndexed(es)
  {
    SpelledIndex([es[k]], [n], 0);
    assert es[k] in es;
  }

  /** The manifest compiles exactly when every number is an index: negative ones
      and those from 128 on abort. */
  lemma CompilesIff(es: seq<entry>, ns: seq<int>)
    requires Spelled(es, ns) && forall k :: 0 <= k < |ns| ==> IsInt(ns[k])
    ensures AllIndexed(es) <==> forall k :: 0 <= k < |ns| ==> 0 <= ns[k] < 128
  {
    forall k: nat | k < |ns| ensures IndexOf(es[k].0) < ARRAY_MAX <==> 0 <= ns[k] < 128 {
      SpelledIndex(es, ns, k);
    }
    if AllIndexed(es) {
      forall k | 0 <= k < |ns| ensures 0 <= ns[k] < 128 {
        assert es[k] in es;
        assert IndexOf(es[k].0) < ARRAY_MAX;
      }
    }
  }

  function XorAll(vs: seq<bv32>): bv32 {
    if vs == [] then 0 else XorAll(vs[..|vs| - 1]) ^ vs[|vs| - 1]
  }

  /** The values given for the number i, and 0 in place of the others. */
  function ValuesFor(es: seq<entry>, ns: seq<int>, i: int): seq<bv32>
    requires |es| == |ns|
  {
    seq(|es|, k requires 0 <= k < |es| => if ns[k] == i then es[k].1 else 0)
  }

  function Parts(es: seq<entry>, i: index): seq<bv32> {
    seq(|es|, k requires 0 <= k < |es| => Part(es[k], i))
  }

  lemma {:induction false} XorOfParts(es: seq<entry>, i: index)
    ensures XorAt(es, i) == XorAll(Parts(es, i))
    decreases |es|
  {
    if es != [] {
      XorOfParts(es[..|es| - 1], i);
      assert Parts(es, i)[..|es| - 1] == Parts(es[..|es| - 1], i);
    }
  }

  lemma XorByNumber(es: seq<entry>, ns: seq<int>, i: index)
    requires Spelled(es, ns) && forall k :: 0 <= k < |ns| ==> 0 <= ns[k] < 128
    ensures XorAt(es, i) == XorAll(ValuesFor(es, ns, i))
  {
    XorOfParts(es, i);
    forall k: nat | k < |es| ensures Parts(es, i)[k] == ValuesFor(es, ns, i)[k] {
      SpelledIndex(es, ns, k);
    }
    assert Parts(es, i) == ValuesFor(es, ns, i);
  }

  /** Entry i holds the ignore word xor the values given for the number i, and bit
      i is newly set exactly when the manifest names that number. */
  lemma InfosByNumber(es: seq<entry>, ns: seq<int>, m: bitmap, i: index)
    requires Spelled(es, ns) && forall k :: 0 <= k < |ns| ==> 0 <= ns[k] < 128
    ensures AllIndexed(es) && InfoArray(es)[i] == INFO_IGNORE ^ XorAll(ValuesFor(es, ns, i))
    ensures IsMarked(MarkAll(m, InfoIndices(es)), i) <==> IsMarked(m, i) || i in ns
  {
    CompilesIff(es, ns);
    InfosInAnyOrder(es, es, m, i);
    XorByNumber(es, ns, i);
    if e :| e in es && IndexOf(e.0) == i {
      var k :| 0 <= k < |es| && es[k] == e;
      SpelledIndex(es, ns, k);
    }
    if k :| 0 <= k < |ns| && ns[k] == i {
      SpelledIndex(es, ns, k);
      assert es[k] in es;
    }
  }

  lemma ZeroXor(a: bv32)
    ensures 0 ^ a == a
  {
  }

  lemma OneXor(e: entry, n: int, i: int)
    ensures XorAll(ValuesFor([e], [n], i)) == if n == i then e.1 else 0
  {
    var v := if n == i then e.1 else 0;
    assert ValuesFor([e], [n], i) == [v] && [v][..0] == [];
    ZeroXor(v);
  }

  /** One name alone: the value is at its number ... */
  lemma OneNumber(n: nat, v: bv32, m: bitmap)
    requires n < 0x8000_0000
    ensures AllIndexed([(Decimal(n), v)]) <==> n < 128
    ensures n < 128 ==> InfoArray([(Decimal(n), v)])[n] == INFO_IGNORE ^ v
    ensures n < 128 ==> IsMarked(MarkAll(m, InfoIndices([(Decimal(n), v)])), n)
  {
    CompilesIff([(Decimal(n), v)], [n]);
    if n < 128 {
      InfosByNumber([(Decimal(n), v)], [n], m, n);
      OneXor((Decimal(n), v), n, n);
    }
  }

  /** ... and nowhere else. */
  lemma OtherNumbers(n: nat, v: bv32, m: bitmap, i: index)
    requires n < 128 && i != n
    ensures AllIndexed([(Decimal(n), v)]) && InfoArray([(Decimal(n), v)])[i] == INFO_IGNORE
    ensures IsMarked(MarkAll(m, InfoIndices([(Decimal(n), v)])), i) <==> IsMarked(m, i)
  {
    InfosByNumber([(Decimal(n), v)], [n], m, i);
    OneXor((Decimal(n), v), n, i);
    XorZero(INFO_IGNORE);
  }
}
