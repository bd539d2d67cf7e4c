/** Documents of the form of the fuse description that ships with the signer: a
    list of HashTypes, each a list of keys and values, with white space around
    every element. */
module FuseDocument {
  import opened Common
  import opened Xml
  import opened FuseScan
  import opened FuseTable

  type pair = (string, string)

  const BLANK: string := "\n "
  const OFFSET_KEY: string := "FuseLogicalOffset"

  function Element(name: string, children: seq<Node>): Node {
    Node(Kind.Element, name, "", children)
  }

  /** White space before every node and behind the last. */
  function Spaced(nodes: seq<Node>): seq<Node> {
    if nodes == [] then [Leaf(BLANK)] else [Leaf(BLANK), nodes[0]] + Spaced(nodes[1..])
  }

  function ItemNode(p: pair): Node {
    Element("HashItem", Spaced([Element("Key", [Leaf(p.0)]), Element("Value", [Leaf(p.1)])]))
  }

  function ItemNodes(ps: seq<pair>): seq<Node> {
    if ps == [] then [] else [ItemNode(ps[0])] + ItemNodes(ps[1..])
  }

  function TypeNode(ps: seq<pair>): Node {
    Element("HashType", Spaced(ItemNodes(ps)))
  }

  function ArrayItems(types: seq<seq<pair>>): seq<Node> {
    if types == [] then [] else [Element("ArrayItem", Spaced([TypeNode(types[0])]))] + ArrayItems(types[1..])
  }

  /** The whole document, from its root element. */
  function Document(types: seq<seq<pair>>): seq<Node> {
    [Element("ArrayType", Spaced(ArrayItems(types)))]
  }

  // ----- what the fields of a HashType are -----

  /** The value of the first pair with the key. */
  function Value(ps: seq<pair>, key: string): Option<string> {
    if ps == [] then None else if ps[0].0 == key then Some(ps[0].1) else Value(ps[1..], key)
  }

  lemma OneLeaf(t: string, key: string)
    ensures InnerText([Leaf(t)]) == t && GetVal([Leaf(t)], key) == Absent
  {
    assert [Leaf(t)][1..] == [];
  }

  /** White space does not change what is found. */
  lemma {:induction false} GetValOfSpaced(nodes: seq<Node>, key: string)
    ensures GetVal(Spaced(nodes), key) == GetVal(nodes, key)
    decreases |nodes|
  {
    if nodes == [] {
      OneLeaf(BLANK, key);
    } else {
      var all := Spaced(nodes);
      assert all[1..] == [nodes[0]] + Spaced(nodes[1..]);
      assert all[1..][1..] == Spaced(nodes[1..]);
      assert GetVal(all, key) == GetVal(all[1..], key);
      GetValOfSpaced(nodes[1..], key);
    }
  }

  lemma ItemContents(p: pair, key: string)
    ensures var c := ItemNode(p).children;
      |c| == 5 && Content(c[1]) == p.0 && Content(c[3]) == p.1 && GetVal(c, key) == Absent
  {
    var k, v := Element("Key", [Leaf(p.0)]), Element("Value", [Leaf(p.1)]);
    assert [k, v][1..] == [v] && [v][1..] == [];
    assert Spaced([v]) == [Leaf(BLANK), v, Leaf(BLANK)];
    assert Spaced([k, v]) == [Leaf(BLANK), k] + Spaced([v]);
    OneLeaf(p.0, key);
    OneLeaf(p.1, key);
    GetValOfSpaced([k, v], key);
    assert GetVal([v], key) == Absent;
  }

  /** get_val on a HashType is the lookup of its pairs. */
  lemma {:induction false} GetValOfPairs(ps: seq<pair>, key: string)
    ensures ToOption(GetVal(Spaced(ItemNodes(ps)), key)) == Value(ps, key)
    ensures !GetVal(Spaced(ItemNodes(ps)), key).Fault?
    decreases |ps|
  {
    var items := ItemNodes(ps);
    GetValOfSpaced(items, key);
    if ps != [] {
      var rest := ItemNodes(ps[1..]);
      assert items[1..] == rest;
      ItemContents(ps[0], key);
      GetValOfSpaced(rest, key);
      GetValOfPairs(ps[1..], key);
    }
  }

  /** What a HashType says when its pairs are read. */
  function EntryOfPairs(ps: seq<pair>): Entry {
    match Value(ps, OFFSET_KEY)
    case None => Broken
    case Some(offset) =>
      Entry.Entry(Atoi(offset), Value(ps, "RegName"),
                  match Value(ps, "Width") case None => None case Some(w) => Some(Atoi(w) % WORD))
  }

  lemma EntryOfType(ps: seq<pair>)
    ensures EntryOf(TypeNode(ps)) == EntryOfPairs(ps)
  {
    GetValOfPairs(ps, "RegName");
    GetValOfPairs(ps, "Width");
    GetValOfPairs(ps, OFFSET_KEY);
  }

  // ----- the sites of a document -----

  /** No value is taken for a definition site. */
  predicate Plain(ps: seq<pair>) {
    forall p :: p in ps ==> p.1 != OFFSET_KEY
  }

  /** One entry for every occurrence of the offset key. */
  function EntriesOfPairs(e: Entry, ps: seq<pair>): seq<Entry> {
    if ps == [] then [] else (if ps[0].0 == OFFSET_KEY then [e] else []) + EntriesOfPairs(e, ps[1..])
  }

  function EntriesOfTypes(types: seq<seq<pair>>): seq<Entry> {
    if types == [] then [] else EntriesOfPairs(EntryOfPairs(types[0]), types[0]) + EntriesOfTypes(types[1..])
  }

  /** The entries of a sibling list are those of its nodes, one after the other. */
  lemma EntriesOfSiblings(nodes: seq<Node>, ancestors: seq<Node>)
    requires nodes != []
    ensures Entries(Preorder(nodes, ancestors))
         == EntriesAt((nodes[0], ancestors)) + Entries(Preorder(nodes[0].children, [nodes[0]] + ancestors))
            + Entries(Preorder(nodes[1..], ancestors))
  {
    var head: visit := (nodes[0], ancestors);
    var inner, rest := Preorder(nodes[0].children, [nodes[0]] + ancestors), Preorder(nodes[1..], ancestors);
    EntriesConcat([head] + inner, rest);
    EntriesConcat([head], inner);
    assert [head][1..] == [];
  }

  lemma EntriesOfFirst(n: Node, rest: seq<Node>, ancestors: seq<Node>)
    ensures Entries(Preorder([n] + rest, ancestors))
         == Entries(Preorder([n], ancestors)) + Entries(Preorder(rest, ancestors))
  {
    EntriesOfSiblings([n] + rest, ancestors);
    EntriesOfSiblings([n], ancestors);
    assert ([n] + rest)[1..] == rest && [n][1..] == [];
  }

  lemma EntriesOfLeaf(t: string, ancestors: seq<Node>)
    ensures Entries(Preorder([Leaf(t)], ancestors)) == EntriesAt((Leaf(t), ancestors))
    ensures t != OFFSET_KEY ==> EntriesAt((Leaf(t), ancestors)) == []
  {
    EntriesOfSiblings([Leaf(t)], ancestors);
    assert [Leaf(t)][1..] == [];
  }

  /** White space contributes nothing. */
  lemma {:induction false} EntriesOfSpaced(nodes: seq<Node>, ancestors: seq<Node>)
    ensures Entries(Preorder(Spaced(nodes), ancestors)) == Entries(Preorder(nodes, ancestors))
    decreases |nodes|
  {
    EntriesOfLeaf(BLANK, ancestors);
    if nodes != [] {
      var all := Spaced(nodes);
      EntriesOfSiblings(all, ancestors);
      assert all[1..] == [nodes[0]] + Spaced(nodes[1..]);
      EntriesOfSiblings(all[1..], ancestors);
      assert all[1..][1..] == Spaced(nodes[1..]);
      EntriesOfSiblings(nodes, ancestors);
      EntriesOfSpaced(nodes[1..], ancestors);
    }
  }

  /** An element around one list contributes what the list does. */
  lemma EntriesOfElement(name: string, children: seq<Node>, ancestors: seq<Node>)
    ensures var n := Element(name, children);
      Entries(Preorder([n], ancestors)) == Entries(Preorder(children, [n] + ancestors))
  {
    var n := Element(name, children);
    EntriesOfSiblings([n], ancestors);
    assert [n][1..] == [];
  }

  /** An item is a site of the HashType around it exactly when its key is the offset key. */
  lemma EntriesOfItem(p: pair, ps: seq<pair>, ancestors: seq<Node>)
    requires p.1 != OFFSET_KEY
    ensures Entries(Preorder([ItemNode(p)], [TypeNode(ps)] + ancestors))
         == if p.0 == OFFSET_KEY then [EntryOfPairs(ps)] else []
  {
    var k, v := Element("Key", [Leaf(p.0)]), Element("Value", [Leaf(p.1)]);
    var anc := [TypeNode(ps)] + ancestors;
    var inside := [ItemNode(p)] + anc;
    EntriesOfElement("HashItem", Spaced([k, v]), anc);
    EntriesOfSpaced([k, v], inside);
    EntriesOfSiblings([k, v], inside);
    assert [k, v][1..] == [v];
    EntriesOfElement("Value", [Leaf(p.1)], inside);
    EntriesOfLeaf(p.0, [k] + inside);
    EntriesOfLeaf(p.1, [v] + inside);
    assert EntriesAt((k, inside)) == [];
    assert ([k] + inside)[2] == TypeNode(ps);
    EntryOfType(ps);
  }

  lemma {:induction false} EntriesOfItems(qs: seq<pair>, ps: seq<pair>, ancestors: seq<Node>)
    requires Plain(qs)
    ensures Entries(Preorder(ItemNodes(qs), [TypeNode(ps)] + ancestors)) == EntriesOfPairs(EntryOfPairs(ps), qs)
    decreases |qs|
  {
    if qs != [] {
      var anc := [TypeNode(ps)] + ancestors;
      EntriesOfFirst(ItemNode(qs[0]), ItemNodes(qs[1..]), anc);
      EntriesOfItem(qs[0], ps, ancestors);
      EntriesOfItems(qs[1..], ps, ancestors);
    }
  }

  lemma EntriesOfArrayItem(ps: seq<pair>, ancestors: seq<Node>)
    requires Plain(ps)
    ensures Entries(Preorder([Element("ArrayItem", Spaced([TypeNode(ps)]))], ancestors))
         == EntriesOfPairs(EntryOfPairs(ps), ps)
  {
    var item := Element("ArrayItem", Spaced([TypeNode(ps)]));
    EntriesOfElement("ArrayItem", Spaced([TypeNode(ps)]), ancestors);
    EntriesOfSpaced([TypeNode(ps)], [item] + ancestors);
    EntriesOfElement("HashType", Spaced(ItemNodes(ps)), [item] + ancestors);
    EntriesOfSpaced(ItemNodes(ps), [TypeNode(ps)] + ([item] + ancestors));
    EntriesOfItems(ps, ps, [item] + ancestors);
  }

  lemma {:induction false} EntriesOfArray(types: seq<seq<pair>>, ancestors: seq<Node>)
    requires forall ps :: ps in types ==> Plain(ps)
    ensures Entries(Preorder(ArrayItems(types), ancestors)) == EntriesOfTypes(types)
    decreases |types|
  {
    if types != [] {
      var first := Element("ArrayItem", Spaced([TypeNode(types[0])]));
      EntriesOfFirst(first, ArrayItems(types[1..]), ancestors);
      EntriesOfArrayItem(types[0], ancestors);
      EntriesOfArray(types[1..], ancestors);
    }
  }

  /** The entries of a document are those of its HashTypes, in order, and the
      scan numbers them until one goes back or cannot be used. */
  lemma DocumentEntries(types: seq<seq<pair>>)
    requires forall ps :: ps in types ==> Plain(ps)
    ensures Entries(Preorder(Document(types), [])) == EntriesOfTypes(types)
    ensures var t := Fold(Start(), Preorder(Document(types), []));
      Numbers(t, AcceptedRun(-1, EntriesOfTypes(types))) && t.status == EndOf(-1, EntriesOfTypes(types))
  {
    var root := Document(types)[0];
    EntriesOfElement("ArrayType", Spaced(ArrayItems(types)), []);
    assert Document(types) == [root];
    EntriesOfSpaced(ArrayItems(types), [root] + []);
    EntriesOfArray(types, [root] + []);
    ScanNumbersDefinitions(Document(types));
  }

  // ----- the end of the shipped description -----

  /** The last HashType: an offset that goes back, and no width. */
  const SYNC_TYPE: seq<pair> := [("RegName", "SWDP_P4_LAST_SYNC"), ("Default", "177"), (OFFSET_KEY, "0")]

  lemma FirstValue(p: pair, ps: seq<pair>, key: string)
    ensures Value([p] + ps, key) == if p.0 == key then Some(p.1) else Value(ps, key)
  {
    assert ([p] + ps)[1..] == ps;
  }

  lemma ThreeValues(a: pair, b: pair, c: pair, key: string)
    ensures Value([a, b, c], key)
         == if a.0 == key then Some(a.1) else if b.0 == key then Some(b.1) else if c.0 == key then Some(c.1) else None
  {
    FirstValue(c, [], key);
    FirstValue(b, [c], key);
    FirstValue(a, [b, c], key);
    assert [c] + [] == [c] && [b] + [c] == [b, c] && [a] + [b, c] == [a, b, c];
  }

  lemma FirstEntry(e: Entry, p: pair, ps: seq<pair>)
    ensures EntriesOfPairs(e, [p] + ps) == (if p.0 == OFFSET_KEY then [e] else []) + EntriesOfPairs(e, ps)
  {
    assert ([p] + ps)[1..] == ps;
  }

  /** A HashType of three pairs, one of which gives the offset. */
  lemma OneEntry(e: Entry, a: pair, b: pair, c: pair)
    requires a.0 != OFFSET_KEY && (b.0 == OFFSET_KEY <==> c.0 != OFFSET_KEY)
    ensures EntriesOfPairs(e, [a, b, c]) == [e]
  {
    FirstEntry(e, c, []);
    FirstEntry(e, b, [c]);
    FirstEntry(e, a, [b, c]);
    assert [c] + [] == [c] && [b] + [c] == [b, c] && [a] + [b, c] == [a, b, c];
  }

  lemma OneType(ps: seq<pair>)
    ensures EntriesOfTypes([ps]) == EntriesOfPairs(EntryOfPairs(ps), ps)
  {
    assert EntriesOfTypes([ps]) == EntriesOfPairs(EntryOfPairs(ps), ps) + EntriesOfTypes([ps][1..]);
  }

  lemma SyncEntry()
    ensures EntryOfPairs(SYNC_TYPE) == Entry.Entry(0, Some("SWDP_P4_LAST_SYNC"), None)
    ensures EntriesOfTypes([SYNC_TYPE]) == [EntryOfPairs(SYNC_TYPE)] && Plain(SYNC_TYPE)
  {
    var e := EntryOfPairs(SYNC_TYPE);
    ThreeValues(SYNC_TYPE[0], SYNC_TYPE[1], SYNC_TYPE[2], "RegName");
    ThreeValues(SYNC_TYPE[0], SYNC_TYPE[1], SYNC_TYPE[2], "Width");
    ThreeValues(SYNC_TYPE[0], SYNC_TYPE[1], SYNC_TYPE[2], OFFSET_KEY);
    OneEntry(e, SYNC_TYPE[0], SYNC_TYPE[1], SYNC_TYPE[2]);
    OneType(SYNC_TYPE);
    assert Digits("0", 0) == 0;
  }

  lemma {:induction false} TypesConcat(a: seq<seq<pair>>, b: seq<seq<pair>>)
    ensures EntriesOfTypes(a + b) == EntriesOfTypes(a) + EntriesOfTypes(b)
    decreases |a|
  {
    if a == [] {
      assert a + b == b;
    } else {
      assert (a + b)[1..] == a[1..] + b;
      TypesConcat(a[1..], b);
    }
  }

  lemma {:induction false} RunContinues(last: int, es: seq<Entry>, more: seq<Entry>)
    requires |AcceptedRun(last, es)| == |es|
    ensures AcceptedRun(last, es + more) == AcceptedRun(last, es) + AcceptedRun(LastOffset(last, AcceptedRun(last, es)), more)
    decreases |es|
  {
    if es == [] {
      assert es + more == more;
    } else {
      assert (es + more)[1..] == es[1..] + more;
      RunContinues(es[0].offset, es[1..], more);
    }
  }

  /** A description like the shipped one, complete definitions that never go back
      and then that HashType, is numbered in full and ends the scan as main needs
      it, although the last definition has no width. */
  lemma ShippedDescription(types: seq<seq<pair>>)
    requires forall ps :: ps in types ==> Plain(ps)
    requires var es := EntriesOfTypes(types);
      |AcceptedRun(-1, es)| == |es| && LastOffset(-1, AcceptedRun(-1, es)) > 0
    ensures var t := Fold(Start(), Preorder(Document(types + [SYNC_TYPE]), []));
      t.status == Done && Numbers(t, AcceptedRun(-1, EntriesOfTypes(types)))
  {
    var es := EntriesOfTypes(types);
    SyncEntry();
    TypesConcat(types, [SYNC_TYPE]);
    RunContinues(-1, es, [EntryOfPairs(SYNC_TYPE)]);
    assert AcceptedRun(-1, es + [EntryOfPairs(SYNC_TYPE)]) == AcceptedRun(-1, es);
    DocumentEntries(types + [SYNC_TYPE]);
  }
}
