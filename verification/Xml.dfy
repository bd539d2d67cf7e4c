/** The XML document as libxml presents it, and the recursive search for the
    value of a key. */
module Xml {
  import opened Common

  datatype Kind = Element | Text | CData | Comment

  datatype Node = Node(kind: Kind, name: string, text: string, children: seq<Node>)

  /** The text a node contributes to the content of an element around it. */
  function InnerText(nodes: seq<Node>): string {
    if nodes == [] then ""
    else
      var n := nodes[0];
      (match n.kind
       case Element => InnerText(n.children)
       case Text => n.text
       case CData => n.text
       case Comment => "") + InnerText(nodes[1..])
  }

  /** xmlNodeGetContent. */
  function Content(n: Node): string {
    if n.kind.Element? then InnerText(n.children) else n.text
  }

  /** The text of a list is the texts of its nodes, one after the other ... */
  lemma {:induction false} TextOfList(a: seq<Node>, b: seq<Node>)
    ensures InnerText(a + b) == InnerText(a) + InnerText(b)
    decreases |a|
  {
    if a == [] {
      assert a + b == b;
    } else {
      assert (a + b)[1..] == a[1..] + b;
      TextOfList(a[1..], b);
    }
  }

  /** ... and that of a node is its own, or what is below an element, but nothing
      for a comment. */
  lemma TextOfNode(n: Node)
    ensures InnerText([n]) == match n.kind
      case Element => InnerText(n.children)
      case Text => n.text
      case CData => n.text
      case Comment => ""
    ensures Content(n) == if n.kind.Element? then InnerText([n]) else n.text
  {
    assert [n][1..] == [];
  }

  // ----- the search for a value -----

  /** Fault stands for following a null pointer, Absent for a null result. */
  datatype Lookup = Fault | Absent | Found(value: string)

  predicate IsItem(n: Node) {
    n.name == "HashItem"
  }

  /** get_val on a list of siblings. An item is read by position: its second
      child is the key, its fourth the value. */
  function GetVal(nodes: seq<Node>, key: string): Lookup {
    if nodes == [] then Absent
    else
      var n := nodes[0];
      if IsItem(n) && |n.children| < 3 then Fault
      else if IsItem(n) && Content(n.children[1]) == key then
        if |n.children| > 3 then Found(Content(n.children[3])) else Absent
      else
        var inner := GetVal(n.children, key);
        if inner.Absent? then GetVal(nodes[1..], key) else inner
  }

  /** get_val: searches the strict descendants of a node. */
  method FindVal(node: Node, key: string) returns (r: Lookup)
    ensures r == GetVal(node.children, key)
    decreases node
  {
    var siblings := node.children;
    r := Absent;
    for i := 0 to |siblings|
      invariant r == Absent && GetVal(siblings[i..], key) == GetVal(siblings, key)
    {
      var cur := siblings[i];
      assert siblings[i..][0] == cur && siblings[i..][1..] == siblings[i + 1..];
      if IsItem(cur) {
        if |cur.children| < 3 {
          return Fault;
        }
        if Content(cur.children[1]) == key {
          return if |cur.children| > 3 then Found(Content(cur.children[3])) else Absent;
        }
      }
      r := FindVal(cur, key);
      if !r.Absent? {
        return;
      }
    }
  }

  // ----- null pointers -----

  /** No item of the list itself has the key and no value. */
  predicate AllValued(nodes: seq<Node>, key: string) {
    forall n :: n in nodes && IsItem(n) && |n.children| == 3 ==> Content(n.children[1]) != key
  }

  /** Then the search goes on with what follows exactly if it found nothing so far. */
  lemma {:induction false} GetValConcat(a: seq<Node>, b: seq<Node>, key: string)
    requires AllValued(a, key)
    ensures GetVal(a + b, key) == if GetVal(a, key).Absent? then GetVal(b, key) else GetVal(a, key)
    decreases |a|
  {
    if a == [] {
      assert a + b == b;
    } else {
      assert (a + b)[1..] == a[1..] + b && a[0] in a;
      GetValConcat(a[1..], b, key);
    }
  }

  /** An item of fewer than three children is a null pointer for the search as soon
      as it is reached. */
  lemma ShortItemFaults(a: seq<Node>, n: Node, b: seq<Node>, key: string)
    requires AllValued(a, key) && GetVal(a, key).Absent?
    requires n.name == "HashItem" && |n.children| < 3
    ensures GetVal(a + ([n] + b), key).Fault?
  {
    GetValConcat(a, [n] + b, key);
    assert ([n] + b)[0] == n;
  }

  // ----- what it finds -----

  /** No item below is too short to be read. */
  predicate Readable(nodes: seq<Node>) {
    nodes == [] ||
    ((IsItem(nodes[0]) ==> |nodes[0].children| >= 3) && Readable(nodes[0].children) && Readable(nodes[1..]))
  }

  /** get_val follows no null pointer in a document without such items. */
  lemma {:induction false} ReadableNeverFaults(nodes: seq<Node>, key: string)
    requires Readable(nodes)
    ensures !GetVal(nodes, key).Fault?
    decreases nodes
  {
    if nodes != [] {
      ReadableNeverFaults(nodes[0].children, key);
      ReadableNeverFaults(nodes[1..], key);
    }
  }

  /** An item: its key, and its value unless it is cut short. */
  type item = (string, Option<string>)

  function ItemOf(n: Node): item
    requires IsItem(n) && |n.children| >= 3
  {
    (Content(n.children[1]), if |n.children| > 3 then Some(Content(n.children[3])) else None)
  }

  /** All items below, in document order. */
  function Items(nodes: seq<Node>): seq<item>
    requires Readable(nodes)
  {
    if nodes == [] then []
    else (if IsItem(nodes[0]) then [ItemOf(nodes[0])] else []) + Items(nodes[0].children) + Items(nodes[1..])
  }

  /** The value of the first item with the key; null when there is none or it
      has no value. */
  function First(items: seq<item>, key: string): Lookup {
    if items == [] then Absent
    else if items[0].0 != key then First(items[1..], key)
    else if items[0].1.Some? then Found(items[0].1.value)
    else Absent
  }

  /** The first item with the key is there, but has no value. */
  predicate Hollow(items: seq<item>, key: string) {
    items != [] && if items[0].0 == key then items[0].1.None? else Hollow(items[1..], key)
  }

  predicate IsFirst(items: seq<item>, key: string, k: nat) {
    k < |items| && items[k].0 == key && forall j :: 0 <= j < k ==> items[j].0 != key
  }

  lemma {:induction false} FirstConcat(a: seq<item>, b: seq<item>, key: string)
    ensures First(a + b, key) == if First(a, key).Absent? && !Hollow(a, key) then First(b, key) else First(a, key)
    ensures Hollow(a + b, key) <==> Hollow(a, key) || (First(a, key).Absent? && Hollow(b, key))
  {
    if a == [] {
      assert a + b == b;
    } else {
      assert (a + b)[1..] == a[1..] + b;
      FirstConcat(a[1..], b, key);
    }
  }

  /** First and Hollow are about the least index that holds the key. */
  lemma {:induction false} FirstIsLeast(items: seq<item>, key: string)
    ensures forall k: nat :: IsFirst(items, key, k) ==>
      && (Hollow(items, key) <==> items[k].1.None?)
      && (items[k].1.Some? ==> First(items, key) == Found(items[k].1.value))
    ensures (forall k: nat :: !IsFirst(items, key, k)) ==> First(items, key).Absent? && !Hollow(items, key)
    ensures !First(items, key).Fault? && (Hollow(items, key) ==> First(items, key).Absent?)
  {
    if items != [] && items[0].0 != key {
      var rest := items[1..];
      FirstIsLeast(rest, key);
      forall k: nat ensures IsFirst(items, key, k) <==> k > 0 && IsFirst(rest, key, k - 1) {
        assert forall j :: 0 <= j < |rest| ==> rest[j] == items[j + 1];
        if k > 0 && IsFirst(rest, key, k - 1) {
          forall j | 0 <= j < k ensures items[j].0 != key {
            assert j == 0 || rest[j - 1] == items[j];
          }
        }
      }
      if forall k: nat :: !IsFirst(items, key, k) {
        forall k: nat ensures !IsFirst(rest, key, k) {
          assert !IsFirst(items, key, k + 1);
        }
      }
    } else if items != [] {
      assert IsFirst(items, key, 0);
    }
  }

  /** The search agrees with First unless the first match has no value. */
  lemma {:induction false} GetValAgrees(nodes: seq<Node>, key: string)
    requires Readable(nodes) && !Hollow(Items(nodes), key)
    ensures GetVal(nodes, key) == First(Items(nodes), key)
    decreases nodes
  {
    if nodes != [] {
      var n := nodes[0];
      var own: seq<item> := if IsItem(n) then [ItemOf(n)] else [];
      var inner, rest := Items(n.children), Items(nodes[1..]);
      assert Items(nodes) == own + (inner + rest);
      FirstConcat(own, inner + rest, key);
      FirstConcat(inner, rest, key);
      if !(IsItem(n) && Content(n.children[1]) == key) {
        assert First(own, key).Absent? && !Hollow(own, key);
        GetValAgrees(n.children, key);
        if First(inner, key).Absent? {
          GetValAgrees(nodes[1..], key);
        }
      }
    }
  }

  /** get_val returns the value of the first item in document order whose key
      matches, and null exactly when no item matches; only items of that very
      key need a value. */
  lemma GetValIsFirst(nodes: seq<Node>, key: string)
    requires Readable(nodes)
    requires forall i :: i in Items(nodes) && i.0 == key ==> i.1.Some?
    ensures forall k: nat :: IsFirst(Items(nodes), key, k) ==> GetVal(nodes, key) == Found(Items(nodes)[k].1.value)
    ensures GetVal(nodes, key).Absent? <==> forall k :: 0 <= k < |Items(nodes)| ==> Items(nodes)[k].0 != key
    ensures !GetVal(nodes, key).Fault?
  {
    var items := Items(nodes);
    FirstIsLeast(items, key);
    HasFirst(items, key);
    if k: nat :| IsFirst(items, key, k) {
      assert items[k] in items;
    }
    GetValAgrees(nodes, key);
  }

  /** Where the key occurs it occurs first somewhere. */
  lemma {:induction false} HasFirst(items: seq<item>, key: string)
    ensures (exists k: nat :: IsFirst(items, key, k)) <==> exists k :: 0 <= k < |items| && items[k].0 == key
    decreases |items|
  {
    if k :| 0 <= k < |items| && items[k].0 == key {
      var front := items[..k];
      HasFirst(front, key);
      if j :| 0 <= j < |front| && front[j].0 == key {
        var f: nat :| IsFirst(front, key, f);
        assert forall i :: 0 <= i <= f ==> items[i] == front[i];
        assert IsFirst(items, key, f);
      } else {
        assert forall i :: 0 <= i < k ==> items[i] == front[i];
        assert IsFirst(items, key, k);
      }
    }
  }

  // ----- items without a value -----

  function Leaf(text: string): Node {
    Node(Text, "text", text, [])
  }

  /** An item with key and value, as short as it can be. */
  function GoodItem(key: string, value: string): Node {
    Node(Element, "HashItem", "", [Leaf(""), Leaf(key), Leaf(""), Leaf(value)])
  }

  lemma GoodItemIsFound(key: string, value: string)
    ensures Readable([GoodItem(key, value)]) && Items([GoodItem(key, value)]) == [(key, Some(value))]
    ensures GetVal([GoodItem(key, value)], key) == Found(value)
  {
    var n := GoodItem(key, value);
    assert [n][1..] == [];
    LeavesHoldNothing(n.children);
  }

  lemma {:induction false} LeavesHoldNothing(nodes: seq<Node>)
    requires forall n :: n in nodes ==> !IsItem(n) && n.children == []
    ensures Readable(nodes) && Items(nodes) == []
    decreases |nodes|
  {
    if nodes != [] {
      LeavesHoldNothing(nodes[1..]);
    }
  }

  lemma ReadsNext(n: Node, more: seq<Node>)
    requires Readable([n]) && Readable(more)
    ensures Readable([n] + more) && Items([n] + more) == Items([n]) + Items(more)
  {
    assert ([n] + more)[1..] == more && [n][1..] == [];
    assert Readable([n] + more) == ((IsItem(n) ==> |n.children| >= 3) && Readable(n.children) && Readable(more));
    var own: seq<item> := if IsItem(n) then [ItemOf(n)] else [];
    assert Items([n]) == own + Items(n.children) + [];
    assert Items([n] + more) == own + Items(n.children) + Items(more);
  }

  predicate Matches(n: Node, key: string)
    requires Readable([n])
  {
    IsItem(n) && Content(n.children[1]) == key
  }

  /** Whatever follows node n, the search returns the value of the first match in
      document order. */
  ghost predicate SearchesInOrder(n: Node, key: string)
    requires Readable([n])
  {
    forall more: seq<Node> | Readable(more) && Readable([n] + more) && !Hollow(Items(more), key) ::
      GetVal([n] + more, key) == First(Items([n] + more), key)
  }

  /** A match without a value ends the search of its own list only, so the search
      passes on to what follows the lists around it. Entering a node is safe
      exactly when the first match in it has a value, or is the node itself. */
  lemma SearchesInOrderIff(n: Node, key: string)
    requires Readable([n])
    ensures SearchesInOrder(n, key) <==> !Hollow(Items([n]), key) || Matches(n, key)
  {
    if !Hollow(Items([n]), key) || Matches(n, key) {
      forall more: seq<Node> | Readable(more) && Readable([n] + more) && !Hollow(Items(more), key)
        ensures GetVal([n] + more, key) == First(Items([n] + more), key)
      {
        EntersSafely(n, key, more);
      }
    } else {
      var good := GoodItem(key, "value");
      GoodItemIsFound(key, "value");
      ReadsNext(n, [good]);
      FirstConcat(Items([n]), Items([good]), key);
      FirstIsLeast(Items([n]), key);
      assert ([n] + [good])[1..] == [good];
      ReadableNeverFaults(n.children, key);
      assert GetVal([n] + [good], key).Found?;
      assert !Hollow(Items([good]), key);
    }
  }

  lemma EntersSafely(n: Node, key: string, more: seq<Node>)
    requires Readable([n]) && Readable(more) && !Hollow(Items(more), key)
    requires !Hollow(Items([n]), key) || Matches(n, key)
    ensures Readable([n] + more) && GetVal([n] + more, key) == First(Items([n] + more), key)
  {
    ReadsNext(n, more);
    FirstConcat(Items([n]), Items(more), key);
    if Hollow(Items([n]), key) {
      assert Items([n])[0] == ItemOf(n);
      FirstIsLeast(Items([n]), key);
    } else {
      GetValAgrees([n] + more, key);
    }
  }

  /** A HashType whose only item has the key and no value. */
  function HollowType(key: string): Node {
    Node(Element, "HashType", "", [Node(Element, "HashItem", "", [Leaf(""), Leaf(key), Leaf("")])])
  }

  /** Behind it, a later match with a value is found instead. */
  lemma HollowTypeIsPassed(key: string)
    ensures Readable([HollowType(key)]) && !SearchesInOrder(HollowType(key), key)
  {
    var n := HollowType(key);
    var i := n.children[0];
    LeavesHoldNothing(i.children);
    assert [i][1..] == [] && [n][1..] == [];
    assert Items([i]) == [(key, None)];
    assert Items([n]) == Items([i]);
    SearchesInOrderIff(n, key);
  }
}
