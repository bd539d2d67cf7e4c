/** Collecting the fuse definitions of the XML document: a recursive walk that
    stops at the first logical offset that goes back. */
module FuseScan {
  import opened Common
  import opened Xml

  // ----- atoi -----

  predicate IsSpace(c: char) {
    c == ' ' || 9 <= c as int <= 13
  }

  function Digits(s: string, acc: nat): nat
    decreases |s|
  {
    if s != [] && '0' <= s[0] <= '9' then Digits(s[1..], 10 * acc + (s[0] as int - '0' as int)) else acc
  }

  function Atoi(s: string): int {
    if s == [] then 0
    else if IsSpace(s[0]) then Atoi(s[1..])
    else if s[0] == '-' then -(Digits(s[1..], 0) as int)
    else if s[0] == '+' then Digits(s[1..], 0)
    else Digits(s, 0)
  }

  /** The decimal digits of a number. */
  function Decimal(n: nat): string {
    (if n < 10 then "" else Decimal(n / 10)) + ['0' + (n % 10) as char]
  }

  function TenTo(k: nat): (p: nat)
    ensures p > 0
  {
    if k == 0 then 1 else 10 * TenTo(k - 1)
  }

  predicate AllDigits(s: string) {
    forall i :: 0 <= i < |s| ==> '0' <= s[i] <= '9'
  }

  /** The number a digit string denotes, digit i weighing 10^(|s| - 1 - i). */
  function NumberOf(s: string): nat
    requires AllDigits(s)
  {
    if s == [] then 0 else (s[0] as int - '0' as int) * TenTo(|s| - 1) + NumberOf(s[1..])
  }

  /** The digits of a number stop in front of anything else. */
  predicate EndsNumber(tail: string) {
    tail == [] || !('0' <= tail[0] <= '9')
  }

  lemma ShiftDigit(acc: int, d: int, p: int)
    ensures (10 * acc + d) * p == acc * (10 * p) + d * p
  {
  }

  lemma {:induction false} DigitsAreNumber(s: string, tail: string, acc: nat)
    requires AllDigits(s) && EndsNumber(tail)
    ensures Digits(s + tail, acc) == acc * TenTo(|s|) + NumberOf(s)
    decreases |s|
  {
    if s == [] {
      assert s + tail == tail;
    } else {
      var d := s[0] as int - '0' as int;
      assert (s + tail)[1..] == s[1..] + tail;
      DigitsAreNumber(s[1..], tail, 10 * acc + d);
      ShiftDigit(acc, d, TenTo(|s| - 1));
    }
  }

  lemma {:induction false} NumberAppends(s: string, c: char)
    requires AllDigits(s) && '0' <= c <= '9'
    ensures NumberOf(s + [c]) == 10 * NumberOf(s) + (c as int - '0' as int)
    decreases |s|
  {
    if s == [] {
      assert s + [c] == [c] && [c][1..] == [];
    } else {
      var d := s[0] as int - '0' as int;
      assert (s + [c])[1..] == s[1..] + [c];
      NumberAppends(s[1..], c);
      assert d * (10 * TenTo(|s| - 1)) == 10 * (d * TenTo(|s| - 1));
    }
  }

  /** The decimal digits of n denote n. */
  lemma {:induction false} DecimalIsNumber(n: nat)
    ensures AllDigits(Decimal(n)) && Decimal(n) != [] && NumberOf(Decimal(n)) == n
  {
    var c := '0' + (n % 10) as char;
    if n >= 10 {
      DecimalIsNumber(n / 10);
      NumberAppends(Decimal(n / 10), c);
    } else {
      assert Decimal(n) == [c];
      NumberAppends([], c);
      assert [] + [c] == [c];
    }
  }

  /** White space: blanks, tabs, line ends, and the two other form controls. */
  predicate Blank(s: string) {
    forall i :: 0 <= i < |s| ==> s[i] == ' ' || s[i] == '\t' || s[i] == '\n' || 11 <= s[i] as int <= 13
  }

  /** Nothing in front of the number is left out. */
  predicate StartsNumber(sign: string, digits: string, tail: string) {
    && (sign == "" || sign == "+" || sign == "-")
    && (sign == "" && digits == "" && tail != "" ==> !IsSpace(tail[0]) && tail[0] != '-' && tail[0] != '+')
  }

  /** atoi, for every way a string can read: white space, at most one sign, any
      number of digits, and anything behind them. */
  lemma {:induction false} AtoiReads(spaces: string, sign: string, digits: string, tail: string)
    requires Blank(spaces)
    requires AllDigits(digits) && EndsNumber(tail) && StartsNumber(sign, digits, tail)
    ensures Atoi(spaces + (sign + (digits + tail)))
         == if sign == "-" then -(NumberOf(digits) as int) else NumberOf(digits)
    decreases |spaces|
  {
    var rest := digits + tail;
    var number := sign + rest;
    if spaces != [] {
      assert (spaces + number)[1..] == spaces[1..] + number;
      AtoiReads(spaces[1..], sign, digits, tail);
    } else {
      assert spaces + number == number;
      DigitsAreNumber(digits, tail, 0);
      if sign != "" {
        assert number[0] == sign[0] && number[1..] == rest;
      } else {
        assert number == rest;
        assert digits != [] ==> rest[0] == digits[0];
      }
    }
  }

  /** atoi reads a decimal number back, with either sign, behind white space,
      and up to the first character that is not a digit. */
  lemma AtoiReadsDecimal(spaces: string, n: nat, tail: string)
    requires Blank(spaces)
    requires EndsNumber(tail)
    ensures Atoi(spaces + (Decimal(n) + tail)) == n
    ensures Atoi(spaces + ("+" + (Decimal(n) + tail))) == n
    ensures Atoi(spaces + ("-" + (Decimal(n) + tail))) == -(n as int)
  {
    DecimalIsNumber(n);
    AtoiReads(spaces, "", Decimal(n), tail);
    AtoiReads(spaces, "+", Decimal(n), tail);
    AtoiReads(spaces, "-", Decimal(n), tail);
    assert "" + (Decimal(n) + tail) == Decimal(n) + tail;
  }

  // ----- one definition -----

  datatype Status = Running | Done | Aborted

  /** The globals and the two maps of the scan. */
  datatype Scan = Scan(last: int, index: nat, ids: map<string, nat>, bits: map<string, word>, status: Status)

  /** map::insert keeps an entry that is already there. */
  function Insert<V>(m: map<string, V>, k: string, v: V): map<string, V> {
    if k in m then m else m[k := v]
  }

  /** get_fuse on the node a definition site points at. Null pointers abort. */
  function TakeFuse(s: Scan, node: Node): Scan {
    if node.name != "HashType" then s
    else
      var name := GetVal(node.children, "RegName");
      var width := GetVal(node.children, "Width");
      var offset := GetVal(node.children, "FuseLogicalOffset");
      if name.Fault? || width.Fault? || !offset.Found? then s.(status := Aborted)
      else if Atoi(offset.value) < s.last then s.(status := Done)
      else if !name.Found? || !width.Found? then s.(status := Aborted)
      else s.(last := Atoi(offset.value), index := s.index + 1,
              ids := Insert(s.ids, name.value, s.index),
              bits := Insert(s.bits, name.value, Atoi(width.value) % WORD))
  }

  // ----- the walk as a fold over the document in order -----

  /** A node with its ancestors, nearest first. */
  type visit = (Node, seq<Node>)

  /** All nodes of a sibling list and below, in document order. */
  function Preorder(nodes: seq<Node>, ancestors: seq<Node>): seq<visit> {
    if nodes == [] then []
    else [(nodes[0], ancestors)] + Preorder(nodes[0].children, [nodes[0]] + ancestors)
         + Preorder(nodes[1..], ancestors)
  }

  predicate IsSite(n: Node) {
    n.kind.Text? && Content(n) == "FuseLogicalOffset"
  }

  /** One visited node: a definition site is looked up three levels up. */
  function Visit(s: Scan, v: visit): Scan {
    if !s.status.Running? || !IsSite(v.0) then s
    else if |v.1| < 3 then s.(status := Aborted)
    else TakeFuse(s, v.1[2])
  }

  function Fold(s: Scan, vs: seq<visit>): Scan
    decreases |vs|
  {
    if vs == [] then s else Fold(Visit(s, vs[0]), vs[1..])
  }

  lemma {:induction false} FoldConcat(s: Scan, a: seq<visit>, b: seq<visit>)
    ensures Fold(s, a + b) == Fold(Fold(s, a), b)
    decreases |a|
  {
    if a == [] {
      assert a + b == b;
    } else {
      assert (a + b)[1..] == a[1..] + b;
      FoldConcat(Visit(s, a[0]), a[1..], b);
    }
  }

  lemma {:induction false} FoldStopped(s: Scan, vs: seq<visit>)
    requires !s.status.Running?
    ensures Fold(s, vs) == s
    decreases |vs|
  {
    if vs != [] {
      FoldStopped(s, vs[1..]);
    }
  }

  lemma FoldPreorder(s: Scan, nodes: seq<Node>, ancestors: seq<Node>)
    requires nodes != []
    ensures var s1 := Visit(s, (nodes[0], ancestors));
      var s2 := Fold(s1, Preorder(nodes[0].children, [nodes[0]] + ancestors));
      Fold(s, Preorder(nodes, ancestors)) == Fold(s2, Preorder(nodes[1..], ancestors))
  {
    var head: visit := (nodes[0], ancestors);
    var inner := Preorder(nodes[0].children, [nodes[0]] + ancestors);
    var rest := Preorder(nodes[1..], ancestors);
    assert Preorder(nodes, ancestors) == [head] + (inner + rest);
    FoldConcat(s, [head], inner + rest);
    assert [head][1..] == [];
    assert Fold(s, [head]) == Visit(s, head);
    FoldConcat(Visit(s, head), inner, rest);
  }

  /** The scanner: the program's globals and the maps it fills. */
  class Scanner {
    var lastLogicalOffset: int
    var fuseIndex: nat
    var ids: map<string, nat>
    var bits: map<string, word>
    var aborted: bool

    constructor ()
      ensures State(false) == Start()
    {
      lastLogicalOffset, fuseIndex, ids, bits, aborted := -1, 0, map[], map[], false;
    }

    /** The scanner as a value, once the walk has reported `done`. */
    ghost function State(done: bool): Scan
      reads this
    {
      Scan(lastLogicalOffset, fuseIndex, ids, bits, if aborted then Aborted else if done then Done else Running)
    }

    method GetFuse(node: Node) returns (result: bool)
      requires !aborted
      modifies this
      ensures State(result) == TakeFuse(old(State(false)), node)
    {
      result := false;
      if node.name != "HashType" {
        return;
      }
      var regName := FindVal(node, "RegName");
      var width := FindVal(node, "Width");
      var offset := FindVal(node, "FuseLogicalOffset");
      if regName.Fault? || width.Fault? || !offset.Found? {
        aborted := true;
        return;
      }
      var fuseLogicalOffset := Atoi(offset.value);
      if fuseLogicalOffset >= lastLogicalOffset {
        if !regName.Found? || !width.Found? {
          aborted := true;
          return;
        }
        lastLogicalOffset := fuseLogicalOffset;
        ids := Insert(ids, regName.value, fuseIndex);
        fuseIndex := fuseIndex + 1;
        bits := Insert(bits, regName.value, Atoi(width.value) % WORD);
      } else {
        result := true;
      }
    }

    /** find_fuses from the first of a list of siblings on. */
    method FindFuses(nodes: seq<Node>, ancestors: seq<Node>) returns (done: bool)
      requires !aborted
      modifies this
      ensures State(done) == Fold(old(State(false)), Preorder(nodes, ancestors))
      decreases nodes
    {
      done := false;
      var i := 0;
      ghost var total := Fold(State(false), Preorder(nodes, ancestors));
      while i < |nodes| && !done && !aborted
        invariant 0 <= i <= |nodes|
        invariant Fold(State(done), Preorder(nodes[i..], ancestors)) == total
        decreases |nodes| - i
      {
        var cur := nodes[i];
        assert nodes[i..][0] == cur && nodes[i..][1..] == nodes[i + 1..];
        FoldPreorder(State(false), nodes[i..], ancestors);
        if cur.kind.Text? && Content(cur) == "FuseLogicalOffset" {
          if |ancestors| < 3 {
            aborted := true;
          } else {
            done := GetFuse(ancestors[2]);
          }
        }
        ghost var inner := Preorder(cur.children, [cur] + ancestors);
        if !done && !aborted {
          if cur.children != [] {
            done := FindFuses(cur.children, [cur] + ancestors);
          }
        } else {
          FoldStopped(State(done), inner);
        }
        i := i + 1;
      }
      if i < |nodes| {
        FoldStopped(State(done), Preorder(nodes[i..], ancestors));
      } else {
        assert nodes[i..] == [];
      }
    }
  }

  function Start(): Scan {
    Scan(-1, 0, map[], map[], Running)
  }
}
